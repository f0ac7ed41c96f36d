/** Fixed-width integers as bytes, in both byte orders, and left padding to 32 bytes. */
module ByteCodec {
  import opened Arithmetic
  import opened Words

  function Pow256(n: nat): (p: nat)
    ensures p > 0
  {
    if n == 0 then 1 else 256 * Pow256(n - 1)
  }

  /** `int.to_bytes(width, "big")` of a value that fits. */
  function ToBe(n: nat, width: nat): (s: Bytes)
    ensures |s| == width
  {
    if width == 0 then [] else ToBe(n / 256, width - 1) + [n % 256]
  }

  /** `int.from_bytes(s, "big")`. */
  function BeValue(s: Bytes): nat
  {
    if s == [] then 0 else BeValue(s[..|s| - 1]) * 256 + s[|s| - 1]
  }

  function ToLe(n: nat, width: nat): (s: Bytes)
    ensures |s| == width
  {
    if width == 0 then [] else [n % 256] + ToLe(n / 256, width - 1)
  }

  function LeValue(s: Bytes): nat
  {
    if s == [] then 0 else s[0] + 256 * LeValue(s[1..])
  }

  lemma {:induction false} BeValueBound(s: Bytes)
    ensures BeValue(s) < Pow256(|s|)
  {
    if s != [] {
      BeValueBound(s[..|s| - 1]);
    }
  }

  /** Big-endian bytes are determined by their value, and every value that fits has them. */
  lemma {:induction false} BeRoundTrip(n: nat, width: nat)
    requires n < Pow256(width)
    ensures BeValue(ToBe(n, width)) == n
  {
    if width > 0 {
      BeRoundTrip(n / 256, width - 1);
      assert ToBe(n, width)[..width - 1] == ToBe(n / 256, width - 1);
    }
  }

  lemma {:induction false} BeIsExact(s: Bytes)
    ensures ToBe(BeValue(s), |s|) == s
  {
    if s != [] {
      BeIsExact(s[..|s| - 1]);
      assert s == s[..|s| - 1] + [s[|s| - 1]];
    }
  }

  lemma {:induction false} LeRoundTrip(n: nat, width: nat)
    requires n < Pow256(width)
    ensures LeValue(ToLe(n, width)) == n
  {
    if width > 0 {
      LeRoundTrip(n / 256, width - 1);
      assert ToLe(n, width)[1..] == ToLe(n / 256, width - 1);
    }
  }

  lemma {:induction false} LeIsExact(s: Bytes)
    ensures ToLe(LeValue(s), |s|) == s && LeValue(s) < Pow256(|s|)
  {
    if s != [] {
      LeIsExact(s[1..]);
      assert s == [s[0]] + s[1..];
    }
  }

  // ------------------------------------------------------------------ padding

  function Zeros(n: nat): (s: Bytes)
    ensures |s| == n
  {
    if n == 0 then [] else Zeros(n - 1) + [0]
  }

  /** `raw.rjust(width, b"\x00")[-width:]`. */
  function PadTo(raw: Bytes, width: nat): (s: Bytes)
    ensures |s| == width
  {
    var wide := if |raw| < width then Zeros(width - |raw|) + raw else raw;
    wide[|wide| - width..]
  }

  function Pad32(raw: Bytes): Bytes32
  {
    PadTo(raw, 32)
  }

  lemma {:induction false} ZerosAreZero(n: nat)
    ensures BeValue(Zeros(n)) == 0
  {
    if n > 0 {
      ZerosAreZero(n - 1);
      assert Zeros(n)[..n - 1] == Zeros(n - 1);
    }
  }

  lemma {:induction false} BeConcat(a: Bytes, b: Bytes)
    ensures BeValue(a + b) == BeValue(a) * Pow256(|b|) + BeValue(b)
  {
    if b == [] {
      assert a + b == a;
    } else {
      var last := |b| - 1;
      BeConcat(a, b[..last]);
      assert (a + b)[..|a + b| - 1] == a + b[..last];
      assert BeValue(a) * (256 * Pow256(last)) == BeValue(a) * Pow256(last) * 256;
    }
  }

  /** Padding and cutting to a width keeps the big-endian value modulo 256^width. */
  lemma PadKeepsValue(raw: Bytes, width: nat)
    ensures BeValue(PadTo(raw, width)) == BeValue(raw) % Pow256(width)
  {
    var padded := PadTo(raw, width);
    BeValueBound(padded);
    if |raw| < width {
      ZerosAreZero(width - |raw|);
      BeConcat(Zeros(width - |raw|), raw);
      assert padded == Zeros(width - |raw|) + raw;
      DivisionIsUnique(BeValue(raw), Pow256(width), 0, BeValue(raw));
    } else {
      var high := raw[..|raw| - width];
      assert raw == high + padded;
      BeConcat(high, padded);
      DivisionIsUnique(BeValue(raw), Pow256(width), BeValue(high), BeValue(padded));
    }
  }

  lemma {:induction false} Pow256Add(m: nat, n: nat)
    ensures Pow256(m + n) == Pow256(m) * Pow256(n)
  {
    if n > 0 {
      Pow256Add(m, n - 1);
      assert Pow256(m + n) == 256 * Pow256(m + (n - 1));
      assert 256 * (Pow256(m) * Pow256(n - 1)) == Pow256(m) * (256 * Pow256(n - 1));
    }
  }

  lemma WordSizes()
    ensures Pow256(4) == 0x1_0000_0000
    ensures Pow256(8) == U64_LIMIT
    ensures Pow256(32) == U64_LIMIT * U64_LIMIT * U64_LIMIT * U64_LIMIT
  {
    assert Pow256(2) == 0x1_0000;
    Pow256Add(2, 2);
    Pow256Add(4, 4);
    Pow256Add(8, 8);
    Pow256Add(16, 16);
  }

  // -------------------------------------------------------------- byte order

  /** The most significant byte comes first. */
  lemma BigEndFirst(high: byte, s: Bytes)
    ensures BeValue([high] + s) == high * Pow256(|s|) + BeValue(s)
  {
    BeConcat([high], s);
    OneByte(high);
  }

  lemma OneByte(b: byte)
    ensures BeValue([b]) == b
  {
    assert [b][..0] == [];
  }

  /** The least significant byte comes first, so the two orders are each other's reverse. */
  lemma {:induction false} LittleIsReversedBig(s: Bytes)
    ensures LeValue(s) == BeValue(Reversed(s))
  {
    if s != [] {
      LittleIsReversedBig(s[1..]);
      assert Reversed(s)[..|s| - 1] == Reversed(s[1..]);
    }
  }

  function Reversed(s: Bytes): (r: Bytes)
    ensures |r| == |s| && forall i :: 0 <= i < |s| ==> r[i] == s[|s| - 1 - i]
  {
    if s == [] then [] else Reversed(s[1..]) + [s[0]]
  }
}
