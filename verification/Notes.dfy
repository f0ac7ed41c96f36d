/** zk_client.js: the private note printer and parser. */
module Notes {
  import opened Words

  datatype Note = Note(token: string, amount: string, nullifier: string, secret: string)

  const NOTE_PREFIX: string := "bagsvault-v1-"

  // --------------------------------------------------------------- characters

  predicate IsHexDigit(c: char)
  {
    '0' <= c <= '9' || 'a' <= c <= 'f' || 'A' <= c <= 'F'
  }

  /** The pattern of one or more hex digits and nothing else. */
  predicate IsHex(s: string)
  {
    s != "" && forall i :: 0 <= i < |s| ==> IsHexDigit(s[i])
  }

  /** What `trim` removes: the white space and line terminators of ECMAScript. */
  predicate IsSpace(c: char)
  {
    c in {'\t', '\n', '\U{000B}', '\U{000C}', '\r', ' ', '\U{00A0}', '\U{1680}',
          '\U{2028}', '\U{2029}', '\U{202F}', '\U{205F}', '\U{3000}', '\U{FEFF}'}
    || '\U{2000}' <= c <= '\U{200A}'
  }

  /** The upper- and lower-case mappings of the runtime; they may change a text's length. */
  datatype Casing = Casing(upper: string -> string, lower: string -> string)
  {
    /** What every such pair of mappings does with no text at all, and with the default token. */
    ghost predicate IsSane()
    {
      && (forall s :: upper(s) == "" <==> s == "")
      && lower("SOL") == "sol" && upper("sol") == "SOL"
    }
  }

  function Trim(s: string): (t: string)
    ensures t != "" ==> !IsSpace(t[0]) && !IsSpace(t[|t| - 1])
    ensures s == "" || (!IsSpace(s[0]) && !IsSpace(s[|s| - 1])) ==> t == s
  {
    if s == "" then ""
    else if IsSpace(s[0]) then Trim(s[1..])
    else if IsSpace(s[|s| - 1]) then Trim(s[..|s| - 1])
    else s
  }

  // ----------------------------------------------------------- split and join

  function Split(s: string): (parts: seq<string>)
    ensures |parts| > 0
  {
    if s == "" then [""] else Attach(s[0], Split(s[1..]))
  }

  /** A hyphen opens a new piece, any other character goes to the front of the first one. */
  function Attach(c: char, parts: seq<string>): (r: seq<string>)
    requires |parts| > 0
    ensures |r| > 0
  {
    if c == '-' then [""] + parts else [[c] + parts[0]] + parts[1..]
  }

  lemma AttachToConcat(c: char, xs: seq<string>, ys: seq<string>)
    requires |xs| > 0
    ensures Attach(c, xs + ys) == Attach(c, xs) + ys
  {
  }

  function Join(parts: seq<string>): string
    requires |parts| > 0
  {
    if |parts| == 1 then parts[0] else parts[0] + "-" + Join(parts[1..])
  }

  predicate HyphenFree(s: string)
  {
    '-' !in s
  }

  lemma {:induction false} JoinOfSplit(s: string)
    ensures Join(Split(s)) == s
  {
    if s != "" {
      JoinOfSplit(s[1..]);
      var rest := Split(s[1..]);
      assert s == [s[0]] + s[1..];
      if s[0] == '-' {
        assert Split(s)[1..] == rest;
      } else {
        JoinOfAttached(s[0], rest);
      }
    }
  }

  lemma JoinOfAttached(c: char, rest: seq<string>)
    requires |rest| > 0 && c != '-'
    ensures Join(Attach(c, rest)) == [c] + Join(rest)
  {
    if |rest| > 1 {
      assert Attach(c, rest)[1..] == rest[1..];
      JoinedInFront([c], rest[0], Join(rest[1..]));
    }
  }

  lemma JoinedInFront(a: string, b: string, c: string)
    ensures (a + b) + "-" + c == a + (b + "-" + c)
  {
  }

  lemma {:induction false} PiecesAreHyphenFree(s: string)
    ensures forall i :: 0 <= i < |Split(s)| ==> HyphenFree(Split(s)[i])
  {
    if s != "" {
      PiecesAreHyphenFree(s[1..]);
    }
  }

  lemma {:induction false} SplitOfPiece(s: string)
    requires HyphenFree(s)
    ensures Split(s) == [s]
  {
    if s != "" {
      SplitOfPiece(s[1..]);
      assert s == [s[0]] + s[1..];
      assert s[0] in s;
    }
  }

  lemma {:induction false} SplitAtHyphen(a: string, b: string)
    ensures Split(a + "-" + b) == Split(a) + Split(b)
  {
    if a == "" {
      assert (a + "-" + b)[1..] == b;
    } else {
      SplitAtHyphen(a[1..], b);
      assert (a + "-" + b)[1..] == a[1..] + "-" + b;
      AttachToConcat(a[0], Split(a[1..]), Split(b));
    }
  }

  lemma {:induction false} JoinOfConcat(parts: seq<string>, more: seq<string>)
    requires |parts| > 0 && |more| > 0
    ensures Join(parts + more) == Join(parts) + "-" + Join(more)
  {
    if |parts| == 1 {
      assert (parts + more)[1..] == more;
    } else {
      JoinOfConcat(parts[1..], more);
      assert (parts + more)[1..] == parts[1..] + more;
      assert parts[0] + "-" + (Join(parts[1..]) + "-" + Join(more))
          == (parts[0] + "-" + Join(parts[1..])) + "-" + Join(more);
    }
  }

  // ----------------------------------------------------------------- the code

  function Body(token: string, amount: string, nullifier: string, secret: string): string
  {
    token + "-" + amount + "-" + nullifier + "-" + secret
  }

  function PrintedToken(casing: Casing, token: string): string
  {
    casing.lower(if token == "" then "SOL" else token)
  }

  function BuildNote(casing: Casing, n: Note): string
  {
    NOTE_PREFIX + Body(PrintedToken(casing, n.token), n.amount, n.nullifier, n.secret)
  }

  /** The trimmed text is the prefix, a token, possibly with hyphens, and three fields, the last two of them hex. */
  ghost predicate HasShape(raw: string, token: string, amount: string, nullifier: string, secret: string)
  {
    && Trim(raw) == NOTE_PREFIX + Body(token, amount, nullifier, secret)
    && HyphenFree(amount) && IsHex(nullifier) && IsHex(secret)
  }

  /** What is left of a split body once the last three pieces are gone, joined back. */
  function TokenPart(raw: string): string
  {
    var stripped := Trim(raw);
    if !(NOTE_PREFIX <= stripped) then ""
    else
      var parts := Split(stripped[|NOTE_PREFIX|..]);
      if |parts| < 4 then "" else Join(parts[..|parts| - 3])
  }

  function Parsed(casing: Casing, raw: string): Option<Note>
  {
    var stripped := Trim(raw);
    if !(NOTE_PREFIX <= stripped) then None
    else
      var parts := Split(stripped[|NOTE_PREFIX|..]);
      var k := |parts| - 3;
      if k < 1 || !IsHex(parts[k + 1]) || !IsHex(parts[k + 2]) then None
      else Some(Note(casing.upper(TokenPart(raw)), parts[k], parts[k + 1], parts[k + 2]))
  }

  method Pop(parts: seq<string>) returns (rest: seq<string>, last: string)
    requires parts != []
    ensures parts == rest + [last]
  {
    rest, last := parts[..|parts| - 1], parts[|parts| - 1];
  }

  /** Pops secret, nullifier and amount off the split body; the rest joins back to the token. */
  method ParseNote(casing: Casing, raw: string) returns (r: Option<Note>)
    ensures r == Parsed(casing, raw)
  {
    var stripped := Trim(raw);
    if !(NOTE_PREFIX <= stripped) {
      return None;
    }
    var body := stripped[|NOTE_PREFIX|..];
    var parts := Split(body);
    if |parts| < 4 {
      return None;
    }
    var secret, nullifier, amount;
    parts, secret := Pop(parts);
    parts, nullifier := Pop(parts);
    parts, amount := Pop(parts);
    assert parts == Split(body)[..|Split(body)| - 3];
    var token := casing.upper(Join(parts));
    if !IsHex(nullifier) || !IsHex(secret) {
      return None;
    }
    return Some(Note(token, amount, nullifier, secret));
  }

  /** An accepted text has the shape of a note with the parsed fields. */
  lemma ParsedHasShape(casing: Casing, raw: string)
    requires Parsed(casing, raw).Some?
    ensures var n := Parsed(casing, raw).value;
      && n.token == casing.upper(TokenPart(raw))
      && HasShape(raw, TokenPart(raw), n.amount, n.nullifier, n.secret)
  {
    var n := Parsed(casing, raw).value;
    var body := Trim(raw)[|NOTE_PREFIX|..];
    CutPrefix(NOTE_PREFIX, Trim(raw));
    CutLastThree(Split(body));
    SplitShapes(body, Split(body)[..|Split(body)| - 3], n.amount, n.nullifier, n.secret);
  }

  lemma CutPrefix(prefix: string, s: string)
    requires prefix <= s
    ensures s == prefix + s[|prefix|..]
  {
  }

  lemma CutLastThree(parts: seq<string>)
    requires |parts| >= 3
    ensures var k := |parts| - 3; parts == parts[..k] + [parts[k], parts[k + 1], parts[k + 2]]
  {
  }

  /** A text of that shape is accepted, with exactly those fields. */
  lemma ShapeIsParsed(casing: Casing, raw: string, t: string, a: string, n: string, s: string)
    requires HasShape(raw, t, a, n, s)
    ensures Parsed(casing, raw) == Some(Note(casing.upper(t), a, n, s)) && TokenPart(raw) == t
  {
    ShapeSplits(raw, t, a, n, s);
    JoinOfSplit(t);
    var parts := Split(Trim(raw)[|NOTE_PREFIX|..]);
    assert parts[..|parts| - 3] == Split(t);
  }

  lemma HexIsHyphenFree(s: string)
    requires IsHex(s)
    ensures HyphenFree(s) && !IsSpace(s[|s| - 1])
  {
  }

  /** A text of that shape splits into the token's pieces and the three fields. */
  lemma ShapeSplits(raw: string, token: string, amount: string, nullifier: string, secret: string)
    requires HasShape(raw, token, amount, nullifier, secret)
    ensures NOTE_PREFIX <= Trim(raw)
    ensures Split(Trim(raw)[|NOTE_PREFIX|..]) == Split(token) + [amount, nullifier, secret]
  {
    assert Trim(raw)[|NOTE_PREFIX|..] == Body(token, amount, nullifier, secret);
    HexIsHyphenFree(nullifier);
    HexIsHyphenFree(secret);
    SplitAtHyphen(token + "-" + amount + "-" + nullifier, secret);
    SplitAtHyphen(token + "-" + amount, nullifier);
    SplitAtHyphen(token, amount);
    SplitOfPiece(amount);
    SplitOfPiece(nullifier);
    SplitOfPiece(secret);
  }

  lemma SplitShapes(body: string, parts: seq<string>, amount: string, nullifier: string, secret: string)
    requires |parts| > 0 && Split(body) == parts + [amount, nullifier, secret]
    ensures body == Body(Join(parts), amount, nullifier, secret) && HyphenFree(amount)
  {
    JoinOfSplit(body);
    PiecesAreHyphenFree(body);
    assert Split(body)[|parts|] == amount;
    JoinOfConcat(parts, [amount, nullifier, secret]);
    JoinOfConcat([amount], [nullifier, secret]);
    JoinOfConcat([nullifier], [secret]);
    assert [amount] + [nullifier, secret] == [amount, nullifier, secret];
    assert [nullifier] + [secret] == [nullifier, secret];
    Reassociate(Join(parts), amount, nullifier, secret);
  }

  lemma Reassociate(token: string, amount: string, nullifier: string, secret: string)
    ensures token + "-" + (amount + "-" + (nullifier + "-" + secret)) == Body(token, amount, nullifier, secret)
  {
  }

  // -------------------------------------------------------------- round trips

  /** A token that survives being printed in lower case and read back in upper case. */
  predicate KeepsToken(casing: Casing, token: string)
  {
    token != "" && casing.upper(casing.lower(token)) == token
  }

  /** A printed token that survives being read in upper case and printed again. */
  predicate KeepsText(casing: Casing, text: string)
  {
    text != "" && casing.lower(casing.upper(text)) == text
  }

  lemma BuiltIsTrimmed(casing: Casing, x: Note)
    requires IsHex(x.secret)
    ensures Trim(BuildNote(casing, x)) == BuildNote(casing, x)
  {
  }

  /** Parsing what was built gives the note back exactly when the text form can carry its fields. */
  lemma ParseOfBuild(casing: Casing, x: Note)
    requires casing.IsSane()
    ensures Parsed(casing, BuildNote(casing, x)) == Some(x) <==>
      KeepsToken(casing, x.token) && HyphenFree(x.amount) && IsHex(x.nullifier) && IsHex(x.secret)
  {
    var built := BuildNote(casing, x);
    if Parsed(casing, built) == Some(x) {
      ParsedHasShape(casing, built);
    }
    if HyphenFree(x.amount) && IsHex(x.nullifier) && IsHex(x.secret) {
      BuiltIsTrimmed(casing, x);
      ShapeIsParsed(casing, built, PrintedToken(casing, x.token), x.amount, x.nullifier, x.secret);
    }
  }

  /** Building what was parsed gives the trimmed text back exactly when its token is kept. */
  lemma BuildOfParse(casing: Casing, raw: string)
    requires casing.IsSane() && Parsed(casing, raw).Some?
    ensures BuildNote(casing, Parsed(casing, raw).value) == Trim(raw) <==> KeepsText(casing, TokenPart(raw))
  {
    var n := Parsed(casing, raw).value;
    ParsedHasShape(casing, raw);
    SameTokenSameText(PrintedToken(casing, n.token), TokenPart(raw), n.amount, n.nullifier, n.secret);
  }

  /** Without letters outside ASCII, the tokens kept are those in upper case, and the texts those in lower case. */
  lemma AsciiKeeps(t: string)
    ensures KeepsToken(Casing(Upper, Lower), t) <==> t != "" && Upper(t) == t
    ensures KeepsText(Casing(Upper, Lower), t) <==> t != "" && Lower(t) == t
  {
    UpperLower(t);
  }

  lemma AsciiIsSane()
    ensures Casing(Upper, Lower).IsSane()
  {
    assert forall s :: |Upper(s)| == |s|;
  }

  lemma {:induction false} UpperLower(t: string)
    ensures Upper(Lower(t)) == Upper(t)
    ensures Lower(Upper(t)) == Lower(t)
  {
    if t != "" {
      UpperLower(t[1..]);
      assert Lower(t)[1..] == Lower(t[1..]) && Upper(t)[1..] == Upper(t[1..]);
      assert UpperChar(LowerChar(t[0])) == UpperChar(t[0]) && LowerChar(UpperChar(t[0])) == LowerChar(t[0]);
    }
  }

  /** A mapping that turns one letter into two loses the lower-case letter, whatever else the note holds. */
  lemma SharpSIsLost(casing: Casing, x: Note)
    requires casing.IsSane() && casing.lower("\U{00DF}") == "\U{00DF}" && casing.upper("\U{00DF}") == "SS"
    requires x.token == "\U{00DF}"
    ensures Parsed(casing, BuildNote(casing, x)) != Some(x)
  {
    ParseOfBuild(casing, x);
  }

  lemma SameTokenSameText(x: string, y: string, amount: string, nullifier: string, secret: string)
    ensures NOTE_PREFIX + Body(x, amount, nullifier, secret) == NOTE_PREFIX + Body(y, amount, nullifier, secret)
      <==> x == y
  {
    var p, q := NOTE_PREFIX + Body(x, amount, nullifier, secret), NOTE_PREFIX + Body(y, amount, nullifier, secret);
    var n := |NOTE_PREFIX|;
    assert p[n..n + |x|] == x && q[n..n + |y|] == y;
    assert |p| - |x| == |q| - |y|;
  }

  // ---------------------------------------------------------------- plain facts

  predicate AllSpace(s: string)
  {
    forall i :: 0 <= i < |s| ==> IsSpace(s[i])
  }

  lemma {:induction false} TrimFront(before: string, rest: string)
    requires AllSpace(before)
    ensures Trim(before + rest) == Trim(rest)
  {
    if before == "" {
      assert before + rest == rest;
    } else {
      TrimFront(before[1..], rest);
      assert (before + rest)[1..] == before[1..] + rest;
    }
  }

  lemma {:induction false} TrimBack(inside: string, after: string)
    requires AllSpace(after) && inside != "" && !IsSpace(inside[0]) && !IsSpace(inside[|inside| - 1])
    ensures Trim(inside + after) == inside
  {
    if after == "" {
      assert inside + after == inside;
    } else {
      TrimBack(inside, after[..|after| - 1]);
      assert (inside + after)[..|inside + after| - 1] == inside + after[..|after| - 1];
    }
  }

  /** Trimming takes the white space off both ends and leaves the text between them. */
  lemma TrimKeepsInside(before: string, inside: string, after: string)
    requires AllSpace(before) && AllSpace(after)
    requires inside != "" ==> !IsSpace(inside[0]) && !IsSpace(inside[|inside| - 1])
    ensures Trim(before + inside + after) == inside
  {
    assert before + inside + after == before + (inside + after);
    TrimFront(before, inside + after);
    if inside == "" {
      assert inside + after == after + "";
      TrimFront(after, "");
    } else {
      TrimBack(inside, after);
    }
  }

  /** The white space that is trimmed, by code point. */
  lemma SpacesAre(c: char)
    ensures IsSpace(c) <==>
      || 9 <= c as int <= 13 || c as int == 0x20 || c as int == 0xA0 || c as int == 0x1680
      || 0x2000 <= c as int <= 0x200A || c as int == 0x2028 || c as int == 0x2029 || c as int == 0x202F
      || c as int == 0x205F || c as int == 0x3000 || c as int == 0xFEFF
  {
  }

  /** The digits and the letters a to f, in either case. */
  lemma HexDigitsAre(c: char)
    ensures IsHexDigit(c) <==> c in "0123456789abcdefABCDEF"
  {
  }

  /** A printed note, letter by letter; without a token it is one of SOL. */
  lemma PrintedExample(casing: Casing)
    requires casing.IsSane()
    ensures BuildNote(casing, Note("SOL", "0.1", "0a", "0B")) == "bagsvault-v1-sol-0.1-0a-0B"
    ensures BuildNote(casing, Note("", "0.1", "0a", "0B")) == "bagsvault-v1-sol-0.1-0a-0B"
  {
    assert "sol" + "-" + "0.1" + "-" + "0a" + "-" + "0B" == "sol-0.1-0a-0B";
  }
}
