/** withdrawal_service.py, the instruction builders: Borsh bytes out, and what the program reads back. */
module WithdrawData {
  import opened ByteCodec
  import opened Words

  /** The arguments of `withdraw`, as the program declares them. */
  datatype Args = Args(proof: Bytes, root: Bytes32, nullifierHash: Bytes32, recipient: Pubkey, amount: u64)

  const SIGHASH_LENGTH := 8

  /** A Python int too large for its field. */
  datatype BuildError = IntTooBig

  // ------------------------------------------------------------------- reader

  /** Borsh from a cursor: fixed arrays as they are, integers little-endian, Vec with a 32-bit length first. */
  function ReadBytes(data: Bytes, at: nat, n: nat): Option<(Bytes, nat)>
  {
    if at + n <= |data| then Some((data[at..at + n], at + n)) else None
  }

  function ReadVec(data: Bytes, at: nat): Option<(Bytes, nat)>
  {
    match ReadBytes(data, at, 4)
    case None => None
    case Some((len, next)) => ReadBytes(data, next, LeValue(len))
  }

  /** The arguments after the discriminator; the four fixed fields follow the proof. */
  function ReadArgs(data: Bytes): (r: Option<Args>)
  {
    match ReadVec(data, SIGHASH_LENGTH)
    case None => None
    case Some((proof, at)) =>
      match ReadBytes(data, at, 104)
      case None => None
      case Some((fixed, end)) =>
        AmountFits(fixed[96..104]);
        Some(Args(proof, fixed[0..32], fixed[32..64], fixed[64..96], LeValue(fixed[96..104])))
  }

  lemma AmountFits(s: Bytes)
    requires |s| == 8
    ensures LeValue(s) < U64_LIMIT
  {
    LeIsExact(s);
    WordSizes();
  }

  // ------------------------------------------------------------------- writer

  ghost function Encode(sighash: Bytes, args: Args): Bytes
  {
    sighash + ToLe(|args.proof|, 4) + args.proof + args.root + args.nullifierHash + args.recipient
      + ToLe(args.amount, 8)
  }

  /** The builder grows its buffer field by field; root and nullifier are padded or cut to 32 bytes. */
  method Build(sighash: Bytes, proof: Bytes, rootBytes: Bytes, nullifierBytes: Bytes, recipient: Pubkey, amount: nat)
    returns (r: Result<Bytes, BuildError>)
    requires |sighash| == SIGHASH_LENGTH
    ensures r.Ok? <==> |proof| < 0x1_0000_0000 && amount < U64_LIMIT
    ensures r.Ok? ==> ReadArgs(r.value) == Some(Args(proof, Pad32(rootBytes), Pad32(nullifierBytes), recipient, amount))
    ensures r.Ok? ==> r.value[..SIGHASH_LENGTH] == sighash && |r.value| == SIGHASH_LENGTH + 4 + |proof| + 104
    ensures r.Ok? ==> LaidOut(r.value, sighash, Args(proof, Pad32(rootBytes), Pad32(nullifierBytes), recipient, amount))
  {
    var root32 := Pad32(rootBytes);
    var nullifier32 := Pad32(nullifierBytes);
    var data: Bytes := [];
    data := data + sighash;
    if |proof| >= 0x1_0000_0000 {
      return Err(IntTooBig);
    }
    data := data + ToLe(|proof|, 4);
    data := data + proof;
    data := data + root32;
    data := data + nullifier32;
    data := data + recipient;
    if amount >= U64_LIMIT {
      return Err(IntTooBig);
    }
    data := data + ToLe(amount, 8);
    ghost var args := Args(proof, root32, nullifier32, recipient, amount);
    assert data == Encode(sighash, args);
    ReadBack(sighash, args);
    EncodingIsLaidOut(sighash, args);
    return Ok(data);
  }

  /** Where everything stands: eight bytes of discriminator, the proof's length and the proof, then the fixed fields. */
  predicate LaidOut(data: Bytes, sighash: Bytes, args: Args)
  {
    var p := |args.proof|;
    && |data| == 116 + p && data[0..8] == sighash
    && LeValue(data[8..12]) == p && data[12..12 + p] == args.proof
    && var fixed := data[12 + p..];
    && fixed[0..32] == args.root && fixed[32..64] == args.nullifierHash
    && fixed[64..96] == args.recipient && LeValue(fixed[96..104]) == args.amount
  }

  lemma EncodingIsLaidOut(sighash: Bytes, args: Args)
    requires |sighash| == SIGHASH_LENGTH && |args.proof| < 0x1_0000_0000
    ensures LaidOut(Encode(sighash, args), sighash, args)
  {
    var p := |args.proof|;
    var len := ToLe(p, 4);
    var fixed := args.root + args.nullifierHash + args.recipient + ToLe(args.amount, 8);
    var data := sighash + len + args.proof + fixed;
    assert data == Encode(sighash, args);
    WordSizes();
    LeRoundTrip(p, 4);
    FixedPart(args, fixed);
    assert data[8..12] == len && data[12..12 + p] == args.proof && data[12 + p..] == fixed;
  }

  // --------------------------------------------------------------- round trips

  /** The program reads back what was written. */
  lemma ReadBack(sighash: Bytes, args: Args)
    requires |sighash| == SIGHASH_LENGTH && |args.proof| < 0x1_0000_0000
    ensures ReadArgs(Encode(sighash, args)) == Some(args)
  {
    var len := ToLe(|args.proof|, 4);
    var fixed := args.root + args.nullifierHash + args.recipient + ToLe(args.amount, 8);
    var data := sighash + len + args.proof + fixed;
    assert data == Encode(sighash, args);
    WordSizes();
    LeRoundTrip(|args.proof|, 4);
    assert data[8..12] == len;
    assert data[12..12 + |args.proof|] == args.proof;
    assert data[12 + |args.proof|..12 + |args.proof| + 104] == fixed;
    FixedPart(args, fixed);
  }

  lemma FixedPart(args: Args, fixed: Bytes)
    requires fixed == args.root + args.nullifierHash + args.recipient + ToLe(args.amount, 8)
    ensures |fixed| == 104
    ensures fixed[0..32] == args.root && fixed[32..64] == args.nullifierHash
    ensures fixed[64..96] == args.recipient && LeValue(fixed[96..104]) == args.amount
  {
    WordSizes();
    LeRoundTrip(args.amount, 8);
    Quarters(args.root, args.nullifierHash, args.recipient, ToLe(args.amount, 8));
    assert fixed[96..104] == fixed[96..];
  }

  lemma Quarters(a: Bytes32, b: Bytes32, c: Bytes32, d: Bytes)
    ensures var s := a + b + c + d;
      s[0..32] == a && s[32..64] == b && s[64..96] == c && s[96..] == d
  {
  }

  /** Nothing else is read as the same arguments: readable data is the encoding, up to trailing bytes. */
  lemma WrittenForm(data: Bytes)
    requires ReadArgs(data).Some?
    ensures var args := ReadArgs(data).value;
      Encode(data[..SIGHASH_LENGTH], args) <= data
  {
    var args := ReadArgs(data).value;
    var p := LeValue(data[8..12]);
    LeIsExact(data[8..12]);
    var fixed := data[12 + p..12 + p + 104];
    LeIsExact(fixed[96..104]);
    assert args.root + args.nullifierHash + args.recipient + ToLe(args.amount, 8) == fixed;
    assert data[..8] + data[8..12] + data[12..12 + p] + fixed == data[..12 + p + 104];
    assert Encode(data[..8], args) == data[..8] + data[8..12] + data[12..12 + p] + fixed;
  }
}
