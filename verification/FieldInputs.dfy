/** The public inputs twice: as the prover renders them and as the program packs them. */
module FieldInputs {
  import opened ByteCodec
  import opened Pool
  import opened Words

  /** The BN254 scalar field modulus. */
  const BN254_R: nat := 21888242871839275222246405745257275088548364400416034343698204186575808495617

  // ------------------------------------------------------------------- prover

  /** `_hex32` without the text layer: reduce, then 32 big-endian bytes. */
  function Hex32(value: nat): (s: Bytes32)
  {
    ToBe(value % BN254_R, 32)
  }

  function BytesToField(raw: Bytes): nat
  {
    BeValue(raw) % BN254_R
  }

  function ProverInputs(root: nat, nullifierHash: nat, recipient: Pubkey, amount: nat, relayer: Pubkey,
                        feeBps: nat): seq<Bytes32>
  {
    [Hex32(root), Hex32(nullifierHash), Hex32(BytesToField(recipient)),
     Hex32(amount), Hex32(BytesToField(relayer)), Hex32(feeBps)]
  }

  // ------------------------------------------------------------------ program

  /** The value's eight big-endian bytes are copied into the tail of a zeroed 32-byte buffer. */
  method U64ToField(value: u64) returns (buf: array<byte>)
    ensures fresh(buf) && buf[..] == WordInput(value)
  {
    var bytes := ToBe(value, 8);
    buf := new byte[32](_ => 0);
    for i := 0 to 8
      invariant buf[..24] == seq(24, _ => 0)
      invariant buf[24..24 + i] == bytes[..i]
    {
      buf[24 + i] := bytes[i];
      assert buf[24..24 + i + 1] == bytes[..i] + [bytes[i]];
    }
    assert buf[..] == buf[..24] + buf[24..32] && bytes[..8] == bytes;
    WordIsPadded(value);
    ZerosSeq(24);
  }

  /** The 32-byte big-endian form of a word. */
  ghost function WordInput(value: u64): Bytes32
  {
    ToBe(value, 32)
  }

  lemma ZerosSeq(n: nat)
    ensures seq(n, _ => 0) == Zeros(n)
  {
    if n > 0 {
      ZerosSeq(n - 1);
      assert seq(n, _ => 0) == seq(n - 1, _ => 0) + [0];
    }
  }

  lemma WordIsPadded(value: u64)
    ensures WordInput(value) == Zeros(24) + ToBe(value, 8)
  {
    WordSizes();
    BeRoundTrip(value, 8);
    ZerosAreZero(24);
    BeConcat(Zeros(24), ToBe(value, 8));
    BeIsExact(Zeros(24) + ToBe(value, 8));
  }

  ghost function ProgramInputs(root: Bytes32, nullifierHash: Bytes32, recipient: Pubkey, amount: u64, relayer: Pubkey,
                               feeBps: u16): seq<Bytes32>
  {
    [root, nullifierHash, recipient, WordInput(amount), relayer, WordInput(feeBps)]
  }

  // ---------------------------------------------------------------- agreement

  /** Rendering a byte string's own value gives it back exactly when the value is canonical. */
  lemma CanonicalIffRendered(raw: Bytes32)
    ensures Hex32(BeValue(raw)) == raw <==> BeValue(raw) < BN254_R
    ensures Hex32(BytesToField(raw)) == raw <==> BeValue(raw) < BN254_R
  {
    var v := BeValue(raw);
    BeIsExact(raw);
    ReducedIffBelow(v);
    ReducedIffBelow(BytesToField(raw));
    BeRoundTrip(v % BN254_R, 32);
  }

  lemma ReducedIffBelow(v: nat)
    ensures v % BN254_R == v <==> v < BN254_R
    ensures v % BN254_R < BN254_R < Pow256(32)
  {
    WordSizes();
  }

  lemma WordsAgree(value: u64)
    ensures Hex32(value) == WordInput(value)
  {
  }

  /**
   * Given one set of inputs, the two vectors are equal exactly when the root, the nullifier hash and
   * both keys, read big-endian, are below the modulus. Amount and fee agree for every word.
   */
  lemma PublicInputsAgree(root: Bytes32, nullifierHash: Bytes32, recipient: Pubkey, amount: u64, relayer: Pubkey,
                          feeBps: u16)
    ensures ProverInputs(BeValue(root), BeValue(nullifierHash), recipient, amount, relayer, feeBps)
         == ProgramInputs(root, nullifierHash, recipient, amount, relayer, feeBps)
      <==> BeValue(root) < BN254_R && BeValue(nullifierHash) < BN254_R
           && BeValue(recipient) < BN254_R && BeValue(relayer) < BN254_R
    ensures Hex32(amount) == WordInput(amount) && Hex32(feeBps) == WordInput(feeBps)
  {
    CanonicalIffRendered(root);
    CanonicalIffRendered(nullifierHash);
    CanonicalIffRendered(recipient);
    CanonicalIffRendered(relayer);
    WordsAgree(amount);
    WordsAgree(feeBps);
    var p := ProverInputs(BeValue(root), BeValue(nullifierHash), recipient, amount, relayer, feeBps);
    var q := ProgramInputs(root, nullifierHash, recipient, amount, relayer, feeBps);
    assert p == q <==> p[0] == q[0] && p[1] == q[1] && p[2] == q[2] && p[3] == q[3] && p[4] == q[4] && p[5] == q[5];
  }

  lemma {:induction false} AllOnesValue(n: nat)
    ensures BeValue(seq(n, _ => 255)) == Pow256(n) - 1
  {
    if n > 0 {
      AllOnesValue(n - 1);
      assert seq(n, _ => 255)[..n - 1] == seq(n - 1, _ => 255);
    }
  }

  /** A key of all ones is not canonical: as recipient or as relayer it makes the two vectors differ. */
  lemma LargestKeyDisagrees(root: Bytes32, nullifierHash: Bytes32, key: Pubkey, amount: u64, feeBps: u16)
    ensures var ones: Pubkey := seq(32, _ => 255);
      && BytesToField(ones) != BeValue(ones)
      && ProverInputs(BeValue(root), BeValue(nullifierHash), ones, amount, key, feeBps)
           != ProgramInputs(root, nullifierHash, ones, amount, key, feeBps)
      && ProverInputs(BeValue(root), BeValue(nullifierHash), key, amount, ones, feeBps)
           != ProgramInputs(root, nullifierHash, key, amount, ones, feeBps)
  {
    var ones: Pubkey := seq(32, _ => 255);
    AllOnesValue(32);
    WordSizes();
    ReducedIffBelow(BeValue(ones));
    PublicInputsAgree(root, nullifierHash, ones, amount, key, feeBps);
    PublicInputsAgree(root, nullifierHash, key, amount, ones, feeBps);
  }

  /** The modulus in hexadecimal, as the curve's parameters are usually given. */
  lemma ModulusIs()
    ensures BN254_R == 0x30644e72e131a029b85045b68181585d2833e84879b9709143e1f593f0000001
  {
  }

  // ------------------------------------------------------------- the pool's step

  /** Where field elements are 32-byte words, the vector the pool checks is the one packed here. */
  lemma PoolChecksTheseInputs(env: Env<Bytes32>, w: Withdrawal<Bytes32>, feeBps: u16)
    requires forall k :: env.key(k) == k
    requires forall v: u64 :: env.word(v) == ToBe(v, 32)
    ensures PublicInputs(env, feeBps, w)
         == ProgramInputs(w.root, w.nullifier, w.recipient, w.amount, w.relayer, feeBps)
  {
  }

  /** The prover's vector is the one the pool checks exactly if all four words are below the modulus. */
  lemma ProverMeetsPoolIff(env: Env<Bytes32>, w: Withdrawal<Bytes32>, feeBps: u16)
    requires forall k :: env.key(k) == k
    requires forall v: u64 :: env.word(v) == ToBe(v, 32)
    ensures PublicInputs(env, feeBps, w)
         == ProverInputs(BeValue(w.root), BeValue(w.nullifier), w.recipient, w.amount, w.relayer, feeBps)
      <==> BeValue(w.root) < BN254_R && BeValue(w.nullifier) < BN254_R
           && BeValue(w.recipient) < BN254_R && BeValue(w.relayer) < BN254_R
  {
    PoolChecksTheseInputs(env, w, feeBps);
    PublicInputsAgree(w.root, w.nullifier, w.recipient, w.amount, w.relayer, feeBps);
  }
}
