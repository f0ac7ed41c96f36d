/** Fixed-width integers, byte strings and the error results of the program. */
module Words {

  const U64_LIMIT: int := 0x1_0000_0000_0000_0000
  const U16_LIMIT: int := 0x1_0000

  type u64 = x: int | 0 <= x < U64_LIMIT
  type u16 = x: int | 0 <= x < U16_LIMIT
  type byte = x: int | 0 <= x < 256

  type Bytes = seq<byte>
  type Bytes32 = s: seq<byte> | |s| == 32 witness seq(32, _ => 0)
  type Pubkey = Bytes32

  /** The System Program id, the sentinel mint of a native-SOL pool. */
  const SYSTEM_PROGRAM: Pubkey :=
    [0, 0, 0, 0, 0, 0, 0, 0, 0, 0, 0, 0, 0, 0, 0, 0,
     0, 0, 0, 0, 0, 0, 0, 0, 0, 0, 0, 0, 0, 0, 0, 0]

  datatype Option<+T> = None | Some(value: T)

  datatype Result<+T, +E> = Ok(value: T) | Err(error: E)
  {
    predicate IsFailure() { Err? }

    function PropagateFailure<U>(): Result<U, E>
      requires Err?
    {
      Err(error)
    }

    function Extract(): T
      requires Ok?
    {
      value
    }
  }

  /** The program's own errors, and the runtime refusals that stop an instruction. */
  datatype Error =
    | TreeFull
    | UnknownRoot
    | InvalidProof
    | DenominationMismatch
    | PoolPaused
    | Unauthorized
    | FeeBpsTooHigh
    | AccountInUse
    | MissingSignature
    | InsufficientFunds

  // ------------------------------------------------------------- ASCII letters

  function UpperChar(c: char): char
  {
    if 'a' <= c <= 'z' then c - 'a' + 'A' else c
  }

  function LowerChar(c: char): char
  {
    if 'A' <= c <= 'Z' then c - 'A' + 'a' else c
  }

  function Upper(s: string): (t: string)
    ensures |t| == |s| && forall i :: 0 <= i < |s| ==> t[i] == UpperChar(s[i])
  {
    if s == "" then "" else [UpperChar(s[0])] + Upper(s[1..])
  }

  function Lower(s: string): (t: string)
    ensures |t| == |s| && forall i :: 0 <= i < |s| ==> t[i] == LowerChar(s[i])
  {
    if s == "" then "" else [LowerChar(s[0])] + Lower(s[1..])
  }
}
