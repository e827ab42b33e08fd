/** What the authenticator's operations take from outside (cryptography, clocks, randomness, the user, the
    persister), and what they do that can be observed. */
module World {
  import opened Bytes
  import opened Statuses
  import opened StoreCodec
  import opened Store

  datatype Secret = Secret(hmacKey: seq<Byte>, aesKey: seq<Byte>)

  /** Cryptography as functions about which nothing is assumed. */
  datatype Crypto = Crypto(
    sha256: seq<Byte> -> Bytes32,
    hmac: (seq<Byte>, seq<Byte>) -> Option<Bytes32>,
    agree: (nat, seq<Byte>) -> Option<seq<Byte>>,          // our ephemeral key, the platform's key
    derive: seq<Byte> -> Option<Secret>,
    decrypt: (seq<Byte>, seq<Byte>, seq<Byte>) -> Option<seq<Byte>>)  // key, iv, ciphertext

  datatype Decision = Allow | Deny | TimedOut | Cancelled

  /** A generated credential key with its id and wrapped credRandom. */
  datatype Fresh = Fresh(credId: Bytes32, backend: Backend, handle: Blob, priv: Blob, pubX: Bytes32, pubY: Bytes32,
                         credRandom: Blob)

  /** The outcomes one operation meets: two readings of the steady clock in milliseconds, the wall clock in
      seconds, the user's decision, whether its first, second, ... save succeeds, and so on. */
  datatype World = World(
    now: nat, later: nat, unix: U64, presence: Decision, saves: nat -> bool,
    keyError: Option<Status>, secretError: Option<Status>, signs: bool,
    newKey: Option<Fresh>, attestation: Option<U2fAttestation>,
    newKeyAgreement: Option<nat>, tokenBytes: Option<Bytes32>, encrypts: bool, cancelledWaiting: bool,
    reset: ResetOutcome, reinit: bool)

  /** How a new PIN came to be written: by setPIN, by changePIN, or from the control socket. */
  datatype Writing = FirstSet | Changed | SetLocally

  /** The observable history: counters released with user presence, comparisons with the stored PIN hash, writes of
      the PIN state, resets, and the life of pinUvAuthTokens. */
  datatype Event =
    | Released(credId: Bytes32, count: U32)
    | WrongGuess | RightGuess | PinWritten(how: Writing, saved: bool) | WasReset(done: bool)
    | TokenIssued(instance: nat, permissions: Byte, boundTo: Option<seq<Byte>>, at: nat)
    | TokenUsed(instance: nat, permission: Byte, rpId: seq<Byte>, checked: nat, touched: nat)
    | TokenGone(instance: nat)
}
