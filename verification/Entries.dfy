/** The records of `entry.rs`, and the library functions that the model takes as parameters. */
module Entries {
  import opened Bytes
  import opened Wrappers

  datatype Outcome = Success | Failure | Denied

  datatype EncryptedPii = EncryptedPii(keyId: Str, wrappedDek: Str, nonce: Str, ciphertext: Str)

  /** `data` is a JSON value, given here by its text. */
  datatype Payload = Payload(data: Str, pii: Option<EncryptedPii>)

  /** What a caller submits. */
  datatype Record = Record(
    eventType: Str, outcome: Outcome, actor: Str, instructionId: Option<Str>,
    data: Str, pii: Option<Str>, keyId: Str)

  /** What is stored. */
  datatype Entry = Entry(
    seqNo: u64, timestamp: i64, eventType: Str, outcome: Outcome, actor: Str,
    instructionId: Option<Str>, payload: Payload, prevHash: Str, entryHash: Str)

  datatype Receipt = Receipt(seqNo: u64, timestamp: i64, entryHash: Str, prevHash: Str)

  /** The hexadecimal form of 32 zero bytes. */
  const GENESIS_PREV_HASH: Str := ToHex(ZeroDigest())

  /** Sixty-four zero digits. */
  lemma GenesisSpelled()
    ensures GENESIS_PREV_HASH == seq(64, _ => '0' as int)
  {
  }

  /** BLAKE3 and the parts of `serde_json` that the source calls. */
  datatype Lib = Lib(
    hash: HashFn,
    payloadJson: Payload -> Slice,
    entryJson: Entry -> seq<byte>,
    parseEntry: seq<byte> -> Option<Entry>)

  /** Different payloads have different JSON texts. */
  ghost predicate InjectivePayload(lib: Lib) {
    forall p, q :: lib.payloadJson(p) == lib.payloadJson(q) ==> p == q
  }

  const NEWLINE: byte := 10
  const CARRIAGE_RETURN: byte := 13
  const OPEN_BRACE: byte := 123
  const CLOSE_BRACE: byte := 125

  /** The JSON text of an entry is an object on one line. */
  predicate IsObjectLine(text: seq<byte>) {
    |text| >= 2 && text[0] == OPEN_BRACE && text[|text| - 1] == CLOSE_BRACE && NEWLINE !in text
  }

  /** Entries print as one-line objects, and reading the text gives the entry back. */
  ghost predicate LineCodec(lib: Lib) {
    forall e :: IsObjectLine(lib.entryJson(e)) && lib.parseEntry(lib.entryJson(e)) == Some(e)
  }

  function ReceiptOf(e: Entry): Receipt {
    Receipt(e.seqNo, e.timestamp, e.entryHash, e.prevHash)
  }
}
