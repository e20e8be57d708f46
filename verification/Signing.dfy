/** Signed checkpoints, `checkpoint.rs`, and what an accepted signature says about the log. */
module Signing {
  import opened Bytes
  import opened Encoding
  import opened Entries
  import opened Hashing
  import opened History
  import opened Messages
  import opened Verify
  import opened Wrappers

  /**
   Ed25519 over base64 texts. `readKey` decodes a public key, `check` decodes a signature and
   checks it against the bytes under a decoded key. Either may fail.
   */
  datatype Scheme = Scheme(readKey: Str -> Result<seq<byte>>, check: (seq<byte>, seq<byte>, Str) -> Result<()>)

  datatype Signer = Signer(publicKey: Str, sign: seq<byte> -> Str)

  datatype Checkpoint = Checkpoint(seqNo: u64, headHash: Str, timestamp: i64, publicKey: Str, signature: Str)

  /** What the signer makes is accepted. */
  ghost predicate Honours(scheme: Scheme, signer: Signer) {
    && scheme.readKey(signer.publicKey).Ok?
    && forall bytes :: scheme.check(scheme.readKey(signer.publicKey).value, bytes, signer.sign(bytes)).Ok?
  }

  /** This signature is good under the key only for something that the key's holder has signed. */
  ghost predicate Unforged(lib: Lib, scheme: Scheme, key: seq<byte>, issued: set<Message>, signature: Str) {
    forall bytes :: scheme.check(key, bytes, signature).Ok? ==>
      exists m :: m in issued && bytes == Encode(Fields(lib, m))
  }

  /** Whether the signature is one over these bytes by the holder of this key. */
  function Judge(scheme: Scheme, publicKey: Str, bytes: seq<byte>, signature: Str): Result<()> {
    match scheme.readKey(publicKey)
    case Err(error) => Err(error)
    case Ok(key) => scheme.check(key, bytes, signature)
  }

  function Statement(cp: Checkpoint): Message {
    CheckpointMessage(cp.seqNo, cp.headHash, cp.timestamp)
  }

  method SignCheckpoint(lib: Lib, signer: Signer, seqNo: u64, headHash: Str, timestamp: i64) returns (cp: Checkpoint)
    ensures Statement(cp) == CheckpointMessage(seqNo, headHash, timestamp) && cp.publicKey == signer.publicKey
    ensures (cp.seqNo, cp.headHash, cp.timestamp) == (seqNo, headHash, timestamp)
    ensures cp.signature == signer.sign(Encode(Fields(lib, CheckpointMessage(seqNo, headHash, timestamp))))
    ensures forall scheme :: Honours(scheme, signer) ==>
              Judge(scheme, cp.publicKey, Encode(Fields(lib, Statement(cp))), cp.signature).Ok?
  {
    hide Encode, Fields;
    var bytes := BuildCheckpointMessage(lib, seqNo, headHash, timestamp);
    cp := Checkpoint(seqNo, headHash, timestamp, signer.publicKey, signer.sign(bytes));
  }

  method VerifySignature(scheme: Scheme, publicKey: Str, bytes: seq<byte>, signature: Str) returns (r: Result<()>)
    ensures r == Judge(scheme, publicKey, bytes, signature)
    ensures scheme.readKey(publicKey).Err? ==> r == Err(scheme.readKey(publicKey).error)
    ensures scheme.readKey(publicKey).Ok? ==> r == scheme.check(scheme.readKey(publicKey).value, bytes, signature)
  {
    var key := scheme.readKey(publicKey);
    if key.Err? {
      return Err(key.error);
    }
    r := scheme.check(key.value, bytes, signature);
  }

  /** The embedded key must be the pinned one, and its signature must cover the whole statement. */
  method VerifyCheckpointWith(lib: Lib, scheme: Scheme, cp: Checkpoint, pinned: seq<byte>) returns (r: Result<()>)
    ensures var bytes := Encode(Fields(lib, CheckpointMessage(cp.seqNo, cp.headHash, cp.timestamp)));
            r == if scheme.readKey(cp.publicKey).Ok? && scheme.readKey(cp.publicKey).value != pinned then Err(Crypto)
                 else Judge(scheme, cp.publicKey, bytes, cp.signature)
  {
    hide Encode, Fields;
    var embedded := scheme.readKey(cp.publicKey);
    if embedded.Err? {
      return Err(embedded.error);
    }
    if embedded.value != pinned {
      return Err(Crypto);
    }
    var bytes := BuildCheckpointMessage(lib, cp.seqNo, cp.headHash, cp.timestamp);
    r := scheme.check(pinned, bytes, cp.signature);
  }

  /** Whoever holds the embedded key signed this. */
  method VerifyCheckpoint(lib: Lib, scheme: Scheme, cp: Checkpoint) returns (r: Result<()>)
    ensures var bytes := Encode(Fields(lib, CheckpointMessage(cp.seqNo, cp.headHash, cp.timestamp)));
            r == Judge(scheme, cp.publicKey, bytes, cp.signature)
  {
    hide Encode, Fields;
    var key := scheme.readKey(cp.publicKey);
    if key.Err? {
      return Err(key.error);
    }
    r := VerifyCheckpointWith(lib, scheme, cp, key.value);
  }

  /**
   A signature is good for one statement of one kind. What is accepted as a checkpoint or an anchor
   is exactly what was issued as one, whatever else was signed with the same key.
   */
  lemma AcceptedWasIssued(lib: Lib, scheme: Scheme, key: seq<byte>, issued: set<Message>, m: Message, signature: Str)
    requires InjectivePayload(lib) && Unforged(lib, scheme, key, issued, signature)
    requires scheme.check(key, Encode(Fields(lib, m)), signature).Ok? && !m.EntryMessage?
    ensures m in issued
  {
    hide Encode, Fields;
    var n :| n in issued && Encode(Fields(lib, m)) == Encode(Fields(lib, n));
    MessagesNeverCoincide(lib, m, n);
  }

  /**
   No rewriting behind a checkpoint. If the key's holder issued checkpoints at this number only for
   the head of its log `xs`, then a log `ys` that verifies and ends where an accepted checkpoint
   says is `xs`, entry by entry.
   */
  lemma CheckpointProtectsHistory(lib: Lib, scheme: Scheme, issued: set<Message>, pinned: seq<byte>, cp: Checkpoint,
                                  start: Option<Anchor>, xs: seq<Entry>, ys: seq<Entry>)
    requires TwoChains(lib, start, xs, ys) && xs != [] && ys != []
    requires InjectiveOn(lib.hash, CanonicalForms(lib, xs) + CanonicalForms(lib, ys))
    requires Unforged(lib, scheme, pinned, issued, cp.signature)
    requires forall m :: m in issued && m.CheckpointMessage? && m.seqNo == cp.seqNo ==>
               Some(Anchor(m.seqNo, m.headHash)) == HeadOf(xs)
    requires scheme.readKey(cp.publicKey) == Ok(pinned)
    requires Judge(scheme, cp.publicKey, Encode(Fields(lib, Statement(cp))), cp.signature).Ok?
    ensures HeadOf(ys) == Some(Anchor(cp.seqNo, cp.headHash)) <==> SameHistory(xs, ys)
  {
    hide Encode, Fields, ValidFrom, SameHistory, CanonicalForms, Unforged;
    AcceptedWasIssued(lib, scheme, pinned, issued, Statement(cp), cp.signature);
    HeadPinsHistory(lib, start, xs, ys);
  }

  /** Such schemes exist: the holder's signatures are accepted, and this one is unforged. */
  lemma SchemeExists(lib: Lib, m: Message)
    ensures exists scheme: Scheme, signer: Signer ::
              && Honours(scheme, signer)
              && Unforged(lib, scheme, scheme.readKey(signer.publicKey).value, {m},
                          signer.sign(Encode(Fields(lib, m))))
  {
    hide Encode, Fields;
    var signed := Encode(Fields(lib, m));
    var sign: seq<byte> -> Str := bytes => if bytes == signed then [1] else [];
    var scheme := Scheme(
      _ => Ok([]),
      (_, bytes, signature) => if signature == sign(bytes) then Ok(()) else Err(Crypto));
    var signer := Signer([], sign);
    assert Honours(scheme, signer);
    assert m in {m};
    assert Unforged(lib, scheme, [], {m}, sign(signed));
  }
}
