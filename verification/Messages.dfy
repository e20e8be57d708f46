/** The signed byte strings: checkpoints of a head and Merkle anchors of a range. */
module Messages {
  import opened Bytes
  import opened Encoding
  import opened Entries
  import opened Hashing
  import opened Wrappers

  datatype Message =
    | EntryMessage(entry: Entry)
    | CheckpointMessage(seqNo: u64, headHash: Str, timestamp: i64)
    | AnchorMessage(fromSeq: u64, toSeq: u64, count: u64, root: Str, timestamp: i64)

  function Fields(lib: Lib, m: Message): seq<Slice> {
    match m
    case EntryMessage(e) => CanonicalFields(lib, e)
    case CheckpointMessage(seqNo, headHash, timestamp) =>
      [Ascii("chainlog-checkpoint-v1"), U64Bytes(seqNo), headHash, I64Bytes(timestamp)]
    case AnchorMessage(fromSeq, toSeq, count, root, timestamp) =>
      [Ascii("chainlog-merkle-v1"), U64Bytes(fromSeq), U64Bytes(toSeq), U64Bytes(count), root, I64Bytes(timestamp)]
  }

  lemma CheckpointSpelled(lib: Lib, seqNo: u64, headHash: Str, timestamp: i64)
    ensures var f := Fields(lib, CheckpointMessage(seqNo, headHash, timestamp));
            && |f| == 4
            && f[0] == Ascii("chainlog-checkpoint-v1")
            && Spells(f[1], seqNo)
            && f[2] == headHash
            && Spells(f[3], if timestamp < 0 then timestamp + 0x1_0000_0000_0000_0000 else timestamp)
  {
    hide Spells, U64Bytes, I64Bytes;
    U64BytesSpelled(seqNo);
    I64BytesSpelled(timestamp);
  }

  lemma AnchorSpelled(lib: Lib, fromSeq: u64, toSeq: u64, count: u64, root: Str, timestamp: i64)
    ensures var f := Fields(lib, AnchorMessage(fromSeq, toSeq, count, root, timestamp));
            && |f| == 6
            && f[0] == Ascii("chainlog-merkle-v1")
            && Spells(f[1], fromSeq) && Spells(f[2], toSeq) && Spells(f[3], count)
            && f[4] == root
            && Spells(f[5], if timestamp < 0 then timestamp + 0x1_0000_0000_0000_0000 else timestamp)
  {
    hide Spells, U64Bytes, I64Bytes;
    U64BytesSpelled(fromSeq);
    U64BytesSpelled(toSeq);
    U64BytesSpelled(count);
    I64BytesSpelled(timestamp);
  }

  method BuildCheckpointMessage(lib: Lib, seqNo: u64, headHash: Str, timestamp: i64) returns (bytes: seq<byte>)
    ensures bytes == Encode(Fields(lib, CheckpointMessage(seqNo, headHash, timestamp)))
    ensures ParseFields(bytes) == Some(Fields(lib, CheckpointMessage(seqNo, headHash, timestamp)))
    ensures var f := ParseFields(bytes).value;
            && |f| == 4
            && f[0] == Ascii("chainlog-checkpoint-v1")
            && Spells(f[1], seqNo)
            && f[2] == headHash
            && Spells(f[3], if timestamp < 0 then timestamp + 0x1_0000_0000_0000_0000 else timestamp)
  {
    hide Encode, ParseFields, Field, Spells, Fields;
    bytes := PushCheckpoint(lib, seqNo, headHash, timestamp);
    CheckpointSpelled(lib, seqNo, headHash, timestamp);
    ParseOfEncode(Fields(lib, CheckpointMessage(seqNo, headHash, timestamp)));
  }

  method PushCheckpoint(lib: Lib, seqNo: u64, headHash: Str, timestamp: i64) returns (bytes: seq<byte>)
    ensures bytes == Encode(Fields(lib, CheckpointMessage(seqNo, headHash, timestamp)))
  {
    hide Encode, Field, Spells, U64Bytes, I64Bytes;
    var buf := new Buffer();
    PushField(buf, Ascii("chainlog-checkpoint-v1"));
    PushField(buf, U64Bytes(seqNo));
    PushField(buf, headHash);
    PushField(buf, I64Bytes(timestamp));
    bytes := buf.bytes;
    assert buf.fields == Fields(lib, CheckpointMessage(seqNo, headHash, timestamp));
  }

  method BuildAnchorMessage(lib: Lib, fromSeq: u64, toSeq: u64, count: u64, root: Str, timestamp: i64)
    returns (bytes: seq<byte>)
    ensures bytes == Encode(Fields(lib, AnchorMessage(fromSeq, toSeq, count, root, timestamp)))
    ensures ParseFields(bytes) == Some(Fields(lib, AnchorMessage(fromSeq, toSeq, count, root, timestamp)))
    ensures var f := ParseFields(bytes).value;
            && |f| == 6
            && f[0] == Ascii("chainlog-merkle-v1")
            && Spells(f[1], fromSeq) && Spells(f[2], toSeq) && Spells(f[3], count)
            && f[4] == root
            && Spells(f[5], if timestamp < 0 then timestamp + 0x1_0000_0000_0000_0000 else timestamp)
  {
    hide Encode, ParseFields, Field, Spells, Fields;
    bytes := PushAnchor(lib, fromSeq, toSeq, count, root, timestamp);
    AnchorSpelled(lib, fromSeq, toSeq, count, root, timestamp);
    ParseOfEncode(Fields(lib, AnchorMessage(fromSeq, toSeq, count, root, timestamp)));
  }

  method PushAnchor(lib: Lib, fromSeq: u64, toSeq: u64, count: u64, root: Str, timestamp: i64)
    returns (bytes: seq<byte>)
    ensures bytes == Encode(Fields(lib, AnchorMessage(fromSeq, toSeq, count, root, timestamp)))
  {
    hide Encode, Field, Spells, U64Bytes, I64Bytes;
    var buf := new Buffer();
    PushField(buf, Ascii("chainlog-merkle-v1"));
    PushField(buf, U64Bytes(fromSeq));
    PushField(buf, U64Bytes(toSeq));
    PushField(buf, U64Bytes(count));
    PushField(buf, root);
    PushField(buf, I64Bytes(timestamp));
    bytes := buf.bytes;
    assert buf.fields == Fields(lib, AnchorMessage(fromSeq, toSeq, count, root, timestamp));
  }

  /** The message as far as its bytes tell. */
  function Reading(m: Message): Message {
    match m
    case EntryMessage(e) => EntryMessage(Content(e))
    case _ => m
  }

  /**
   One byte string, one meaning: no two messages of any kinds share their bytes, so a signature
   or a hash over one cannot be presented as a signature or a hash over another.
   */
  lemma MessagesNeverCoincide(lib: Lib, m: Message, n: Message)
    requires InjectivePayload(lib)
    ensures Encode(Fields(lib, m)) == Encode(Fields(lib, n)) <==> Reading(m) == Reading(n)
  {
    if Encode(Fields(lib, m)) == Encode(Fields(lib, n)) {
      EncodingIsUnambiguous(Fields(lib, m), Fields(lib, n));
      var ms, ns := Fields(lib, m), Fields(lib, n);
      assert forall i :: 0 <= i < |ms| ==> ms[i] == ns[i];
      match (m, n) {
        case (EntryMessage(d), EntryMessage(e)) =>
          CanonicalBytesDetermineContent(lib, d, e);
        case (CheckpointMessage(s, _, t), CheckpointMessage(s', _, t')) =>
          U64BytesInjective(s, s');
          I64BytesInjective(t, t');
        case (AnchorMessage(f, g, c, _, t), AnchorMessage(f', g', c', _, t')) =>
          U64BytesInjective(f, f');
          U64BytesInjective(g, g');
          U64BytesInjective(c, c');
          I64BytesInjective(t, t');
        case _ =>
      }
    } else {
      match (m, n) {
        case (EntryMessage(d), EntryMessage(e)) =>
          CanonicalBytesDetermineContent(lib, d, e);
        case _ =>
      }
    }
  }
}
