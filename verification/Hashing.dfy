/** Canonical hashing of entries, `hash.rs`. */
module Hashing {
  import opened Bytes
  import opened Encoding
  import opened Entries
  import opened Wrappers

  function OutcomeName(o: Outcome): Str {
    match o
    case Success => Ascii("success")
    case Failure => Ascii("failure")
    case Denied => Ascii("denied")
  }

  function InstructionText(id: Option<Str>): Str {
    match id
    case None => []
    case Some(s) => s
  }

  function CanonicalFields(lib: Lib, e: Entry): seq<Slice> {
    [U64Bytes(e.seqNo), I64Bytes(e.timestamp), e.eventType, OutcomeName(e.outcome), e.actor,
     InstructionText(e.instructionId), lib.payloadJson(e.payload), e.prevHash]
  }

  function CanonicalBytes(lib: Lib, e: Entry): seq<byte> {
    Encode(CanonicalFields(lib, e))
  }

  /** The hash that an entry should carry, whatever its own `entryHash` says. */
  function EntryHash(lib: Lib, e: Entry): Str {
    ToHex(lib.hash(CanonicalBytes(lib, e)))
  }

  /** The eight fields, in their order, said of a list of fields without naming the function above. */
  lemma CanonicalFieldsSpelled(lib: Lib, e: Entry)
    ensures var f := CanonicalFields(lib, e);
            && |f| == 8
            && Spells(f[0], e.seqNo)
            && Spells(f[1], if e.timestamp < 0 then e.timestamp + 0x1_0000_0000_0000_0000 else e.timestamp)
            && f[2] == e.eventType
            && f[3] == (match e.outcome
                        case Success => Ascii("success")
                        case Failure => Ascii("failure")
                        case Denied => Ascii("denied"))
            && f[4] == e.actor
            && f[5] == (if e.instructionId.Some? then e.instructionId.value else [])
            && f[6] == lib.payloadJson(e.payload)
            && f[7] == e.prevHash
  {
    hide Spells, U64Bytes, I64Bytes;
    U64BytesSpelled(e.seqNo);
    I64BytesSpelled(e.timestamp);
  }

  method BuildCanonicalBytes(lib: Lib, e: Entry) returns (bytes: seq<byte>)
    ensures bytes == CanonicalBytes(lib, e)
    ensures ParseFields(bytes) == Some(CanonicalFields(lib, e))
    ensures var f := ParseFields(bytes).value;
            && |f| == 8
            && Spells(f[0], e.seqNo)
            && Spells(f[1], if e.timestamp < 0 then e.timestamp + 0x1_0000_0000_0000_0000 else e.timestamp)
            && f[2] == e.eventType
            && f[3] == (match e.outcome
                        case Success => Ascii("success")
                        case Failure => Ascii("failure")
                        case Denied => Ascii("denied"))
            && f[4] == e.actor
            && f[5] == (if e.instructionId.Some? then e.instructionId.value else [])
            && f[6] == lib.payloadJson(e.payload)
            && f[7] == e.prevHash
  {
    hide Encode, ParseFields, Field, Spells, CanonicalFields;
    ghost var fields := CanonicalFields(lib, e);
    CanonicalFieldsSpelled(lib, e);
    bytes := PushCanonical(lib, e);
    ParseOfEncode(fields);
  }

  method PushCanonical(lib: Lib, e: Entry) returns (bytes: seq<byte>)
    ensures bytes == Encode(CanonicalFields(lib, e))
  {
    hide Encode, Field, Spells, U64Bytes, I64Bytes;
    var buf := new Buffer();
    PushField(buf, U64Bytes(e.seqNo));
    PushField(buf, I64Bytes(e.timestamp));
    PushField(buf, e.eventType);
    PushField(buf, OutcomeName(e.outcome));
    PushField(buf, e.actor);
    PushField(buf, InstructionText(e.instructionId));
    PushField(buf, lib.payloadJson(e.payload));
    PushField(buf, e.prevHash);
    bytes := buf.bytes;
    assert buf.fields == CanonicalFields(lib, e);
  }

  method ComputeEntryHash(lib: Lib, e: Entry) returns (hash: Str)
    ensures hash == EntryHash(lib, e) == ToHex(lib.hash(CanonicalBytes(lib, e)))
  {
    hide CanonicalBytes;
    var bytes := BuildCanonicalBytes(lib, e);
    hash := ToHex(lib.hash(bytes));
  }

  /** Everything in an entry that its hash can see. */
  function Content(e: Entry): Entry {
    e.(instructionId := Some(InstructionText(e.instructionId)), entryHash := [])
  }

  lemma OutcomeNameInjective(o: Outcome, p: Outcome)
    requires OutcomeName(o) == OutcomeName(p)
    ensures o == p
  {
    assert OutcomeName(Success)[0] == 's' as int && OutcomeName(Failure)[0] == 'f' as int;
    assert OutcomeName(Denied)[0] == 'd' as int;
  }

  /**
   The canonical bytes determine the entry, except that a missing instruction id and an empty
   one share an encoding, and `entryHash` is not covered.
   */
  lemma CanonicalBytesDetermineContent(lib: Lib, d: Entry, e: Entry)
    requires InjectivePayload(lib)
    ensures CanonicalBytes(lib, d) == CanonicalBytes(lib, e) <==> Content(d) == Content(e)
  {
    if CanonicalBytes(lib, d) == CanonicalBytes(lib, e) {
      EncodingIsUnambiguous(CanonicalFields(lib, d), CanonicalFields(lib, e));
      var ds, es := CanonicalFields(lib, d), CanonicalFields(lib, e);
      assert forall i :: 0 <= i < 8 ==> ds[i] == es[i];
      U64BytesInjective(d.seqNo, e.seqNo);
      I64BytesInjective(d.timestamp, e.timestamp);
      OutcomeNameInjective(d.outcome, e.outcome);
    }
  }

  /** Equal hashes: the contents agree, or the two canonical byte strings collide. */
  lemma EqualHashesBind(lib: Lib, d: Entry, e: Entry)
    requires InjectivePayload(lib)
    requires EntryHash(lib, d) == EntryHash(lib, e)
    ensures Content(d) == Content(e)
         || Collides(lib.hash, Collision(CanonicalBytes(lib, d), CanonicalBytes(lib, e)))
  {
    ToHexInjective(lib.hash(CanonicalBytes(lib, d)), lib.hash(CanonicalBytes(lib, e)));
    CanonicalBytesDetermineContent(lib, d, e);
  }
}
