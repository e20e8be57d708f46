/**
 The assumptions about the serializer can be met: a model of the library exists in which different
 payloads print differently and entries print as one line and read back. So nothing that is proved
 under these assumptions is empty.
 */
module Assumptions {
  import opened Bytes
  import opened Encoding
  import opened Entries
  import opened Hashing
  import opened Wrappers

  /** A payload as fields: one without a private part, five with it. */
  function PayloadFields(p: Payload): seq<Slice> {
    match p.pii
    case None => [p.data]
    case Some(x) => [p.data, x.keyId, x.wrappedDek, x.nonce, x.ciphertext]
  }

  lemma FieldsFit(fields: seq<Slice>)
    requires |fields| <= 5 && forall i :: 0 <= i < |fields| ==> |fields[i]| < STR_LIMIT
    ensures |Encode(fields)| < U64_LIMIT
  {
    EncodedLength(fields);
  }

  lemma {:induction false} EncodedLength(fields: seq<Slice>)
    requires forall i :: 0 <= i < |fields| ==> |fields[i]| < STR_LIMIT
    ensures |Encode(fields)| <= |fields| * (STR_LIMIT + 8)
  {
    if fields != [] {
      EncodedLength(fields[..|fields| - 1]);
    }
  }

  function PrintPayload(p: Payload): Slice {
    FieldsFit(PayloadFields(p));
    Encode(PayloadFields(p))
  }

  lemma PrintPayloadInjective(p: Payload, q: Payload)
    requires PrintPayload(p) == PrintPayload(q)
    ensures p == q
  {
    var ps, qs := PayloadFields(p), PayloadFields(q);
    EncodingIsUnambiguous(ps, qs);
    assert forall i :: 0 <= i < |ps| ==> ps[i] == qs[i];
  }

  function AnyHash(s: seq<byte>): Digest {
    ZeroDigest()
  }

  /** A library that cannot parse yet. */
  function Printer(): Lib {
    Lib(AnyHash, PrintPayload, e => [], s => None)
  }

  lemma PrinterIsInjective()
    ensures InjectivePayload(Printer())
  {
    forall p: Payload, q: Payload | Printer().payloadJson(p) == Printer().payloadJson(q)
      ensures p == q
    {
      PrintPayloadInjective(p, q);
    }
  }

  /** All of an entry: its canonical fields, whether it has an instruction id, and its stored hash. */
  function EntryFields(e: Entry): seq<Slice> {
    CanonicalFields(Printer(), e) + [if e.instructionId.None? then [] else [1], e.entryHash]
  }

  lemma EntryFieldsInjective(d: Entry, e: Entry)
    requires EntryFields(d) == EntryFields(e)
    ensures d == e
  {
    hide OutcomeName;
    var ds, es := EntryFields(d), EntryFields(e);
    assert ds[..8] == CanonicalFields(Printer(), d) && es[..8] == CanonicalFields(Printer(), e);
    assert ds[8] == es[8] && ds[9] == es[9];
    PrinterIsInjective();
    CanonicalBytesDetermineContent(Printer(), d, e);
  }

  /** Every byte as two digits: whatever the bytes, no newline among them. */
  function Spell(s: seq<byte>): seq<byte> {
    if s == [] then [] else Spell(s[..|s| - 1]) + [HexDigit(s[|s| - 1] / 16), HexDigit(s[|s| - 1] % 16)]
  }

  lemma {:induction false} SpellIsOneLine(s: seq<byte>)
    ensures NEWLINE !in Spell(s) && |Spell(s)| == 2 * |s|
  {
    if s != [] {
      SpellIsOneLine(s[..|s| - 1]);
    }
  }

  lemma {:induction false} SpellInjective(s: seq<byte>, t: seq<byte>)
    requires Spell(s) == Spell(t)
    ensures s == t
  {
    SpellIsOneLine(s);
    SpellIsOneLine(t);
    if s != [] {
      var n := |s| - 1;
      assert Spell(s)[..2 * n] == Spell(s[..n]) && Spell(t)[..2 * n] == Spell(t[..n]);
      SpellInjective(s[..n], t[..n]);
      HexPairOfDigits(s[n]);
      HexPairOfDigits(t[n]);
      assert Spell(s)[2 * n] == HexDigit(s[n] / 16) && Spell(s)[2 * n + 1] == HexDigit(s[n] % 16);
      assert Spell(t)[2 * n] == HexDigit(t[n] / 16) && Spell(t)[2 * n + 1] == HexDigit(t[n] % 16);
      assert s == s[..n] + [s[n]] && t == t[..n] + [t[n]];
    }
  }

  function PrintEntry(e: Entry): seq<byte> {
    [OPEN_BRACE] + Spell(Encode(EntryFields(e))) + [CLOSE_BRACE]
  }

  lemma PrintEntryInjective(d: Entry, e: Entry)
    requires PrintEntry(d) == PrintEntry(e)
    ensures d == e
  {
    hide EntryFields, Encode, Spell;
    var a, b := Spell(Encode(EntryFields(d))), Spell(Encode(EntryFields(e)));
    assert PrintEntry(d)[1..|PrintEntry(d)| - 1] == a && PrintEntry(e)[1..|PrintEntry(e)| - 1] == b;
    SpellInjective(Encode(EntryFields(d)), Encode(EntryFields(e)));
    EncodingIsUnambiguous(EntryFields(d), EntryFields(e));
    EntryFieldsInjective(d, e);
  }

  lemma PrintEntryIsLine(e: Entry)
    ensures IsObjectLine(PrintEntry(e))
  {
    hide EntryFields, Encode, Spell;
    SpellIsOneLine(Encode(EntryFields(e)));
  }

  ghost function ParseEntry(s: seq<byte>): Option<Entry> {
    if e: Entry :| PrintEntry(e) == s then Some(e) else None
  }

  /** Some library meets all the assumptions at once. */
  lemma LibraryExists()
    ensures exists lib: Lib :: InjectivePayload(lib) && LineCodec(lib)
  {
    hide PrintEntry;
    var lib := Lib(AnyHash, PrintPayload, PrintEntry, s => ParseEntry(s));
    forall p: Payload, q: Payload | lib.payloadJson(p) == lib.payloadJson(q)
      ensures p == q
    {
      PrintPayloadInjective(p, q);
    }
    forall e: Entry
      ensures IsObjectLine(lib.entryJson(e)) && lib.parseEntry(lib.entryJson(e)) == Some(e)
    {
      PrintEntryIsLine(e);
      var back := ParseEntry(PrintEntry(e));
      assert back.Some? && PrintEntry(back.value) == PrintEntry(e);
      PrintEntryInjective(back.value, e);
    }
    assert InjectivePayload(lib) && LineCodec(lib);
  }
}
