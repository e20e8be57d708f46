/**
 The length-prefixed field encoding of `util.rs`: `push_field` extends a caller's buffer in place.
 A parser shows that a concatenation of fields has one reading.
 */
module Encoding {
  import opened Bytes
  import opened Wrappers

  /** One field as it appears in a buffer: an eight-byte length, then the bytes. */
  function Field(f: Slice): seq<byte> {
    U64Bytes(|f|) + f
  }

  /** The length comes first, its most significant byte in front. */
  lemma FieldSpelled(f: Slice)
    ensures |Field(f)| == 8 + |f| && Spells(Field(f)[..8], |f|) && Field(f)[8..] == f
  {
    U64BytesSpelled(|f|);
  }

  function Encode(fields: seq<Slice>): seq<byte> {
    if fields == [] then [] else Encode(fields[..|fields| - 1]) + Field(fields[|fields| - 1])
  }

  /** The growable byte vector that the encoders share by reference. */
  class Buffer {
    var bytes: seq<byte>
    ghost var fields: seq<Slice>

    /** Only fields have been pushed. */
    ghost predicate Valid()
      reads this
    {
      bytes == Encode(fields)
    }

    constructor ()
      ensures Valid() && bytes == [] && fields == []
    {
      bytes, fields := [], [];
    }

    method Extend(more: seq<byte>)
      modifies this`bytes
      ensures bytes == old(bytes) + more
    {
      bytes := bytes + more;
    }
  }

  method PushField(buf: Buffer, field: Slice)
    modifies buf
    ensures buf.bytes == old(buf.bytes) + Field(field)
    ensures buf.fields == old(buf.fields) + [field]
    ensures old(buf.Valid()) ==> buf.Valid()
  {
    buf.Extend(U64Bytes(|field|));
    buf.Extend(field);
    buf.fields := buf.fields + [field];
    assert buf.fields[..|buf.fields| - 1] == old(buf.fields);
  }

  /** Reads a buffer back into its fields, refusing anything that is not a whole number of them. */
  function ParseFields(b: seq<byte>): Option<seq<Slice>> {
    if b == [] then Some([])
    else if |b| < 8 || |b| - 8 < Value(b[..8]) || Value(b[..8]) >= U64_LIMIT then None
    else
      var n := Value(b[..8]);
      match ParseFields(b[8 + n..])
      case None => None
      case Some(rest) => Some([b[8..8 + n]] + rest)
  }

  lemma {:induction false} EncodeFromFront(f: Slice, rest: seq<Slice>)
    ensures Encode([f] + rest) == Field(f) + Encode(rest)
  {
    if rest == [] {
      assert [f] + rest == [f];
      assert Encode([f][..0]) == [];
    } else {
      var n := |rest| - 1;
      EncodeFromFront(f, rest[..n]);
      assert ([f] + rest)[..n + 1] == [f] + rest[..n];
      assert Field(f) + (Encode(rest[..n]) + Field(rest[n])) == Field(f) + Encode(rest[..n]) + Field(rest[n]);
    }
  }

  /** Parsing undoes encoding. */
  lemma {:induction false} ParseOfEncode(fields: seq<Slice>)
    ensures ParseFields(Encode(fields)) == Some(fields)
  {
    if fields != [] {
      var f, rest := fields[0], fields[1..];
      ParseOfEncode(rest);
      EncodeFromFront(f, rest);
      assert fields == [f] + rest;
      var b := Encode(fields);
      Pow256Is64Bits();
      ValueOfBigEndian(|f|, 8);
      assert b[..8] == U64Bytes(|f|);
      assert b[8..8 + |f|] == f;
      assert b[8 + |f|..] == Encode(rest);
    }
  }

  lemma InThreeParts(b: seq<byte>, i: nat, j: nat)
    requires i <= j <= |b|
    ensures b == b[..i] + b[i..j] + b[j..]
  {
  }

  /** Encoding undoes parsing: a buffer that parses has no other spelling. */
  lemma {:induction false} EncodeOfParse(b: seq<byte>)
    requires ParseFields(b).Some?
    ensures Encode(ParseFields(b).value) == b
    decreases |b|
  {
    if b != [] {
      var n := Value(b[..8]);
      EncodeOfParse(b[8 + n..]);
      FirstFieldOf(b, n, ParseFields(b[8 + n..]).value);
    }
  }

  lemma FirstFieldOf(b: seq<byte>, n: nat, rest: seq<Slice>)
    requires 8 + n <= |b| && n < U64_LIMIT && n == Value(b[..8])
    requires Encode(rest) == b[8 + n..]
    ensures Encode([b[8..8 + n]] + rest) == b
  {
    hide Encode, Value, BigEndian;
    EncodeFromFront(b[8..8 + n], rest);
    BigEndianOfValue(b[..8]);
    InThreeParts(b, 8, 8 + n);
  }

  /** The fields can be read off the bytes, and the bytes off the fields. */
  lemma EncodingIsUnambiguous(xs: seq<Slice>, ys: seq<Slice>)
    ensures Encode(xs) == Encode(ys) <==> xs == ys
  {
    ParseOfEncode(xs);
    ParseOfEncode(ys);
  }
}
