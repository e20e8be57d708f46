/** Merkle anchors: one root over the entry hashes of a range of the log, and proofs by sequence number. */
module MerkleAnchors {
  import opened Bytes
  import opened Encoding
  import opened Entries
  import opened Hashing
  import opened Merkle
  import opened Messages
  import opened Signing
  import opened Verify
  import opened Wrappers

  datatype MerkleAnchor = MerkleAnchor(
    fromSeq: u64, toSeq: u64, count: u64, root: Str, timestamp: i64, publicKey: Str, signature: Str)

  function Claim(anchor: MerkleAnchor): Message {
    AnchorMessage(anchor.fromSeq, anchor.toSeq, anchor.count, anchor.root, anchor.timestamp)
  }

  function Leaves(entries: seq<Entry>): (leaves: seq<seq<byte>>)
    ensures |leaves| == |entries|
  {
    seq(|entries|, i requires 0 <= i < |entries| => entries[i].entryHash)
  }

  method BuildMerkleAnchor(lib: Lib, signer: Signer, entries: seq<Entry>, timestamp: i64)
    returns (anchor: MerkleAnchor)
    requires |entries| <= MAX_LEAVES
    ensures anchor.root == MerkleRoot(lib.hash, Leaves(entries))
    ensures anchor.count == |entries| && anchor.timestamp == timestamp
    ensures anchor.fromSeq == if entries == [] then 0 else entries[0].seqNo
    ensures anchor.toSeq == if entries == [] then 0 else entries[|entries| - 1].seqNo
    ensures anchor.publicKey == signer.publicKey
    ensures Claim(anchor) == AnchorMessage(anchor.fromSeq, anchor.toSeq, anchor.count, anchor.root, anchor.timestamp)
    ensures anchor.signature == signer.sign(Encode(Fields(lib, Claim(anchor))))
    ensures forall scheme :: Honours(scheme, signer) ==>
              Judge(scheme, anchor.publicKey, Encode(Fields(lib, Claim(anchor))), anchor.signature).Ok?
  {
    hide Mth, Encode, Fields;
    var tree := ComputeMth(lib.hash, Leaves(entries));
    var root := ToHex(tree);
    var fromSeq := if |entries| > 0 then entries[0].seqNo else 0;
    var toSeq := if |entries| > 0 then entries[|entries| - 1].seqNo else 0;
    var signed := BuildAnchorMessage(lib, fromSeq, toSeq, |entries|, root, timestamp);
    anchor := MerkleAnchor(fromSeq, toSeq, |entries|, root, timestamp, signer.publicKey, signer.sign(signed));
  }

  /** The signature must cover range, count, root and time, under the anchor's own key. */
  method VerifyMerkleAnchor(lib: Lib, scheme: Scheme, anchor: MerkleAnchor) returns (r: Result<()>)
    ensures Claim(anchor) == AnchorMessage(anchor.fromSeq, anchor.toSeq, anchor.count, anchor.root, anchor.timestamp)
    ensures r == Judge(scheme, anchor.publicKey, Encode(Fields(lib, Claim(anchor))), anchor.signature)
  {
    hide Encode, Fields;
    var bytes := BuildAnchorMessage(lib, anchor.fromSeq, anchor.toSeq, anchor.count, anchor.root, anchor.timestamp);
    r := VerifySignature(scheme, anchor.publicKey, bytes, anchor.signature);
  }

  /**
   From a signature to an entry: if the key's holder issued anchors for this range only over its log
   `entries`, then under an accepted anchor exactly the proofs of that log's entry hashes pass.
   */
  lemma AnchoredLeafIsEntry(lib: Lib, scheme: Scheme, issued: set<Message>, key: seq<byte>, anchor: MerkleAnchor,
                            entries: seq<Entry>, leaf: seq<byte>, proof: MerkleProof)
    requires InjectivePayload(lib) && Unforged(lib, scheme, key, issued, anchor.signature)
    requires forall m :: m in issued && m.AnchorMessage? && m.fromSeq == anchor.fromSeq && m.toSeq == anchor.toSeq ==>
               m.root == MerkleRoot(lib.hash, Leaves(entries))
    requires scheme.readKey(anchor.publicKey) == Ok(key)
    requires Judge(scheme, anchor.publicKey, Encode(Fields(lib, Claim(anchor))), anchor.signature).Ok?
    requires ReadPath(proof.path).Ok?
    requires InjectiveOn(lib.hash, FoldInputs(lib.hash, leaf, ReadPath(proof.path).value)
                                   + RootInputs(lib.hash, Leaves(entries)))
    ensures Claim(anchor) in issued
    ensures Verdict(lib.hash, leaf, proof, anchor.root) == Ok(true) <==>
            exists j: nat :: j < |entries| && leaf == entries[j].entryHash
                             && ReadPath(proof.path) == Ok(Path(lib.hash, Leaves(entries), j))
  {
    hide Encode, Fields, ReadPath, FoldInputs, RootInputs, MerkleRoot, Verdict, Path, Unforged;
    AcceptedWasIssued(lib, scheme, key, issued, Claim(anchor), anchor.signature);
    OnlyHonestProofsPass(lib.hash, Leaves(entries), leaf, proof);
    assert forall j: nat :: j < |entries| ==> Leaves(entries)[j] == entries[j].entryHash;
  }

  /** The proof for the first entry with this sequence number, if there is one. */
  method MerkleProofForSeq(lib: Lib, entries: seq<Entry>, seqNo: u64) returns (proof: Option<MerkleProof>)
    requires |entries| <= MAX_LEAVES
    ensures proof.None? <==> forall i :: 0 <= i < |entries| ==> entries[i].seqNo != seqNo
    ensures proof.Some? ==>
      && var at := proof.value.leafIndex;
      && at < |entries| && entries[at].seqNo == seqNo
      && (forall i :: 0 <= i < at ==> entries[i].seqNo != seqNo)
      && proof.value.leafCount == |entries|
      && ReadPath(proof.value.path) == Ok(Path(lib.hash, Leaves(entries), at))
      && Verdict(lib.hash, entries[at].entryHash, proof.value, MerkleRoot(lib.hash, Leaves(entries))) == Ok(true)
  {
    hide ReadPath, Path, Verdict, MerkleRoot;
    for i := 0 to |entries|
      invariant forall k :: 0 <= k < i ==> entries[k].seqNo != seqNo
    {
      if entries[i].seqNo == seqNo {
        proof := BuildProof(lib.hash, Leaves(entries), i);
        return;
      }
    }
    proof := None;
  }

  /**
   On a verified log, sequence numbers are positions: exactly the numbers in range have a proof,
   each at its offset from the first, and an anchor's count is the length of its range.
   */
  lemma RangeOfVerifiedLog(lib: Lib, start: Option<Anchor>, entries: seq<Entry>, seqNo: u64, at: nat)
    requires ValidFrom(lib, start, entries) && entries != []
    requires FirstSeq(start) + |entries| <= U64_LIMIT
    ensures var fromSeq, toSeq := entries[0].seqNo, entries[|entries| - 1].seqNo;
            && |entries| == toSeq - fromSeq + 1
            && (at < |entries| && entries[at].seqNo == seqNo <==> fromSeq <= seqNo <= toSeq && at == seqNo - fromSeq)
  {
    SeqTellsPosition(lib, start, entries, 0);
    SeqTellsPosition(lib, start, entries, |entries| - 1);
    if at < |entries| {
      SeqTellsPosition(lib, start, entries, at);
    }
  }

  /** The three operations together, on any verified log: build the anchor, build the proof, check it. */
  method AnchorThenProve(lib: Lib, signer: Signer, ghost start: Option<Anchor>, entries: seq<Entry>,
                         seqNo: u64, timestamp: i64)
    returns (inRange: bool, index: nat, accepted: bool)
    requires ValidFrom(lib, start, entries) && 0 < |entries| <= MAX_LEAVES
    requires FirstSeq(start) + |entries| <= U64_LIMIT
    ensures inRange <==> FirstSeq(start) <= seqNo < FirstSeq(start) + |entries|
    ensures inRange ==> index == seqNo - FirstSeq(start) && accepted
  {
    hide ReadPath, Path, Verdict, MerkleRoot, ParseFields, Fields, Fits;
    SeqTellsPosition(lib, start, entries, 0);
    var anchor := BuildMerkleAnchor(lib, signer, entries, timestamp);
    var proof := MerkleProofForSeq(lib, entries, seqNo);
    if proof.None? {
      ghost var offset := seqNo - FirstSeq(start);
      if 0 <= offset < |entries| {
        RangeOfVerifiedLog(lib, start, entries, seqNo, offset);
      }
      return false, 0, false;
    }
    index := proof.value.leafIndex;
    RangeOfVerifiedLog(lib, start, entries, seqNo, index);
    var verdict := VerifyMerkleProof(lib.hash, entries[index].entryHash, proof.value, anchor.root);
    inRange, accepted := true, verdict == Ok(true);
  }

  function CanonicalForm(lib: Lib, es: seq<Entry>, i: nat): seq<byte>
    requires i < |es|
  {
    CanonicalBytes(lib, es[i])
  }

  /**
   One root commits to whole entries. Two lists whose hashes match their contents and whose
   roots agree are the same list, as far as hashes can see, or two hashed strings collide:
   two tree inputs, or the canonical bytes at one position.
   */
  lemma RootPinsEntries(lib: Lib, xs: seq<Entry>, ys: seq<Entry>)
    requires InjectivePayload(lib)
    requires forall e :: e in xs || e in ys ==> HashMatches(lib, e)
    requires MerkleRoot(lib.hash, Leaves(xs)) == MerkleRoot(lib.hash, Leaves(ys))
    requires InjectiveOn(lib.hash, RootInputs(lib.hash, Leaves(xs)) + RootInputs(lib.hash, Leaves(ys)))
    requires forall i :: 0 <= i < |xs| && i < |ys| ==>
               InjectiveOn(lib.hash, {CanonicalForm(lib, xs, i), CanonicalForm(lib, ys, i)})
    ensures |xs| == |ys|
    ensures forall i :: 0 <= i < |xs| ==> Content(xs[i]) == Content(ys[i])
  {
    hide Mth, RootInputs, CanonicalBytes, Content;
    ToHexInjective(Mth(lib.hash, Leaves(xs)), Mth(lib.hash, Leaves(ys)));
    var difference := ExtractDifference(lib.hash, Leaves(xs), Leaves(ys));
    assert Leaves(xs) == Leaves(ys);
    forall i | 0 <= i < |xs|
      ensures Content(xs[i]) == Content(ys[i])
    {
      assert Leaves(xs)[i] == Leaves(ys)[i];
      assert xs[i] in xs && ys[i] in ys;
      assert InjectiveOn(lib.hash, {CanonicalForm(lib, xs, i), CanonicalForm(lib, ys, i)});
      EqualHashesBind(lib, xs[i], ys[i]);
    }
  }
}
