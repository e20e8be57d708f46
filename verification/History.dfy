/** What a head hash says about everything before it. */
module History {
  import opened Bytes
  import opened Entries
  import opened Encoding
  import opened Hashing
  import opened Messages
  import opened Verify
  import opened Wrappers

  /** Two histories that tell the same story, as far as hashes can see. */
  ghost predicate SameHistory(xs: seq<Entry>, ys: seq<Entry>) {
    && |xs| == |ys|
    && forall i :: 0 <= i < |xs| ==> Content(xs[i]) == Content(ys[i]) && xs[i].entryHash == ys[i].entryHash
  }

  function CanonicalForms(lib: Lib, es: seq<Entry>): set<seq<byte>> {
    set e | e in es :: CanonicalBytes(lib, e)
  }

  /** Two chains from one start, whose numbers do not wrap. */
  ghost predicate TwoChains(lib: Lib, start: Option<Anchor>, xs: seq<Entry>, ys: seq<Entry>) {
    && InjectivePayload(lib)
    && ValidFrom(lib, start, xs) && ValidFrom(lib, start, ys)
    && FirstSeq(start) + |xs| <= U64_LIMIT && FirstSeq(start) + |ys| <= U64_LIMIT
  }

  /**
   Given two chains with one head, walks both backwards. Either they are the same history, or
   the walk stops at two different byte strings, one hashed for each chain, with one hash.
   */
  ghost function ExtractFork(lib: Lib, start: Option<Anchor>, xs: seq<Entry>, ys: seq<Entry>)
    : (fork: Option<Collision>)
    requires TwoChains(lib, start, xs, ys)
    requires xs != [] && ys != [] && xs[|xs| - 1].entryHash == ys[|ys| - 1].entryHash
    ensures fork.None? ==> SameHistory(xs, ys)
    ensures fork.Some? ==>
      && Collides(lib.hash, fork.value)
      && fork.value.x in CanonicalForms(lib, xs) && fork.value.y in CanonicalForms(lib, ys)
    decreases |xs|
  {
    hide Content, CanonicalBytes, CanonicalForms, TwoChains, SameHistory;
    var m, n := |xs| - 1, |ys| - 1;
    CompareHeads(lib, start, xs, ys);
    if Content(xs[m]) != Content(ys[n]) then
      Some(Collision(CanonicalBytes(lib, xs[m]), CanonicalBytes(lib, ys[n])))
    else
      LastOfSame(xs, ys);
      if m == 0 then None
      else
        PrefixForms(lib, xs, m);
        PrefixForms(lib, ys, n);
        ExtractFork(lib, start, xs[..m], ys[..n])
  }

  lemma LastOfSame(xs: seq<Entry>, ys: seq<Entry>)
    requires |xs| == |ys| > 0
    requires var n := |xs| - 1;
             Content(xs[n]) == Content(ys[n]) && xs[n].entryHash == ys[n].entryHash
    ensures |xs| == 1 || SameHistory(xs[..|xs| - 1], ys[..|ys| - 1]) ==> SameHistory(xs, ys)
  {
    hide Content;
    if |xs| == 1 || SameHistory(xs[..|xs| - 1], ys[..|ys| - 1]) {
      forall i | 0 <= i < |xs|
        ensures Content(xs[i]) == Content(ys[i]) && xs[i].entryHash == ys[i].entryHash
      {
        if i < |xs| - 1 {
          assert xs[..|xs| - 1][i] == xs[i] && ys[..|ys| - 1][i] == ys[i];
        }
      }
    }
  }

  /** One step back: the last entries agree, and then so do the heads before them, or they collide. */
  lemma CompareHeads(lib: Lib, start: Option<Anchor>, xs: seq<Entry>, ys: seq<Entry>)
    requires TwoChains(lib, start, xs, ys)
    requires xs != [] && ys != [] && xs[|xs| - 1].entryHash == ys[|ys| - 1].entryHash
    ensures var m, n := |xs| - 1, |ys| - 1;
            if Content(xs[m]) == Content(ys[n]) then
              m == n && (m > 0 ==> xs[m - 1].entryHash == ys[n - 1].entryHash)
            else
              && Collides(lib.hash, Collision(CanonicalBytes(lib, xs[m]), CanonicalBytes(lib, ys[n])))
              && CanonicalBytes(lib, xs[m]) in CanonicalForms(lib, xs)
              && CanonicalBytes(lib, ys[n]) in CanonicalForms(lib, ys)
    ensures TwoChains(lib, start, xs[..|xs| - 1], ys[..|ys| - 1])
  {
    hide CanonicalBytes, Content, ValidFrom, EntryHash;
    var m, n := |xs| - 1, |ys| - 1;
    EntryOfChain(lib, start, xs, m);
    EntryOfChain(lib, start, ys, n);
    EqualHashesBind(lib, xs[m], ys[n]);
    if Content(xs[m]) == Content(ys[n]) {
      ContentTellsLink(xs[m], ys[n]);
    }
    ValidPrefix(lib, start, xs, m);
    ValidPrefix(lib, start, ys, n);
  }

  lemma EntryOfChain(lib: Lib, start: Option<Anchor>, es: seq<Entry>, k: nat)
    requires ValidFrom(lib, start, es) && k < |es| && FirstSeq(start) + |es| <= U64_LIMIT
    ensures HashMatches(lib, es[k]) && es[k].seqNo == FirstSeq(start) + k
    ensures k > 0 ==> es[k].prevHash == es[k - 1].entryHash
  {
    hide HashMatches;
    assert Fits(lib, start, es, k);
    SeqTellsPosition(lib, start, es, k);
  }

  lemma ContentTellsLink(x: Entry, y: Entry)
    requires Content(x) == Content(y)
    ensures x.seqNo == y.seqNo && x.prevHash == y.prevHash
  {
  }

  lemma ValidPrefix(lib: Lib, start: Option<Anchor>, es: seq<Entry>, k: nat)
    requires ValidFrom(lib, start, es) && k <= |es|
    ensures ValidFrom(lib, start, es[..k])
  {
    assert es == es[..k] + es[k..];
    ValidConcat(lib, start, es[..k], es[k..]);
  }

  lemma PrefixForms(lib: Lib, es: seq<Entry>, k: nat)
    requires k <= |es|
    ensures CanonicalForms(lib, es[..k]) <= CanonicalForms(lib, es)
  {
    hide CanonicalBytes;
    assert forall e :: e in es[..k] ==> e in es;
  }

  /**
   As long as the hash keeps the finitely many canonical forms at hand apart, the head decides
   the history: it is equal exactly when everything before it is.
   */
  lemma HeadPinsHistory(lib: Lib, start: Option<Anchor>, xs: seq<Entry>, ys: seq<Entry>)
    requires TwoChains(lib, start, xs, ys) && xs != [] && ys != []
    requires InjectiveOn(lib.hash, CanonicalForms(lib, xs) + CanonicalForms(lib, ys))
    ensures HeadOf(xs) == HeadOf(ys) <==> SameHistory(xs, ys)
    ensures xs[|xs| - 1].entryHash == ys[|ys| - 1].entryHash <==> SameHistory(xs, ys)
  {
    hide CanonicalForms;
    if xs[|xs| - 1].entryHash == ys[|ys| - 1].entryHash {
      var fork := ExtractFork(lib, start, xs, ys);
      assert fork.None?;
    }
    if SameHistory(xs, ys) {
      var last := |xs| - 1;
      assert Content(xs[last]) == Content(ys[last]);
    }
  }

  /**
   A signed checkpoint pins the history before it: the bytes that were signed name the number and
   the hash of the head, and so, on chains that verify from one start, everything up to there.
   */
  lemma CheckpointPinsHistory(lib: Lib, start: Option<Anchor>, xs: seq<Entry>, ys: seq<Entry>, t: i64, t': i64)
    requires TwoChains(lib, start, xs, ys) && xs != [] && ys != []
    requires InjectiveOn(lib.hash, CanonicalForms(lib, xs) + CanonicalForms(lib, ys))
    ensures var x, y := xs[|xs| - 1], ys[|ys| - 1];
            var m, n := CheckpointMessage(x.seqNo, x.entryHash, t), CheckpointMessage(y.seqNo, y.entryHash, t');
            Encode(Fields(lib, m)) == Encode(Fields(lib, n)) <==> SameHistory(xs, ys) && t == t'
  {
    hide CanonicalForms, Encode, Fields, ValidFrom, SameHistory;
    var x, y := xs[|xs| - 1], ys[|ys| - 1];
    var m, n := CheckpointMessage(x.seqNo, x.entryHash, t), CheckpointMessage(y.seqNo, y.entryHash, t');
    MessagesNeverCoincide(lib, m, n);
    HeadPinsHistory(lib, start, xs, ys);
  }
}
