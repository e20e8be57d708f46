/**
 The writer of `log.rs` over the segmented store, with reopening and pruning: one state machine
 whose every run keeps the retained segments a verifiable suffix of all acknowledged entries.
 */
module Retention {
  import opened Bytes
  import opened Entries
  import opened Hashing
  import opened Pruning
  import SegmentNames
  import opened Segments
  import opened Store
  import opened Verify
  import opened Wrappers

  // ---------- One record ----------

  /** The entry that the writer seals for a record. */
  function MakeEntry(lib: Lib, seqNo: u64, prevHash: Str, r: Record, pii: Option<EncryptedPii>, now: i64): (e: Entry)
    ensures HashMatches(lib, e)
    ensures e.seqNo == seqNo && e.prevHash == prevHash && e.timestamp == now
    ensures e.actor == r.actor && e.eventType == r.eventType && e.outcome == r.outcome
    ensures e.instructionId == r.instructionId && e.payload == Payload(r.data, pii)
  {
    var e := Entry(seqNo, now, r.eventType, r.outcome, r.actor, r.instructionId, Payload(r.data, pii), prevHash, []);
    SealingIgnoresHash(lib, e, EntryHash(lib, e));
    e.(entryHash := EntryHash(lib, e))
  }

  lemma SealingIgnoresHash(lib: Lib, e: Entry, hash: Str)
    ensures EntryHash(lib, e.(entryHash := hash)) == EntryHash(lib, e)
  {
    assert CanonicalFields(lib, e.(entryHash := hash)) == CanonicalFields(lib, e);
  }

  /** The outcome of encrypting a record's private part: an error, or the bundle, if there is any. */
  function SealPii(r: Record, sealed: Result<EncryptedPii>): Result<Option<EncryptedPii>> {
    if r.pii.None? then Ok(None)
    else match sealed case Ok(p) => Ok(Some(p)) case Err(error) => Err(error)
  }

  // ---------- The state machine ----------

  /** `history` is every entry acknowledged so far, pruned or not. */
  datatype Sys = Sys(segs: seq<Seg>, store: StoreState, seqNo: u64, prevHash: Str, history: seq<Entry>)

  datatype Op =
    | Append(record: Record, sealed: Result<EncryptedPii>, now: i64, fault: Fault)
    | Reopen(max: u64)
    | Prune(boundary: u64, removals: nat)
    | PruneByTime(cutoff: i64, removals: nat)

  function Process(lib: Lib, s: Sys, r: Record, sealed: Result<EncryptedPii>, now: i64, fault: Fault)
    : (Sys, Result<Receipt>)
    requires s.segs != []
  {
    match SealPii(r, sealed)
    case Err(error) => (s, Err(error))
    case Ok(pii) =>
      var e := MakeEntry(lib, Succ(s.seqNo), s.prevHash, r, pii, now);
      var (segs, store, ok) := Appended(s.segs, s.store, e, fault);
      if ok then (Sys(segs, store, e.seqNo, e.entryHash, s.history + [e]), Ok(ReceiptOf(e)))
      else (s.(segs := segs, store := store), Err(Io))
  }

  /** What the writer stores and answers for a record, said of the entry itself. */
  ghost predicate Seals(lib: Lib, e: Entry, r: Record, sealed: Result<EncryptedPii>, now: i64) {
    && e.eventType == r.eventType && e.outcome == r.outcome && e.actor == r.actor
    && e.instructionId == r.instructionId && e.timestamp == now
    && (r.pii.Some? ==> sealed.Ok?)
    && e.payload == Payload(r.data, if r.pii.None? then None else Some(sealed.value))
    && e.entryHash == EntryHash(lib, e)
  }

  /**
   When an append succeeds, and what it adds: the record as it was asked for, with its private part
   encrypted, under the next number and after the previous hash. A failed encryption changes nothing.
   */
  lemma ProcessSeals(lib: Lib, s: Sys, r: Record, sealed: Result<EncryptedPii>, now: i64, fault: Fault)
    requires s.segs != []
    ensures var (t, answer) := Process(lib, s, r, sealed, now, fault);
            && (answer.Ok? <==> !(r.pii.Some? && sealed.Err?) && fault != WriteFails
                                && !(fault == RotateFails && s.store.curCount >= s.store.max))
            && (r.pii.Some? && sealed.Err? ==> answer == Err(sealed.error) && t == s)
            && (answer.Err? ==> t.history == s.history && t.seqNo == s.seqNo && t.prevHash == s.prevHash)
            && (answer.Ok? ==>
                  && |t.history| == |s.history| + 1 && t.history[..|s.history|] == s.history
                  && var e := t.history[|s.history|];
                  && Seals(lib, e, r, sealed, now)
                  && e == MakeEntry(lib, Succ(s.seqNo), s.prevHash, r, SealPii(r, sealed).value, now)
                  && e.seqNo == (s.seqNo + 1) % U64_LIMIT && e.prevHash == s.prevHash
                  && answer == Ok(Receipt(e.seqNo, e.timestamp, e.entryHash, e.prevHash))
                  && t.seqNo == e.seqNo && t.prevHash == e.entryHash
                  && t.segs != [] && Last(t.segs).entries != [] && Last(Last(t.segs).entries) == e)
  {
    hide EntryHash;
  }

  /** Where a builder resumes from a store's tail. */
  function Resume(tail: Option<Anchor>): (u64, Str) {
    match tail
    case None => (0, GENESIS_PREV_HASH)
    case Some(a) => (a.seqNo, a.hash)
  }

  /** A zero limit is refused, and the caller keeps what it had. */
  function Reopened(s: Sys, max: u64): Sys {
    if max == 0 then s
    else
      var st := OpenedState(s.segs, max);
      var (seqNo, prevHash) := Resume(st.tail);
      Sys(OpenedSegs(s.segs), st, seqNo, prevHash, s.history)
  }

  function SweepLength(segs: seq<Seg>, boundary: u64, removals: nat): (j: nat)
    ensures segs != [] ==> j < |segs|
    ensures segs == [] ==> j == 0
  {
    var k := Dropped(segs, boundary);
    if removals < k then removals else k
  }

  function Pruned(s: Sys, boundary: u64, removals: nat): Sys {
    s.(segs := s.segs[SweepLength(s.segs, boundary, removals)..])
  }

  function PrunedByTime(s: Sys, cutoff: i64, removals: nat): Sys {
    match FindBoundary(Flat(s.segs), cutoff)
    case None => s
    case Some(boundary) => Pruned(s, boundary, removals)
  }

  function Step(lib: Lib, s: Sys, op: Op): (t: Sys)
    requires s.segs != []
    ensures t.segs != []
  {
    match op
    case Append(r, sealed, now, fault) => Process(lib, s, r, sealed, now, fault).0
    case Reopen(max) => Reopened(s, max)
    case Prune(boundary, removals) => Pruned(s, boundary, removals)
    case PruneByTime(cutoff, removals) => PrunedByTime(s, cutoff, removals)
  }

  /** A sweep by number must not reach an empty last segment. Nothing else is guarded. */
  predicate Allowed(s: Sys, op: Op)
    requires s.segs != []
  {
    op.Prune? ==> KeepsAnEntry(s.segs, op.boundary)
  }

  /** How many of the oldest entries are gone. */
  function Cut(history: seq<Entry>, segs: seq<Seg>): int {
    |history| - |Flat(segs)|
  }

  /** The last entry that is gone, if any is: the point that what is left verifies from. */
  function LastGone(history: seq<Entry>, segs: seq<Seg>): Option<Anchor> {
    if 0 <= Cut(history, segs) <= |history| then HeadOf(history[..Cut(history, segs)]) else None
  }

  /** The retained segments are a well-laid suffix of a valid history, and not an empty one. */
  ghost predicate Retained(lib: Lib, history: seq<Entry>, segs: seq<Seg>) {
    && ValidFrom(lib, None, history) && |history| < U64_LIMIT
    && 0 <= Cut(history, segs) && history[Cut(history, segs)..] == Flat(segs)
    && Laid(lib, After(None, history[..Cut(history, segs)]), segs)
    && (history != [] ==> Flat(segs) != [])
  }

  ghost predicate Inv(lib: Lib, s: Sys) {
    && Retained(lib, s.history, s.segs)
    && s.seqNo == |s.history| && (s.seqNo, s.prevHash) == Resume(HeadOf(s.history))
    && s.store.max > 0
    && s.segs != [] && s.store.curFirst == Last(s.segs).first && s.store.curCount == |Last(s.segs).entries|
    && s.store.tail == HeadOf(s.history)
  }

  // ---------- Appending ----------

  lemma NextNumber(lib: Lib, history: seq<Entry>, segs: seq<Seg>)
    requires Retained(lib, history, segs)
    ensures var start := After(None, history[..Cut(history, segs)]);
            && FirstSeq(start) == Cut(history, segs) + 1
            && FirstSeq(start) + |Flat(segs)| == |history| + 1
            && After(start, Flat(segs)) == HeadOf(history)
  {
    hide Fits, Flat, Laid;
    var k := Cut(history, segs);
    if k > 0 {
      SeqTellsPosition(lib, None, history, k - 1);
    }
    assert history == history[..k] + history[k..];
  }

  lemma FlatWithNewLast(segs: seq<Seg>, last: Seg)
    ensures Flat(segs + [last]) == Flat(segs) + last.entries
    ensures forall i :: 0 <= i <= |segs| ==> (segs + [last])[..i] == segs[..i]
  {
    assert (segs + [last])[..|segs|] == segs;
  }

  lemma LaidWithNewSegment(lib: Lib, start: Option<Anchor>, segs: seq<Seg>, first: u64)
    requires Laid(lib, start, segs) && Last(segs).entries != []
    requires first == FirstSeq(start) + |Flat(segs)|
    ensures Laid(lib, start, segs + [Seg(first, [])]) && Flat(segs + [Seg(first, [])]) == Flat(segs)
  {
    hide ValidFrom, Flat;
    var segs' := segs + [Seg(first, [])];
    FlatWithNewLast(segs, Seg(first, []));
    assert Flat(segs') == Flat(segs);
    assert segs[..|segs|] == segs;
    forall i | 0 <= i < |segs'| - 1
      ensures segs'[i].entries != []
    {
      assert segs'[i] == segs[i];
      assert i < |segs| - 1 || segs[i] == Last(segs);
    }
    forall i | 0 <= i < |segs'|
      ensures segs'[i].first == FirstSeq(start) + |Flat(segs'[..i])|
    {
      assert segs'[..i] == segs[..i];
    }
  }

  lemma LaidWithNewEntry(lib: Lib, start: Option<Anchor>, segs: seq<Seg>, e: Entry)
    requires Laid(lib, start, segs)
    requires HashMatches(lib, e) && Follows(After(start, Flat(segs)), e)
    requires FirstSeq(start) + |Flat(segs)| + 1 <= U64_LIMIT
    ensures var n := |segs| - 1;
            var segs' := segs[n := Seg(segs[n].first, segs[n].entries + [e])];
            Laid(lib, start, segs') && Flat(segs') == Flat(segs) + [e]
  {
    var n := |segs| - 1;
    var segs' := segs[n := Seg(segs[n].first, segs[n].entries + [e])];
    hide HashMatches, Follows, Flat;
    ReplaceLastFlat(segs, e);
    ExtendValid(lib, start, Flat(segs), e);
    hide ValidFrom;
    forall i | 0 <= i < |segs'|
      ensures segs'[i].first == FirstSeq(start) + |Flat(segs'[..i])|
    {
      assert segs'[..i] == segs[..i];
    }
  }

  lemma ExtendValid(lib: Lib, start: Option<Anchor>, es: seq<Entry>, e: Entry)
    requires ValidFrom(lib, start, es) && HashMatches(lib, e) && Follows(After(start, es), e)
    ensures ValidFrom(lib, start, es + [e])
  {
    hide HashMatches, Follows;
    assert Fits(lib, After(start, es), [e], 0);
    ValidConcat(lib, start, es, [e]);
  }

  lemma RotationRetains(lib: Lib, history: seq<Entry>, segs: seq<Seg>, first: u64)
    requires Retained(lib, history, segs) && segs != [] && Last(segs).entries != []
    requires first == |history| + 1
    ensures Last(segs).first < first
    ensures Retained(lib, history, segs + [Seg(first, [])])
  {
    hide Fits, Flat, Laid;
    NextNumber(lib, history, segs);
    LaidWithNewSegment(lib, After(None, history[..Cut(history, segs)]), segs, first);
    LastIsBelowNext(lib, After(None, history[..Cut(history, segs)]), segs);
  }

  lemma LastIsBelowNext(lib: Lib, start: Option<Anchor>, segs: seq<Seg>)
    requires Laid(lib, start, segs)
    ensures Last(segs).first + |Last(segs).entries| == FirstSeq(start) + |Flat(segs)|
  {
    hide Fits, Flat;
    var n := |segs| - 1;
    FlatNext(segs, n);
    assert segs[..n + 1] == segs;
    assert segs[n].first == FirstSeq(start) + |Flat(segs[..n])|;
  }

  lemma WriteRetains(lib: Lib, history: seq<Entry>, segs: seq<Seg>, e: Entry)
    requires Retained(lib, history, segs) && segs != [] && |history| + 1 < U64_LIMIT
    requires HashMatches(lib, e) && Follows(HeadOf(history), e)
    ensures var n := |segs| - 1;
            Retained(lib, history + [e], segs[n := Seg(segs[n].first, segs[n].entries + [e])])
  {
    hide HashMatches, Flat, Laid;
    var k := Cut(history, segs);
    NextNumber(lib, history, segs);
    LaidWithNewEntry(lib, After(None, history[..k]), segs, e);
    ExtendValid(lib, None, history, e);
    hide ValidFrom;
    assert (history + [e])[..k] == history[..k];
    assert (history + [e])[k..] == history[k..] + [e];
  }

  lemma CountFits(lib: Lib, s: Sys)
    requires Inv(lib, s) && |s.history| + 1 < U64_LIMIT
    ensures Succ(s.seqNo) == |s.history| + 1
    ensures Succ(s.store.curCount) == |Last(s.segs).entries| + 1
  {
    hide Laid, Flat, ValidFrom, After;
    LastFitsInFlat(s.segs);
  }

  lemma WriteKeepsInv(lib: Lib, s: Sys, e: Entry)
    requires Inv(lib, s) && |s.history| + 1 < U64_LIMIT
    requires HashMatches(lib, e) && e.seqNo == Succ(s.seqNo) && e.prevHash == s.prevHash
    ensures var n := |s.segs| - 1;
            var segs := s.segs[n := Seg(s.segs[n].first, s.segs[n].entries + [e])];
            var store := s.store.(curCount := Succ(s.store.curCount), tail := Some(AnchorOf(e)));
            Inv(lib, Sys(segs, store, e.seqNo, e.entryHash, s.history + [e]))
  {
    hide HashMatches, Retained;
    CountFits(lib, s);
    WriteRetains(lib, s.history, s.segs, e);
  }

  lemma RotationKeepsInv(lib: Lib, s: Sys)
    requires Inv(lib, s) && s.store.curCount >= s.store.max && |s.history| + 1 < U64_LIMIT
    ensures var first := Succ(s.seqNo);
            && Last(s.segs).first < first
            && Inv(lib, s.(segs := s.segs + [Seg(first, [])], store := s.store.(curFirst := first, curCount := 0)))
  {
    hide Retained;
    CountFits(lib, s);
    RotationRetains(lib, s.history, s.segs, Succ(s.seqNo));
  }

  /** Appending, failing to append, and rotating before failing all keep the invariant. */
  lemma AppendKeepsInv(lib: Lib, s: Sys, r: Record, sealed: Result<EncryptedPii>, now: i64, fault: Fault)
    requires Inv(lib, s) && |s.history| + 1 < U64_LIMIT
    ensures Inv(lib, Process(lib, s, r, sealed, now, fault).0)
    ensures s.store.curCount >= s.store.max ==> Last(s.segs).first < Succ(s.seqNo)
  {
    hide Inv, MakeEntry;
    if s.store.curCount >= s.store.max {
      RotationKeepsInv(lib, s);
    }
    match SealPii(r, sealed) {
      case Err(_) =>
      case Ok(pii) =>
        var e := MakeEntry(lib, Succ(s.seqNo), s.prevHash, r, pii, now);
        if !(s.store.curCount >= s.store.max && fault == RotateFails) {
          var (segs, store) := Rotated(s.segs, s.store, e);
          WriteKeepsInv(lib, s.(segs := segs, store := store), e);
        }
    }
  }

  // ---------- Reopening ----------

  lemma OpenedIsInv(lib: Lib, max: u64)
    requires max > 0
    ensures Inv(lib, Opened(max))
  {
    hide Retained;
    FreshIsRetained(lib);
  }

  lemma FreshIsRetained(lib: Lib)
    ensures Retained(lib, [], [Seg(1, [])])
  {
    hide Laid, ValidFrom;
    FreshIsLaid(lib);
    assert Flat([Seg(1, [])]) == [];
  }

  lemma FreshIsLaid(lib: Lib)
    ensures Laid(lib, None, [Seg(1, [])]) && ValidFrom(lib, None, [])
  {
    hide Fits;
    assert Flat([Seg(1, [])]) == [];
  }

  /** A fresh writer on an empty directory. */
  function Opened(max: u64): (s: Sys)
    ensures s.segs != []
  {
    Sys([Seg(1, [])], StoreState(max, 1, 0, None), 0, GENESIS_PREV_HASH, [])
  }

  /**
   Reopening recovers everything from the files: with the same limit it is the identity, even
   after a rotation that left the last segment empty.
   */
  lemma ReopenIsIdentity(lib: Lib, s: Sys, max: u64)
    requires Inv(lib, s)
    ensures Reopened(s, max) == if max == 0 then s else s.(store := s.store.(max := max))
  {
    TailIsHeadOfHistory(lib, s.history, s.segs);
    LastFitsInFlat(s.segs);
  }

  lemma TailIsHeadOfHistory(lib: Lib, history: seq<Entry>, segs: seq<Seg>)
    requires Retained(lib, history, segs)
    ensures TailOf(segs) == HeadOf(history)
    ensures |Flat(segs)| < U64_LIMIT
  {
    hide ValidFrom, Laid, Flat, TailOf, After;
    TailIsHeadOfFlat(segs);
    HeadOfSuffix(history, Cut(history, segs));
  }

  lemma HeadOfSuffix(history: seq<Entry>, k: nat)
    requires k <= |history| && (history != [] ==> history[k..] != [])
    ensures HeadOf(history[k..]) == HeadOf(history)
  {
  }

  lemma LastFitsInFlat(segs: seq<Seg>)
    requires segs != []
    ensures |Last(segs).entries| <= |Flat(segs)|
  {
  }

  // ---------- Pruning ----------

  /** A longer cut is as good a cut, while something is left. */
  lemma CutFurther(lib: Lib, history: seq<Entry>, segs: seq<Seg>, j: nat)
    requires Retained(lib, history, segs) && j < |segs|
    requires Flat(segs) != [] ==> Flat(segs[j..]) != []
    ensures Retained(lib, history, segs[j..])
  {
    hide Laid, ValidFrom, Flat, After;
    CutFurtherAt(lib, history, segs, Cut(history, segs), j, segs[j..]);
  }

  lemma CutFurtherAt(lib: Lib, history: seq<Entry>, segs: seq<Seg>, k: nat, j: nat, rest: seq<Seg>)
    requires ValidFrom(lib, None, history) && k <= |history| < U64_LIMIT
    requires history[k..] == Flat(segs) && Laid(lib, After(None, history[..k]), segs)
    requires j < |segs| && rest == segs[j..]
    requires history != [] ==> Flat(rest) != []
    ensures Retained(lib, history, rest)
  {
    hide Laid, ValidFrom, Flat, After, Retained;
    var gone := Flat(segs[..j]);
    LaidAfterCut(lib, After(None, history[..k]), segs, j);
    AdvanceCut(history, k, gone, Flat(rest));
    RetainedAt(lib, history, rest, k + |gone|);
  }

  lemma LaidAfterCut(lib: Lib, start: Option<Anchor>, segs: seq<Seg>, j: nat)
    requires Laid(lib, start, segs) && j < |segs|
    ensures Laid(lib, After(start, Flat(segs[..j])), segs[j..])
    ensures Flat(segs) == Flat(segs[..j]) + Flat(segs[j..])
  {
    hide Laid, Violations, Flat, After;
    PruningKeepsLayout(lib, start, segs, j);
    FlatSplit(segs, j);
  }

  lemma RetainedAt(lib: Lib, history: seq<Entry>, segs: seq<Seg>, k: nat)
    requires ValidFrom(lib, None, history) && k <= |history| < U64_LIMIT
    requires history[k..] == Flat(segs) && Laid(lib, After(None, history[..k]), segs)
    requires history != [] ==> Flat(segs) != []
    ensures Retained(lib, history, segs)
  {
    hide Laid, ValidFrom, Flat;
    assert k == Cut(history, segs);
  }

  lemma AdvanceCut(history: seq<Entry>, k: nat, gone: seq<Entry>, rest: seq<Entry>)
    requires k <= |history| && history[k..] == gone + rest
    ensures k + |gone| == |history| - |rest|
    ensures history[k + |gone|..] == rest
    ensures After(After(None, history[..k]), gone) == After(None, history[..k + |gone|])
  {
    assert history == history[..k] + (gone + rest);
    assert history[..k + |gone|] == history[..k] + gone;
  }

  lemma PruneKeepsInv(lib: Lib, s: Sys, boundary: u64, removals: nat)
    requires Inv(lib, s) && KeepsAnEntry(s.segs, boundary)
    ensures Inv(lib, Pruned(s, boundary, removals))
  {
    hide Retained, SweepLength, Flat, KeepsAnEntry;
    SurvivorsOfRetained(lib, s.history, s.segs, boundary, removals);
    CutFurther(lib, s.history, s.segs, SweepLength(s.segs, boundary, removals));
  }

  lemma SurvivorsOfRetained(lib: Lib, history: seq<Entry>, segs: seq<Seg>, boundary: u64, removals: nat)
    requires Retained(lib, history, segs) && segs != [] && KeepsAnEntry(segs, boundary)
    ensures Flat(segs) != [] ==> Flat(segs[SweepLength(segs, boundary, removals)..]) != []
  {
    hide Laid, Flat, KeepsAnEntry, SweepLength, ValidFrom;
    SurvivorsAreNonempty(lib, After(None, history[..Cut(history, segs)]), segs, boundary, removals);
  }

  lemma SurvivorsAreNonempty(lib: Lib, start: Option<Anchor>, segs: seq<Seg>, boundary: u64, removals: nat)
    requires Laid(lib, start, segs) && KeepsAnEntry(segs, boundary)
    ensures Flat(segs) != [] ==> Flat(segs[SweepLength(segs, boundary, removals)..]) != []
  {
    var j := SweepLength(segs, boundary, removals);
    if |segs| == 1 {
      assert segs[j..] == segs;
    } else {
      LastSegmentGoesOnlyIfReached(lib, start, segs, boundary);
      assert segs[j].entries != [];
      hide Flat, Laid, SweepLength;
      FlatFromFirst(segs[j..]);
    }
  }

  // ---------- Whole runs ----------

  /** Any sequence of operations, without the ones that are not allowed where they come. */
  function Run(lib: Lib, s: Sys, ops: seq<Op>): (t: Sys)
    requires s.segs != []
    ensures t.segs != []
  {
    if ops == [] then s
    else
      var t, op := Run(lib, s, ops[..|ops| - 1]), ops[|ops| - 1];
      if Allowed(t, op) then Step(lib, t, op) else t
  }

  lemma StepKeepsInv(lib: Lib, s: Sys, op: Op)
    requires Inv(lib, s) && |s.history| + 1 < U64_LIMIT && Allowed(s, op)
    ensures Inv(lib, Step(lib, s, op))
    ensures |Step(lib, s, op).history| <= |s.history| + 1 && s.history <= Step(lib, s, op).history
  {
    hide Retained, MakeEntry;
    match op
    case Append(r, sealed, now, fault) => AppendKeepsInv(lib, s, r, sealed, now, fault);
    case Reopen(max) => ReopenIsIdentity(lib, s, max);
    case Prune(boundary, removals) => PruneKeepsInv(lib, s, boundary, removals);
    case PruneByTime(cutoff, removals) => PruneByTimeKeepsInv(lib, s, cutoff, removals);
  }

  /** Retention by time needs no guard. */
  lemma PruneByTimeKeepsInv(lib: Lib, s: Sys, cutoff: i64, removals: nat)
    requires Inv(lib, s)
    ensures Inv(lib, PrunedByTime(s, cutoff, removals))
  {
    if FindBoundary(Flat(s.segs), cutoff).Some? {
      TimePruningIsSafe(lib, After(None, s.history[..Cut(s.history, s.segs)]), s.segs, cutoff);
      hide Inv;
      PruneKeepsInv(lib, s, FindBoundary(Flat(s.segs), cutoff).value, removals);
    }
  }

  lemma {:induction false} RunKeepsInv(lib: Lib, s: Sys, ops: seq<Op>)
    requires Inv(lib, s) && |s.history| + |ops| + 1 < U64_LIMIT
    ensures Inv(lib, Run(lib, s, ops))
    ensures |Run(lib, s, ops).history| <= |s.history| + |ops|
    ensures s.history <= Run(lib, s, ops).history
  {
    assert s.segs != [];
    hide Inv;
    if ops != [] {
      var init := ops[..|ops| - 1];
      RunKeepsInv(lib, s, init);
      var t := Run(lib, s, init);
      if Allowed(t, ops[|ops| - 1]) {
        StepKeepsInv(lib, t, ops[|ops| - 1]);
      }
    }
  }

  /**
   After any interleaving of appends, failures, reopenings and prunings: what is on disk is a
   suffix of everything acknowledged; it verifies from the entry just before it; the names tell
   the numbers; and the writer stands at the head of the whole history.
   */
  lemma EveryRunIsSafe(lib: Lib, max: u64, ops: seq<Op>)
    requires max > 0 && |ops| + 1 < U64_LIMIT
    ensures var s := Run(lib, Opened(max), ops);
            var k := Cut(s.history, s.segs);
            && Violations(lib, None, s.history) == []
            && 0 <= k && Flat(s.segs) == s.history[k..]
            && Violations(lib, After(None, s.history[..k]), Flat(s.segs)) == []
            && (s.history != [] ==> Flat(s.segs) != [])
            && (forall i :: 0 <= i < |s.segs| ==> s.segs[i].first == k + 1 + |Flat(s.segs[..i])|)
            && s.seqNo == |s.history| && (s.seqNo, s.prevHash) == Resume(HeadOf(s.history))
            && s.store == OpenedState(s.segs, s.store.max)
  {
    OpenedIsInv(lib, max);
    var s := Run(lib, Opened(max), ops);
    RunKeepsInv(lib, Opened(max), ops);
    ReopenIsIdentity(lib, s, s.store.max);
    WhatIsRetained(lib, s.history, s.segs);
  }

  lemma WhatIsRetained(lib: Lib, history: seq<Entry>, segs: seq<Seg>)
    requires Retained(lib, history, segs)
    ensures var k := Cut(history, segs);
            && Violations(lib, None, history) == []
            && Violations(lib, After(None, history[..k]), Flat(segs)) == []
            && (forall i :: 0 <= i < |segs| ==> segs[i].first == k + 1 + |Flat(segs[..i])|)
  {
    hide Fits, Flat;
    NextNumber(lib, history, segs);
    ReportIsExact(lib, None, history);
    ReportIsExact(lib, After(None, history[..Cut(history, segs)]), Flat(segs));
  }

  // ---------- Why pruning is guarded ----------

  /** The guard cannot be weakened: a finished sweep keeps the invariant if and only if it holds. */
  lemma SweepIsSafeIffGuarded(lib: Lib, s: Sys, boundary: u64)
    requires Inv(lib, s)
    ensures Inv(lib, Pruned(s, boundary, |s.segs|)) <==> KeepsAnEntry(s.segs, boundary)
  {
    if KeepsAnEntry(s.segs, boundary) {
      hide Inv;
      PruneKeepsInv(lib, s, boundary, |s.segs|);
    } else {
      UnguardedSweepEmpties(lib, s, boundary);
    }
  }

  lemma UnguardedSweepEmpties(lib: Lib, s: Sys, boundary: u64)
    requires Inv(lib, s) && !KeepsAnEntry(s.segs, boundary)
    ensures var t := Pruned(s, boundary, |s.segs|);
            && t.history != [] && Flat(t.segs) == [] && t.segs == [Last(s.segs)]
            && Dropped(s.segs, boundary) == |s.segs| - 1
            && !Inv(lib, t)
  {
    hide Fits;
    var start := After(None, s.history[..Cut(s.history, s.segs)]);
    GuardIsExact(lib, start, s.segs, boundary);
    LaidIsSorted(lib, start, s.segs);
    DropCountExact(ListingOf(s.segs), boundary, |s.segs| - 2);
    assert s.segs[0].entries != [];
    FlatFromFirst(s.segs);
  }

  /**
   Past the guard, everything is deleted although entries were acknowledged, no anchor comes back
   from the one file left, and the next opening starts a second chain from number one.
   */
  lemma UnguardedSweepForgets(lib: Lib, s: Sys, boundary: u64, files: map<seq<byte>, seq<byte>>, max: u64)
    requires Inv(lib, s) && !KeepsAnEntry(s.segs, boundary) && max > 0
    requires Represents(lib, files, Pruned(s, boundary, |s.segs|).segs)
    ensures var t := Pruned(s, boundary, |s.segs|);
            var name := SegmentNames.SegmentName(Last(s.segs).first);
            && t.history != [] && Flat(t.segs) == []
            && name in files && AnchorBefore(lib, files[name]) == None
            && (Reopened(t, max).seqNo, Reopened(t, max).prevHash) == (0, GENESIS_PREV_HASH)
  {
    hide Inv, Represents, ReadLines, SegmentNames.SegmentName;
    var t := Pruned(s, boundary, |s.segs|);
    UnguardedSweepEmpties(lib, s, boundary);
    FlatFromFirst(t.segs);
    FileHolds(lib, files, t.segs, 0);
    TailIsHeadOfFlat(t.segs);
  }

  /** A short run that gets there: one entry a segment, one entry, one failed write, one sweep. */
  lemma UnguardedSweepExample(lib: Lib, r: Record, now: i64)
    requires r.pii == None
    ensures var s1 := Step(lib, Opened(1), Append(r, Err(Crypto), now, NoFault));
            var s2 := Step(lib, s1, Append(r, Err(Crypto), now, WriteFails));
            var s3 := Step(lib, Step(lib, s2, Prune(2, 1)), Reopen(1));
            && |s2.history| == 1 && !Allowed(s2, Prune(2, 1))
            && Flat(s3.segs) == [] && s3.seqNo == 0 && s3.prevHash == GENESIS_PREV_HASH
  {
    hide MakeEntry, SegmentNames.SegmentName;
    var e := MakeEntry(lib, 1, GENESIS_PREV_HASH, r, None, now);
    var s1 := Step(lib, Opened(1), Append(r, Err(Crypto), now, NoFault));
    assert s1 == Sys([Seg(1, [e])], StoreState(1, 1, 1, Some(AnchorOf(e))), 1, e.entryHash, [e]) by {
      assert [] + [e] == [e];
    }
    var s2 := Step(lib, s1, Append(r, Err(Crypto), now, WriteFails));
    assert s2 == Sys([Seg(1, [e]), Seg(2, [])], StoreState(1, 2, 0, Some(AnchorOf(e))), 1, e.entryHash, [e]);
    DropOfTwo(s2.segs, 2);
    assert Pruned(s2, 2, 1).segs == [Seg(2, [])];
    assert Flat([Seg(2, [])]) == [];
  }

  lemma DropOfTwo(segs: seq<Seg>, boundary: u64)
    requires |segs| == 2 && segs[1].first <= boundary
    ensures Dropped(segs, boundary) == 1
  {
    hide SegmentNames.SegmentName;
    assert |ListingOf(segs)[1..]| == 1;
  }

  // ---------- Without failures, the segments fill up evenly ----------

  /** Appending a list of entries, one after the other, without failures. */
  function AppendAll(segs: seq<Seg>, st: StoreState, es: seq<Entry>): (r: (seq<Seg>, StoreState))
    requires segs != []
    ensures r.0 != []
  {
    if es == [] then (segs, st)
    else
      var (segs', st') := AppendAll(segs, st, es[..|es| - 1]);
      var (segs2, st2, _) := Appended(segs', st', es[|es| - 1], NoFault);
      (segs2, st2)
  }

  /** Every segment but the last is full, and the last has room or just filled up. */
  predicate EvenlyFilled(segs: seq<Seg>, max: nat) {
    && segs != []
    && (forall i :: 0 <= i < |segs| - 1 ==> |segs[i].entries| == max)
    && |Last(segs).entries| <= max && (|segs| > 1 ==> Last(segs).entries != [])
  }

  /**
   A segmented store refines a flat one: from an empty directory, whatever is appended is what
   the segments read as, in order; all but the last hold exactly the limit; and there are as many
   as the limit divides, rounded up, but at least one.
   */
  lemma SegmentedRefinesFlat(max: u64, es: seq<Entry>)
    requires max > 0
    ensures var (segs, st) := AppendAll([Seg(1, [])], StoreState(max, 1, 0, None), es);
            && Flat(segs) == es
            && EvenlyFilled(segs, max)
            && st.tail == HeadOf(es)
            && if es == [] then |segs| == 1 else (|segs| - 1) * max < |es| <= |segs| * max
  {
    AppendAllFillsEvenly(max, es);
    var (segs, st) := AppendAll([Seg(1, [])], StoreState(max, 1, 0, None), es);
    hide Flat, AppendAll, EvenlyFilled;
    CountOfSegments(segs, max);
  }

  lemma {:induction false} AppendAllFillsEvenly(max: u64, es: seq<Entry>)
    requires max > 0
    ensures var (segs, st) := AppendAll([Seg(1, [])], StoreState(max, 1, 0, None), es);
            && Flat(segs) == es && EvenlyFilled(segs, max)
            && st.max == max && st.curCount == |Last(segs).entries| && st.tail == HeadOf(es)
            && (es == [] ==> |segs| == 1) && (es != [] ==> Last(segs).entries != [])
  {
    if es == [] {
      assert Flat([Seg(1, [])]) == [];
    } else {
      var init, e := es[..|es| - 1], es[|es| - 1];
      var (segs, st) := AppendAll([Seg(1, [])], StoreState(max, 1, 0, None), init);
      var (segs', st', ok) := Appended(segs, st, e, NoFault);
      assert AppendAll([Seg(1, [])], StoreState(max, 1, 0, None), es) == (segs', st');
      hide Flat, EvenlyFilled, Appended, AppendAll;
      AppendAllFillsEvenly(max, init);
      AppendFillsEvenly(segs, st, e);
      assert es == init + [e];
    }
  }

  lemma AppendFillsEvenly(segs: seq<Seg>, st: StoreState, e: Entry)
    requires segs != [] && st.max > 0 && EvenlyFilled(segs, st.max) && st.curCount == |Last(segs).entries|
    ensures var (segs', st', ok) := Appended(segs, st, e, NoFault);
            && ok && segs' != [] && Flat(segs') == Flat(segs) + [e] && EvenlyFilled(segs', st.max)
            && st'.max == st.max && st'.curCount == |Last(segs').entries| && st'.tail == Some(AnchorOf(e))
            && Last(segs').entries != []
  {
    hide Flat, EvenlyFilled;
    if st.curCount >= st.max {
      OpenNextSegment(segs, st.max, e);
      assert [] + [e] == [e];
      assert (segs + [Seg(e.seqNo, [])])[|segs| := Seg(e.seqNo, [e])] == segs + [Seg(e.seqNo, [e])];
    } else {
      FillLastSegment(segs, st.max, e);
    }
  }

  lemma OpenNextSegment(segs: seq<Seg>, max: nat, e: Entry)
    requires EvenlyFilled(segs, max) && |Last(segs).entries| >= max > 0
    ensures EvenlyFilled(segs + [Seg(e.seqNo, [e])], max)
    ensures Flat(segs + [Seg(e.seqNo, [e])]) == Flat(segs) + [e]
  {
    var segs' := segs + [Seg(e.seqNo, [e])];
    assert segs'[..|segs|] == segs;
  }

  lemma FillLastSegment(segs: seq<Seg>, max: nat, e: Entry)
    requires EvenlyFilled(segs, max) && |Last(segs).entries| < max
    ensures var n := |segs| - 1;
            var segs' := segs[n := Seg(segs[n].first, segs[n].entries + [e])];
            EvenlyFilled(segs', max) && Flat(segs') == Flat(segs) + [e]
  {
    hide Flat;
    ReplaceLastFlat(segs, e);
  }

  lemma ReplaceLastFlat(segs: seq<Seg>, e: Entry)
    requires segs != []
    ensures var n := |segs| - 1;
            Flat(segs[n := Seg(segs[n].first, segs[n].entries + [e])]) == Flat(segs) + [e]
  {
    hide Flat;
    var n := |segs| - 1;
    var segs' := segs[n := Seg(segs[n].first, segs[n].entries + [e])];
    FlatNext(segs, n);
    FlatNext(segs', n);
    assert segs'[..n] == segs[..n] && segs'[..n + 1] == segs' && segs[..n + 1] == segs;
  }

  lemma CountOfSegments(segs: seq<Seg>, max: nat)
    requires EvenlyFilled(segs, max)
    ensures |Flat(segs)| == (|segs| - 1) * max + |Last(segs).entries|
    ensures |Flat(segs)| <= |segs| * max
  {
    var n := |segs| - 1;
    CountOfFull(segs[..n], max);
    OneMore(n, max);
    assert segs[..n] + [segs[n]] == segs;
  }

  lemma OneMore(n: nat, max: nat)
    ensures (n + 1) * max == n * max + max
  {
  }

  lemma {:induction false} CountOfFull(segs: seq<Seg>, max: nat)
    requires forall i :: 0 <= i < |segs| ==> |segs[i].entries| == max
    ensures |Flat(segs)| == |segs| * max
  {
    if segs != [] {
      var n := |segs| - 1;
      CountOfFull(segs[..n], max);
      OneMore(n, max);
    }
  }
}
