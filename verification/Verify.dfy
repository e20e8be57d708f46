/**
 Chain verification, `verify.rs`. The source walks the entries with a mutable `prev`; the
 specification below carries one anchor along, and the two are proved to report the same.
 */
module Verify {
  import opened Bytes
  import opened Entries
  import opened Hashing
  import opened Wrappers

  datatype Anchor = Anchor(seqNo: u64, hash: Str)

  datatype ViolationKind = BadHash | BrokenLink | SequenceGap | BadGenesis

  /** The explanatory text of a violation is not part of the model. */
  datatype Violation = Violation(seqNo: u64, kind: ViolationKind)

  /** `entriesChecked` is a `u64` counter and wraps like one. */
  datatype VerifyReport = VerifyReport(entriesChecked: u64, violations: seq<Violation>, head: Option<Anchor>)

  function AnchorOf(e: Entry): Anchor {
    Anchor(e.seqNo, e.entryHash)
  }

  function HeadOf(es: seq<Entry>): Option<Anchor> {
    if es == [] then None else Some(AnchorOf(es[|es| - 1]))
  }

  /** Where verification stands after `es`, having started at `start`. */
  function After(start: Option<Anchor>, es: seq<Entry>): Option<Anchor> {
    if es == [] then start else HeadOf(es)
  }

  // ---------- What the reports mean ----------

  predicate Follows(start: Option<Anchor>, e: Entry) {
    match start
    case None => e.prevHash == GENESIS_PREV_HASH && e.seqNo == 1
    case Some(a) => e.prevHash == a.hash && e.seqNo == Succ(a.seqNo)
  }

  predicate HashMatches(lib: Lib, e: Entry) {
    e.entryHash == EntryHash(lib, e)
  }

  /** What entry `i` of a list comes after. */
  function Before(start: Option<Anchor>, es: seq<Entry>, i: nat): Option<Anchor>
    requires i < |es|
  {
    if i == 0 then start else Some(AnchorOf(es[i - 1]))
  }

  predicate Fits(lib: Lib, start: Option<Anchor>, es: seq<Entry>, i: nat)
    requires i < |es|
  {
    HashMatches(lib, es[i]) && Follows(Before(start, es, i), es[i])
  }

  /** A chain, entry by entry: no recursion and no report. */
  ghost predicate ValidFrom(lib: Lib, start: Option<Anchor>, es: seq<Entry>) {
    forall i :: 0 <= i < |es| ==> Fits(lib, start, es, i)
  }

  function HashViolations(lib: Lib, e: Entry): seq<Violation> {
    if HashMatches(lib, e) then [] else [Violation(e.seqNo, BadHash)]
  }

  function LinkViolations(start: Option<Anchor>, e: Entry): seq<Violation> {
    match start
    case None => if e.prevHash == GENESIS_PREV_HASH then [] else [Violation(e.seqNo, BadGenesis)]
    case Some(a) => if e.prevHash == a.hash then [] else [Violation(e.seqNo, BrokenLink)]
  }

  function GapViolations(start: Option<Anchor>, e: Entry): seq<Violation> {
    if e.seqNo == (match start case None => 1 case Some(a) => Succ(a.seqNo)) then []
    else [Violation(e.seqNo, SequenceGap)]
  }

  /** The violations that one entry adds when it comes right after `start`. */
  function EntryViolations(lib: Lib, start: Option<Anchor>, e: Entry): seq<Violation> {
    HashViolations(lib, e) + LinkViolations(start, e) + GapViolations(start, e)
  }

  function Violations(lib: Lib, start: Option<Anchor>, es: seq<Entry>): seq<Violation>
    decreases |es|
  {
    if es == [] then []
    else EntryViolations(lib, start, es[0]) + Violations(lib, Some(AnchorOf(es[0])), es[1..])
  }

  function Report(lib: Lib, start: Option<Anchor>, es: seq<Entry>): VerifyReport {
    VerifyReport(|es| % U64_LIMIT, Violations(lib, start, es), HeadOf(es))
  }

  // ---------- What an entry can be blamed for ----------

  /** Its contents are not the ones that were hashed. */
  ghost predicate IsAltered(lib: Lib, es: seq<Entry>, i: int) {
    0 <= i < |es| && es[i].entryHash != EntryHash(lib, es[i])
  }

  /** It does not point at the entry before it, or at the anchor. */
  ghost predicate IsUnlinked(start: Option<Anchor>, es: seq<Entry>, i: int) {
    && 0 <= i < |es|
    && if i > 0 then es[i].prevHash != es[i - 1].entryHash
       else start.Some? && es[i].prevHash != start.value.hash
  }

  /** It comes first, without an anchor, and does not point at the genesis text. */
  ghost predicate IsNoGenesis(start: Option<Anchor>, es: seq<Entry>, i: int) {
    i == 0 < |es| && start.None? && es[i].prevHash != GENESIS_PREV_HASH
  }

  /** Its number is not the one after the number before it. */
  ghost predicate IsOutOfTurn(start: Option<Anchor>, es: seq<Entry>, i: int) {
    && 0 <= i < |es|
    && if i > 0 then es[i].seqNo != (es[i - 1].seqNo + 1) % U64_LIMIT
       else if start.Some? then es[i].seqNo != (start.value.seqNo + 1) % U64_LIMIT
       else es[i].seqNo != 1
  }

  // ---------- The verifier ----------

  /** The body of the verifier's loop: `prev` decides, and only before it is set does `anchor`. */
  method CheckEntry(lib: Lib, anchor: Option<Anchor>, prev: Option<Entry>, entry: Entry, before: seq<Violation>)
    returns (violations: seq<Violation>)
    ensures violations ==
            before + EntryViolations(lib, if prev.Some? then Some(AnchorOf(prev.value)) else anchor, entry)
    ensures violations ==
            before
            + (if entry.entryHash == EntryHash(lib, entry) then [] else [Violation(entry.seqNo, BadHash)])
            + (match (prev, anchor)
               case (Some(p), _) => if entry.prevHash == p.entryHash then [] else [Violation(entry.seqNo, BrokenLink)]
               case (None, Some(a)) => if entry.prevHash == a.hash then [] else [Violation(entry.seqNo, BrokenLink)]
               case (None, None) =>
                 if entry.prevHash == GENESIS_PREV_HASH then [] else [Violation(entry.seqNo, BadGenesis)])
            + (var expected := match (prev, anchor)
                               case (Some(p), _) => Succ(p.seqNo)
                               case (None, Some(a)) => Succ(a.seqNo)
                               case (None, None) => 1;
               if entry.seqNo == expected then [] else [Violation(entry.seqNo, SequenceGap)])
  {
    hide EntryHash;
    violations := before;
    ghost var start := if prev.Some? then Some(AnchorOf(prev.value)) else anchor;

    var recomputed := ComputeEntryHash(lib, entry);
    if recomputed != entry.entryHash {
      violations := violations + [Violation(entry.seqNo, BadHash)];
    }
    ghost var hashed := violations;
    assert hashed == before + HashViolations(lib, entry);

    match prev {
      case None =>
        match anchor {
          case Some(a) =>
            if entry.prevHash != a.hash {
              violations := violations + [Violation(entry.seqNo, BrokenLink)];
            }
            assert violations == hashed + LinkViolations(start, entry);
            if entry.seqNo != Succ(a.seqNo) {
              violations := violations + [Violation(entry.seqNo, SequenceGap)];
            }
          case None =>
            if entry.prevHash != GENESIS_PREV_HASH {
              violations := violations + [Violation(entry.seqNo, BadGenesis)];
            }
            assert violations == hashed + LinkViolations(start, entry);
            if entry.seqNo != 1 {
              violations := violations + [Violation(entry.seqNo, SequenceGap)];
            }
        }
      case Some(p) =>
        if entry.prevHash != p.entryHash {
          violations := violations + [Violation(entry.seqNo, BrokenLink)];
        }
        assert violations == hashed + LinkViolations(start, entry);
        if entry.seqNo != Succ(p.seqNo) {
          violations := violations + [Violation(entry.seqNo, SequenceGap)];
        }
    }
    assert violations == hashed + LinkViolations(start, entry) + GapViolations(start, entry);
    AppendThree(before, HashViolations(lib, entry), LinkViolations(start, entry), GapViolations(start, entry));
  }

  method VerifyEntriesFrom(lib: Lib, anchor: Option<Anchor>, entries: seq<Entry>) returns (report: VerifyReport)
    ensures report == Report(lib, anchor, entries)
    ensures report.violations == [] <==> ValidFrom(lib, anchor, entries)
    ensures report.entriesChecked == |entries| % U64_LIMIT
    ensures report.head == if entries == [] then None
                           else Some(Anchor(entries[|entries| - 1].seqNo, entries[|entries| - 1].entryHash))
    ensures forall s: u64 :: Violation(s, BadHash) in report.violations <==>
              exists i :: IsAltered(lib, entries, i) && entries[i].seqNo == s
    ensures forall s: u64 :: Violation(s, BrokenLink) in report.violations <==>
              exists i :: IsUnlinked(anchor, entries, i) && entries[i].seqNo == s
    ensures forall s: u64 :: Violation(s, BadGenesis) in report.violations <==>
              exists i :: IsNoGenesis(anchor, entries, i) && entries[i].seqNo == s
    ensures forall s: u64 :: Violation(s, SequenceGap) in report.violations <==>
              exists i :: IsOutOfTurn(anchor, entries, i) && entries[i].seqNo == s
  {
    hide EntryViolations, ValidFrom, Succ, IsAltered, IsUnlinked, IsNoGenesis, IsOutOfTurn;
    var violations: seq<Violation> := [];
    var count: u64 := 0;
    var prev: Option<Entry> := None;
    var head: Option<Anchor> := None;

    for i := 0 to |entries|
      invariant count == i % U64_LIMIT
      invariant prev == if i == 0 then None else Some(entries[i - 1])
      invariant head == HeadOf(entries[..i])
      invariant violations == Violations(lib, anchor, entries[..i])
    {
      hide Violations;
      var entry := entries[i];
      SuccOfCount(i);
      count := Succ(count);
      violations := CheckEntry(lib, anchor, prev, entry, violations);
      ViolationsOfLast(lib, anchor, entries[..i], entry);
      assert entries[..i + 1] == entries[..i] + [entry];
      head := Some(AnchorOf(entry));
      prev := Some(entry);
    }

    assert entries[..|entries|] == entries;
    ReportIsExact(lib, anchor, entries);
    report := VerifyReport(count, violations, head);
    forall s: u64 { WhenBadHash(lib, anchor, entries, s); }
    forall s: u64 { WhenBrokenLink(lib, anchor, entries, s); }
    forall s: u64 { WhenBadGenesis(lib, anchor, entries, s); }
    forall s: u64 { WhenSequenceGap(lib, anchor, entries, s); }
  }

  method VerifyEntries(lib: Lib, entries: seq<Entry>) returns (report: VerifyReport)
    ensures report == Report(lib, None, entries)
    ensures report.violations == [] <==> ValidFrom(lib, None, entries)
    ensures forall s: u64 :: Violation(s, BadHash) in report.violations <==>
              exists i :: IsAltered(lib, entries, i) && entries[i].seqNo == s
    ensures forall s: u64 :: Violation(s, BrokenLink) in report.violations <==>
              exists i :: IsUnlinked(None, entries, i) && entries[i].seqNo == s
    ensures forall s: u64 :: Violation(s, BadGenesis) in report.violations <==>
              exists i :: IsNoGenesis(None, entries, i) && entries[i].seqNo == s
    ensures forall s: u64 :: Violation(s, SequenceGap) in report.violations <==>
              exists i :: IsOutOfTurn(None, entries, i) && entries[i].seqNo == s
  {
    hide EntryHash, Report, ValidFrom, IsAltered, IsUnlinked, IsNoGenesis, IsOutOfTurn;
    report := VerifyEntriesFrom(lib, None, entries);
  }

  // ---------- Exactness and composition ----------

  /** No violation is reported exactly when the list is a chain that follows its start. */
  lemma {:induction false} ReportIsExact(lib: Lib, start: Option<Anchor>, es: seq<Entry>)
    ensures Violations(lib, start, es) == [] <==> ValidFrom(lib, start, es)
    decreases |es|
  {
    if es != [] {
      var next, rest := Some(AnchorOf(es[0])), es[1..];
      ReportIsExact(lib, next, rest);
      assert ValidFrom(lib, start, es) <==>
             HashMatches(lib, es[0]) && Follows(start, es[0]) && ValidFrom(lib, next, rest) by {
        ValidSplitsAtFront(lib, start, es);
      }
    }
  }

  lemma ValidSplitsAtFront(lib: Lib, start: Option<Anchor>, es: seq<Entry>)
    requires es != []
    ensures ValidFrom(lib, start, es) <==>
            HashMatches(lib, es[0]) && Follows(start, es[0]) && ValidFrom(lib, Some(AnchorOf(es[0])), es[1..])
  {
    hide HashMatches, Follows;
    ValidConcat(lib, start, es[..1], es[1..]);
    assert es == es[..1] + es[1..];
    assert ValidFrom(lib, start, es[..1]) <==> Fits(lib, start, es[..1], 0);
  }

  lemma AppendThree<T>(a: seq<T>, b: seq<T>, c: seq<T>, d: seq<T>)
    ensures a + b + c + d == a + (b + c + d)
  {
  }

  lemma Associative<T>(a: seq<T>, b: seq<T>, c: seq<T>)
    ensures (a + b) + c == a + (b + c)
  {
  }

  lemma ViolationsFromFront(lib: Lib, start: Option<Anchor>, es: seq<Entry>)
    requires es != []
    ensures Violations(lib, start, es) ==
            EntryViolations(lib, start, es[0]) + Violations(lib, Some(AnchorOf(es[0])), es[1..])
  {
    hide EntryViolations;
  }

  lemma ViolationsConcat(lib: Lib, start: Option<Anchor>, xs: seq<Entry>, ys: seq<Entry>)
    ensures Violations(lib, start, xs + ys)
         == Violations(lib, start, xs) + Violations(lib, After(start, xs), ys)
    decreases |xs|
  {
    if xs == [] {
      assert xs + ys == ys;
    } else {
      PrependToConcat(lib, start, xs, ys);
    }
  }

  lemma PrependToConcat(lib: Lib, start: Option<Anchor>, xs: seq<Entry>, ys: seq<Entry>)
    requires xs != []
    ensures Violations(lib, start, xs + ys)
         == Violations(lib, start, xs) + Violations(lib, After(start, xs), ys)
    decreases |xs|, 0
  {
    hide EntryViolations, Violations;
    var next := Some(AnchorOf(xs[0]));
    ViolationsConcat(lib, next, xs[1..], ys);
    assert (xs + ys)[1..] == xs[1..] + ys;
    assert After(next, xs[1..]) == After(start, xs);
    ViolationsFromFront(lib, start, xs);
    ViolationsFromFront(lib, start, xs + ys);
    Associative(EntryViolations(lib, start, xs[0]), Violations(lib, next, xs[1..]),
                Violations(lib, After(start, xs), ys));
  }

  lemma ViolationsOfLast(lib: Lib, start: Option<Anchor>, es: seq<Entry>, e: Entry)
    ensures Violations(lib, start, es + [e])
         == Violations(lib, start, es) + EntryViolations(lib, After(start, es), e)
  {
    hide EntryViolations;
    ViolationsConcat(lib, start, es, [e]);
    assert [e][1..] == [];
  }

  /** What one entry is blamed for, when it comes after `start`. */
  lemma WhatEntryAdds(lib: Lib, start: Option<Anchor>, e: Entry, s: u64)
    ensures var added := EntryViolations(lib, start, e);
            && (Violation(s, BadHash) in added <==> e.seqNo == s && e.entryHash != EntryHash(lib, e))
            && (Violation(s, BrokenLink) in added <==> e.seqNo == s && start.Some? && e.prevHash != start.value.hash)
            && (Violation(s, BadGenesis) in added <==> e.seqNo == s && start.None? && e.prevHash != GENESIS_PREV_HASH)
            && (Violation(s, SequenceGap) in added <==>
                  e.seqNo == s && s != if start.Some? then (start.value.seqNo + 1) % U64_LIMIT else 1)
  {
    hide EntryHash;
  }

  /** Each kind of violation, and the entries that are to blame for it. */
  lemma WhenBadHash(lib: Lib, start: Option<Anchor>, es: seq<Entry>, s: u64)
    ensures Violation(s, BadHash) in Violations(lib, start, es) <==>
            exists i :: IsAltered(lib, es, i) && es[i].seqNo == s
  {
    hide EntryHash, Violations, EntryViolations, GENESIS_PREV_HASH;
    ViolationsAreOfEntries(lib, start, es, Violation(s, BadHash));
    forall i | 0 <= i < |es|
      ensures Violation(s, BadHash) in EntryViolations(lib, Before(start, es, i), es[i]) <==>
              IsAltered(lib, es, i) && es[i].seqNo == s
    {
      WhatEntryAdds(lib, Before(start, es, i), es[i], s);
    }
  }

  lemma WhenBrokenLink(lib: Lib, start: Option<Anchor>, es: seq<Entry>, s: u64)
    ensures Violation(s, BrokenLink) in Violations(lib, start, es) <==>
            exists i :: IsUnlinked(start, es, i) && es[i].seqNo == s
  {
    hide EntryHash, Violations, EntryViolations, GENESIS_PREV_HASH;
    ViolationsAreOfEntries(lib, start, es, Violation(s, BrokenLink));
    forall i | 0 <= i < |es|
      ensures Violation(s, BrokenLink) in EntryViolations(lib, Before(start, es, i), es[i]) <==>
              IsUnlinked(start, es, i) && es[i].seqNo == s
    {
      WhatEntryAdds(lib, Before(start, es, i), es[i], s);
    }
  }

  lemma WhenBadGenesis(lib: Lib, start: Option<Anchor>, es: seq<Entry>, s: u64)
    ensures Violation(s, BadGenesis) in Violations(lib, start, es) <==>
            exists i :: IsNoGenesis(start, es, i) && es[i].seqNo == s
  {
    hide EntryHash, Violations, EntryViolations, GENESIS_PREV_HASH;
    ViolationsAreOfEntries(lib, start, es, Violation(s, BadGenesis));
    forall i | 0 <= i < |es|
      ensures Violation(s, BadGenesis) in EntryViolations(lib, Before(start, es, i), es[i]) <==>
              IsNoGenesis(start, es, i) && es[i].seqNo == s
    {
      WhatEntryAdds(lib, Before(start, es, i), es[i], s);
    }
  }

  lemma WhenSequenceGap(lib: Lib, start: Option<Anchor>, es: seq<Entry>, s: u64)
    ensures Violation(s, SequenceGap) in Violations(lib, start, es) <==>
            exists i :: IsOutOfTurn(start, es, i) && es[i].seqNo == s
  {
    hide EntryHash, Violations, EntryViolations, GENESIS_PREV_HASH;
    ViolationsAreOfEntries(lib, start, es, Violation(s, SequenceGap));
    forall i | 0 <= i < |es|
      ensures Violation(s, SequenceGap) in EntryViolations(lib, Before(start, es, i), es[i]) <==>
              IsOutOfTurn(start, es, i) && es[i].seqNo == s
    {
      WhatEntryAdds(lib, Before(start, es, i), es[i], s);
    }
  }

  lemma {:induction false} ViolationsAreOfEntries(lib: Lib, start: Option<Anchor>, es: seq<Entry>, v: Violation)
    ensures v in Violations(lib, start, es) <==>
            exists i :: 0 <= i < |es| && v in EntryViolations(lib, Before(start, es, i), es[i])
  {
    hide EntryViolations;
    if es != [] {
      var n := |es| - 1;
      ViolationsAreOfEntries(lib, start, es[..n], v);
      ViolationsOfLast(lib, start, es[..n], es[n]);
      assert es == es[..n] + [es[n]];
      assert After(start, es[..n]) == Before(start, es, n);
      assert forall i :: 0 <= i < n ==> es[..n][i] == es[i] && Before(start, es[..n], i) == Before(start, es, i);
    }
  }

  /** Verifying a concatenation is verifying its parts, the second anchored at the end of the first. */
  lemma ReportComposes(lib: Lib, start: Option<Anchor>, xs: seq<Entry>, ys: seq<Entry>)
    ensures var whole, first, second :=
              Report(lib, start, xs + ys), Report(lib, start, xs), Report(lib, After(start, xs), ys);
            && whole.violations == first.violations + second.violations
            && whole.entriesChecked == (first.entriesChecked + second.entriesChecked) % U64_LIMIT
            && whole.head == if ys == [] then first.head else second.head
  {
    hide Violations;
    ViolationsConcat(lib, start, xs, ys);
    CountsAdd(|xs|, |ys|);
    if ys == [] {
      assert xs + ys == xs;
    }
  }

  lemma ValidConcat(lib: Lib, start: Option<Anchor>, xs: seq<Entry>, ys: seq<Entry>)
    ensures ValidFrom(lib, start, xs + ys) <==> ValidFrom(lib, start, xs) && ValidFrom(lib, After(start, xs), ys)
  {
    hide HashMatches, Follows;
    var zs := xs + ys;
    assert forall i :: 0 <= i < |xs| ==> Before(start, zs, i) == Before(start, xs, i);
    assert forall i :: 0 <= i < |ys| ==> Before(start, zs, |xs| + i) == Before(After(start, xs), ys, i);
    forall i | 0 <= i < |xs|
      ensures Fits(lib, start, xs, i) == Fits(lib, start, zs, i)
    {
    }
    forall i | 0 <= i < |ys|
      ensures Fits(lib, After(start, xs), ys, i) == Fits(lib, start, zs, |xs| + i)
    {
    }
    forall i | |xs| <= i < |zs|
      ensures Fits(lib, start, zs, i) == Fits(lib, After(start, xs), ys, i - |xs|)
    {
      assert i == |xs| + (i - |xs|);
    }
  }

  // ---------- Sequence numbers and rearrangements ----------

  /** The number that a chain starting here gives its first entry, before any wrap. */
  function FirstSeq(start: Option<Anchor>): nat {
    match start
    case None => 1
    case Some(a) => a.seqNo + 1
  }

  /** Unless the `u64` counter would wrap, an entry's number tells its place. */
  lemma {:induction false} SeqTellsPosition(lib: Lib, start: Option<Anchor>, es: seq<Entry>, i: nat)
    requires ValidFrom(lib, start, es) && i < |es|
    requires FirstSeq(start) + |es| <= U64_LIMIT
    ensures es[i].seqNo == FirstSeq(start) + i
    decreases i
  {
    hide EntryHash;
    assert Fits(lib, start, es, 0);
    if i > 0 {
      SeqTellsPosition(lib, start, es, i - 1);
      assert Fits(lib, start, es, i);
    }
  }

  lemma {:induction false} PickedInOrder(lib: Lib, chain: seq<Entry>, picked: seq<Entry>, i: nat)
    requires ValidFrom(lib, None, chain) && |chain| < U64_LIMIT
    requires ValidFrom(lib, None, picked) && i < |picked|
    requires forall e :: e in picked ==> e in chain
    ensures i < |chain| && picked[i] == chain[i]
    decreases i
  {
    hide EntryHash;
    assert picked[i] in chain;
    var at :| 0 <= at < |chain| && chain[at] == picked[i];
    SeqTellsPosition(lib, None, chain, at);
    assert Fits(lib, None, picked, i);
    if i > 0 {
      PickedInOrder(lib, chain, picked, i - 1);
      SeqTellsPosition(lib, None, chain, i - 1);
    }
  }

  /**
   Dropping, repeating or reordering entries of a valid chain is seen, with one exception:
   a list of its entries verifies exactly when it is a prefix of it.
   */
  lemma OnlyPrefixesVerify(lib: Lib, chain: seq<Entry>, picked: seq<Entry>)
    requires ValidFrom(lib, None, chain) && |chain| < U64_LIMIT
    requires forall e :: e in picked ==> e in chain
    ensures Violations(lib, None, picked) == [] <==> picked <= chain
  {
    hide EntryHash;
    ReportIsExact(lib, None, picked);
    if picked <= chain {
      assert picked == chain[..|picked|];
      assert chain == chain[..|picked|] + chain[|picked|..];
      ValidConcat(lib, None, picked, chain[|picked|..]);
    }
    if ValidFrom(lib, None, picked) {
      forall i | 0 <= i < |picked|
        ensures i < |chain| && picked[i] == chain[i]
      {
        PickedInOrder(lib, chain, picked, i);
      }
      if picked != [] {
        PickedInOrder(lib, chain, picked, |picked| - 1);
      }
    }
  }
}
