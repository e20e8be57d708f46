/**
 The writer thread's own state in `log.rs`, over the segmented store and a directory of bytes.
 Every method is tied to the state machine of module Retention.
 */
module Writer {
  import opened Bytes
  import Engine
  import opened Entries
  import opened Hashing
  import opened Pruning
  import opened Retention
  import opened SegmentNames
  import opened Segments
  import opened Store
  import opened Verify
  import opened Wrappers

  class WriterState {
    const lib: Lib
    const store: SegmentedStore
    var seqNo: u64
    var prevHash: Str
    ghost var history: seq<Entry>

    ghost function Abs(): Sys
      reads this, store, store.dir
    {
      Sys(store.dir.segs, store.State(), seqNo, prevHash, history)
    }

    ghost predicate Valid()
      reads this, store, store.dir
    {
      LineCodec(lib) && store.lib == lib && store.Valid() && Inv(lib, Abs())
    }

    /** Resumes from the store's tail. */
    constructor (lib: Lib, store: SegmentedStore, ghost history: seq<Entry>)
      requires store.Valid()
      ensures this.lib == lib && this.store == store && this.history == history
      ensures (seqNo, prevHash) == Resume(store.tail)
      ensures store.tail.Some? ==> seqNo == store.tail.value.seqNo && prevHash == store.tail.value.hash
      ensures store.tail.None? ==> seqNo == 0 && prevHash == GENESIS_PREV_HASH
    {
      this.lib, this.store, this.history := lib, store, history;
      match store.tail {
        case Some(a) => this.seqNo, this.prevHash := a.seqNo, a.hash;
        case None => this.seqNo, this.prevHash := 0, GENESIS_PREV_HASH;
      }
    }

    /**
     One step of the state machine. Should the counter be at its last value, the number wraps and the
     answer is still this, but the entry starts a new chain.
     */
    method Process(r: Record, sealed: Result<EncryptedPii>, now: i64, fault: Fault) returns (receipt: Result<Receipt>)
      requires Valid()
      modifies this, store, store.dir
      ensures var (after, answer) := Retention.Process(lib, old(Abs()), r, sealed, now, fault);
              && receipt == answer
              && (seqNo, prevHash) == (after.seqNo, after.prevHash)
              && history == after.history && store.State() == after.store
              && (|old(history)| + 1 < U64_LIMIT ==> Valid() && Abs() == after)
      ensures receipt.Ok? <==> !(r.pii.Some? && sealed.Err?) && fault != WriteFails
                               && !(fault == RotateFails && old(store.curCount) >= store.max)
      ensures r.pii.Some? && sealed.Err? ==>
        receipt == Err(sealed.error) && Abs() == old(Abs()) && store.dir.files == old(store.dir.files)
      ensures receipt.Err? ==> (seqNo, prevHash, history) == (old(seqNo), old(prevHash), old(history))
      ensures receipt.Ok? ==>
        && |history| == |old(history)| + 1 && history[..|old(history)|] == old(history)
        && var e := history[|old(history)|];
        && Seals(lib, e, r, sealed, now)
        && e.seqNo == (old(seqNo) + 1) % U64_LIMIT && e.prevHash == old(prevHash)
        && receipt.value == Receipt(e.seqNo, e.timestamp, e.entryHash, e.prevHash)
        && AddsLine(lib, old(store.dir.files), store.dir.files, store.file, e)
    {
      hide Inv, EntryHash, MakeEntry, Appended, SegmentName, LineCodec, Represents, ReadLines;
      hide Retention.Process, Seals, AddsLine;
      ghost var before := Abs();
      ProcessSeals(lib, before, r, sealed, now, fault);
      ProcessParts(lib, before, r, sealed, now, fault);
      if |history| + 1 < U64_LIMIT {
        AppendKeepsInv(lib, before, r, sealed, now, fault);
      }
      var pii: Option<EncryptedPii> := None;
      if r.pii.Some? {
        if sealed.Err? {
          return Err(sealed.error);
        }
        pii := Some(sealed.value);
      }
      FileHolds(lib, store.dir.files, store.dir.segs, |store.dir.segs| - 1);
      receipt := StoreEntry(r, pii, now, fault);
    }

    /** The rest of it, once the private part is encrypted. */
    method StoreEntry(r: Record, pii: Option<EncryptedPii>, now: i64, fault: Fault) returns (receipt: Result<Receipt>)
      requires store.lib == lib && store.file in store.dir.files && store.dir.segs != []
      modifies this, store, store.dir
      ensures var e := MakeEntry(lib, Succ(old(seqNo)), old(prevHash), r, pii, now);
              && (store.State(), receipt.Ok?) == Counted(old(store.State()), e.seqNo, e.entryHash, fault)
              && receipt == (if receipt.Ok? then Ok(ReceiptOf(e)) else Err(Io))
              && (seqNo, prevHash, history) == (if receipt.Ok? then (e.seqNo, e.entryHash, old(history) + [e])
                                                else (old(seqNo), old(prevHash), old(history)))
              && (receipt.Ok? ==> AddsLine(lib, old(store.dir.files), store.dir.files, store.file, e))
              && (LineCodec(lib) && old(store.Valid())
                  && (old(store.curCount) >= store.max ==> Last(old(store.dir.segs)).first < e.seqNo) ==>
                    && store.Valid()
                    && store.dir.segs == Appended(old(store.dir.segs), old(store.State()), e, fault).0)
    {
      hide EntryHash, MakeEntry, Appended, Counted, SegmentName, LineCodec, Represents, Line, ReadLines;
      hide Created, AddsLine;
      var nextSeq := Succ(seqNo);
      var entry := SealEntry(lib, nextSeq, prevHash, r, pii, now);
      var appended := store.Append(entry, fault);
      if appended.Err? {
        return Err(appended.error);
      }
      seqNo := nextSeq;
      prevHash := entry.entryHash;
      history := history + [entry];
      receipt := Ok(Receipt(entry.seqNo, now, entry.entryHash, entry.prevHash));
    }
  }

  /** The counters after an append, read off the segments or by themselves. */
  lemma AppendedCounts(segs: seq<Seg>, st: StoreState, e: Entry, fault: Fault)
    requires segs != []
    ensures var (_, st', ok) := Appended(segs, st, e, fault);
            (st', ok) == Counted(st, e.seqNo, e.entryHash, fault)
  {
  }

  lemma ProcessParts(lib: Lib, s: Sys, r: Record, sealed: Result<EncryptedPii>, now: i64, fault: Fault)
    requires s.segs != []
    ensures match SealPii(r, sealed)
            case Err(error) => Retention.Process(lib, s, r, sealed, now, fault) == (s, Err(error))
            case Ok(pii) =>
              var e := MakeEntry(lib, Succ(s.seqNo), s.prevHash, r, pii, now);
              var (segs, store, ok) := Appended(s.segs, s.store, e, fault);
              && (store, ok) == Counted(s.store, e.seqNo, e.entryHash, fault)
              && Retention.Process(lib, s, r, sealed, now, fault) ==
                 if ok then (Sys(segs, store, e.seqNo, e.entryHash, s.history + [e]), Ok(ReceiptOf(e)))
                 else (s.(segs := segs, store := store), Err(Io))
  {
    hide MakeEntry, Appended, Counted;
    if SealPii(r, sealed).Ok? {
      var e := MakeEntry(lib, Succ(s.seqNo), s.prevHash, r, SealPii(r, sealed).value, now);
      AppendedCounts(s.segs, s.store, e, fault);
    }
  }

  /** The entry is built without its hash, which is computed over the rest. */
  method SealEntry(lib: Lib, seqNo: u64, prevHash: Str, r: Record, pii: Option<EncryptedPii>, now: i64)
    returns (entry: Entry)
    ensures entry == MakeEntry(lib, seqNo, prevHash, r, pii, now)
  {
    hide EntryHash;
    var payload := Payload(r.data, pii);
    entry := Entry(seqNo, now, r.eventType, r.outcome, r.actor, r.instructionId, payload, prevHash, []);
    var hash := ComputeEntryHash(lib, entry);
    entry := entry.(entryHash := hash);
  }

  // ---------- The loop of the writer thread ----------

  /** Serving a whole queue; `world[i]` is what the writer meets outside while serving command `i`. */
  function ServeAll(lib: Lib, w: Sys, queue: seq<Engine.Pending>, world: seq<Engine.Action>)
    : (r: (Sys, seq<Engine.Reply>))
    requires w.segs != [] && |world| == |queue| && forall a :: a in world ==> a.Serve?
    ensures r.0.segs != [] && |r.1| == |queue|
  {
    if queue == [] then (w, [])
    else
      var n := |queue| - 1;
      var (w', replies) := ServeAll(lib, w, queue[..n], world[..n]);
      var (w2, reply) := Engine.ServeOne(lib, w', queue[n].request, world[n]);
      (w2, replies + [reply])
  }

  lemma ServeNone(lib: Lib, w: Sys)
    requires w.segs != []
    ensures ServeAll(lib, w, [], []) == (w, [])
  {
  }

  lemma ServeNext(lib: Lib, w: Sys, queue: seq<Engine.Pending>, world: seq<Engine.Action>, i: nat)
    requires w.segs != [] && |world| == |queue| && (forall a :: a in world ==> a.Serve?) && i < |queue|
    ensures world[i].Serve?
    ensures var (w', replies) := ServeAll(lib, w, queue[..i], world[..i]);
            var (w2, reply) := Engine.ServeOne(lib, w', queue[i].request, world[i]);
            ServeAll(lib, w, queue[..i + 1], world[..i + 1]) == (w2, replies + [reply])
  {
    hide Engine.ServeOne;
    assert queue[..i + 1][..i] == queue[..i] && world[..i + 1][..i] == world[..i];
    assert world[i] in world;
  }

  /** The states that the writer goes through, one command at a time, first come first served. */
  ghost predicate InTurn(lib: Lib, states: seq<Sys>, queue: seq<Engine.Pending>, world: seq<Engine.Action>,
                         replies: seq<Engine.Reply>) {
    && |states| == |queue| + 1 && |replies| == |queue| == |world|
    && forall i :: 0 <= i < |queue| ==> ServesNext(lib, states[i], queue[i], world[i], states[i + 1], replies[i])
  }

  ghost predicate ServesNext(lib: Lib, w: Sys, command: Engine.Pending, a: Engine.Action, w': Sys, reply: Engine.Reply) {
    w.segs != [] && a.Serve? && (w', reply) == Engine.ServeOne(lib, w, command.request, a)
  }

  lemma NothingInTurn(lib: Lib, w: Sys)
    ensures InTurn(lib, [w], [], [], [])
  {
  }

  lemma InTurnAgain(lib: Lib, states: seq<Sys>, queue: seq<Engine.Pending>, world: seq<Engine.Action>,
                    replies: seq<Engine.Reply>, i: nat, w: Sys, reply: Engine.Reply)
    requires i < |queue| == |world| && InTurn(lib, states, queue[..i], world[..i], replies)
    requires ServesNext(lib, states[i], queue[i], world[i], w, reply)
    ensures InTurn(lib, states + [w], queue[..i + 1], world[..i + 1], replies + [reply])
  {
    hide ServesNext;
  }

  method WriterLoop(state: WriterState, queue: seq<Engine.Pending>, world: seq<Engine.Action>)
    returns (replies: seq<Engine.Reply>)
    requires state.Valid() && |state.history| + |queue| + 1 < U64_LIMIT
    requires |world| == |queue| && forall a :: a in world ==> a.Serve?
    modifies state, state.store, state.store.dir
    ensures state.Valid()
    ensures (state.Abs(), replies) == ServeAll(state.lib, old(state.Abs()), queue, world)
    ensures exists states :: InTurn(state.lib, states, queue, world, replies)
                             && states[0] == old(state.Abs()) && states[|queue|] == state.Abs()
  {
    hide Inv, Retention.Process, SegmentName, Represents, LineCodec, ServeAll, InTurn;
    replies := [];
    ghost var states := [state.Abs()];
    assert InTurn(state.lib, states, queue[..0], world[..0], replies) by { NothingInTurn(state.lib, state.Abs()); }
    ghost var before := state.Abs();
    ServeNone(state.lib, before);
    for i := 0 to |queue|
      invariant state.Valid() && |state.history| <= |before.history| + i
      invariant (state.Abs(), replies) == ServeAll(state.lib, before, queue[..i], world[..i])
      invariant InTurn(state.lib, states, queue[..i], world[..i], replies)
      invariant |states| == i + 1 && states[0] == before && states[i] == state.Abs()
    {
      ghost var answered := replies;
      ServeNext(state.lib, before, queue, world, i);
      match queue[i].request {
        case Write(record) =>
          HistoryGrowsByOne(state.lib, state.Abs(), record, world[i].sealed, world[i].now, world[i].fault);
          var result := state.Process(record, world[i].sealed, world[i].now, world[i].fault);
          replies := replies + [Engine.Wrote(result)];
        case AskHead =>
          replies := replies + [Engine.HeadIs(state.seqNo, state.prevHash)];
      }
      InTurnAgain(state.lib, states, queue, world, answered, i, state.Abs(), replies[i]);
      states := states + [state.Abs()];
    }
    assert queue[..|queue|] == queue && world[..|world|] == world;
  }

  lemma HistoryGrowsByOne(lib: Lib, s: Sys, r: Record, sealed: Result<EncryptedPii>, now: i64, fault: Fault)
    requires s.segs != []
    ensures |Retention.Process(lib, s, r, sealed, now, fault).0.history| <= |s.history| + 1
  {
    hide MakeEntry, Appended;
  }

  // ---------- Whole runs over real files ----------

  /** A writer on an empty directory. */
  method Start(lib: Lib, max: u64) returns (w: WriterState)
    requires LineCodec(lib) && max > 0
    ensures fresh(w) && fresh(w.store) && fresh(w.store.dir)
    ensures w.Valid() && w.lib == lib && w.Abs() == Opened(max)
  {
    hide Inv, Represents, IsListing, ReadLines, Recovered, SegmentName, LineCodec;
    var dir := new Directory();
    NothingIsRepresented(lib);
    var reopened, _ := SegmentedStore.Open(lib, dir, max);
    w := new WriterState(lib, reopened.value, []);
    OpenedIsInv(lib, max);
  }

  /** A new store and a new writer over the same directory; a zero limit leaves the old ones. */
  method Reopen(w: WriterState, max: u64) returns (w': WriterState)
    requires w.Valid()
    modifies w.store.dir
    ensures w' == w || (fresh(w') && fresh(w'.store))
    ensures w'.store.dir == w.store.dir && w'.lib == w.lib
    ensures w'.Valid() && w'.Abs() == Reopened(old(w.Abs()), max)
  {
    hide Inv, Represents, IsListing, ReadLines, Recovered, SegmentName, LineCodec;
    ghost var before := w.Abs();
    ReopenIsIdentity(w.lib, before, max);
    var reopened, _ := SegmentedStore.Open(w.lib, w.store.dir, max);
    if reopened.Err? {
      return w;
    }
    w' := new WriterState(w.lib, reopened.value, w.history);
    LimitKeepsInv(w.lib, before, max);
  }

  lemma LimitKeepsInv(lib: Lib, s: Sys, max: u64)
    requires Inv(lib, s) && max > 0
    ensures Inv(lib, s.(store := s.store.(max := max)))
  {
  }

  /**
   A sweep under a live writer. The anchor that a finished sweep returns, once it has deleted
   anything, is the last entry that is gone. Past the guard, a finished sweep deletes every entry
   and returns no anchor.
   */
  method Prune(w: WriterState, boundary: u64, removals: nat) returns (r: Result<Option<Anchor>>)
    requires w.Valid()
    modifies w.store.dir
    ensures w.store.Valid() && w.Abs() == Pruned(old(w.Abs()), boundary, removals)
    ensures r.Err? <==> removals < Dropped(old(w.store.dir.segs), boundary)
    ensures KeepsAnEntry(old(w.store.dir.segs), boundary) ==>
      && w.Valid()
      && (r.Ok? ==> r.value == if Dropped(old(w.store.dir.segs), boundary) == 0 then None
                               else LastGone(w.history, w.store.dir.segs))
    ensures !KeepsAnEntry(old(w.store.dir.segs), boundary) && r.Ok? ==>
      r.value == None && w.history != [] && Flat(w.store.dir.segs) == [] && !w.Valid()
  {
    hide Inv, Represents, IsListing, ListingOf, Swept, LastGone, AnchorBefore;
    hide SegmentName, DropCount, KeepsAnEntry, LineCodec, Flat;
    ghost var before := w.Abs();
    ghost var segs := w.store.dir.segs;
    ghost var files := w.store.dir.files;
    ghost var listing;
    r, listing := PruneBefore(w.lib, w.store.dir, boundary, removals);
    ListingIsSegs(w.lib, files, segs, listing);
    WhatSweepLeaves(w.lib, files, segs, w.store.dir.files, w.store.dir.segs, listing,
                    SweepLength(segs, boundary, removals));
    if KeepsAnEntry(segs, boundary) {
      AfterGuardedSweep(w.lib, w.store.dir.files, before, boundary, removals);
    } else {
      AfterUnguardedSweep(w.lib, w.store.dir.files, before, boundary, removals);
    }
  }

  lemma AfterGuardedSweep(lib: Lib, files: Files, s: Sys, boundary: u64, removals: nat)
    requires s.segs != [] && Inv(lib, s) && KeepsAnEntry(s.segs, boundary)
    requires Represents(lib, files, Pruned(s, boundary, removals).segs)
    ensures var t, k := Pruned(s, boundary, removals), Dropped(s.segs, boundary);
            && t.segs != [] && Last(t.segs) == Last(s.segs) && Inv(lib, t)
            && (0 < k <= removals ==>
                  var name := ListingOf(s.segs)[k].name;
                  name in files && AnchorBefore(lib, files[name]) == LastGone(s.history, t.segs))
  {
    hide Inv, Represents, Dropped, SegmentName, KeepsAnEntry, AnchorBefore, LastGone;
    PruneKeepsInv(lib, s, boundary, removals);
    if 0 < Dropped(s.segs, boundary) <= removals {
      AnchorOfSweep(lib, files, s, boundary);
    }
  }

  lemma AfterUnguardedSweep(lib: Lib, files: Files, s: Sys, boundary: u64, removals: nat)
    requires s.segs != [] && Inv(lib, s) && !KeepsAnEntry(s.segs, boundary)
    requires Represents(lib, files, Pruned(s, boundary, removals).segs)
    ensures var t, k := Pruned(s, boundary, removals), Dropped(s.segs, boundary);
            && t.segs != [] && Last(t.segs) == Last(s.segs)
            && (k <= removals ==>
                  var name := ListingOf(s.segs)[k].name;
                  && k > 0 && name in files && AnchorBefore(lib, files[name]) == None
                  && s.history != [] && Flat(t.segs) == [] && !Inv(lib, t))
  {
    hide Inv, Represents, Dropped, SegmentName, KeepsAnEntry, AnchorBefore, Flat;
    if Dropped(s.segs, boundary) <= removals {
      assert Pruned(s, boundary, removals) == Pruned(s, boundary, |s.segs|);
      UnguardedSweepEmpties(lib, s, boundary);
      assert |s.segs| > 1 by { MoreThanOne(s.segs, boundary); }
      UnguardedSweepForgets(lib, s, boundary, files, 1);
    }
  }

  lemma MoreThanOne(segs: seq<Seg>, boundary: u64)
    requires segs != [] && !KeepsAnEntry(segs, boundary)
    ensures |segs| > 1
  {
  }

  lemma AnchorOfSweep(lib: Lib, files: Files, s: Sys, boundary: u64)
    requires Inv(lib, s) && KeepsAnEntry(s.segs, boundary) && Dropped(s.segs, boundary) > 0
    requires Represents(lib, files, s.segs[Dropped(s.segs, boundary)..])
    ensures var k := Dropped(s.segs, boundary);
            var name := ListingOf(s.segs)[k].name;
            && name in files
            && AnchorBefore(lib, files[name]) == LastGone(s.history, s.segs[k..])
  {
    hide Represents, AnchorBefore, Laid, ValidFrom, Flat, Dropped, After, Boundary;
    hide SegmentName, KeepsAnEntry, LastGone;
    AnchorIsLastRemoved(lib, files, After(None, s.history[..Cut(s.history, s.segs)]), s.segs, boundary);
    BoundaryIsCut(lib, s.history, s.segs, Dropped(s.segs, boundary));
  }

  lemma BoundaryIsCut(lib: Lib, history: seq<Entry>, segs: seq<Seg>, k: nat)
    requires Retained(lib, history, segs) && k <= |segs|
    ensures 0 <= Cut(history, segs) <= |history|
    ensures Boundary(After(None, history[..Cut(history, segs)]), segs, k) == LastGone(history, segs[k..])
  {
    hide Laid, ValidFrom, Flat;
    FlatSplit(segs, k);
    AdvanceCut(history, Cut(history, segs), Flat(segs[..k]), Flat(segs[k..]));
  }

  lemma WhatSweepLeaves(lib: Lib, was: Files, wasSegs: seq<Seg>, files: Files, segs: seq<Seg>,
                        ls: seq<Listed>, j: nat)
    requires Swept(lib, was, wasSegs, files, segs, ls, j) && Represents(lib, was, wasSegs)
    ensures j <= |wasSegs| && segs == wasSegs[j..] && Represents(lib, files, segs)
  {
  }

  /** The same by time, which meets the guard of its own accord. */
  method PruneByTime(w: WriterState, cutoff: i64, removals: nat) returns (r: Result<Option<Anchor>>)
    requires w.Valid()
    modifies w.store.dir
    ensures w.Valid() && w.Abs() == PrunedByTime(old(w.Abs()), cutoff, removals)
    ensures match FindBoundary(Flat(old(w.store.dir.segs)), cutoff)
            case None => r == Ok(None)
            case Some(boundary) =>
              && (r.Err? <==> removals < Dropped(old(w.store.dir.segs), boundary))
              && (r.Ok? ==> r.value == if Dropped(old(w.store.dir.segs), boundary) == 0 then None
                                       else LastGone(w.history, w.store.dir.segs))
  {
    hide Inv, Represents, IsListing, ListingOf, Swept, LastGone, AnchorBefore;
    hide SegmentName, DropCount, KeepsAnEntry, LineCodec, FindBoundary, Flat, ReadListed;
    ghost var before := w.Abs();
    ghost var segs := w.store.dir.segs;
    ghost var files := w.store.dir.files;
    ghost var all, listing;
    r, all, listing := PruneBeforeTimestamp(w.lib, w.store.dir, cutoff, removals);
    ReadsFlat(w.lib, files, segs, all);
    if FindBoundary(Flat(segs), cutoff).Some? {
      var boundary := FindBoundary(Flat(segs), cutoff).value;
      ListingIsSegs(w.lib, files, segs, listing);
      WhatSweepLeaves(w.lib, files, segs, w.store.dir.files, w.store.dir.segs, listing,
                      SweepLength(segs, boundary, removals));
      TimeMeetsGuard(w.lib, before, cutoff);
      AfterGuardedSweep(w.lib, w.store.dir.files, before, boundary, removals);
    }
  }

  lemma ReadsFlat(lib: Lib, files: Files, segs: seq<Seg>, ls: seq<Listed>)
    requires Represents(lib, files, segs) && IsListing(files, ls)
    ensures forall l :: l in ls ==> l.name in files
    ensures ReadListed(lib, files, ls) == Ok(Flat(segs))
  {
    hide Represents, IsListing, ListingOf, ReadListed, Flat;
    ListingIsSegs(lib, files, segs, ls);
    ListedAreFiles(files, ls);
    ReadListedIsFlat(lib, files, segs, |segs|);
    assert ls[..|segs|] == ls && segs[..|segs|] == segs;
  }

  lemma TimeMeetsGuard(lib: Lib, s: Sys, cutoff: i64)
    requires Inv(lib, s) && FindBoundary(Flat(s.segs), cutoff).Some?
    ensures KeepsAnEntry(s.segs, FindBoundary(Flat(s.segs), cutoff).value)
  {
    hide Laid, Flat, FindBoundary, KeepsAnEntry, Dropped;
    TimePruningIsSafe(lib, After(None, s.history[..Cut(s.history, s.segs)]), s.segs, cutoff);
  }

  /** No operation of the list comes where it is not allowed. */
  predicate Guarded(lib: Lib, s: Sys, ops: seq<Op>)
    requires s.segs != []
  {
    ops == [] ||
    (Guarded(lib, s, ops[..|ops| - 1]) && Allowed(Run(lib, s, ops[..|ops| - 1]), ops[|ops| - 1]))
  }

  /**
   Any guarded run, carried out on a directory of real bytes, is the run of the state machine:
   so what module Retention proves of every run holds of the files.
   */
  method Execute(lib: Lib, max: u64, ops: seq<Op>) returns (w: WriterState, files: Files)
    requires LineCodec(lib) && max > 0 && |ops| + 1 < U64_LIMIT
    requires Guarded(lib, Opened(max), ops)
    ensures w.Valid() && w.lib == lib && w.Abs() == Run(lib, Opened(max), ops)
    ensures files == w.store.dir.files && Represents(lib, files, w.Abs().segs)
  {
    hide Inv, Represents, LineCodec, Retention.Process, Retention.Step, SegmentName;
    w := Start(lib, max);
    for i := 0 to |ops|
      invariant fresh(w) && fresh(w.store) && fresh(w.store.dir)
      invariant w.Valid() && w.lib == lib && w.Abs() == Run(lib, Opened(max), ops[..i])
      invariant |w.history| <= i
    {
      GuardedSoFar(lib, Opened(max), ops, i);
      StepIsTaken(lib, w.Abs(), ops[i]);
      match ops[i] {
        case Append(r, sealed, now, fault) =>
          HistoryGrowsByOne(lib, w.Abs(), r, sealed, now, fault);
          var _ := w.Process(r, sealed, now, fault);
        case Reopen(m) =>
          w := Reopen(w, m);
        case Prune(boundary, removals) =>
          var _ := Prune(w, boundary, removals);
        case PruneByTime(cutoff, removals) =>
          var _ := PruneByTime(w, cutoff, removals);
      }
    }
    assert ops[..|ops|] == ops;
    files := w.store.dir.files;
  }

  lemma {:induction false} GuardedSoFar(lib: Lib, s: Sys, ops: seq<Op>, i: nat)
    requires s.segs != [] && Guarded(lib, s, ops) && i < |ops|
    ensures Allowed(Run(lib, s, ops[..i]), ops[i])
    ensures Run(lib, s, ops[..i + 1]) == Retention.Step(lib, Run(lib, s, ops[..i]), ops[i])
  {
    if i == |ops| - 1 {
      assert ops[..i + 1] == ops;
    } else {
      var init := ops[..|ops| - 1];
      GuardedSoFar(lib, s, init, i);
      assert init[..i] == ops[..i] && init[..i + 1] == ops[..i + 1];
    }
  }

  lemma StepIsTaken(lib: Lib, s: Sys, op: Op)
    requires s.segs != []
    ensures Retention.Step(lib, s, op) ==
            match op
            case Append(r, sealed, now, fault) => Retention.Process(lib, s, r, sealed, now, fault).0
            case Reopen(max) => Reopened(s, max)
            case Prune(boundary, removals) => Pruned(s, boundary, removals)
            case PruneByTime(cutoff, removals) => PrunedByTime(s, cutoff, removals)
  {
    hide Retention.Process;
  }
}
