/**
 The segmented store of `segment.rs`: a directory of line files, rotation, reopening and pruning.
 The abstract view of a directory is its list of segments in order.
 */
module Segments {
  import opened Bytes
  import opened Entries
  import opened SegmentNames
  import opened Store
  import opened Verify
  import opened Wrappers

  type Name = seq<byte>
  type Files = map<Name, seq<byte>>

  datatype Listed = Listed(first: u64, name: Name)

  datatype Seg = Seg(first: u64, entries: seq<Entry>)

  // ---------- Listing a directory ----------

  predicate Sorted(ls: seq<Listed>) {
    forall i, j :: 0 <= i < j < |ls| ==> ls[i].first <= ls[j].first
  }

  predicate StrictlySorted(ls: seq<Listed>) {
    forall i, j :: 0 <= i < j < |ls| ==> ls[i].first < ls[j].first
  }

  predicate DistinctNames(ls: seq<Listed>) {
    forall i, j :: 0 <= i < j < |ls| ==> ls[i].name != ls[j].name
  }

  /**
   All the segment files once each, in order of their numbers. Other files are ignored. Two names may
   stand for one number, as `0` and `00` do; their order is the directory's.
   */
  ghost predicate IsListing(files: Files, ls: seq<Listed>) {
    && Sorted(ls) && DistinctNames(ls)
    && (forall l :: l in ls ==> l.name in files && ParseSegmentName(l.name) == Some(l.first))
    && (forall name :: name in files && ParseSegmentName(name).Some? ==>
          Listed(ParseSegmentName(name).value, name) in ls)
  }

  function Insert(ls: seq<Listed>, l: Listed): seq<Listed> {
    if ls == [] || ls[|ls| - 1].first <= l.first then ls + [l]
    else Insert(ls[..|ls| - 1], l) + [ls[|ls| - 1]]
  }

  /** The library's stable sort by first number. */
  function SortByFirst(ls: seq<Listed>): seq<Listed> {
    if ls == [] then [] else Insert(SortByFirst(ls[..|ls| - 1]), ls[|ls| - 1])
  }

  lemma {:induction false} InsertKeepsElements(ls: seq<Listed>, l: Listed)
    ensures forall x :: x in Insert(ls, l) <==> x in ls || x == l
  {
    if ls != [] && ls[|ls| - 1].first > l.first {
      InsertKeepsElements(ls[..|ls| - 1], l);
      assert ls == ls[..|ls| - 1] + [ls[|ls| - 1]];
    }
  }

  lemma {:induction false} InsertSorts(ls: seq<Listed>, l: Listed)
    requires Sorted(ls)
    ensures Sorted(Insert(ls, l))
  {
    if ls != [] && ls[|ls| - 1].first > l.first {
      var init, last := ls[..|ls| - 1], ls[|ls| - 1];
      InsertSorts(init, l);
      InsertKeepsElements(init, l);
      forall x | x in Insert(init, l)
        ensures x.first <= last.first
      {
      }
    }
  }

  lemma DistinctExtends(ls: seq<Listed>, l: Listed)
    requires DistinctNames(ls) && forall x :: x in ls ==> x.name != l.name
    ensures DistinctNames(ls + [l])
  {
  }

  lemma {:induction false} InsertKeepsDistinct(ls: seq<Listed>, l: Listed)
    requires DistinctNames(ls) && forall x :: x in ls ==> x.name != l.name
    ensures DistinctNames(Insert(ls, l))
  {
    if ls == [] || ls[|ls| - 1].first <= l.first {
      DistinctExtends(ls, l);
    } else {
      var init, last := ls[..|ls| - 1], ls[|ls| - 1];
      InsertKeepsDistinct(init, l);
      InsertKeepsElements(init, l);
      assert last in ls;
      DistinctExtends(Insert(init, l), last);
    }
  }

  /** The sort loses nothing, invents nothing, repeats nothing and orders by number. */
  lemma {:induction false} SortSorts(ls: seq<Listed>)
    requires DistinctNames(ls)
    ensures Sorted(SortByFirst(ls)) && DistinctNames(SortByFirst(ls))
    ensures forall x :: x in SortByFirst(ls) <==> x in ls
  {
    hide Insert;
    if ls != [] {
      var init, last := ls[..|ls| - 1], ls[|ls| - 1];
      SortSorts(init);
      InsertKeepsElements(SortByFirst(init), last);
      InsertSorts(SortByFirst(init), last);
      InsertKeepsDistinct(SortByFirst(init), last);
      assert ls == init + [last];
    }
  }

  lemma NonemptyHasMember<T>(s: seq<T>)
    ensures s != [] ==> exists x :: x in s
  {
    if s != [] {
      assert s[0] in s;
    }
  }

  /** A list without ties is determined by its elements. */
  lemma {:induction false} SortedIsUnique(a: seq<Listed>, b: seq<Listed>)
    requires StrictlySorted(a) && StrictlySorted(b)
    requires forall x :: x in a <==> x in b
    ensures a == b
  {
    hide StrictlySorted;
    NonemptyHasMember(a);
    NonemptyHasMember(b);
    if a != [] && b != [] {
      var m, n := |a| - 1, |b| - 1;
      LastIsLargest(a, b[n]);
      LastIsLargest(b, a[m]);
      assert a[m] in b && a[m] == b[n];
      MembersBelowLast(a);
      MembersBelowLast(b);
      forall x
        ensures x in a[..m] <==> x in b[..n]
      {
        assert x in a <==> x in b;
      }
      SortedIsUnique(a[..m], b[..n]);
      assert a == a[..m] + [a[m]] && b == b[..n] + [b[n]];
    }
  }

  lemma LastIsLargest(a: seq<Listed>, x: Listed)
    requires StrictlySorted(a) && a != []
    ensures a[|a| - 1] in a
    ensures x in a ==> x == a[|a| - 1] || x.first < a[|a| - 1].first
  {
  }

  lemma MembersBelowLast(a: seq<Listed>)
    requires StrictlySorted(a) && a != []
    ensures StrictlySorted(a[..|a| - 1])
    ensures forall x :: x in a[..|a| - 1] <==> x in a && x != a[|a| - 1]
  {
    assert a == a[..|a| - 1] + [a[|a| - 1]];
  }

  /** Where one listing has no ties, there is no other. */
  lemma ListingIsUnique(files: Files, a: seq<Listed>, b: seq<Listed>)
    requires IsListing(files, a) && IsListing(files, b) && StrictlySorted(b)
    ensures a == b
  {
    assert forall x :: x in a <==> x in b;
    forall i, j | 0 <= i < j < |a|
      ensures a[i].first < a[j].first
    {
      assert a[i] in b && a[j] in b;
    }
    SortedIsUnique(a, b);
  }

  method ListSegments(files: Files) returns (segs: seq<Listed>)
    ensures IsListing(files, segs)
  {
    hide ParseSegmentName;
    var found: seq<Listed> := [];
    var names := files.Keys;
    while names != {}
      invariant names <= files.Keys
      invariant forall l :: l in found ==>
                  l.name in files && l.name !in names && ParseSegmentName(l.name) == Some(l.first)
      invariant forall name :: name in files && name !in names && ParseSegmentName(name).Some? ==>
                  Listed(ParseSegmentName(name).value, name) in found
      invariant DistinctNames(found)
      decreases names
    {
      var name :| name in names;
      names := names - {name};
      var first := ParseSegmentName(name);
      if first.Some? {
        found := found + [Listed(first.value, name)];
      }
    }
    SortSorts(found);
    segs := SortByFirst(found);
  }

  // ---------- Directories and segments ----------

  function ListingOf(segs: seq<Seg>): (ls: seq<Listed>)
    ensures |ls| == |segs|
    ensures forall i :: 0 <= i < |segs| ==> ls[i] == Listed(segs[i].first, SegmentName(segs[i].first))
  {
    seq(|segs|, i requires 0 <= i < |segs| => Listed(segs[i].first, SegmentName(segs[i].first)))
  }

  predicate HoldsEntries(lib: Lib, content: seq<byte>, es: seq<Entry>) {
    IsComplete(content) && ReadLines(lib, content) == Ok(es)
  }

  /** The directory's segment files are these, with these entries in them. */
  ghost predicate Represents(lib: Lib, files: Files, segs: seq<Seg>) {
    && IsListing(files, ListingOf(segs)) && StrictlySorted(ListingOf(segs))
    && forall i :: 0 <= i < |segs| ==> HoldsEntries(lib, files[ListingOf(segs)[i].name], segs[i].entries)
  }

  function Flat(segs: seq<Seg>): seq<Entry> {
    if segs == [] then [] else Flat(segs[..|segs| - 1]) + segs[|segs| - 1].entries
  }

  lemma NothingIsRepresented(lib: Lib)
    ensures Represents(lib, map[], [])
  {
    hide ParseSegmentName;
    assert ListingOf([]) == [];
  }

  class Directory {
    var files: Files
    ghost var segs: seq<Seg>

    constructor ()
      ensures files == map[] && segs == []
    {
      files, segs := map[], [];
    }

    ghost predicate Valid(lib: Lib)
      reads this
    {
      Represents(lib, files, segs)
    }
  }

  /** Reads the listed files in order; the first malformed one decides the result. */
  function ReadListed(lib: Lib, files: Files, ls: seq<Listed>): Result<seq<Entry>>
    requires forall l :: l in ls ==> l.name in files
  {
    if ls == [] then Ok([])
    else
      match ReadListed(lib, files, ls[..|ls| - 1])
      case Err(error) => Err(error)
      case Ok(es) => Prepend(es, ReadLines(lib, files[ls[|ls| - 1].name]))
  }

  lemma {:induction false} ReadFailsForAll(lib: Lib, files: Files, ls: seq<Listed>, k: nat)
    requires forall l :: l in ls ==> l.name in files
    requires k <= |ls| && ReadListed(lib, files, ls[..k]).Err?
    ensures ReadListed(lib, files, ls) == ReadListed(lib, files, ls[..k])
  {
    hide ReadLines;
    if k == |ls| {
      assert ls[..k] == ls;
    } else {
      assert ls[..|ls| - 1][..k] == ls[..k];
      ReadFailsForAll(lib, files, ls[..|ls| - 1], k);
    }
  }

  /** `listing` is the order that the directory gave. */
  method ReadAllSegmented(lib: Lib, files: Files) returns (r: Result<seq<Entry>>, ghost listing: seq<Listed>)
    ensures IsListing(files, listing)
    ensures (forall l :: l in listing ==> l.name in files) && r == ReadListed(lib, files, listing)
    ensures r.Err? <==> exists l, i, j :: l in listing && IsBadLine(lib, files[l.name], i, j)
    ensures r.Err? ==> r.error == Serde
  {
    hide ReadLines, IsListing, IsBadLine, AreRead, AreAll;
    var out: seq<Entry> := [];
    var ls := ListSegments(files);
    listing := ls;
    ListedAreFiles(files, ls);
    for i := 0 to |ls|
      invariant ReadListed(lib, files, ls[..i]) == Ok(out)
      invariant forall k, m, n :: 0 <= k < i ==> !IsBadLine(lib, files[ls[k].name], m, n)
    {
      assert ls[..i + 1][..i] == ls[..i];
      assert ls[..i + 1][i] == ls[i];
      assert ls[i] in ls;
      var more := ReadAll(lib, files[ls[i].name]);
      if more.Err? {
        ReadFailsForAll(lib, files, ls, i + 1);
        r := Err(more.error);
        return;
      }
      out := out + more.value;
    }
    assert ls[..|ls|] == ls;
    r := Ok(out);
  }

  /** On a well-formed directory the segments read as one flat list. */
  lemma {:induction false} ReadListedIsFlat(lib: Lib, files: Files, segs: seq<Seg>, k: nat)
    requires Represents(lib, files, segs) && k <= |segs|
    ensures forall l :: l in ListingOf(segs)[..k] ==> l.name in files
    ensures ReadListed(lib, files, ListingOf(segs)[..k]) == Ok(Flat(segs[..k]))
    decreases k
  {
    hide Represents, ReadLines, SegmentName;
    if k > 0 {
      ReadListedIsFlat(lib, files, segs, k - 1);
      FileHolds(lib, files, segs, k - 1);
      var ls := ListingOf(segs);
      assert ls[..k] == ls[..k - 1] + [ls[k - 1]];
      assert ls[..k][..k - 1] == ls[..k - 1];
      assert segs[..k][..k - 1] == segs[..k - 1];
    }
  }

  lemma ListedAreFiles(files: Files, ls: seq<Listed>)
    requires IsListing(files, ls)
    ensures forall l :: l in ls ==> l.name in files
  {
  }

  // ---------- The store ----------

  /** The store's own variables. `curCount` is a `u64` counter. */
  datatype StoreState = StoreState(max: u64, curFirst: u64, curCount: u64, tail: Option<Anchor>)

  /** What can go wrong in an append. A failed write is assumed to leave the bytes as they were. */
  datatype Fault = NoFault | RotateFails | WriteFails

  function Last<T>(s: seq<T>): T
    requires s != []
  {
    s[|s| - 1]
  }

  /** The last entry of the last segment that has one. */
  function TailOf(segs: seq<Seg>): Option<Anchor> {
    if segs == [] then None
    else if Last(segs).entries != [] then HeadOf(Last(segs).entries)
    else TailOf(segs[..|segs| - 1])
  }

  lemma {:induction false} TailIsHeadOfFlat(segs: seq<Seg>)
    ensures TailOf(segs) == HeadOf(Flat(segs))
  {
    if segs != [] {
      TailIsHeadOfFlat(segs[..|segs| - 1]);
    }
  }

  /** The segments that `open` leaves: an empty directory gets an empty first segment. */
  function OpenedSegs(segs: seq<Seg>): seq<Seg> {
    if segs == [] then [Seg(1, [])] else segs
  }

  function OpenedState(segs: seq<Seg>, max: u64): StoreState {
    if segs == [] then StoreState(max, 1, 0, None)
    else StoreState(max, Last(segs).first, |Last(segs).entries| % U64_LIMIT, TailOf(segs))
  }

  /** The segments, the counters and the answer after one append. */
  function Rotated(segs: seq<Seg>, st: StoreState, e: Entry): (seq<Seg>, StoreState) {
    if st.curCount >= st.max then (segs + [Seg(e.seqNo, [])], st.(curFirst := e.seqNo, curCount := 0))
    else (segs, st)
  }

  function Appended(segs: seq<Seg>, st: StoreState, e: Entry, fault: Fault): (seq<Seg>, StoreState, bool)
    requires segs != []
  {
    if st.curCount >= st.max && fault == RotateFails then (segs, st, false)
    else
      var (segs', st') := Rotated(segs, st, e);
      if fault == WriteFails then (segs', st', false)
      else
        var n := |segs'| - 1;
        (segs'[n := Seg(segs'[n].first, segs'[n].entries + [e])],
         st'.(curCount := Succ(st'.curCount), tail := Some(AnchorOf(e))), true)
  }

  /** The same for the store's own variables alone: they do not depend on the files. */
  function Counted(st: StoreState, seqNo: u64, hash: Str, fault: Fault): (StoreState, bool) {
    if st.curCount >= st.max && fault == RotateFails then (st, false)
    else
      var st' := if st.curCount >= st.max then st.(curFirst := seqNo, curCount := 0) else st;
      if fault == WriteFails then (st', false)
      else (st'.(curCount := Succ(st'.curCount), tail := Some(Anchor(seqNo, hash))), true)
  }

  /** Opening a file for appending creates it if need be and never truncates it. */
  function Created(files: Files, name: Name): Files {
    if name in files then files else files[name := []]
  }

  /** One file has the entry's line more than it had, and no other file has changed. */
  ghost predicate AddsLine(lib: Lib, was: Files, files: Files, name: Name, e: Entry) {
    files == was[name := (if name in was then was[name] else []) + (lib.entryJson(e) + [10])]
  }

  // ---------- What each change of the directory does to its segments ----------

  lemma ListsNewLast(files: Files, ls: seq<Listed>, l: Listed, content: seq<byte>)
    requires IsListing(files, ls) && StrictlySorted(ls) && ParseSegmentName(l.name) == Some(l.first)
    requires ls != [] ==> Last(ls).first < l.first
    ensures l.name !in files
    ensures IsListing(files[l.name := content], ls + [l]) && StrictlySorted(ls + [l])
  {
    hide ParseSegmentName;
    var longer := ls + [l];
    assert l !in ls;
    assert Listed(l.first, l.name) == l;
    assert forall x :: x in longer <==> x in ls || x == l;
  }

  lemma RepresentsNewLast(lib: Lib, files: Files, segs: seq<Seg>, first: u64)
    requires Represents(lib, files, segs)
    requires segs != [] ==> Last(segs).first < first
    ensures SegmentName(first) !in files
    ensures Represents(lib, files[SegmentName(first) := []], segs + [Seg(first, [])])
  {
    hide SegmentName, ParseSegmentName, IsListing, StrictlySorted, HoldsEntries;
    NameRoundTrip(first);
    var ls, name := ListingOf(segs), SegmentName(first);
    var segs', files' := segs + [Seg(first, [])], files[name := []];
    ListsNewLast(files, ls, Listed(first, name), []);
    ListedAreFiles(files, ls);
    assert ListingOf(segs') == ls + [Listed(first, name)];
    NothingHoldsNothing(lib);
    forall i | 0 <= i < |segs'|
      ensures HoldsEntries(lib, files'[ListingOf(segs')[i].name], segs'[i].entries)
    {
      if i < |segs| {
        assert ls[i] in ls;
        assert HoldsEntries(lib, files[ls[i].name], segs[i].entries);
      }
    }
  }

  lemma NothingHoldsNothing(lib: Lib)
    ensures HoldsEntries(lib, [], [])
  {
    hide ReadLines;
    ReadNothing(lib);
  }

  lemma RepresentsAppend(lib: Lib, files: Files, segs: seq<Seg>, e: Entry)
    requires LineCodec(lib)
    requires Represents(lib, files, segs) && segs != []
    ensures var n := |segs| - 1;
            var name := SegmentName(segs[n].first);
            && name in files
            && Represents(lib, files[name := files[name] + Line(lib, e)],
                          segs[n := Seg(segs[n].first, segs[n].entries + [e])])
  {
    hide ReadLines, SegmentName, ParseSegmentName, Line, IsComplete;
    var n, ls := |segs| - 1, ListingOf(segs);
    var name := ls[n].name;
    assert ls[n] in ls;
    var files' := files[name := files[name] + Line(lib, e)];
    var segs' := segs[n := Seg(segs[n].first, segs[n].entries + [e])];
    assert ListingOf(segs') == ls;
    assert HoldsEntries(lib, files[name], segs[n].entries);
    ReadAfterAppend(lib, files[name], segs[n].entries, e);
    forall i | 0 <= i < |segs'|
      ensures HoldsEntries(lib, files'[ls[i].name], segs'[i].entries)
    {
      assert ls[i] in ls;
      if i < n {
        assert ls[i].name != name;
        assert HoldsEntries(lib, files[ls[i].name], segs[i].entries);
      }
    }
  }

  lemma ListsPruned(files: Files, ls: seq<Listed>)
    requires IsListing(files, ls) && ls != []
    ensures IsListing(files - {ls[0].name}, ls[1..])
    ensures StrictlySorted(ls) ==> StrictlySorted(ls[1..])
  {
    hide ParseSegmentName;
    var rest := ls[1..];
    assert ls == [ls[0]] + rest;
    assert ls[0] in ls;
    forall l | l in rest
      ensures l in ls && l.name != ls[0].name
    {
    }
  }

  lemma RepresentsPruned(lib: Lib, files: Files, segs: seq<Seg>)
    requires Represents(lib, files, segs) && segs != []
    ensures Represents(lib, files - {SegmentName(segs[0].first)}, segs[1..])
  {
    hide SegmentName, IsListing, StrictlySorted, HoldsEntries;
    var ls, rest := ListingOf(segs), ListingOf(segs[1..]);
    var files' := files - {ls[0].name};
    assert rest == ls[1..];
    ListsPruned(files, ls);
    ListedAreFiles(files', rest);
    forall i | 0 <= i < |rest|
      ensures HoldsEntries(lib, files'[rest[i].name], segs[1..][i].entries)
    {
      assert rest[i] in rest;
      assert HoldsEntries(lib, files[ls[i + 1].name], segs[i + 1].entries);
    }
  }

  // ---------- The store as an object ----------

  /** The fallback of `open`: the last entry of the last readable segment that has one. */
  function TailListed(lib: Lib, files: Files, ls: seq<Listed>): Option<Anchor>
    requires forall l :: l in ls ==> l.name in files
  {
    if ls == [] then None
    else
      var n := |ls| - 1;
      match ReadLines(lib, files[ls[n].name])
      case Err(_) => TailListed(lib, files, ls[..n])
      case Ok(es) => if es != [] then HeadOf(es) else TailListed(lib, files, ls[..n])
  }

  /** Some listed file can be read and has an entry. */
  ghost predicate HasTail(lib: Lib, files: Files, ls: seq<Listed>, k: int)
    requires forall l :: l in ls ==> l.name in files
  {
    0 <= k < |ls| && ReadLines(lib, files[ls[k].name]).Ok? && ReadLines(lib, files[ls[k].name]).value != []
  }

  /** The scan answers with the last entry of the last such file. */
  lemma {:induction false} TailSpelled(lib: Lib, files: Files, ls: seq<Listed>, k: nat)
    requires forall l :: l in ls ==> l.name in files
    requires HasTail(lib, files, ls, k) && forall m :: m > k ==> !HasTail(lib, files, ls, m)
    ensures var es := ReadLines(lib, files[ls[k].name]).value;
            TailListed(lib, files, ls) == Some(Anchor(es[|es| - 1].seqNo, es[|es| - 1].entryHash))
  {
    hide ReadLines;
    var n := |ls| - 1;
    if k < n {
      assert !HasTail(lib, files, ls, n);
      forall m | m > k
        ensures !HasTail(lib, files, ls[..n], m)
      {
        assert !HasTail(lib, files, ls, m);
      }
      assert HasTail(lib, files, ls[..n], k);
      TailSpelled(lib, files, ls[..n], k);
    }
  }

  /** And with nothing if there is no such file. */
  lemma {:induction false} NoTailSpelled(lib: Lib, files: Files, ls: seq<Listed>)
    requires forall l :: l in ls ==> l.name in files
    requires forall m :: !HasTail(lib, files, ls, m)
    ensures TailListed(lib, files, ls) == None
  {
    hide ReadLines;
    if ls != [] {
      var n := |ls| - 1;
      assert !HasTail(lib, files, ls, n);
      forall m
        ensures !HasTail(lib, files, ls[..n], m)
      {
        assert !HasTail(lib, files, ls, m);
      }
      NoTailSpelled(lib, files, ls[..n]);
    }
  }

  lemma {:induction false} TailListedIsTail(lib: Lib, files: Files, segs: seq<Seg>, k: nat)
    requires Represents(lib, files, segs) && k <= |segs|
    requires forall l :: l in ListingOf(segs) ==> l.name in files
    ensures TailListed(lib, files, ListingOf(segs)[..k]) == TailOf(segs[..k])
    decreases k
  {
    hide Represents, ReadLines, SegmentName;
    if k > 0 {
      TailListedIsTail(lib, files, segs, k - 1);
      FileHolds(lib, files, segs, k - 1);
      assert ListingOf(segs)[..k][..k - 1] == ListingOf(segs)[..k - 1];
      assert segs[..k][..k - 1] == segs[..k - 1];
    }
  }

  /** What `open` makes of any directory whose last segment is readable. */
  ghost predicate Recovered(lib: Lib, files: Files, ls: seq<Listed>, st: StoreState)
    requires forall l :: l in ls ==> l.name in files
  {
    if ls == [] then st == StoreState(st.max, 1, 0, None)
    else
      var read := ReadLines(lib, files[Last(ls).name]);
      read.Ok? && st == StoreState(st.max, Last(ls).first, |read.value| % U64_LIMIT, TailListed(lib, files, ls))
  }

  class SegmentedStore {
    const lib: Lib
    const dir: Directory
    const max: u64
    var file: Name
    var curFirst: u64
    var curCount: u64
    var tail: Option<Anchor>

    /** The open file is the last segment of a well-formed directory. */
    ghost predicate Valid()
      reads this, dir
    {
      && dir.Valid(lib) && dir.segs != []
      && file == SegmentName(Last(dir.segs).first)
    }

    ghost function State(): StoreState
      reads this
    {
      StoreState(max, curFirst, curCount, tail)
    }

    constructor (lib: Lib, dir: Directory, max: u64, file: Name, st: StoreState)
      requires st.max == max
      ensures this.lib == lib && this.dir == dir && this.file == file && State() == st
    {
      this.lib, this.dir, this.max, this.file := lib, dir, max, file;
      this.curFirst, this.curCount, this.tail := st.curFirst, st.curCount, st.tail;
    }

    /**
     A zero limit and a malformed last segment are refused. Counters and tail are recovered from the
     files alone. `listing` is the order that the directory gave.
     */
    static method Open(lib: Lib, dir: Directory, max: u64)
      returns (r: Result<SegmentedStore>, ghost listing: seq<Listed>)
      modifies dir
      ensures max == 0 ==> r == Err(Config)
      ensures IsListing(old(dir.files), listing) && forall l :: l in listing ==> l.name in old(dir.files)
      ensures max > 0 ==> (r.Err? <==> listing != [] && ReadLines(lib, old(dir.files)[Last(listing).name]).Err?)
      ensures max > 0 ==>
        (r.Err? <==> listing != [] && exists i, j :: IsBadLine(lib, old(dir.files)[Last(listing).name], i, j))
      ensures r.Err? ==> dir.files == old(dir.files) && dir.segs == old(dir.segs)
      ensures r.Ok? ==>
        && fresh(r.value) && r.value.lib == lib && r.value.dir == dir
        && Recovered(lib, old(dir.files), listing, r.value.State()) && r.value.max == max
        && r.value.file == SegmentName(r.value.curFirst)
        && dir.files == Created(old(dir.files), r.value.file)
      ensures old(dir.Valid(lib)) && max > 0 ==>
        && r.Ok? && r.value.Valid()
        && dir.segs == OpenedSegs(old(dir.segs))
        && r.value.State() == OpenedState(old(dir.segs), max)
    {
      hide ReadLines, SegmentName, ParseSegmentName, HoldsEntries, IsListing, IsBadLine, AreRead, AreAll;
      var ls := ListSegments(dir.files);
      listing := ls;
      ListedAreFiles(dir.files, ls);
      if max == 0 {
        r := Err(Config);
        return;
      }
      var st := StoreState(max, 1, 0, None);
      ghost var segs := dir.segs;
      if |ls| > 0 {
        var last := ls[|ls| - 1];
        assert last in ls;
        if dir.Valid(lib) {
          LastIsReadable(lib, dir.files, segs, ls);
        }
        var entries := ReadAll(lib, dir.files[last.name]);
        if entries.Err? {
          r := Err(entries.error);
          return;
        }
        var tail := ScanTail(lib, dir.files, ls);
        st := StoreState(max, last.first, |entries.value| % U64_LIMIT, tail);
      }
      if dir.Valid(lib) {
        OpenRecovers(lib, dir.files, segs, ls, st);
      }
      var file := SegmentName(st.curFirst);
      if file !in dir.files {
        dir.files := dir.files[file := []];
        dir.segs := OpenedSegs(segs);
      }
      var store := new SegmentedStore(lib, dir, max, file, st);
      r := Ok(store);
    }

    /** Under a number above the last segment's this starts a new empty segment. */
    method RotateTo(first: u64, opens: bool) returns (r: Result<()>)
      modifies this, dir
      ensures r == if opens then Ok(()) else Err(Io)
      ensures file == if opens then SegmentName(first) else old(file)
      ensures dir.files == if opens then Created(old(dir.files), file) else old(dir.files)
      ensures State() == if opens then old(State()).(curFirst := first, curCount := 0) else old(State())
      ensures old(Valid()) && (opens ==> Last(old(dir.segs)).first < first) ==>
        && Valid()
        && dir.segs == if opens then old(dir.segs) + [Seg(first, [])] else old(dir.segs)
    {
      hide SegmentName, Represents;
      if !opens {
        return Err(Io);
      }
      if Valid() && Last(dir.segs).first < first {
        RepresentsNewLast(lib, dir.files, dir.segs, first);
        dir.segs := dir.segs + [Seg(first, [])];
      }
      file := SegmentName(first);
      if file !in dir.files {
        dir.files := dir.files[file := []];
      }
      curFirst := first;
      curCount := 0;
      r := Ok(());
    }

    /**
     The bytes and the counters, on any directory. If it is well-formed and a rotation names a new
     last segment, it stays so.
     */
    method Append(e: Entry, fault: Fault) returns (r: Result<()>)
      requires file in dir.files
      modifies this, dir
      ensures (State(), r.Ok?) == Counted(old(State()), e.seqNo, e.entryHash, fault)
      ensures r.Err? ==> r.error == Io
      ensures file == if old(curCount) >= max && fault != RotateFails then SegmentName(e.seqNo) else old(file)
      ensures file in dir.files
      ensures var made := Created(old(dir.files), file);
              dir.files == if r.Ok? then made[file := made[file] + Line(lib, e)] else made
      ensures r.Ok? <==> fault != WriteFails && !(old(curCount) >= max && fault == RotateFails)
      ensures var rotates := old(curCount) >= max && fault != RotateFails;
              && curFirst == (if rotates then e.seqNo else old(curFirst))
              && (r.Ok? ==> curCount == ((if rotates then 0 else old(curCount)) + 1) % U64_LIMIT)
              && tail == (if r.Ok? then Some(Anchor(e.seqNo, e.entryHash)) else old(tail))
      ensures r.Ok? ==> AddsLine(lib, old(dir.files), dir.files, file, e)
      ensures LineCodec(lib) && old(Valid()) && (old(curCount) >= max ==> Last(old(dir.segs)).first < e.seqNo) ==>
        && Valid()
        && (dir.segs, State(), r.Ok?) == Appended(old(dir.segs), old(State()), e, fault)
    {
      hide SegmentName, Represents, Line, LineCodec;
      LineSpelled(lib, e);
      if curCount >= max {
        var rotated := RotateTo(e.seqNo, fault != RotateFails);
        if rotated.Err? {
          return rotated;
        }
      }
      if fault == WriteFails {
        return Err(Io);
      }
      WriteLine(e);
      r := Ok(());
    }

    /** The write that succeeds: one line more in the open file, and counter and tail follow. */
    method WriteLine(e: Entry)
      requires file in dir.files
      modifies this, dir
      ensures file == old(file) && dir.files == old(dir.files)[file := old(dir.files)[file] + Line(lib, e)]
      ensures State() == old(State()).(curCount := Succ(old(curCount)), tail := Some(AnchorOf(e)))
      ensures LineCodec(lib) && old(Valid()) ==>
        && Valid()
        && var n := |old(dir.segs)| - 1;
        dir.segs == old(dir.segs)[n := Seg(old(dir.segs)[n].first, old(dir.segs)[n].entries + [e])]
    {
      hide SegmentName, Represents, Line, LineCodec;
      if LineCodec(lib) && Valid() {
        RepresentsAppend(lib, dir.files, dir.segs, e);
        ghost var n := |dir.segs| - 1;
        dir.segs := dir.segs[n := Seg(dir.segs[n].first, dir.segs[n].entries + [e])];
      }
      dir.files := dir.files[file := dir.files[file] + Line(lib, e)];
      curCount := Succ(curCount);
      tail := Some(AnchorOf(e));
    }
  }

  method ScanTail(lib: Lib, files: Files, ls: seq<Listed>) returns (tail: Option<Anchor>)
    requires forall l :: l in ls ==> l.name in files
    ensures tail == TailListed(lib, files, ls)
  {
    hide ReadLines, IsBadLine, AreRead, AreAll;
    var i := |ls|;
    assert ls[..i] == ls;
    while i > 0
      invariant 0 <= i <= |ls|
      invariant TailListed(lib, files, ls) == TailListed(lib, files, ls[..i])
    {
      i := i - 1;
      assert ls[..i + 1][..i] == ls[..i];
      var entries := ReadAll(lib, files[ls[i].name]);
      if entries.Ok? && |entries.value| > 0 {
        return Some(AnchorOf(entries.value[|entries.value| - 1]));
      }
    }
    tail := None;
  }

  lemma LastIsReadable(lib: Lib, files: Files, segs: seq<Seg>, ls: seq<Listed>)
    requires Represents(lib, files, segs) && IsListing(files, ls) && ls != []
    ensures Last(ls).name in files && ReadLines(lib, files[Last(ls).name]).Ok?
  {
    hide Represents, IsListing, SegmentName, ReadLines;
    ListingIsSegs(lib, files, segs, ls);
    FileHolds(lib, files, segs, |segs| - 1);
  }

  lemma OpenRecovers(lib: Lib, files: Files, segs: seq<Seg>, ls: seq<Listed>, st: StoreState)
    requires Represents(lib, files, segs) && IsListing(files, ls)
    requires forall l :: l in ls ==> l.name in files
    requires Recovered(lib, files, ls, st)
    ensures st == OpenedState(segs, st.max)
    ensures segs == [] ==> SegmentName(1) !in files && Represents(lib, files[SegmentName(1) := []], [Seg(1, [])])
    ensures segs != [] ==> SegmentName(st.curFirst) in files && st.curFirst == Last(segs).first
  {
    hide Represents, IsListing, SegmentName, ReadLines, TailListed;
    ListingIsSegs(lib, files, segs, ls);
    if segs == [] {
      RepresentsNewLast(lib, files, segs, 1);
      assert segs + [Seg(1, [])] == [Seg(1, [])];
    } else {
      FileHolds(lib, files, segs, |segs| - 1);
      TailListedIsTail(lib, files, segs, |segs|);
      assert ls[..|segs|] == ls && segs[..|segs|] == segs;
    }
  }

  lemma ListingIsSegs(lib: Lib, files: Files, segs: seq<Seg>, ls: seq<Listed>)
    requires Represents(lib, files, segs) && IsListing(files, ls)
    ensures ls == ListingOf(segs)
  {
    hide IsListing, StrictlySorted, HoldsEntries;
    ListingIsUnique(files, ls, ListingOf(segs));
  }

  lemma FileHolds(lib: Lib, files: Files, segs: seq<Seg>, i: nat)
    requires Represents(lib, files, segs) && i < |segs|
    ensures var name := SegmentName(segs[i].first);
            name in files && ReadLines(lib, files[name]) == Ok(segs[i].entries)
  {
    hide SegmentName, ParseSegmentName, ReadLines, IsComplete, StrictlySorted;
    assert ListingOf(segs)[i] in ListingOf(segs);
    assert HoldsEntries(lib, files[ListingOf(segs)[i].name], segs[i].entries);
  }
}
