/** Retention: whole old segments are deleted, and the rest still verifies from an anchor. */
module Pruning {
  import opened Bytes
  import opened Entries
  import opened SegmentNames
  import opened Segments
  import opened Store
  import opened Verify
  import opened Wrappers

  // ---------- Which segments go ----------

  /** A segment goes if the next one starts at or before the boundary; the last one never goes. */
  function DropCount(ls: seq<Listed>, boundary: u64): (k: nat)
    ensures ls == [] ==> k == 0
    ensures ls != [] ==> k < |ls|
  {
    if |ls| <= 1 || ls[1].first > boundary then 0 else 1 + DropCount(ls[1..], boundary)
  }

  function Dropped(segs: seq<Seg>, boundary: u64): (k: nat)
    ensures segs == [] ==> k == 0
    ensures segs != [] ==> k < |segs|
  {
    DropCount(ListingOf(segs), boundary)
  }

  lemma {:induction false} DropCountExact(ls: seq<Listed>, boundary: u64, i: nat)
    requires Sorted(ls)
    ensures i < DropCount(ls, boundary) <==> i + 1 < |ls| && ls[i + 1].first <= boundary
  {
    if |ls| > 1 {
      if ls[1].first > boundary {
        assert i + 1 < |ls| ==> ls[1].first <= ls[i + 1].first;
      } else if i > 0 {
        DropCountExact(ls[1..], boundary, i - 1);
      }
    }
  }

  /** What `prune_before` hands back, from the first file that is left. */
  function AnchorBefore(lib: Lib, content: seq<byte>): Option<Anchor> {
    match ReadLines(lib, content)
    case Err(_) => None
    case Ok(es) =>
      if es != [] && es[0].seqNo > 1 then Some(Anchor(es[0].seqNo - 1, es[0].prevHash)) else None
  }

  /** The entry just before the first one in the file, if that one has a number above one. */
  lemma AnchorSpelled(lib: Lib, content: seq<byte>)
    ensures var read := ReadLines(lib, content);
            AnchorBefore(lib, content) ==
            if read.Ok? && |read.value| > 0 && read.value[0].seqNo >= 2
            then Some(Anchor(read.value[0].seqNo - 1, read.value[0].prevHash)) else None
  {
  }

  // ---------- The pruning sweep ----------

  predicate Listing(ls: seq<Listed>, name: Name) {
    exists k :: 0 <= k < |ls| && ls[k].name == name
  }

  /** The first `i` listed files are gone, and nothing else has changed. */
  ghost predicate Swept(lib: Lib, was: Files, wasSegs: seq<Seg>, files: Files, segs: seq<Seg>,
                        ls: seq<Listed>, i: nat) {
    && i <= |ls|
    && IsListing(files, ls[i..])
    && (forall name :: name in files <==> name in was && !Listing(ls[..i], name))
    && (forall name :: name in files ==> files[name] == was[name])
    && (forall l :: l in ls[i..] ==> l.name in was && files[l.name] == was[l.name])
    && (Represents(lib, was, wasSegs) ==>
          i <= |wasSegs| && segs == wasSegs[i..] && Represents(lib, files, segs))
  }

  lemma SweepBegins(lib: Lib, files: Files, segs: seq<Seg>, ls: seq<Listed>)
    requires IsListing(files, ls)
    ensures Swept(lib, files, segs, files, segs, ls, 0)
  {
    hide Represents;
    assert ls[0..] == ls && segs[0..] == segs;
  }

  lemma ListingOneMore(ls: seq<Listed>, i: nat, name: Name)
    requires i < |ls|
    ensures Listing(ls[..i + 1], name) <==> Listing(ls[..i], name) || name == ls[i].name
  {
    assert ls[..i + 1][i] == ls[i];
    if k :| 0 <= k < i && ls[..i][k].name == name {
      assert ls[..i + 1][k].name == name;
    }
  }

  lemma SweepContinues(lib: Lib, was: Files, wasSegs: seq<Seg>, files: Files, segs: seq<Seg>, ls: seq<Listed>, i: nat)
    requires Swept(lib, was, wasSegs, files, segs, ls, i) && i < |ls|
    ensures Represents(lib, was, wasSegs) ==> i < |wasSegs|
    ensures Swept(lib, was, wasSegs, files - {ls[i].name},
                  if Represents(lib, was, wasSegs) then wasSegs[i + 1..] else segs, ls, i + 1)
  {
    hide ReadLines, SegmentName, ParseSegmentName, IsListing, Represents, Listing;
    assert ls[i..][1..] == ls[i + 1..] && ls[i..][0] == ls[i];
    ListsPruned(files, ls[i..]);
    ListedAreFiles(files - {ls[i].name}, ls[i + 1..]);
    forall name
      ensures Listing(ls[..i + 1], name) <==> Listing(ls[..i], name) || name == ls[i].name
    {
      ListingOneMore(ls, i, name);
    }
    forall l | l in ls[i + 1..]
      ensures l.name in was && (files - {ls[i].name})[l.name] == was[l.name]
    {
      assert l in ls[i..];
    }
    if Represents(lib, was, wasSegs) {
      ListingIsSegs(lib, files, segs, ls[i..]);
      RepresentsPruned(lib, files, segs);
      assert segs[1..] == wasSegs[i + 1..];
    }
  }

  /** What a sweep leaves and answers: the leading segments are gone, as far as it got. */
  ghost predicate SweepEnds(lib: Lib, was: Files, wasSegs: seq<Seg>, files: Files, segs: seq<Seg>,
                            ls: seq<Listed>, boundary: u64, removals: nat, r: Result<Option<Anchor>>) {
    var k := DropCount(ls, boundary);
    && Swept(lib, was, wasSegs, files, segs, ls, if removals < k then removals else k)
    && (r.Err? <==> removals < k)
    && (r.Ok? && k == 0 ==> r.value == None)
    && (r.Ok? && k > 0 ==> ls[k].name in files && r.value == AnchorBefore(lib, files[ls[k].name]))
  }

  /**
   Removal number `removals` fails, and the sweep stops there. However far it got, exactly the
   leading segments are gone.
   */
  method PruneBefore(lib: Lib, dir: Directory, boundary: u64, removals: nat)
    returns (r: Result<Option<Anchor>>, ghost listing: seq<Listed>)
    modifies dir
    ensures IsListing(old(dir.files), listing)
    ensures SweepEnds(lib, old(dir.files), old(dir.segs), dir.files, dir.segs, listing, boundary, removals, r)
  {
    hide ReadLines, Represents, IsListing, Swept, IsBadLine, AreRead, AreAll;
    var segs := ListSegments(dir.files);
    listing := segs;
    SweepBegins(lib, dir.files, dir.segs, segs);
    r := Ok(None);
    if |segs| <= 1 {
      return;
    }

    var i := 0;
    assert segs[0..] == segs;
    while i < |segs| - 1 && segs[i + 1].first <= boundary
      invariant 0 <= i <= |segs| - 1 && i <= removals
      invariant i > 0 ==> segs[i].first <= boundary
      invariant Swept(lib, old(dir.files), old(dir.segs), dir.files, dir.segs, segs, i)
      invariant DropCount(segs, boundary) == i + DropCount(segs[i..], boundary)
    {
      assert segs[i..][1] == segs[i + 1];
      assert segs[i..][1..] == segs[i + 1..];
      if i >= removals {
        r := Err(Io);
        return;
      }
      SweepContinues(lib, old(dir.files), old(dir.segs), dir.files, dir.segs, segs, i);
      dir.files := dir.files - {segs[i].name};
      if Represents(lib, old(dir.files), old(dir.segs)) {
        dir.segs := old(dir.segs)[i + 1..];
      }
      i := i + 1;
    }
    if i == 0 {
      return;
    }

    SweptRemainder(lib, old(dir.files), old(dir.segs), dir.files, dir.segs, segs, i);
    var remaining := ListSegments(dir.files);
    assert i + 1 < |segs| ==> segs[i..][1] == segs[i + 1];
    FirstIsUnique(dir.files, segs[i..], remaining);
    var first := ReadAll(lib, dir.files[remaining[0].name]);
    if first.Ok? && |first.value| > 0 && first.value[0].seqNo > 1 {
      r := Ok(Some(Anchor(first.value[0].seqNo - 1, first.value[0].prevHash)));
    }
  }

  /** Whatever the order of ties, a first segment that shares its number with no other stays first. */
  lemma FirstIsUnique(files: Files, a: seq<Listed>, b: seq<Listed>)
    requires IsListing(files, a) && IsListing(files, b)
    requires a != [] && (|a| > 1 ==> a[0].first < a[1].first)
    ensures b != [] && b[0] == a[0]
  {
    hide ParseSegmentName;
    assert a[0] in a && Listed(a[0].first, a[0].name) in b;
    assert b[0] in b && Listed(b[0].first, b[0].name) in a;
  }

  lemma SweptRemainder(lib: Lib, was: Files, wasSegs: seq<Seg>, files: Files, segs: seq<Seg>, ls: seq<Listed>, i: nat)
    requires Swept(lib, was, wasSegs, files, segs, ls, i) && i < |ls|
    ensures IsListing(files, ls[i..]) && ls[i..][0] == ls[i] && ls[i].name in files
  {
    hide Represents;
    assert ls[i] in ls[i..];
  }

  /** The number of the first entry not older than the cutoff. Timestamps need not be in order. */
  function FindBoundary(es: seq<Entry>, cutoff: i64): Option<u64> {
    if es == [] then None
    else if es[0].timestamp >= cutoff then Some(es[0].seqNo)
    else FindBoundary(es[1..], cutoff)
  }

  /**
   Prunes before the first entry that is not older than the cutoff, if the log has one.
   A malformed segment stops it before anything is touched.
   */
  method PruneBeforeTimestamp(lib: Lib, dir: Directory, cutoff: i64, removals: nat)
    returns (r: Result<Option<Anchor>>, ghost all: seq<Listed>, ghost listing: seq<Listed>)
    modifies dir
    ensures IsListing(old(dir.files), all) && forall l :: l in all ==> l.name in old(dir.files)
    ensures IsListing(old(dir.files), listing)
    ensures match ReadListed(lib, old(dir.files), all)
            case Err(error) => r == Err(error) && dir.files == old(dir.files) && dir.segs == old(dir.segs)
            case Ok(es) =>
              match FindBoundary(es, cutoff)
              case None => r == Ok(None) && dir.files == old(dir.files) && dir.segs == old(dir.segs)
              case Some(boundary) =>
                SweepEnds(lib, old(dir.files), old(dir.segs), dir.files, dir.segs, listing, boundary, removals, r)
  {
    hide ReadLines, Represents, IsListing, Swept, ReadListed, SweepEnds, IsBadLine;
    var read;
    read, all := ReadAllSegmented(lib, dir.files);
    listing := all;
    if read.Err? {
      r := Err(read.error);
      return;
    }
    var es := read.value;
    var i := 0;
    assert es[0..] == es;
    while i < |es|
      invariant 0 <= i <= |es|
      invariant FindBoundary(es, cutoff) == FindBoundary(es[i..], cutoff)
    {
      if es[i].timestamp >= cutoff {
        r, listing := PruneBefore(lib, dir, es[i].seqNo, removals);
        return;
      }
      assert es[i..][1..] == es[i + 1..];
      i := i + 1;
    }
    r := Ok(None);
  }

  // ---------- Segments of a chain ----------

  /**
   The segments hold a chain that follows `start`, each named by the number of its first entry
   or, when empty, of the entry that would come next. Only the last can be empty.
   */
  ghost predicate Laid(lib: Lib, start: Option<Anchor>, segs: seq<Seg>) {
    && segs != []
    && ValidFrom(lib, start, Flat(segs)) && FirstSeq(start) + |Flat(segs)| <= U64_LIMIT
    && (forall i :: 0 <= i < |segs| ==> segs[i].first == FirstSeq(start) + |Flat(segs[..i])|)
    && (forall i :: 0 <= i < |segs| - 1 ==> segs[i].entries != [])
  }

  lemma {:induction false} FlatConcat(a: seq<Seg>, b: seq<Seg>)
    ensures Flat(a + b) == Flat(a) + Flat(b)
  {
    if b == [] {
      assert a + b == a;
    } else {
      var n := |b| - 1;
      assert (a + b)[..|a| + n] == a + b[..n];
      FlatConcat(a, b[..n]);
    }
  }

  lemma FlatSplit(segs: seq<Seg>, j: nat)
    requires j <= |segs|
    ensures Flat(segs) == Flat(segs[..j]) + Flat(segs[j..])
  {
    assert segs == segs[..j] + segs[j..];
    FlatConcat(segs[..j], segs[j..]);
  }

  lemma FlatNext(segs: seq<Seg>, i: nat)
    requires i < |segs|
    ensures Flat(segs[..i + 1]) == Flat(segs[..i]) + segs[i].entries
  {
    assert segs[..i + 1][..i] == segs[..i];
  }

  /** Where the chain stands after the first `j` segments. */
  function Boundary(start: Option<Anchor>, segs: seq<Seg>, j: nat): Option<Anchor>
    requires j <= |segs|
  {
    After(start, Flat(segs[..j]))
  }

  lemma BoundaryNumber(lib: Lib, start: Option<Anchor>, segs: seq<Seg>, j: nat)
    requires Laid(lib, start, segs) && j <= |segs|
    ensures FirstSeq(Boundary(start, segs, j)) == FirstSeq(start) + |Flat(segs[..j])|
  {
    hide Fits, Flat;
    FlatSplit(segs, j);
    var kept := Flat(segs[..j]);
    if kept != [] {
      SeqTellsPosition(lib, start, Flat(segs), |kept| - 1);
      assert Flat(segs)[|kept| - 1] == kept[|kept| - 1];
    }
  }

  /**
   Pruning is safe at every point of the sweep: whatever number of leading segments is gone, the
   rest is laid out as before and follows the last removed entry.
   */
  lemma PruningKeepsLayout(lib: Lib, start: Option<Anchor>, segs: seq<Seg>, j: nat)
    requires Laid(lib, start, segs) && j < |segs|
    ensures Laid(lib, Boundary(start, segs, j), segs[j..])
    ensures Violations(lib, Boundary(start, segs, j), Flat(segs[j..])) == []
  {
    hide Fits, Flat;
    var from, rest := Boundary(start, segs, j), segs[j..];
    FlatSplit(segs, j);
    BoundaryNumber(lib, start, segs, j);
    ValidConcat(lib, start, Flat(segs[..j]), Flat(rest));
    ReportIsExact(lib, from, Flat(rest));
    forall i | 0 <= i < |rest|
      ensures rest[i].first == FirstSeq(from) + |Flat(rest[..i])|
    {
      assert segs[..j + i][..j] == segs[..j] && segs[..j + i][j..] == rest[..i];
      FlatSplit(segs[..j + i], j);
      assert segs[j + i].first == FirstSeq(start) + |Flat(segs[..j + i])|;
    }
  }

  /** Where an entry of a segment sits in the whole list, and so its number. */
  lemma NumberInSegment(lib: Lib, start: Option<Anchor>, segs: seq<Seg>, i: nat, k: nat)
    requires Laid(lib, start, segs) && i < |segs| && k < |segs[i].entries|
    ensures segs[i].entries[k].seqNo == segs[i].first + k
  {
    hide Fits, Flat;
    FlatNext(segs, i);
    FlatSplit(segs, i + 1);
    var at := |Flat(segs[..i])| + k;
    assert Flat(segs)[at] == segs[i].entries[k];
    SeqTellsPosition(lib, start, Flat(segs), at);
  }

  lemma NextFirst(lib: Lib, start: Option<Anchor>, segs: seq<Seg>, i: nat)
    requires Laid(lib, start, segs) && i + 1 < |segs|
    ensures segs[i + 1].first == segs[i].first + |segs[i].entries|
    ensures segs[i].first < segs[i + 1].first
  {
    hide Flat;
    FlatNext(segs, i);
    assert segs[i].first == FirstSeq(start) + |Flat(segs[..i])|;
    assert segs[i + 1].first == FirstSeq(start) + |Flat(segs[..i + 1])|;
    assert segs[i].entries != [];
  }

  lemma LaidIsSorted(lib: Lib, start: Option<Anchor>, segs: seq<Seg>)
    requires Laid(lib, start, segs)
    ensures Sorted(ListingOf(segs)) && StrictlySorted(ListingOf(segs))
  {
    hide Flat, ValidFrom, SegmentName;
    forall i, j | 0 <= i < j < |segs|
      ensures segs[i].first < segs[j].first
    {
      FirstsAscend(lib, start, segs, i, j);
    }
  }

  lemma {:induction false} FirstsAscend(lib: Lib, start: Option<Anchor>, segs: seq<Seg>, i: nat, j: nat)
    requires Laid(lib, start, segs) && i < j < |segs|
    ensures segs[i].first < segs[j].first
    decreases j
  {
    hide Laid;
    NextFirst(lib, start, segs, j - 1);
    if i < j - 1 {
      FirstsAscend(lib, start, segs, i, j - 1);
    }
  }

  /**
   Exactly the right segments go: those before the last that lie wholly below the boundary. So
   no entry at or above it is ever deleted.
   */
  lemma PruningIsExact(lib: Lib, start: Option<Anchor>, segs: seq<Seg>, boundary: u64, i: nat)
    requires Laid(lib, start, segs) && i < |segs|
    ensures i < Dropped(segs, boundary) <==>
            i < |segs| - 1 && forall e :: e in segs[i].entries ==> e.seqNo < boundary
  {
    hide Flat, ValidFrom, SegmentName;
    LaidIsSorted(lib, start, segs);
    DropCountExact(ListingOf(segs), boundary, i);
    if i < |segs| - 1 {
      hide Laid;
      NextFirst(lib, start, segs, i);
      var n := |segs[i].entries|;
      NumberInSegment(lib, start, segs, i, n - 1);
      assert segs[i].entries[n - 1] in segs[i].entries;
      forall e | e in segs[i].entries
        ensures e.seqNo < segs[i + 1].first
      {
        var k :| 0 <= k < n && segs[i].entries[k] == e;
        NumberInSegment(lib, start, segs, i, k);
      }
    }
  }

  /** The last segment keeps something for the next `open` to resume from. */
  predicate KeepsAnEntry(segs: seq<Seg>, boundary: u64)
    requires segs != []
  {
    |segs| == 1 || Last(segs).entries != [] || boundary < Last(segs).first
  }

  /**
   The anchor that a finished sweep returns is the last removed entry, sequence number and hash,
   as long as any entry is left.
   */
  lemma AnchorIsLastRemoved(lib: Lib, files: Files, start: Option<Anchor>, segs: seq<Seg>, boundary: u64)
    requires Laid(lib, start, segs) && Dropped(segs, boundary) > 0
    requires KeepsAnEntry(segs, boundary)
    requires Represents(lib, files, segs[Dropped(segs, boundary)..])
    ensures var k := Dropped(segs, boundary);
            var name := SegmentName(segs[k].first);
            && name in files
            && Flat(segs[..k]) != []
            && AnchorBefore(lib, files[name]) == Some(AnchorOf(Last(Flat(segs[..k]))))
            && Boundary(start, segs, k) == AnchorBefore(lib, files[name])
  {
    hide Flat, Laid, SegmentName, Represents, ReadLines, Boundary;
    assert |segs| > 1;
    var k := Dropped(segs, boundary);
    LastSegmentGoesOnlyIfReached(lib, start, segs, boundary);
    FileHolds(lib, files, segs[k..], 0);
    FollowsTheCut(lib, start, segs, k);
  }

  lemma OnlyLastIsEmpty(lib: Lib, start: Option<Anchor>, segs: seq<Seg>, i: nat)
    requires Laid(lib, start, segs) && i + 1 < |segs|
    ensures segs[i].entries != []
  {
    hide ValidFrom, Flat;
  }

  lemma FollowsTheCut(lib: Lib, start: Option<Anchor>, segs: seq<Seg>, k: nat)
    requires Laid(lib, start, segs) && 0 < k < |segs| && segs[k].entries != []
    ensures Flat(segs[..k]) != []
    ensures var a, e := AnchorOf(Last(Flat(segs[..k]))), segs[k].entries[0];
            && Boundary(start, segs, k) == Some(a)
            && e.seqNo == a.seqNo + 1 > 1 && e.prevHash == a.hash
  {
    hide Flat, Laid, Violations, ValidFrom;
    OnlyLastIsEmpty(lib, start, segs, k - 1);
    FlatNext(segs, k - 1);
    PruningKeepsLayout(lib, start, segs, k);
    FirstFollows(lib, Boundary(start, segs, k), segs[k..]);
    BoundaryNumber(lib, start, segs, k);
  }

  lemma LastSegmentGoesOnlyIfReached(lib: Lib, start: Option<Anchor>, segs: seq<Seg>, boundary: u64)
    requires Laid(lib, start, segs) && KeepsAnEntry(segs, boundary)
    ensures |segs| > 1 ==> segs[Dropped(segs, boundary)].entries != []
  {
    hide Flat, ValidFrom, SegmentName;
    var k := Dropped(segs, boundary);
    LaidIsSorted(lib, start, segs);
    if k == |segs| - 1 && k > 0 {
      DropCountExact(ListingOf(segs), boundary, k - 1);
    }
  }

  lemma FirstFollows(lib: Lib, start: Option<Anchor>, segs: seq<Seg>)
    requires Laid(lib, start, segs) && segs[0].entries != []
    ensures Follows(start, segs[0].entries[0])
    ensures segs[0].entries[0].seqNo == FirstSeq(start)
  {
    hide HashMatches;
    FlatNext(segs, 0);
    FlatSplit(segs, 1);
    assert Fits(lib, start, Flat(segs), 0);
    SeqTellsPosition(lib, start, Flat(segs), 0);
  }

  /**
   The guard is exact. After a finished sweep that deleted anything, an entry is left if and only
   if the last segment has one or the boundary stops short of it.
   */
  lemma GuardIsExact(lib: Lib, start: Option<Anchor>, segs: seq<Seg>, boundary: u64)
    requires Laid(lib, start, segs) && |segs| > 1
    ensures Flat(segs[Dropped(segs, boundary)..]) != [] <==> KeepsAnEntry(segs, boundary)
  {
    hide ValidFrom, SegmentName, Flat;
    var k := Dropped(segs, boundary);
    LaidIsSorted(lib, start, segs);
    if KeepsAnEntry(segs, boundary) {
      LastSegmentGoesOnlyIfReached(lib, start, segs, boundary);
      FlatFromFirst(segs[k..]);
    } else {
      DropCountExact(ListingOf(segs), boundary, |segs| - 2);
      assert segs[k..] == [Last(segs)];
      FlatFromFirst([Last(segs)]);
    }
  }

  lemma FlatFromFirst(segs: seq<Seg>)
    requires segs != []
    ensures segs[0].entries != [] ==> Flat(segs) != []
    ensures |segs| == 1 ==> Flat(segs) == segs[0].entries
  {
    FlatNext(segs, 0);
    FlatSplit(segs, 1);
  }

  /** The cut falls where the names cross the boundary. */
  lemma DroppedBounds(lib: Lib, start: Option<Anchor>, segs: seq<Seg>, boundary: u64)
    requires Laid(lib, start, segs)
    ensures CutAt(segs, boundary, Dropped(segs, boundary))
  {
    hide Flat, ValidFrom, SegmentName;
    LaidIsSorted(lib, start, segs);
    forall i | 0 < i < |segs|
      ensures i <= Dropped(segs, boundary) <==> segs[i].first <= boundary
    {
      DropCountExact(ListingOf(segs), boundary, i - 1);
    }
  }

  lemma CutIsUnique(lib: Lib, start: Option<Anchor>, segs: seq<Seg>, boundary: u64, k: nat)
    requires Laid(lib, start, segs) && k < |segs| && CutAt(segs, boundary, k)
    ensures k == Dropped(segs, boundary)
  {
    hide Laid, Dropped;
    DroppedBounds(lib, start, segs, boundary);
    var d := Dropped(segs, boundary);
    assert k + 1 < |segs| ==> (k + 1 <= d <==> segs[k + 1].first <= boundary);
    assert d + 1 < |segs| ==> (d + 1 <= k <==> segs[d + 1].first <= boundary);
  }

  /** The names up to position `k`, and only those, are at or below the boundary. */
  predicate CutAt(segs: seq<Seg>, boundary: u64, k: nat) {
    forall i :: 0 < i < |segs| ==> (i <= k <==> segs[i].first <= boundary)
  }

  lemma CutOfCut(segs: seq<Seg>, b1: u64, j: nat, b2: u64, k: nat)
    requires j < |segs| && CutAt(segs, b1, j) && CutAt(segs[j..], b2, k)
    ensures CutAt(segs, if b1 < b2 then b2 else b1, j + k)
  {
    forall i | 0 < i < |segs|
      ensures i <= j + k <==> segs[i].first <= if b1 < b2 then b2 else b1
    {
      if i > j {
        assert segs[i] == segs[j..][i - j];
      }
    }
  }

  lemma CutOfRest(lib: Lib, start: Option<Anchor>, segs: seq<Seg>, j: nat, boundary: u64)
    requires Laid(lib, start, segs) && j < |segs|
    ensures CutAt(segs[j..], boundary, Dropped(segs[j..], boundary))
  {
    hide Laid, Dropped, CutAt, Boundary, Violations, Flat;
    PruningKeepsLayout(lib, start, segs, j);
    DroppedBounds(lib, Boundary(start, segs, j), segs[j..], boundary);
  }

  lemma LaidIsNonempty(lib: Lib, start: Option<Anchor>, segs: seq<Seg>)
    requires Laid(lib, start, segs)
    ensures segs != []
  {
  }

  lemma CutsAdd(lib: Lib, start: Option<Anchor>, segs: seq<Seg>, b1: u64, b2: u64)
    requires Laid(lib, start, segs)
    ensures Dropped(segs, b1) + Dropped(segs[Dropped(segs, b1)..], b2) == Dropped(segs, if b1 < b2 then b2 else b1)
  {
    hide Laid, Dropped, CutAt;
    var j := Dropped(segs, b1);
    var k := Dropped(segs[j..], b2);
    LaidIsNonempty(lib, start, segs);
    DroppedBounds(lib, start, segs, b1);
    CutOfRest(lib, start, segs, j, b2);
    CutOfCut(segs, b1, j, b2, k);
    CutIsUnique(lib, start, segs, if b1 < b2 then b2 else b1, j + k);
  }

  lemma DropTwice<T>(s: seq<T>, j: nat, k: nat)
    requires j + k <= |s|
    ensures s[j..][k..] == s[j + k..]
  {
  }

  /** Pruning twice leaves what pruning once at the larger boundary leaves. */
  lemma PruningTwice(lib: Lib, start: Option<Anchor>, segs: seq<Seg>, b1: u64, b2: u64)
    requires Laid(lib, start, segs)
    ensures var once := segs[Dropped(segs, b1)..];
            once[Dropped(once, b2)..] == segs[Dropped(segs, if b1 < b2 then b2 else b1)..]
  {
    hide Laid, Dropped;
    var j := Dropped(segs, b1);
    CutsAdd(lib, start, segs, b1, b2);
    DropTwice(segs, j, Dropped(segs[j..], b2));
  }

  // ---------- Retention by time ----------

  lemma {:induction false} BoundaryIsOfEntry(es: seq<Entry>, cutoff: i64)
    ensures match FindBoundary(es, cutoff)
            case None => forall e :: e in es ==> e.timestamp < cutoff
            case Some(b) => exists at :: 0 <= at < |es| && es[at].seqNo == b && es[at].timestamp >= cutoff
                                         && forall i :: 0 <= i < at ==> es[i].timestamp < cutoff
  {
    if es != [] && es[0].timestamp < cutoff {
      BoundaryIsOfEntry(es[1..], cutoff);
      match FindBoundary(es, cutoff) {
        case None =>
          assert es == [es[0]] + es[1..];
        case Some(b) =>
          var at :| 0 <= at < |es[1..]| && es[1..][at].seqNo == b && es[1..][at].timestamp >= cutoff
                    && forall i :: 0 <= i < at ==> es[1..][i].timestamp < cutoff;
          assert es[at + 1] == es[1..][at];
          assert forall i :: 0 < i < at + 1 ==> es[i] == es[1..][i - 1];
      }
    } else if es != [] {
      assert es[0].seqNo == FindBoundary(es, cutoff).value;
    }
  }

  /**
   Retention by time never deletes an entry that is young enough, however disordered the clock,
   and it meets the guard of its own accord, so what is left always verifies from its anchor.
   */
  lemma TimePruningIsSafe(lib: Lib, start: Option<Anchor>, segs: seq<Seg>, cutoff: i64)
    requires Laid(lib, start, segs) && FindBoundary(Flat(segs), cutoff).Some?
    ensures var boundary := FindBoundary(Flat(segs), cutoff).value;
            && KeepsAnEntry(segs, boundary)
            && (forall e :: e in Flat(segs[..Dropped(segs, boundary)]) ==> e.timestamp < cutoff)
  {
    hide Flat, ValidFrom, SegmentName, Dropped, FindBoundary, Laid;
    var es, boundary := Flat(segs), FindBoundary(Flat(segs), cutoff).value;
    var k := Dropped(segs, boundary);
    BoundaryIsOfEntry(es, cutoff);
    var at :| 0 <= at < |es| && es[at].seqNo == boundary && es[at].timestamp >= cutoff
              && forall i :: 0 <= i < at ==> es[i].timestamp < cutoff;
    EntryIsKept(lib, start, segs, at);
    FlatSplit(segs, k);
    forall e | e in Flat(segs[..k])
      ensures e.timestamp < cutoff
    {
      var i :| 0 <= i < |Flat(segs[..k])| && Flat(segs[..k])[i] == e;
      assert es[i] == e;
    }
  }

  /** A sweep up to the number of a stored entry leaves that entry. */
  lemma EntryIsKept(lib: Lib, start: Option<Anchor>, segs: seq<Seg>, at: nat)
    requires Laid(lib, start, segs) && at < |Flat(segs)|
    ensures KeepsAnEntry(segs, Flat(segs)[at].seqNo)
    ensures |Flat(segs[..Dropped(segs, Flat(segs)[at].seqNo)])| <= at
  {
    var boundary, n := Flat(segs)[at].seqNo, |segs| - 1;
    var k := Dropped(segs, boundary);
    SeqTellsPosition(lib, start, Flat(segs), at);
    DroppedBounds(lib, start, segs, boundary);
    assert segs[k].first == FirstSeq(start) + |Flat(segs[..k])|;
    assert segs[n].first == FirstSeq(start) + |Flat(segs[..n])|;
    hide Flat, ValidFrom, SegmentName, Dropped;
    assert segs[..n + 1] == segs;
    FlatNext(segs, n);
    if k == 0 {
      assert segs[..0] == [];
      NothingFlat();
    }
  }

  lemma NothingFlat()
    ensures Flat([]) == []
  {
  }
}
