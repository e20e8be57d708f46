/**
 Line files and the flat stores of `store.rs`. A file is its bytes; reading splits it into lines
 as `BufRead::lines` does, skips blank ones and parses the rest.
 */
module Store {
  import opened Bytes
  import opened Entries
  import opened Verify
  import opened Wrappers

  function FindNewline(b: seq<byte>): (i: nat)
    ensures i <= |b|
    ensures forall k :: 0 <= k < i ==> b[k] != NEWLINE
    ensures i < |b| ==> b[i] == NEWLINE
  {
    if b == [] || b[0] == NEWLINE then 0
    else 1 + FindNewline(b[1..])
  }

  /** The first line, without its newline and without a carriage return before the newline. */
  function FirstLine(b: seq<byte>): seq<byte> {
    var i := FindNewline(b);
    if i < |b| && i > 0 && b[i - 1] == CARRIAGE_RETURN then b[..i - 1] else b[..i]
  }

  function RestLines(b: seq<byte>): (rest: seq<byte>)
    ensures b != [] ==> |rest| < |b|
  {
    var i := FindNewline(b);
    if i < |b| then b[i + 1..] else []
  }

  predicate IsBlank(line: seq<byte>) {
    forall b :: b in line ==> 9 <= b <= 13 || b == 32
  }

  /** Fails on the first line that is neither blank nor an entry. */
  function ReadLines(lib: Lib, b: seq<byte>): Result<seq<Entry>>
    decreases |b|
  {
    if b == [] then Ok([])
    else if IsBlank(FirstLine(b)) then ReadLines(lib, RestLines(b))
    else
      match lib.parseEntry(FirstLine(b))
      case None => Err(Serde)
      case Some(e) => Prepend([e], ReadLines(lib, RestLines(b)))
  }

  function Prepend(es: seq<Entry>, r: Result<seq<Entry>>): Result<seq<Entry>> {
    match r
    case Err(error) => Err(error)
    case Ok(more) => Ok(es + more)
  }

  lemma PrependTwice(xs: seq<Entry>, ys: seq<Entry>, r: Result<seq<Entry>>)
    ensures Prepend(xs, Prepend(ys, r)) == Prepend(xs + ys, r)
  {
    if r.Ok? {
      assert xs + (ys + r.value) == xs + ys + r.value;
    }
  }

  lemma PrependNothing(r: Result<seq<Entry>>)
    ensures Prepend([], r) == r
  {
    if r.Ok? {
      assert [] + r.value == r.value;
    }
  }

  // ---------- Lines, by their position in the file ----------

  /** The bytes from `i` to `j` are one line: newlines, or the ends of the file, all around and none within. */
  ghost predicate IsLine(b: seq<byte>, i: int, j: int) {
    && 0 <= i <= j <= |b|
    && (i == 0 || b[i - 1] == 10)
    && (j == |b| || b[j] == 10)
    && (forall k :: i <= k < j ==> b[k] != 10)
  }

  /** What is read of a line: not the carriage return before its newline. */
  ghost function TextOf(b: seq<byte>, i: int, j: int): seq<byte> {
    if !(0 <= i <= j <= |b|) then []
    else if i < j < |b| && b[j - 1] == 13 then b[i..j - 1]
    else b[i..j]
  }

  /** A line with something other than white space on it. */
  ghost predicate HasText(b: seq<byte>, i: int, j: int) {
    IsLine(b, i, j) && ShowsText(TextOf(b, i, j))
  }

  ghost predicate ShowsText(text: seq<byte>) {
    exists c :: c in text && !(9 <= c <= 13 || c == 32)
  }

  /** A line with text that is not an entry. */
  ghost predicate IsBadLine(lib: Lib, b: seq<byte>, i: int, j: int) {
    HasText(b, i, j) && lib.parseEntry(TextOf(b, i, j)).None?
  }

  /** These bytes are a line with text, and stand for this entry. */
  ghost predicate StandsFor(lib: Lib, b: seq<byte>, line: (int, int), e: Entry) {
    HasText(b, line.0, line.1) && lib.parseEntry(TextOf(b, line.0, line.1)) == Some(e)
  }

  ghost predicate Ascending(lines: seq<(int, int)>) {
    forall m, n :: 0 <= m < n < |lines| ==> lines[m].0 < lines[n].0
  }

  /** These are lines with text, top to bottom, and the entries that they stand for. */
  ghost predicate AreRead(lib: Lib, b: seq<byte>, lines: seq<(int, int)>, es: seq<Entry>) {
    && |lines| == |es| && Ascending(lines)
    && forall n :: 0 <= n < |lines| ==> StandsFor(lib, b, lines[n], es[n])
  }

  /** No line with text that starts above `p` is missing. */
  ghost predicate AreAll(b: seq<byte>, lines: seq<(int, int)>, p: int) {
    forall i, j :: HasText(b, i, j) && i < p ==> (i, j) in lines
  }

  ghost predicate StartsLine(b: seq<byte>, p: int) {
    0 <= p < |b| && (p == 0 || b[p - 1] == 10)
  }

  lemma LineEnds(b: seq<byte>, p: nat)
    requires StartsLine(b, p)
    ensures var j := p + FindNewline(b[p..]);
            j <= |b| && IsLine(b, p, j) && (j < |b| ==> b[j] == 10)
  {
    var rest, j := b[p..], p + FindNewline(b[p..]);
    forall k | p <= k < j
      ensures b[k] != 10
    {
      assert rest[k - p] == b[k];
    }
    assert j < |b| ==> b[j] == rest[j - p];
  }

  lemma SliceOfSuffix(b: seq<byte>, p: nat, n: nat)
    requires p + n <= |b|
    ensures b[p..][..n] == b[p..p + n]
    ensures b[p..][n..] == b[p + n..]
  {
  }

  lemma TextIsFirstLine(b: seq<byte>, p: nat)
    requires p <= |b|
    ensures TextOf(b, p, p + FindNewline(b[p..])) == FirstLine(b[p..])
  {
    hide FindNewline;
    var n := FindNewline(b[p..]);
    SliceOfSuffix(b, p, n);
    if n > 0 {
      SliceOfSuffix(b, p, n - 1);
      assert b[p..][n - 1] == b[p + n - 1];
    }
  }

  lemma RestIsBelow(b: seq<byte>, p: nat)
    requires p <= |b|
    ensures var j := p + FindNewline(b[p..]);
            if j < |b| then RestLines(b[p..]) == b[j + 1..] else RestLines(b[p..]) == []
  {
    hide FindNewline;
    var n := FindNewline(b[p..]);
    if p + n < |b| {
      SliceOfSuffix(b, p, n + 1);
    }
  }

  /** The line that starts at `p`, and where the next one starts. */
  lemma LineAt(b: seq<byte>, p: nat)
    requires StartsLine(b, p)
    ensures var j, rest := p + FindNewline(b[p..]), b[p..];
            && j <= |b| && IsLine(b, p, j) && TextOf(b, p, j) == FirstLine(rest)
            && (if j < |b| then b[j] == 10 && RestLines(rest) == b[j + 1..] else RestLines(rest) == [])
  {
    hide FindNewline, IsLine, TextOf, FirstLine, RestLines;
    LineEnds(b, p);
    TextIsFirstLine(b, p);
    RestIsBelow(b, p);
  }

  lemma TextAt(b: seq<byte>, p: nat)
    requires StartsLine(b, p)
    ensures HasText(b, p, p + FindNewline(b[p..])) <==> !IsBlank(FirstLine(b[p..]))
  {
    hide IsLine, TextOf, FirstLine, FindNewline;
    LineAt(b, p);
    var text := FirstLine(b[p..]);
    if !IsBlank(text) {
      var c :| c in text && !(9 <= c <= 13 || c == 32);
    }
  }

  /** No other line starts before the end of this one. */
  lemma OnlyLineThere(b: seq<byte>, p: nat, j: int, i: int, k: int)
    requires IsLine(b, p, j) && IsLine(b, i, k) && p <= i && (i <= j || j == |b|)
    ensures i == p && k == j
  {
  }

  lemma TextIsInside(b: seq<byte>, i: int, j: int)
    requires HasText(b, i, j)
    ensures IsLine(b, i, j) && 0 <= i < |b|
  {
  }

  /** One line further down: `next` is where the next line starts, or the end of the file. */
  lemma AllSoFar(b: seq<byte>, lines: seq<(int, int)>, p: nat, j: int, next: int)
    requires AreAll(b, lines, p) && IsLine(b, p, j) && (next == j + 1 || next == j == |b|)
    ensures AreAll(b, lines + [(p, j)], next)
    ensures !HasText(b, p, j) ==> AreAll(b, lines, next)
  {
    hide HasText, IsLine;
    forall i, k | HasText(b, i, k) && i < next
      ensures (i, k) in lines || (i == p && k == j)
    {
      TextIsInside(b, i, k);
      if i >= p {
        OnlyLineThere(b, p, j, i, k);
      }
    }
  }

  lemma OneMoreRead(lib: Lib, b: seq<byte>, lines: seq<(int, int)>, es: seq<Entry>, line: (int, int), e: Entry)
    requires AreRead(lib, b, lines, es) && StandsFor(lib, b, line, e)
    requires forall n :: 0 <= n < |lines| ==> lines[n].0 < line.0
    ensures AreRead(lib, b, lines + [line], es + [e])
  {
    hide StandsFor;
  }

  /** Where every line with text stands for an entry, none is bad. */
  lemma NoneIsBad(lib: Lib, b: seq<byte>, lines: seq<(int, int)>, es: seq<Entry>, i: int, j: int)
    requires AreRead(lib, b, lines, es) && AreAll(b, lines, |b|)
    ensures !IsBadLine(lib, b, i, j)
  {
    hide HasText, Ascending, TextOf;
    if HasText(b, i, j) {
      TextIsInside(b, i, j);
      var n :| 0 <= n < |lines| && lines[n] == (i, j);
      assert StandsFor(lib, b, lines[n], es[n]);
    }
  }

  /**
   The entries of the lines with text, top to bottom; or an error, exactly if one of these lines is
   not an entry.
   */
  method ReadAll(lib: Lib, content: seq<byte>) returns (entries: Result<seq<Entry>>)
    ensures entries == ReadLines(lib, content)
    ensures entries.Err? <==> exists i, j :: IsBadLine(lib, content, i, j)
    ensures entries.Err? ==> entries.error == Serde
    ensures entries.Ok? ==>
              exists lines :: AreRead(lib, content, lines, entries.value) && AreAll(content, lines, |content|)
  {
    hide IsLine, TextOf, HasText, StandsFor, AreRead, AreAll, IsBlank, FirstLine, FindNewline, RestLines;
    var out: seq<Entry> := [];
    PrependNothing(ReadLines(lib, content));
    var rest := content;
    ghost var p: nat, lines: seq<(int, int)> := 0, [];
    NothingRead(lib, content);
    while rest != []
      invariant ReadLines(lib, content) == Prepend(out, ReadLines(lib, rest))
      invariant p <= |content| && rest == content[p..] && (p == |content| || StartsLine(content, p))
      invariant AreRead(lib, content, lines, out) && AreAll(content, lines, p)
      invariant forall n :: 0 <= n < |lines| ==> lines[n].0 < p
      decreases |rest|
    {
      var line := FirstLine(rest);
      ghost var before := rest;
      ghost var j := p + FindNewline(rest);
      ghost var next := if j < |content| then j + 1 else j;
      LineAt(content, p);
      TextAt(content, p);
      AllSoFar(content, lines, p, j, next);
      rest := RestLines(rest);
      if !IsBlank(line) {
        var parsed := lib.parseEntry(line);
        if parsed.None? {
          assert IsBadLine(lib, content, p, j);
          return Err(Serde);
        }
        PrependTwice(out, [parsed.value], ReadLines(lib, rest));
        assert StandsFor(lib, content, (p, j), parsed.value) by {
          StandsForHere(lib, content, p, j, parsed.value);
        }
        OneMoreRead(lib, content, lines, out, (p, j), parsed.value);
        out := out + [parsed.value];
        lines := lines + [(p, j)];
      }
      p := next;
    }
    assert out + [] == out;
    entries := Ok(out);
    forall i, j
      ensures !IsBadLine(lib, content, i, j)
    {
      NoneIsBad(lib, content, lines, out, i, j);
    }
  }

  lemma StandsForHere(lib: Lib, b: seq<byte>, i: int, j: int, e: Entry)
    requires HasText(b, i, j) && lib.parseEntry(TextOf(b, i, j)) == Some(e)
    ensures StandsFor(lib, b, (i, j), e)
  {
  }

  lemma NothingRead(lib: Lib, b: seq<byte>)
    ensures AreRead(lib, b, [], []) && AreAll(b, [], 0)
  {
    hide TextOf, ShowsText, StandsFor;
  }

  /** What an append writes. */
  function Line(lib: Lib, e: Entry): seq<byte> {
    lib.entryJson(e) + [NEWLINE]
  }

  lemma LineSpelled(lib: Lib, e: Entry)
    ensures Line(lib, e) == lib.entryJson(e) + [10]
  {
  }

  /** The last line is terminated, so an append starts a line of its own. */
  predicate IsComplete(b: seq<byte>) {
    b == [] || b[|b| - 1] == NEWLINE
  }

  lemma FindFirstNewline(b: seq<byte>, i: nat)
    requires i < |b| && b[i] == NEWLINE && forall k :: 0 <= k < i ==> b[k] != NEWLINE
    ensures FindNewline(b) == i
  {
  }

  lemma LinesOfConcat(b: seq<byte>, tail: seq<byte>)
    requires b != [] && IsComplete(b)
    ensures FirstLine(b + tail) == FirstLine(b)
    ensures RestLines(b + tail) == RestLines(b) + tail
    ensures IsComplete(RestLines(b))
  {
    var i := FindNewline(b);
    assert i < |b|;
    assert (b + tail)[..i] == b[..i];
    FindFirstNewline(b + tail, i);
  }

  /** Reading goes part by part over complete files. */
  lemma {:induction false} ReadConcat(lib: Lib, b: seq<byte>, tail: seq<byte>)
    requires IsComplete(b)
    ensures ReadLines(lib, b + tail) ==
            match ReadLines(lib, b)
            case Err(error) => Err(error)
            case Ok(es) => Prepend(es, ReadLines(lib, tail))
    decreases |b|
  {
    if b == [] {
      assert b + tail == tail;
      PrependNothing(ReadLines(lib, tail));
    } else {
      LinesOfConcat(b, tail);
      var rest := RestLines(b);
      ReadConcat(lib, rest, tail);
      if ReadLines(lib, rest).Ok? && lib.parseEntry(FirstLine(b)).Some? {
        PrependTwice([lib.parseEntry(FirstLine(b)).value], ReadLines(lib, rest).value, ReadLines(lib, tail));
      }
    }
  }

  lemma ReadOneLine(lib: Lib, e: Entry)
    requires LineCodec(lib)
    ensures ReadLines(lib, Line(lib, e)) == Ok([e]) && IsComplete(Line(lib, e))
  {
    var json, b := lib.entryJson(e), Line(lib, e);
    assert IsObjectLine(json);
    assert b[..|json|] == json;
    FindFirstNewline(b, |json|);
    assert FirstLine(b) == json;
    assert RestLines(b) == [];
    assert json[0] in json;
    assert [e] + [] == [e];
  }

  /** An append to a complete file is read back as one more entry, and leaves the file complete. */
  lemma ReadAfterAppend(lib: Lib, b: seq<byte>, es: seq<Entry>, e: Entry)
    requires LineCodec(lib)
    requires IsComplete(b) && ReadLines(lib, b) == Ok(es)
    ensures IsComplete(b + Line(lib, e)) && ReadLines(lib, b + Line(lib, e)) == Ok(es + [e])
  {
    ReadConcat(lib, b, Line(lib, e));
    ReadOneLine(lib, e);
  }

  lemma ReadNothing(lib: Lib)
    ensures ReadLines(lib, []) == Ok([]) && IsComplete([])
  {
  }

  /** White space between the lines of a file makes no difference. */
  lemma BlankLinesChangeNothing(lib: Lib, a: seq<byte>, blank: seq<byte>, c: seq<byte>)
    requires IsComplete(a) && forall b :: b in blank ==> b in {9, 10, 11, 12, 13, 32}
    ensures ReadLines(lib, a + (blank + [10]) + c) == ReadLines(lib, a + c)
  {
    hide ReadLines;
    ReadBlank(lib, blank + [10]);
    assert a + (blank + [10]) + c == a + ((blank + [10]) + c);
    ReadConcat(lib, a, blank + [10] + c);
    ReadConcat(lib, blank + [10], c);
    ReadConcat(lib, a, c);
    PrependNothing(ReadLines(lib, c));
  }

  lemma {:induction false} ReadBlank(lib: Lib, b: seq<byte>)
    requires IsBlank(b)
    ensures ReadLines(lib, b) == Ok([])
    decreases |b|
  {
    if b != [] {
      var n := FindNewline(b);
      assert forall c :: c in FirstLine(b) ==> c in b;
      assert forall c :: c in RestLines(b) ==> c in b;
      ReadBlank(lib, RestLines(b));
    }
  }

  function Render(lib: Lib, es: seq<Entry>): seq<byte> {
    if es == [] then [] else Render(lib, es[..|es| - 1]) + Line(lib, es[|es| - 1])
  }

  /** Reading undoes writing. */
  lemma {:induction false} ReadOfRender(lib: Lib, es: seq<Entry>)
    requires LineCodec(lib)
    ensures IsComplete(Render(lib, es)) && ReadLines(lib, Render(lib, es)) == Ok(es)
  {
    hide ReadLines, IsComplete, Line;
    ReadNothing(lib);
    if es != [] {
      var init := es[..|es| - 1];
      ReadOfRender(lib, init);
      ReadAfterAppend(lib, Render(lib, init), init, es[|es| - 1]);
      assert init + [es[|es| - 1]] == es;
    }
  }

  /** A file on disk, open in append mode. */
  class LogFile {
    var content: seq<byte>

    constructor ()
      ensures content == []
    {
      content := [];
    }
  }

  /**
   One file, one entry a line. A failed append is assumed to leave the bytes as they were.
   `entries` is what the file holds.
   */
  class FileStore {
    const lib: Lib
    const file: LogFile
    var tail: Option<Anchor>
    ghost var entries: seq<Entry>

    ghost predicate Valid()
      reads this, file
    {
      && IsComplete(file.content)
      && ReadLines(lib, file.content) == Ok(entries)
      && tail == HeadOf(entries)
    }

    constructor (lib: Lib, file: LogFile, tail: Option<Anchor>, ghost entries: seq<Entry>)
      ensures this.lib == lib && this.file == file && this.tail == tail && this.entries == entries
    {
      this.lib, this.file, this.tail, this.entries := lib, file, tail, entries;
    }

    /** Opening fails on a malformed file; otherwise the tail is the last entry that reading finds. */
    static method Open(lib: Lib, file: LogFile) returns (r: Result<FileStore>)
      ensures r.Err? <==> ReadLines(lib, file.content).Err?
      ensures r.Err? <==> exists i, j :: IsBadLine(lib, file.content, i, j)
      ensures r.Ok? ==>
        && fresh(r.value) && r.value.lib == lib && r.value.file == file
        && r.value.tail == HeadOf(ReadLines(lib, file.content).value)
        && Ok(r.value.entries) == ReadLines(lib, file.content)
        && (IsComplete(file.content) ==> r.value.Valid())
    {
      hide AreRead, AreAll, IsBadLine, ReadLines;
      var all := ReadAll(lib, file.content);
      if all.Err? {
        return Err(all.error);
      }
      var es := all.value;
      var tail := if |es| == 0 then None else Some(AnchorOf(es[|es| - 1]));
      var store := new FileStore(lib, file, tail, es);
      r := Ok(store);
    }

    method Append(e: Entry, writes: bool) returns (r: Result<()>)
      modifies this, file
      ensures r == if writes then Ok(()) else Err(Io)
      ensures file.content == old(file.content) + if writes then lib.entryJson(e) + [10] else []
      ensures tail == if writes then Some(Anchor(e.seqNo, e.entryHash)) else old(tail)
      ensures entries == if writes then old(entries) + [e] else old(entries)
      ensures LineCodec(lib) && old(Valid()) ==> Valid()
    {
      if !writes {
        return Err(Io);
      }
      if LineCodec(lib) && Valid() {
        ReadAfterAppend(lib, file.content, entries, e);
      }
      file.content := file.content + Line(lib, e);
      tail := Some(AnchorOf(e));
      entries := entries + [e];
      r := Ok(());
    }
  }

  /** The in-memory store: the same contract without a file. */
  class MemoryStore {
    var entries: seq<Entry>

    constructor ()
      ensures entries == []
    {
      entries := [];
    }

    method Tail() returns (tail: Option<Anchor>)
      ensures tail == HeadOf(entries)
    {
      tail := if |entries| == 0 then None else Some(AnchorOf(entries[|entries| - 1]));
    }

    method Append(e: Entry) returns (r: Result<()>)
      modifies this
      ensures r == Ok(()) && entries == old(entries) + [e]
    {
      entries := entries + [e];
      r := Ok(());
    }
  }
}
