/**
 Many callers, one writer: the command queue of `log.rs`. Callers submit and wait, the writer
 serves one command at a time in the order of submission, replies travel back one by one. A run
 is any interleaving of these steps; what happened is recorded as a trace of events.
 */
module Engine {
  import opened Bytes
  import opened Entries
  import opened Segments
  import opened Retention
  import opened Verify
  import opened Wrappers

  datatype Request = Write(record: Record) | AskHead

  datatype Reply = Wrote(result: Result<Receipt>) | HeadIs(seqNo: u64, hash: Str)

  datatype Pending = Pending(id: nat, request: Request)

  datatype Event =
    | Called(id: nat, request: Request)
    | Served(id: nat, reply: Reply)
    | Returned(id: nat, reply: Reply)

  /** A call gets a reply channel of its own, named by the call's number. */
  datatype State = State(writer: Sys, queue: seq<Pending>, replies: map<nat, Reply>, next: nat, events: seq<Event>)

  /** `Serve` carries what the writer meets outside: the encryption's outcome, the clock, a fault. */
  datatype Action =
    | Call(request: Request)
    | Serve(sealed: Result<EncryptedPii>, now: i64, fault: Fault)
    | Return(id: nat)

  function ServeOne(lib: Lib, w: Sys, request: Request, a: Action): (Sys, Reply)
    requires w.segs != [] && a.Serve?
  {
    match request
    case Write(record) =>
      var (w', result) := Process(lib, w, record, a.sealed, a.now, a.fault);
      (w', Wrote(result))
    case AskHead => (w, HeadIs(w.seqNo, w.prevHash))
  }

  /** A step that is not enabled leaves the state as it is. */
  function Step(lib: Lib, s: State, a: Action): (t: State)
    requires s.writer.segs != []
    ensures t.writer.segs != []
  {
    match a
    case Call(request) =>
      s.(queue := s.queue + [Pending(s.next, request)], next := s.next + 1,
         events := s.events + [Called(s.next, request)])
    case Serve(_, _, _) =>
      if s.queue == [] then s
      else
        var (w, reply) := ServeOne(lib, s.writer, s.queue[0].request, a);
        s.(writer := w, queue := s.queue[1..], replies := s.replies[s.queue[0].id := reply],
           events := s.events + [Served(s.queue[0].id, reply)])
    case Return(id) =>
      if id !in s.replies then s
      else s.(replies := s.replies - {id}, events := s.events + [Returned(id, s.replies[id])])
  }

  function Run(lib: Lib, s: State, actions: seq<Action>): (t: State)
    requires s.writer.segs != []
    ensures t.writer.segs != []
  {
    if actions == [] then s
    else Step(lib, Run(lib, s, actions[..|actions| - 1]), actions[|actions| - 1])
  }

  function Started(writer: Sys): State {
    State(writer, [], map[], 0, [])
  }

  // ---------- What a trace says ----------

  function Calls(events: seq<Event>): nat {
    if events == [] then 0
    else Calls(events[..|events| - 1]) + if events[|events| - 1].Called? then 1 else 0
  }

  function Serves(events: seq<Event>): nat {
    if events == [] then 0
    else Serves(events[..|events| - 1]) + if events[|events| - 1].Served? then 1 else 0
  }

  predicate IsStored(event: Event) {
    event.Served? && event.reply.Wrote? && event.reply.result.Ok?
  }

  /** The receipts of successful writes, in the order they were served. */
  function Receipts(events: seq<Event>): seq<Receipt> {
    if events == [] then []
    else
      var rest, last := Receipts(events[..|events| - 1]), events[|events| - 1];
      if IsStored(last) then rest + [last.reply.result.value] else rest
  }

  /** The head of the log at the end of a trace: the last entry stored, or where it all started. */
  function HeadAt(start: (u64, Str), events: seq<Event>): (u64, Str) {
    var rs := Receipts(events);
    if rs == [] then start else (rs[|rs| - 1].seqNo, rs[|rs| - 1].entryHash)
  }

  predicate Answers(request: Request, reply: Reply) {
    request.AskHead? <==> reply.HeadIs?
  }

  predicate ReplyFits(start: (u64, Str), before: seq<Event>, reply: Reply) {
    match reply
    case HeadIs(seqNo, hash) => (seqNo, hash) == HeadAt(start, before)
    case Wrote(Err(_)) => true
    case Wrote(Ok(r)) => r.seqNo == HeadAt(start, before).0 + 1 && r.prevHash == HeadAt(start, before).1
  }

  /**
   What one event owes to the events before it. Calls are numbered in order and served in the
   same order; a reply tells the truth at the moment of service; a caller gets its own call's
   reply, once.
   */
  ghost predicate EventFits(start: (u64, Str), before: seq<Event>, event: Event) {
    match event
    case Called(id, _) => id == Calls(before)
    case Served(id, reply) =>
      && id == Serves(before) < Calls(before)
      && (exists request :: Called(id, request) in before && Answers(request, reply))
      && ReplyFits(start, before, reply)
    case Returned(id, reply) =>
      && Served(id, reply) in before
      && forall r :: Returned(id, r) !in before
  }

  ghost predicate GoodTrace(start: (u64, Str), events: seq<Event>) {
    forall p :: 0 <= p < |events| ==> EventFits(start, events[..p], events[p])
  }

  // ---------- The trace of a run ----------

  function ReceiptsOf(es: seq<Entry>): (rs: seq<Receipt>)
    ensures |rs| == |es|
  {
    seq(|es|, i requires 0 <= i < |es| => ReceiptOf(es[i]))
  }

  /** The queue holds the calls not yet served. */
  ghost predicate QueueTracks(queue: seq<Pending>, next: nat, events: seq<Event>) {
    && next == Calls(events)
    && Serves(events) + |queue| == Calls(events)
    && forall i :: 0 <= i < |queue| ==>
         queue[i].id == Serves(events) + i && Called(queue[i].id, queue[i].request) in events
  }

  /** The mailbox holds the replies not yet returned. */
  ghost predicate MailTracks(replies: map<nat, Reply>, events: seq<Event>) {
    && (forall id :: id in replies ==> Served(id, replies[id]) in events)
    && (forall id, r :: id in replies ==> Returned(id, r) !in events)
    && (forall e :: e in events && e.Returned? ==> e.id < Serves(events))
    && (forall id :: id in replies ==> id < Serves(events))
  }

  ghost predicate Tracks(s: State) {
    QueueTracks(s.queue, s.next, s.events) && MailTracks(s.replies, s.events)
  }

  ghost predicate Linked(lib: Lib, w0: Sys, w: Sys, events: seq<Event>) {
    && Inv(lib, w)
    && w0.history <= w.history
    && Receipts(events) == ReceiptsOf(w.history[|w0.history|..])
    && HeadAt((w0.seqNo, w0.prevHash), events) == (w.seqNo, w.prevHash)
    && |w.history| <= |w0.history| + |events|
  }

  lemma CountsOfLast(events: seq<Event>, e: Event)
    ensures Calls(events + [e]) == Calls(events) + if e.Called? then 1 else 0
    ensures Serves(events + [e]) == Serves(events) + if e.Served? then 1 else 0
    ensures Receipts(events + [e]) ==
            if IsStored(e) then Receipts(events) + [e.reply.result.value] else Receipts(events)
  {
    assert (events + [e])[..|events|] == events;
  }

  lemma GoodTraceExtends(start: (u64, Str), events: seq<Event>, e: Event)
    requires GoodTrace(start, events) && EventFits(start, events, e)
    ensures GoodTrace(start, events + [e])
  {
    hide EventFits;
    var longer := events + [e];
    forall p | 0 <= p < |longer|
      ensures EventFits(start, longer[..p], longer[p])
    {
      assert longer[..p] == events[..p];
      assert events[..|events|] == events;
    }
  }

  lemma MailAfter(replies: map<nat, Reply>, events: seq<Event>, e: Event)
    requires MailTracks(replies, events)
    requires || e.Called?
             || (e.Served? && e.id == Serves(events))
             || (e.Returned? && e.id in replies && e.reply == replies[e.id])
    ensures MailTracks(match e
                       case Called(_, _) => replies
                       case Served(id, reply) => replies[id := reply]
                       case Returned(id, _) => replies - {id}, events + [e])
  {
    CountsOfLast(events, e);
    hide Serves, Calls, Receipts;
    var longer := events + [e];
    assert forall x :: x in longer <==> x in events || x == e;
  }

  lemma QueueAfter(queue: seq<Pending>, next: nat, events: seq<Event>, e: Event)
    requires QueueTracks(queue, next, events)
    requires (e.Called? && e.id == next) || (e.Served? && queue != [] && e.id == queue[0].id) || e.Returned?
    ensures QueueTracks(match e
                        case Called(id, request) => queue + [Pending(id, request)]
                        case Served(_, _) => queue[1..]
                        case Returned(_, _) => queue, if e.Called? then next + 1 else next, events + [e])
  {
    CountsOfLast(events, e);
    hide Serves, Calls, Receipts;
    var longer := events + [e];
    assert forall x :: x in events ==> x in longer;
    assert e in longer;
  }

  lemma CallKeeps(lib: Lib, s: State, start: (u64, Str), a: Action)
    requires s.writer.segs != [] && a.Call?
    requires Tracks(s) && GoodTrace(start, s.events)
    ensures Tracks(Step(lib, s, a)) && GoodTrace(start, Step(lib, s, a).events)
  {
    hide GoodTrace, Calls, Serves;
    var e := Called(s.next, a.request);
    QueueAfter(s.queue, s.next, s.events, e);
    MailAfter(s.replies, s.events, e);
    GoodTraceExtends(start, s.events, e);
  }

  lemma ServeKeeps(lib: Lib, s: State, start: (u64, Str), a: Action)
    requires s.writer.segs != [] && a.Serve?
    requires Tracks(s) && GoodTrace(start, s.events)
    requires HeadAt(start, s.events) == (s.writer.seqNo, s.writer.prevHash) && s.writer.seqNo + 1 < U64_LIMIT
    ensures Tracks(Step(lib, s, a)) && GoodTrace(start, Step(lib, s, a).events)
  {
    hide GoodTrace, Calls, Serves, EventFits, ServeOne, HeadAt;
    if s.queue != [] {
      var e := Served(s.queue[0].id, ServeOne(lib, s.writer, s.queue[0].request, a).1);
      QueueAfter(s.queue, s.next, s.events, e);
      MailAfter(s.replies, s.events, e);
      ServedFits(lib, s, start, a);
      GoodTraceExtends(start, s.events, e);
    }
  }

  lemma ReturnKeeps(lib: Lib, s: State, start: (u64, Str), a: Action)
    requires s.writer.segs != [] && a.Return?
    requires Tracks(s) && GoodTrace(start, s.events)
    ensures Tracks(Step(lib, s, a)) && GoodTrace(start, Step(lib, s, a).events)
  {
    hide GoodTrace, Calls, Serves;
    if a.id in s.replies {
      var e := Returned(a.id, s.replies[a.id]);
      QueueAfter(s.queue, s.next, s.events, e);
      MailAfter(s.replies, s.events, e);
      GoodTraceExtends(start, s.events, e);
    }
  }

  /** Every step adds at most one event, and it fits the trace so far. */
  lemma StepKeepsTrace(lib: Lib, s: State, start: (u64, Str), a: Action)
    requires s.writer.segs != []
    requires Tracks(s) && GoodTrace(start, s.events)
    requires HeadAt(start, s.events) == (s.writer.seqNo, s.writer.prevHash) && s.writer.seqNo + 1 < U64_LIMIT
    ensures Tracks(Step(lib, s, a)) && GoodTrace(start, Step(lib, s, a).events)
  {
    hide Tracks, GoodTrace, ServeOne, HeadAt;
    match a
    case Call(_) => CallKeeps(lib, s, start, a);
    case Serve(_, _, _) => ServeKeeps(lib, s, start, a);
    case Return(_) => ReturnKeeps(lib, s, start, a);
  }

  lemma ServedFits(lib: Lib, s: State, start: (u64, Str), a: Action)
    requires s.writer.segs != [] && a.Serve? && s.queue != []
    requires QueueTracks(s.queue, s.next, s.events)
    requires HeadAt(start, s.events) == (s.writer.seqNo, s.writer.prevHash) && s.writer.seqNo + 1 < U64_LIMIT
    ensures EventFits(start, s.events, Served(s.queue[0].id, ServeOne(lib, s.writer, s.queue[0].request, a).1))
  {
    hide Calls, Serves, HeadAt, Appended, MakeEntry;
    assert Called(s.queue[0].id, s.queue[0].request) in s.events;
  }

  // ---------- The log behind the trace ----------

  /** What serving a request does to the log, as its reply tells: what is stored is what was asked for. */
  ghost predicate Effect(lib: Lib, w: Sys, request: Request, a: Action, w': Sys, reply: Reply)
    requires a.Serve?
  {
    match reply
    case Wrote(Ok(receipt)) =>
      && request.Write? && w'.history != [] && Seals(lib, Last(w'.history), request.record, a.sealed, a.now)
      && w'.history != [] && w'.history[..|w'.history| - 1] == w.history
      && receipt == ReceiptOf(Last(w'.history))
      && (w'.seqNo, w'.prevHash) == (receipt.seqNo, receipt.entryHash)
    case _ => (w'.history, w'.seqNo, w'.prevHash) == (w.history, w.seqNo, w.prevHash)
  }

  /** A write answers with the receipt of the one entry it stored, or stores nothing and says so. */
  lemma ServeHasEffect(lib: Lib, w: Sys, request: Request, a: Action)
    requires w.segs != [] && a.Serve?
    ensures var (w', reply) := ServeOne(lib, w, request, a);
            && Effect(lib, w, request, a, w', reply)
            && Answers(request, reply)
            && (reply.HeadIs? ==> w' == w && (reply.seqNo, reply.hash) == (w.seqNo, w.prevHash))
  {
    hide MakeEntry, Appended, Process, Seals;
    if request.Write? {
      ProcessSeals(lib, w, request.record, a.sealed, a.now, a.fault);
    }
  }

  lemma ServeKeepsInv(lib: Lib, w: Sys, request: Request, a: Action)
    requires Inv(lib, w) && |w.history| + 1 < U64_LIMIT && w.segs != [] && a.Serve?
    ensures Inv(lib, ServeOne(lib, w, request, a).0)
  {
    hide Inv;
    if request.Write? {
      AppendKeepsInv(lib, w, request.record, a.sealed, a.now, a.fault);
    }
  }

  lemma EffectKeepsLink(lib: Lib, w0: Sys, w: Sys, events: seq<Event>, request: Request, a: Action, w': Sys, e: Event)
    requires Linked(lib, w0, w, events) && Inv(lib, w')
    requires a.Serve? && e.Served? && Effect(lib, w, request, a, w', e.reply)
    ensures Linked(lib, w0, w', events + [e])
  {
    hide Inv, Receipts, ReceiptsOf, Seals;
    CountsOfLast(events, e);
    if IsStored(e) {
      ReceiptsOfLonger(w.history, w'.history, |w0.history|);
    }
  }

  lemma ReceiptsOfLonger(es: seq<Entry>, longer: seq<Entry>, n: nat)
    requires longer != [] && longer[..|longer| - 1] == es && n <= |es|
    ensures ReceiptsOf(longer[n..]) == ReceiptsOf(es[n..]) + [ReceiptOf(Last(longer))]
    ensures longer[..n] == es[..n]
  {
    assert longer == es + [Last(longer)];
    assert longer[n..] == es[n..] + [Last(longer)];
  }

  lemma StepKeepsLink(lib: Lib, w0: Sys, s: State, a: Action)
    requires Linked(lib, w0, s.writer, s.events) && |s.writer.history| + 1 < U64_LIMIT && s.writer.segs != []
    ensures Linked(lib, w0, Step(lib, s, a).writer, Step(lib, s, a).events)
  {
    hide Inv, Receipts, ServeOne;
    match a
    case Call(request) =>
      CountsOfLast(s.events, Called(s.next, request));
    case Serve(_, _, _) =>
      if s.queue != [] {
        var (w, reply) := ServeOne(lib, s.writer, s.queue[0].request, a);
        ServeHasEffect(lib, s.writer, s.queue[0].request, a);
        ServeKeepsInv(lib, s.writer, s.queue[0].request, a);
        EffectKeepsLink(lib, w0, s.writer, s.events, s.queue[0].request, a, w, Served(s.queue[0].id, reply));
      }
    case Return(id) =>
      if id in s.replies {
        CountsOfLast(s.events, Returned(id, s.replies[id]));
      }
  }

  lemma {:induction false} RunIsTraced(lib: Lib, w0: Sys, actions: seq<Action>)
    requires Inv(lib, w0) && |w0.history| + |actions| + 1 < U64_LIMIT && w0.segs != []
    ensures var s := Run(lib, Started(w0), actions);
            && Tracks(s) && GoodTrace((w0.seqNo, w0.prevHash), s.events)
            && Linked(lib, w0, s.writer, s.events) && |s.events| <= |actions|
  {
    hide Inv;
    if actions == [] {
      assert w0.history[|w0.history|..] == [];
    } else {
      var init, a := actions[..|actions| - 1], actions[|actions| - 1];
      hide Tracks, GoodTrace, Linked, Step;
      RunIsTraced(lib, w0, init);
      StepIsTraced(lib, w0, Run(lib, Started(w0), init), a, |init|);
    }
  }

  lemma StepIsTraced(lib: Lib, w0: Sys, s: State, a: Action, n: nat)
    requires Tracks(s) && GoodTrace((w0.seqNo, w0.prevHash), s.events) && Linked(lib, w0, s.writer, s.events)
    requires |s.events| <= n && |w0.history| + n + 2 < U64_LIMIT && s.writer.segs != []
    ensures var t := Step(lib, s, a);
            && Tracks(t) && GoodTrace((w0.seqNo, w0.prevHash), t.events)
            && Linked(lib, w0, t.writer, t.events) && |t.events| <= n + 1
  {
    hide Inv, Tracks, GoodTrace, HeadAt;
    WriterNumber(lib, s.writer);
    StepKeepsTrace(lib, s, (w0.seqNo, w0.prevHash), a);
    StepKeepsLink(lib, w0, s, a);
  }

  lemma WriterNumber(lib: Lib, w: Sys)
    requires Inv(lib, w)
    ensures w.seqNo == |w.history|
  {
  }

  /**
   Receipts and stored entries are the same list: every success is the receipt of exactly one
   entry, every new entry has exactly one receipt, numbers run on without a gap from where the
   log stood, and failed writes take none.
   */
  lemma ReceiptsAreTheLog(lib: Lib, w0: Sys, actions: seq<Action>, i: nat)
    requires Inv(lib, w0) && |w0.history| + |actions| + 1 < U64_LIMIT && w0.segs != []
    ensures var s := Run(lib, Started(w0), actions);
            var n := |w0.history|;
            && w0.history <= s.writer.history
            && Receipts(s.events) == ReceiptsOf(s.writer.history[n..])
            && (i < |Receipts(s.events)| ==> Receipts(s.events)[i].seqNo == n + i + 1)
            && Violations(lib, None, s.writer.history) == []
  {
    hide Run, Inv, Tracks, GoodTrace, HeadAt, Receipts, Violations;
    RunIsTraced(lib, w0, actions);
    var s := Run(lib, Started(w0), actions);
    HistoryIsChain(lib, s.writer);
    if i < |Receipts(s.events)| {
      SeqTellsPosition(lib, None, s.writer.history, |w0.history| + i);
    }
  }

  /** This entry holds what this record asked for. */
  ghost predicate Carries(e: Entry, r: Record) {
    && e.eventType == r.eventType && e.outcome == r.outcome && e.actor == r.actor
    && e.instructionId == r.instructionId && e.payload.data == r.data
    && (e.payload.pii.Some? <==> r.pii.Some?)
  }

  /** A stored write was submitted under its number, and its entry is in the log where its receipt says. */
  ghost predicate WasAsked(n: nat, history: seq<Entry>, events: seq<Event>, p: nat)
    requires p < |events| && IsStored(events[p])
  {
    var at := n + |Receipts(events[..p])|;
    && at < |history| && events[p].reply.result.value == ReceiptOf(history[at])
    && exists r :: Called(events[p].id, Write(r)) in events[..p] && Carries(history[at], r)
  }

  ghost predicate AllAsked(n: nat, history: seq<Entry>, events: seq<Event>) {
    forall p :: 0 <= p < |events| && IsStored(events[p]) ==> WasAsked(n, history, events, p)
  }

  lemma AskedStays(n: nat, history: seq<Entry>, events: seq<Event>, longer: seq<Entry>, e: Event)
    requires AllAsked(n, history, events) && history <= longer
    requires IsStored(e) ==> WasAsked(n, longer, events + [e], |events|)
    ensures AllAsked(n, longer, events + [e])
  {
    hide Receipts, Carries;
    var more := events + [e];
    forall p | 0 <= p < |more| && IsStored(more[p])
      ensures WasAsked(n, longer, more, p)
    {
      if p < |events| {
        assert WasAsked(n, history, events, p);
        assert more[..p] == events[..p];
      }
    }
  }

  lemma JustAsked(lib: Lib, w0: Sys, s: State, a: Action)
    requires Linked(lib, w0, s.writer, s.events) && QueueTracks(s.queue, s.next, s.events)
    requires s.writer.segs != [] && a.Serve? && s.queue != []
    ensures var (w, reply) := ServeOne(lib, s.writer, s.queue[0].request, a);
            var e := Served(s.queue[0].id, reply);
            && s.writer.history <= w.history
            && (IsStored(e) ==> WasAsked(|w0.history|, w.history, s.events + [e], |s.events|))
  {
    hide Inv, Receipts, ServeOne, Calls, Serves, HeadAt;
    var (w, reply) := ServeOne(lib, s.writer, s.queue[0].request, a);
    var e := Served(s.queue[0].id, reply);
    ServeHasEffect(lib, s.writer, s.queue[0].request, a);
    assert (s.events + [e])[..|s.events|] == s.events;
    if IsStored(e) {
      var r := s.queue[0].request.record;
      assert w.history == s.writer.history + [Last(w.history)];
      assert Called(e.id, Write(r)) in s.events && Carries(Last(w.history), r);
    }
  }

  lemma StepKeepsAsked(lib: Lib, w0: Sys, s: State, a: Action)
    requires Linked(lib, w0, s.writer, s.events) && QueueTracks(s.queue, s.next, s.events) && s.writer.segs != []
    requires AllAsked(|w0.history|, s.writer.history, s.events)
    ensures AllAsked(|w0.history|, Step(lib, s, a).writer.history, Step(lib, s, a).events)
  {
    hide Linked, QueueTracks, AllAsked, WasAsked, ServeOne;
    var history := s.writer.history;
    match a
    case Call(request) =>
      AskedStays(|w0.history|, history, s.events, history, Called(s.next, request));
    case Serve(_, _, _) =>
      if s.queue != [] {
        var (w, reply) := ServeOne(lib, s.writer, s.queue[0].request, a);
        JustAsked(lib, w0, s, a);
        AskedStays(|w0.history|, history, s.events, w.history, Served(s.queue[0].id, reply));
      }
    case Return(id) =>
      if id in s.replies {
        AskedStays(|w0.history|, history, s.events, history, Returned(id, s.replies[id]));
      }
  }

  /** In every run, each stored write is an entry of the log that carries the record submitted under its number. */
  lemma {:induction false} StoredIsWhatWasAsked(lib: Lib, w0: Sys, actions: seq<Action>)
    requires Inv(lib, w0) && |w0.history| + |actions| + 1 < U64_LIMIT && w0.segs != []
    ensures var s := Run(lib, Started(w0), actions);
            AllAsked(|w0.history|, s.writer.history, s.events)
  {
    if actions != [] {
      var init, a := actions[..|actions| - 1], actions[|actions| - 1];
      hide Inv, MailTracks, QueueTracks, GoodTrace, Linked, Step, AllAsked;
      StoredIsWhatWasAsked(lib, w0, init);
      RunIsTraced(lib, w0, init);
      StepKeepsAsked(lib, w0, Run(lib, Started(w0), init), a);
    }
  }

  lemma HistoryIsChain(lib: Lib, w: Sys)
    requires Inv(lib, w)
    ensures ValidFrom(lib, None, w.history) && |w.history| < U64_LIMIT
    ensures Violations(lib, None, w.history) == []
  {
    ReportIsExact(lib, None, w.history);
  }

  // ---------- Linearizability, read off the trace ----------

  lemma {:induction false} CountsGrow(events: seq<Event>, i: nat, j: nat)
    requires i <= j <= |events|
    ensures Calls(events[..i]) <= Calls(events[..j])
    ensures |Receipts(events[..i])| <= |Receipts(events[..j])|
    decreases j
  {
    if i < j {
      CountsGrow(events, i, j - 1);
      assert events[..j][..j - 1] == events[..j - 1];
    }
  }

  lemma {:induction false} HeadCountsReceipts(start: (u64, Str), events: seq<Event>, p: nat)
    requires GoodTrace(start, events) && p <= |events|
    ensures HeadAt(start, events[..p]).0 == start.0 + |Receipts(events[..p])|
    decreases p
  {
    if p == 0 {
      assert events[..0] == [];
    } else {
      hide HeadAt, Receipts, EventFits;
      HeadCountsReceipts(start, events, p - 1);
      assert EventFits(start, events[..p - 1], events[p - 1]);
      assert events[..p] == events[..p - 1] + [events[p - 1]];
      HeadAfterEvent(start, events[..p - 1], events[p - 1]);
    }
  }

  lemma HeadAfterEvent(start: (u64, Str), before: seq<Event>, e: Event)
    requires EventFits(start, before, e) && HeadAt(start, before).0 == start.0 + |Receipts(before)|
    ensures HeadAt(start, before + [e]).0 == start.0 + |Receipts(before + [e])|
  {
    hide Receipts, Calls, Serves;
    CountsOfLast(before, e);
  }

  /** The service that a returned reply comes from lies between its call and its return. */
  lemma ServiceOf(start: (u64, Str), events: seq<Event>, t: nat) returns (c: nat, p: nat)
    requires GoodTrace(start, events) && t < |events| && events[t].Returned?
    ensures c < p < t && events[c].Called? && events[c].id == events[t].id
    ensures events[p] == Served(events[t].id, events[t].reply) && Answers(events[c].request, events[t].reply)
    ensures ReplyFits(start, events[..p], events[t].reply)
  {
    hide Calls, Serves, Receipts, ReplyFits, Answers;
    var id, reply := events[t].id, events[t].reply;
    assert EventFits(start, events[..t], events[t]);
    assert Served(id, reply) in events[..t];
    p :| 0 <= p < t && events[p] == Served(id, reply);
    assert EventFits(start, events[..p], events[p]);
    var request :| Called(id, request) in events[..p] && Answers(request, reply);
    c :| 0 <= c < p && events[c] == Called(id, request);
  }

  /**
   Order in real time is order in the log: when one write has returned before another is even
   called, and both are stored, the first has the smaller number.
   */
  lemma EarlierReturnsBeforeLaterCalls(start: (u64, Str), events: seq<Event>, i: nat, j: nat, k: nat)
    requires GoodTrace(start, events) && i < j < |events| && k < |events|
    requires events[i].Returned? && events[i].reply.Wrote? && events[i].reply.result.Ok?
    requires events[j].Called? && IsStored(events[k]) && events[k].id == events[j].id
    ensures events[i].reply.result.value.seqNo < events[k].reply.result.value.seqNo
  {
    hide GoodTrace, ReplyFits, Answers, Receipts, Calls;
    var c, p := ServiceOf(start, events, i);
    assert IsStored(events[p]);
    ServedAfterCalled(start, events, j, k);
    StoredNumber(start, events, p);
    StoredNumber(start, events, k);
    CountsGrow(events, p + 1, k);
  }

  lemma ServedAfterCalled(start: (u64, Str), events: seq<Event>, j: nat, k: nat)
    requires GoodTrace(start, events) && j < |events| && k < |events|
    requires events[j].Called? && events[k].Served? && events[k].id == events[j].id
    ensures j < k
  {
    hide Calls, Serves, ReplyFits;
    assert EventFits(start, events[..j], events[j]);
    assert EventFits(start, events[..k], events[k]);
    if k < j {
      CountsGrow(events, k, j);
    }
  }

  lemma EventOfTrace(start: (u64, Str), events: seq<Event>, k: nat)
    requires GoodTrace(start, events) && k < |events|
    ensures EventFits(start, events[..k], events[k])
  {
    hide EventFits;
  }

  /** A stored write's number counts the receipts before it. */
  lemma StoredNumber(start: (u64, Str), events: seq<Event>, k: nat)
    requires GoodTrace(start, events) && k < |events| && IsStored(events[k])
    ensures events[k].reply.result.value.seqNo == start.0 + |Receipts(events[..k])| + 1
    ensures |Receipts(events[..k + 1])| == |Receipts(events[..k])| + 1
  {
    hide GoodTrace, Calls, Serves, Receipts;
    HeadCountsReceipts(start, events, k);
    EventOfTrace(start, events, k);
    assert events[..k + 1] == events[..k] + [events[k]];
    CountsOfLast(events[..k], events[k]);
  }

  /** A step adds at most one event, so every prefix of a run's events belongs to a prefix of the run. */
  lemma {:induction false} PrefixOfEvents(lib: Lib, s: State, actions: seq<Action>, p: nat) returns (n: nat)
    requires s.writer.segs != [] && s.events == []
    requires p <= |Run(lib, s, actions).events|
    ensures n <= |actions| && Run(lib, s, actions[..n]).events == Run(lib, s, actions).events[..p]
  {
    var events := Run(lib, s, actions).events;
    if p == |events| {
      n := |actions|;
      assert actions[..n] == actions;
    } else {
      var init := actions[..|actions| - 1];
      StepAddsOne(lib, Run(lib, s, init), actions[|actions| - 1]);
      n := PrefixOfEvents(lib, s, init, p);
      assert init[..n] == actions[..n];
    }
  }

  lemma StepAddsOne(lib: Lib, s: State, a: Action)
    requires s.writer.segs != []
    ensures var events := Step(lib, s, a).events;
            s.events <= events && |events| <= |s.events| + 1
  {
    hide ServeOne;
  }

  /**
   A head that a caller gets was the true head at some moment between its call and its return: the
   run went through a state whose writer stood exactly there.
   */
  lemma HeadWasTrueMeanwhile(lib: Lib, w0: Sys, actions: seq<Action>, t: nat)
    requires Inv(lib, w0) && |w0.history| + |actions| + 1 < U64_LIMIT && w0.segs != []
    requires var events := Run(lib, Started(w0), actions).events;
             t < |events| && events[t].Returned? && events[t].reply.HeadIs?
    ensures var events := Run(lib, Started(w0), actions).events;
            exists n: nat :: n <= |actions| &&
              var mid := Run(lib, Started(w0), actions[..n]);
              && mid.events <= events[..t] && Called(events[t].id, AskHead) in mid.events
              && (mid.writer.seqNo, mid.writer.prevHash) == (events[t].reply.seqNo, events[t].reply.hash)
  {
    hide Run, Inv, Tracks, GoodTrace, HeadAt, Receipts;
    var events := Run(lib, Started(w0), actions).events;
    RunIsTraced(lib, w0, actions);
    var c, p := ServiceOf((w0.seqNo, w0.prevHash), events, t);
    var n := PrefixOfEvents(lib, Started(w0), actions, p);
    RunIsTraced(lib, w0, actions[..n]);
    assert events[..p][c] == Called(events[t].id, AskHead);
    assert events[..p] <= events[..t];
  }

  /** With an empty queue nobody has been passed over: every call has been served. */
  lemma EmptyQueueMeansAllServed(lib: Lib, w0: Sys, actions: seq<Action>)
    requires Inv(lib, w0) && |w0.history| + |actions| + 1 < U64_LIMIT && w0.segs != []
    ensures var s := Run(lib, Started(w0), actions);
            s.queue == [] <==> Serves(s.events) == Calls(s.events)
  {
    RunIsTraced(lib, w0, actions);
  }
}
