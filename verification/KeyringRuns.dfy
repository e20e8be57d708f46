/**
 The keyring under threads. Each critical section is cut into its steps: the read-locked check of
 `ensure`, the write-locked recheck, the file write, the cache insert; the cache removal and the
 file removal of `shred`; the read-locked fetch of a key and its later use. Minting and removing may
 fail, and a process may be restarted between any two steps. Fresh keys are new.
 */
module KeyringRuns {
  import opened Bytes
  import opened Keyring
  import opened Wrappers

  type KeyId = seq<byte>
  type Thread = nat

  /** What a thread inside `ensure` will do next: nothing, or wrap a data key. */
  datatype Goal = Done | ThenWrap

  datatype Pc =
    | Checked(id: KeyId, goal: Goal)                // ensure: read check found nothing
    | Rechecking(id: KeyId, goal: Goal)             // ensure: holds the write lock
    | Writing(id: KeyId, key: Key, goal: Goal)      // ensure: file written, cache not yet
    | Fetching(id: KeyId)                           // wrap: about to fetch the key
    | Shredding(id: KeyId)                          // shred: holds the write lock
    | Unfiling(id: KeyId)                           // shred: cache cleared, file not yet

  datatype Event =
    | Existed(id: KeyId)
    | Minted(id: KeyId, key: Key)
    | Created(id: KeyId, key: Key)
    | Fetched(id: KeyId, key: Key)
    | Tried(id: KeyId, key: Key, opens: bool)
    | EnsureFailed(id: KeyId)
    | Shredded(id: KeyId)
    | ShredFailed(id: KeyId)
    | Restarted

  /** `files` is the directory, read as subject to key. `lock` is the holder of the write lock. */
  datatype State = State(
    cache: map<KeyId, Key>, files: map<KeyId, Key>, lock: Option<Thread>,
    threads: map<Thread, Pc>, next: Key, log: seq<Event>)

  datatype Action =
    | Ensure(t: Thread, id: KeyId, goal: Goal)
    | Acquire(t: Thread)
    | Recheck(t: Thread, works: bool)
    | Insert(t: Thread)
    | Wrap(t: Thread, id: KeyId)
    | Fetch(t: Thread)
    | Unwrap(id: KeyId, key: Key)
    | Shred(t: Thread, id: KeyId)
    | Forget(t: Thread)
    | Unfile(t: Thread, works: bool)
    | Restart

  function Start(): State {
    State(map[], map[], None, map[], 0, [])
  }

  function Log(s: State, e: Event): State {
    s.(log := s.log + [e])
  }

  function At(s: State, t: Thread, pc: Pc): State {
    s.(threads := s.threads[t := pc])
  }

  /** Leaves `ensure`, on to the wrapping or out. */
  function Leave(s: State, t: Thread, id: KeyId, goal: Goal): State {
    match goal
    case Done => s.(threads := s.threads - {t})
    case ThenWrap => At(s, t, Fetching(id))
  }

  /**
   One step of one thread. `Wrap` is a wrap without creation on demand; with it, a wrap is an
   `Ensure` whose goal is to wrap. `works` tells whether key and file could be made, or the file
   removed. A step that is not enabled leaves the state as it is. */
  function Step(s: State, a: Action): State {
    match a
    case Ensure(t, id, goal) =>
      if t in s.threads || s.lock.Some? || !ValidKeyId(id) then s
      else if id in s.cache then Leave(Log(s, Existed(id)), t, id, goal)
      else At(s, t, Checked(id, goal))
    case Acquire(t) =>
      if t !in s.threads || !s.threads[t].Checked? || s.lock.Some? then s
      else At(s.(lock := Some(t)), t, Rechecking(s.threads[t].id, s.threads[t].goal))
    case Recheck(t, works) =>
      if t !in s.threads || !s.threads[t].Rechecking? then s
      else Rechecked(s, t, s.threads[t].id, s.threads[t].goal, works)
    case Insert(t) =>
      if t !in s.threads || !s.threads[t].Writing? then s
      else
        var Writing(id, key, goal) := s.threads[t];
        Leave(Log(s.(cache := s.cache[id := key], lock := None), Created(id, key)), t, id, goal)
    case Wrap(t, id) =>
      if t in s.threads then s else At(s, t, Fetching(id))
    case Fetch(t) =>
      if t !in s.threads || !s.threads[t].Fetching? || s.lock.Some? then s
      else
        var id := s.threads[t].id;
        var s' := s.(threads := s.threads - {t});
        if id in s.cache then Log(s', Fetched(id, s.cache[id])) else s'
    case Unwrap(id, key) =>
      if s.lock.Some? then s
      else Log(s, Tried(id, key, id in s.cache && UnwrapWithKey(s.cache[id], Blob(key, [])).Ok?))
    case Shred(t, id) =>
      if t in s.threads || s.lock.Some? || !ValidKeyId(id) then s
      else At(s.(lock := Some(t)), t, Shredding(id))
    case Forget(t) =>
      if t !in s.threads || !s.threads[t].Shredding? then s
      else At(s.(cache := s.cache - {s.threads[t].id}), t, Unfiling(s.threads[t].id))
    case Unfile(t, works) =>
      if t !in s.threads || !s.threads[t].Unfiling? then s
      else Unfiled(s.(lock := None, threads := s.threads - {t}), s.threads[t].id, works)
    case Restart =>
      Log(s.(cache := s.files, lock := None, threads := map[]), Restarted)
  }

  /** Under the write lock: the key turned up meanwhile, or could not be made, or is now in its file. */
  function Rechecked(s: State, t: Thread, id: KeyId, goal: Goal, works: bool): State {
    if id in s.cache then Leave(Log(s.(lock := None), Existed(id)), t, id, goal)
    else if !works then Log(s.(lock := None, threads := s.threads - {t}), EnsureFailed(id))
    else
      var minted := Log(s.(files := s.files[id := s.next], next := s.next + 1), Minted(id, s.next));
      At(minted, t, Writing(id, s.next, goal))
  }

  /** The file is removed, or is still there, or never was. */
  function Unfiled(s: State, id: KeyId, works: bool): State {
    if id in s.files && !works then Log(s, ShredFailed(id))
    else Log(s.(files := s.files - {id}), Shredded(id))
  }

  function Run(actions: seq<Action>): State {
    if actions == [] then Start()
    else Step(Run(actions[..|actions| - 1]), actions[|actions| - 1])
  }

  // ---------- What a log says of a key ----------

  /** The subjects whose key file outlived a failed removal and that no cache has read since. */
  function Hidden(log: seq<Event>): set<KeyId> {
    if log == [] then {}
    else HideAlso(Hidden(log[..|log| - 1]), log[|log| - 1])
  }

  function HideAlso(before: set<KeyId>, e: Event): set<KeyId> {
    match e
    case ShredFailed(id) => before + {id}
    case Shredded(id) => before - {id}
    case Minted(id, _) => before - {id}
    case Restarted => {}
    case _ => before
  }

  /** A key in use, one on disk that the cache has lost, and one that is gone for good. */
  datatype Fate = Live | Lost | Gone

  /** What became of a live key of this subject. */
  function FateOf(log: seq<Event>, id: KeyId): Fate {
    if log == [] then Live else Turn(FateOf(log[..|log| - 1], id), log[|log| - 1], id)
  }

  function Turn(fate: Fate, e: Event, id: KeyId): Fate {
    if e == Shredded(id) then Gone
    else if e == ShredFailed(id) && fate.Live? then Lost
    else if e.Minted? && e.id == id && fate.Lost? then Gone
    else if e.Restarted? && fate.Lost? then Live
    else fate
  }

  lemma LastTurn(log: seq<Event>, e: Event, id: KeyId, p: nat)
    requires p <= |log|
    ensures FateOf((log + [e])[p..], id) == Turn(FateOf(log[p..], id), e, id)
  {
    hide Turn;
    var longer := (log + [e])[p..];
    assert longer == log[p..] + [e];
    assert longer[..|longer| - 1] == log[p..];
  }

  lemma HiddenAfter(log: seq<Event>, e: Event)
    ensures Hidden(log + [e]) == HideAlso(Hidden(log), e)
  {
    hide HideAlso;
    assert (log + [e])[..|log|] == log;
  }

  // ---------- The invariant ----------

  predicate Critical(pc: Pc) {
    pc.Rechecking? || pc.Writing? || pc.Shredding? || pc.Unfiling?
  }

  /** Exactly the holder of the write lock is in a critical section. */
  ghost predicate Locking(s: State) {
    && (forall t :: t in s.threads && Critical(s.threads[t]) ==> s.lock == Some(t))
    && (s.lock.Some? ==> s.lock.value in s.threads && Critical(s.threads[s.lock.value]))
  }

  /**
   Outside the critical sections the cache is the directory without the hidden files. Inside, they
   differ by the one subject being worked on.
   */
  ghost predicate Consistent(s: State) {
    && Locking(s)
    && var seen := s.files - Hidden(s.log);
       match s.lock
       case None => s.cache == seen
       case Some(t) =>
         match s.threads[t]
         case Writing(id, key, _) => seen == s.cache[id := key] && id !in s.cache
         case Unfiling(id) => s.cache == seen - {id}
         case _ => s.cache == seen
  }

  /** A fetched key is still in its file unless it is gone, and in sight exactly while it lives. */
  ghost predicate KeysLive(s: State) {
    && (forall id :: id in s.files ==> s.files[id] < s.next)
    && (forall p :: 0 <= p < |s.log| && s.log[p].Fetched? ==>
          && s.log[p].key < s.next
          && Tells(FateOf(s.log[p + 1..], s.log[p].id), s.files, Hidden(s.log), s.log[p].id, s.log[p].key))
  }

  predicate Tells(fate: Fate, files: map<KeyId, Key>, hidden: set<KeyId>, id: KeyId, key: Key) {
    match fate
    case Live => id in files && files[id] == key && id !in hidden
    case Lost => id in files && files[id] == key && id in hidden
    case Gone => !(id in files && files[id] == key)
  }

  /** A key was fetched, and later a bundle wrapped under it was tried. */
  predicate Attempt(fetched: Event, tried: Event) {
    fetched.Fetched? && tried.Tried? && tried.id == fetched.id && tried.key == fetched.key
  }

  /** Every attempt to unwrap got the right answer at the time. */
  ghost predicate AnswersRight(log: seq<Event>) {
    forall p, u :: 0 <= p < u < |log| && Attempt(log[p], log[u]) ==>
      (log[u].opens <==> FateOf(log[p + 1..u], log[p].id).Live?)
  }

  /** A fetched key was created before, once; a minted key is new, and is or will be reported. */
  ghost predicate Minting(s: State) {
    && (forall p :: 0 <= p < |s.log| && (s.log[p].Minted? || s.log[p].Created?) ==> s.log[p].key < s.next)
    && (forall p, q :: 0 <= p < q < |s.log| && s.log[p].Minted? && s.log[q].Minted? ==> s.log[p].key != s.log[q].key)
    && (forall p, q :: 0 <= p < q < |s.log| && s.log[p].Created? && s.log[q].Created? ==>
          s.log[p].key != s.log[q].key)
    && (forall t :: t in s.threads && s.threads[t].Writing? ==>
          && s.threads[t].key < s.next
          && forall p :: 0 <= p < |s.log| && s.log[p].Created? ==> s.log[p].key != s.threads[t].key)
    && (forall p :: 0 <= p < |s.log| && s.log[p].Minted? ==> Accounted(s, p))
  }

  /** Some thread has written this key's file and not yet cached it. */
  ghost predicate IsWriting(threads: map<Thread, Pc>, id: KeyId, key: Key) {
    exists t :: t in threads && threads[t].Writing? && threads[t].id == id && threads[t].key == key
  }

  /** A minted key has been reported as created, or its thread is about to, or a restart cut it off. */
  ghost predicate Accounted(s: State, p: nat)
    requires p < |s.log| && s.log[p].Minted?
  {
    || Created(s.log[p].id, s.log[p].key) in s.log[p..]
    || Restarted in s.log[p..]
    || IsWriting(s.threads, s.log[p].id, s.log[p].key)
  }

  ghost predicate Inv(s: State) {
    Consistent(s) && KeysLive(s) && AnswersRight(s.log) && Minting(s)
  }

  // ---------- Every step keeps it ----------

  predicate Creates(a: Action) {
    a.Ensure? || a.Acquire? || a.Recheck? || a.Insert?
  }

  predicate Removes(a: Action) {
    a.Shred? || a.Forget? || a.Unfile?
  }

  /** The log grows by at most one event, and what is hidden turns with it. */
  lemma StepLogs(s: State, a: Action)
    ensures var t := Step(s, a);
            || t.log == s.log
            || (&& |t.log| == |s.log| + 1 && t.log == s.log + [t.log[|s.log|]]
                && Hidden(t.log) == HideAlso(Hidden(s.log), t.log[|s.log|]))
  {
    hide ValidKeyId, Hidden, HideAlso;
    var t := Step(s, a);
    if t.log != s.log {
      HiddenAfter(s.log, t.log[|s.log|]);
    }
  }

  lemma CreatingIsConsistent(s: State, a: Action)
    requires Consistent(s) && Creates(a) && !a.Recheck?
    ensures Consistent(Step(s, a))
  {
    hide Hidden, ValidKeyId, Rechecked, Unfiled;
    StepLogs(s, a);
  }

  lemma RecheckIsConsistent(s: State, a: Action)
    requires Consistent(s) && a.Recheck?
    ensures Consistent(Step(s, a))
  {
    hide Hidden, ValidKeyId, Unfiled;
    StepLogs(s, a);
  }

  lemma RemovingIsConsistent(s: State, a: Action)
    requires Consistent(s) && Removes(a)
    ensures Consistent(Step(s, a))
  {
    hide Hidden, ValidKeyId, Rechecked, Leave;
    StepLogs(s, a);
  }

  lemma UsingIsConsistent(s: State, a: Action)
    requires Consistent(s) && !Creates(a) && !Removes(a)
    ensures Consistent(Step(s, a))
  {
    hide Hidden, ValidKeyId, Rechecked, Unfiled, Leave;
    StepLogs(s, a);
  }

  lemma ConsistentStep(s: State, a: Action)
    requires Consistent(s)
    ensures Consistent(Step(s, a))
  {
    hide Step, Consistent;
    if a.Recheck? {
      RecheckIsConsistent(s, a);
    } else if Creates(a) {
      CreatingIsConsistent(s, a);
    } else if Removes(a) {
      RemovingIsConsistent(s, a);
    } else {
      UsingIsConsistent(s, a);
    }
  }

  /** How a step may change the directory and the log together. */
  ghost predicate FilesFollowLog(s: State, t: State) {
    || (t.log == s.log && t.files == s.files && t.next == s.next)
    || (|t.log| == |s.log| + 1 && t.log == s.log + [t.log[|s.log|]] && EventFits(s, t, t.log[|s.log|]))
  }

  ghost predicate EventFits(s: State, t: State, e: Event) {
    match e
    case Minted(id, key) =>
      && (id in s.files ==> id in Hidden(s.log))
      && key == s.next && t.files == s.files[id := key] && t.next == s.next + 1
    case Shredded(id) => t.files == s.files - {id} && t.next == s.next
    case Fetched(id, key) =>
      && id in s.files && s.files[id] == key && id !in Hidden(s.log)
      && t.files == s.files && t.next == s.next
    case Tried(id, key, opens) =>
      && (opens <==> id in s.files && s.files[id] == key && id !in Hidden(s.log))
      && t.files == s.files && t.next == s.next
    case _ => t.files == s.files && t.next == s.next
  }

  lemma StepFollowsLog(s: State, a: Action)
    requires Consistent(s)
    ensures FilesFollowLog(s, Step(s, a))
  {
    hide Step, Consistent, FilesFollowLog;
    if a.Recheck? {
      RecheckFollowsLog(s, a);
    } else if Removes(a) {
      RemovingFollowsLog(s, a);
    } else {
      OthersFollowLog(s, a);
    }
  }

  lemma RecheckFollowsLog(s: State, a: Action)
    requires Consistent(s) && a.Recheck?
    ensures FilesFollowLog(s, Step(s, a))
  {
    hide Hidden, HideAlso, ValidKeyId, Unfiled;
    StepLogs(s, a);
  }

  lemma RemovingFollowsLog(s: State, a: Action)
    requires Consistent(s) && Removes(a)
    ensures FilesFollowLog(s, Step(s, a))
  {
    hide Hidden, HideAlso, ValidKeyId, Rechecked, Leave;
    StepLogs(s, a);
  }

  lemma OthersFollowLog(s: State, a: Action)
    requires Consistent(s) && !a.Recheck? && !Removes(a)
    ensures FilesFollowLog(s, Step(s, a))
  {
    hide Hidden, HideAlso, ValidKeyId, Rechecked, Unfiled;
    StepLogs(s, a);
  }

  /** The fate of a key turns with each event the way the directory does. */
  lemma TurnTells(s: State, t: State, e: Event, fate: Fate, id: KeyId, key: Key)
    requires EventFits(s, t, e) && key < s.next
    requires Tells(fate, s.files, Hidden(s.log), id, key)
    ensures Tells(Turn(fate, e, id), t.files, HideAlso(Hidden(s.log), e), id, key)
  {
    hide Hidden;
  }

  lemma KeysLiveStep(s: State, t: State)
    requires KeysLive(s) && FilesFollowLog(s, t)
    ensures KeysLive(t)
  {
    hide Hidden, HideAlso, FateOf, Tells, EventFits, Turn;
    if t.log != s.log {
      var e := t.log[|s.log|];
      FilesStayBelow(s, t, e);
      HiddenAfter(s.log, e);
      forall p | 0 <= p < |t.log| && t.log[p].Fetched?
        ensures t.log[p].key < t.next
        ensures Tells(FateOf(t.log[p + 1..], t.log[p].id), t.files, Hidden(t.log), t.log[p].id, t.log[p].key)
      {
        if p < |s.log| {
          assert t.log[p] == s.log[p];
          var id := s.log[p].id;
          LastTurn(s.log, e, id, p + 1);
          TurnTells(s, t, e, FateOf(s.log[p + 1..], id), id, s.log[p].key);
        } else {
          JustFetched(s, t, e);
        }
      }
    }
  }

  lemma FilesStayBelow(s: State, t: State, e: Event)
    requires EventFits(s, t, e) && forall id :: id in s.files ==> s.files[id] < s.next
    ensures s.next <= t.next && forall id :: id in t.files ==> t.files[id] < t.next
  {
    hide Hidden;
  }

  lemma JustFetched(s: State, t: State, e: Event)
    requires KeysLive(s) && EventFits(s, t, e) && e.Fetched? && t.log == s.log + [e]
    ensures e.key < t.next
    ensures Tells(FateOf(t.log[|s.log| + 1..], e.id), t.files, Hidden(t.log), e.id, e.key)
  {
    hide Hidden;
    HiddenAfter(s.log, e);
    assert t.log[|s.log| + 1..] == [];
  }

  lemma AnswersStep(s: State, t: State)
    requires KeysLive(s) && AnswersRight(s.log) && FilesFollowLog(s, t)
    ensures AnswersRight(t.log)
  {
    hide Hidden, FateOf;
    if t.log != s.log {
      forall p, u | 0 <= p < u < |t.log| && Attempt(t.log[p], t.log[u])
        ensures t.log[u].opens <==> FateOf(t.log[p + 1..u], t.log[p].id).Live?
      {
        assert t.log[p] == s.log[p];
        assert t.log[p + 1..u] == s.log[p + 1..u];
        assert u < |s.log| ==> t.log[u] == s.log[u];
        assert s.log[p + 1..|s.log|] == s.log[p + 1..];
      }
    }
  }

  // ---------- Keys are minted once and reported once ----------

  /** How a step may change the writing thread and the log together. */
  ghost predicate WriterFollowsLog(s: State, t: State) {
    var added := if |t.log| > |s.log| then t.log[|s.log|..] else [];
    && t.log == s.log + added && |added| <= 1
    && (forall i :: i in t.threads && t.threads[i].Writing? ==>
          (i in s.threads && s.threads[i] == t.threads[i] && (added == [] || !added[0].Created?)) ||
          (|added| == 1 && added[0] == Minted(t.threads[i].id, t.threads[i].key)))
    && (forall i :: i in s.threads && s.threads[i].Writing? ==>
          || (i in t.threads && t.threads[i] == s.threads[i])
          || (|added| == 1 && (added[0].Restarted? || added[0] == Created(s.threads[i].id, s.threads[i].key))))
    && (|added| == 1 && added[0].Minted? ==>
          added[0].key == s.next && t.next == s.next + 1 && IsWriting(t.threads, added[0].id, added[0].key))
    && (|added| == 1 && added[0].Created? ==>
          exists i :: i in s.threads && s.threads[i].Writing? && s.threads[i].key == added[0].key)
    && s.next <= t.next
  }

  /** Only three steps touch a writing thread. */
  predicate Quiet(a: Action) {
    !a.Recheck? && !a.Insert? && !a.Restart?
  }

  lemma QuietLog(s: State, a: Action)
    requires Quiet(a)
    ensures var t := Step(s, a);
            t.log == s.log || (exists e :: t.log == s.log + [e] && !e.Minted? && !e.Created? && !e.Restarted?)
  {
    hide ValidKeyId, Rechecked, Hidden, HideAlso;
    StepLogs(s, a);
  }

  lemma QuietThreads(s: State, a: Action)
    requires Locking(s) && Quiet(a)
    ensures var t := Step(s, a);
            && t.next == s.next
            && (forall i :: i in t.threads && t.threads[i].Writing? ==>
                  i in s.threads && s.threads[i] == t.threads[i])
            && (forall i :: i in s.threads && s.threads[i].Writing? ==>
                  i in t.threads && t.threads[i] == s.threads[i])
  {
    hide ValidKeyId, Rechecked;
  }

  lemma StepFollowsWriter(s: State, a: Action)
    requires Locking(s)
    ensures WriterFollowsLog(s, Step(s, a))
  {
    hide Step, Locking, WriterFollowsLog;
    match a
    case Recheck(_, _) => RecheckFollowsWriter(s, a);
    case Insert(_) => InsertFollowsWriter(s, a);
    case Restart => RestartFollowsWriter(s, a);
    case _ => QuietStepFollowsWriter(s, a);
  }

  lemma QuietStepFollowsWriter(s: State, a: Action)
    requires Locking(s) && Quiet(a)
    ensures WriterFollowsLog(s, Step(s, a))
  {
    hide Step, Locking;
    QuietLog(s, a);
    QuietThreads(s, a);
  }

  lemma RecheckFollowsWriter(s: State, a: Action)
    requires a.Recheck?
    ensures WriterFollowsLog(s, Step(s, a))
  {
    hide ValidKeyId, Unfiled;
    var t := Step(s, a);
    if t.log != s.log {
      assert t.log[|s.log|..] == [t.log[|s.log|]];
    }
  }

  lemma InsertFollowsWriter(s: State, a: Action)
    requires Locking(s) && a.Insert?
    ensures WriterFollowsLog(s, Step(s, a))
  {
    hide ValidKeyId, Unfiled;
    var t := Step(s, a);
    if t.log != s.log {
      assert t.log[|s.log|..] == [t.log[|s.log|]];
    }
  }

  lemma RestartFollowsWriter(s: State, a: Action)
    requires a.Restart?
    ensures WriterFollowsLog(s, Step(s, a))
  {
    hide ValidKeyId;
    assert Step(s, a).log[|s.log|..] == [Restarted];
  }

  lemma MintingStep(s: State, t: State)
    requires Minting(s) && WriterFollowsLog(s, t)
    ensures Minting(t)
  {
    hide Accounted;
    var n := |s.log|;
    if |t.log| == n {
      assert t.log == s.log;
    } else {
      assert t.log == s.log + [t.log[n]];
    }
    forall p | 0 <= p < |t.log| && t.log[p].Minted?
      ensures Accounted(t, p)
    {
      if p < n {
        assert t.log[p] == s.log[p];
        AccountedStays(s, t, p);
      } else {
        NewlyMinted(s, t);
      }
    }
    assert forall p :: 0 <= p < n ==> t.log[p] == s.log[p];
  }

  lemma AccountedStays(s: State, t: State, p: nat)
    requires WriterFollowsLog(s, t) && p < |s.log| <= |t.log| && s.log[p].Minted? && t.log[p] == s.log[p]
    requires Accounted(s, p)
    ensures Accounted(t, p)
  {
    var id, key, added := s.log[p].id, s.log[p].key, t.log[|s.log|..];
    assert t.log[p..] == s.log[p..] + added;
    if i :| i in s.threads && s.threads[i].Writing? && s.threads[i].id == id && s.threads[i].key == key {
      assert (i in t.threads && t.threads[i] == s.threads[i]) || (added != [] && added[0] in t.log[p..]);
    }
  }

  lemma NewlyMinted(s: State, t: State)
    requires WriterFollowsLog(s, t) && |t.log| == |s.log| + 1 && t.log[|s.log|].Minted?
    ensures Accounted(t, |s.log|)
  {
    assert t.log[|s.log|..] == [t.log[|s.log|]];
  }

  lemma {:induction false} RunKeepsInv(actions: seq<Action>)
    ensures Inv(Run(actions))
  {
    if actions != [] {
      var s, a := Run(actions[..|actions| - 1]), actions[|actions| - 1];
      hide Locking, KeysLive, AnswersRight, Minting, Step, FilesFollowLog, WriterFollowsLog, Hidden;
      RunKeepsInv(actions[..|actions| - 1]);
      ConsistentStep(s, a);
      StepFollowsLog(s, a);
      KeysLiveStep(s, Step(s, a));
      AnswersStep(s, Step(s, a));
      StepFollowsWriter(s, a);
      MintingStep(s, Step(s, a));
    }
  }

  // ---------- What holds of every run ----------

  /**
   Crypto-shredding is exact. In every interleaving, a bundle wrapped under a fetched key opens,
   whenever it is tried, if and only if the key is live. After a successful shredding of its subject
   it never opens; and as long as no removal of that subject failed, nothing else can stop it.
   */
  lemma ShreddingIsExact(actions: seq<Action>, p: nat, u: nat)
    requires var log := Run(actions).log;
             p < u < |log| && Attempt(log[p], log[u])
    ensures var log := Run(actions).log;
            var id, between := log[p].id, log[p + 1..u];
            && (log[u].opens <==> FateOf(between, id).Live?)
            && (Shredded(id) in between ==> !log[u].opens)
            && (ShredFailed(id) !in between ==> (log[u].opens <==> Shredded(id) !in between))
  {
    RunKeepsInv(actions);
    hide Run, Consistent, KeysLive, Minting, FateOf;
    var log := Run(actions).log;
    ShreddedIsGone(log[p + 1..u], log[p].id);
  }

  lemma {:induction false} ShreddedIsGone(log: seq<Event>, id: KeyId)
    ensures Shredded(id) in log ==> FateOf(log, id).Gone?
    ensures ShredFailed(id) !in log ==> (FateOf(log, id).Live? <==> Shredded(id) !in log) && !FateOf(log, id).Lost?
  {
    if log != [] {
      var before, e := log[..|log| - 1], log[|log| - 1];
      ShreddedIsGone(before, id);
      assert log == before + [e];
      assert forall x :: x in log <==> x in before || x == e;
    }
  }

  /**
   Whenever no critical section is open, the cache is the directory without the files that outlived
   a failed removal; in particular it is the whole directory if none did.
   */
  lemma CacheAgreesWithDirectory(actions: seq<Action>)
    ensures var s := Run(actions);
            && (s.lock.None? ==> s.cache == s.files - Hidden(s.log))
            && (forall id :: id in s.cache ==> id in s.files && s.files[id] == s.cache[id])
            && (s.lock.None? && (forall id :: ShredFailed(id) !in s.log) ==> s.cache == s.files)
  {
    RunKeepsInv(actions);
    hide Run, KeysLive, AnswersRight, Minting, Hidden;
    var s := Run(actions);
    forall id | id in s.cache
      ensures id in s.files && s.files[id] == s.cache[id]
    {
      CachedKeysAreSeen(s, id);
    }
    forall id | ShredFailed(id) !in s.log
      ensures id !in Hidden(s.log)
    {
      NotHidden(s.log, id);
    }
  }

  lemma {:induction false} NotHidden(log: seq<Event>, id: KeyId)
    requires ShredFailed(id) !in log
    ensures id !in Hidden(log)
  {
    if log != [] {
      NotHidden(log[..|log| - 1], id);
    }
  }

  /** A thread holds the write lock in `ensure` for this subject, and nothing will fail. */
  predicate AboutToMint(s: State, a: Action, id: KeyId) {
    a.Recheck? && a.works && a.t in s.threads && s.threads[a.t].Rechecking? && s.threads[a.t].id == id
  }

  /**
   When the key of a subject is replaced: never in the cache, and on disk exactly when `ensure` works
   on a subject whose file outlived a failed removal. Without such a failure no key is ever replaced.
   */
  lemma KeysAreOverwrittenExactly(actions: seq<Action>, a: Action, id: KeyId)
    ensures var s := Run(actions);
            var t := Step(s, a);
            && (id in s.cache && id in t.cache ==> t.cache[id] == s.cache[id])
            && (id in s.files && id in t.files ==>
                  (t.files[id] != s.files[id] <==> AboutToMint(s, a, id) && id in Hidden(s.log)))
            && (ShredFailed(id) !in s.log && id in s.files && id in t.files ==> t.files[id] == s.files[id])
  {
    RunKeepsInv(actions);
    hide Run, AnswersRight, Minting, Hidden;
    StepReplacesNothing(Run(actions), a, id);
    if ShredFailed(id) !in Run(actions).log {
      NotHidden(Run(actions).log, id);
    }
  }

  lemma CachedKeysAreSeen(s: State, id: KeyId)
    requires Consistent(s) && id in s.cache
    ensures id in s.files && s.files[id] == s.cache[id]
  {
    hide Hidden, Locking;
    assert id in s.files - Hidden(s.log);
  }

  lemma StepReplacesNothing(s: State, a: Action, id: KeyId)
    requires Consistent(s) && forall x :: x in s.files ==> s.files[x] < s.next
    ensures var t := Step(s, a);
            && (id in s.cache && id in t.cache ==> t.cache[id] == s.cache[id])
            && (id in s.files && id in t.files ==>
                  (t.files[id] != s.files[id] <==> AboutToMint(s, a, id) && id in Hidden(s.log)))
  {
    hide Hidden, ValidKeyId;
    if id in s.cache {
      CachedKeysAreSeen(s, id);
    }
  }

  /**
   Each key generation is reported as created once: never twice, and, when its thread has left
   `ensure` and no restart came between, exactly once.
   */
  lemma CreatedExactlyOnce(actions: seq<Action>, p: nat)
    requires p < |Run(actions).log| && Run(actions).log[p].Minted?
    ensures var s := Run(actions);
            var reported := Created(s.log[p].id, s.log[p].key);
            && (forall q, r :: 0 <= q < r < |s.log| && s.log[q].Created? && s.log[r].Created? ==>
                  s.log[q].key != s.log[r].key)
            && (reported in s.log[p..] || Restarted in s.log[p..] || IsWriting(s.threads, s.log[p].id, s.log[p].key))
  {
    RunKeepsInv(actions);
    var s := Run(actions);
    assert Accounted(s, p);
  }

  // ---------- Undisturbed calls ----------

  /** The steps of one call to `ensure`, with nobody in between. */
  function EnsureAlone(s: State, t: Thread, id: KeyId, works: bool): State {
    Step(Step(Step(Step(s, Ensure(t, id, Done)), Acquire(t)), Recheck(t, works)), Insert(t))
  }

  function ShredAlone(s: State, t: Thread, id: KeyId, removes: bool): State {
    Step(Step(Step(s, Shred(t, id)), Forget(t)), Unfile(t, removes))
  }

  /**
   An undisturbed call does what the keyring object's method does, on any directory that reads as
   this one, and leaves nothing behind.
   */
  lemma EnsureAloneIsEnsure(s: State, t: Thread, id: KeyId, files: Files, rng: Result<Key>, writes: bool)
    requires s.lock.None? && t !in s.threads && Agree(s.files, files) && (rng.Ok? ==> rng.value == s.next)
    ensures var s' := EnsureAlone(s, t, id, rng.Ok? && writes);
            var after := EnsureOutcome(s.cache, files, id, rng, writes);
            && s'.cache == after.cache && Agree(s'.files, after.files)
            && s'.lock.None? && s'.threads == s.threads
            && s'.log == s.log + match after.answer
                                 case Ok(true) => [Minted(id, s.next), Created(id, s.next)]
                                 case Ok(false) => [Existed(id)]
                                 case Err(_) => if ValidKeyId(id) then [EnsureFailed(id)] else []
  {
    hide KeyName, ValidKeyId, Agree;
    AloneEnsured(s, t, id, rng.Ok? && writes);
    if EnsureOutcome(s.cache, files, id, rng, writes).answer == Ok(true) {
      WriteAgrees(s.files, files, id, s.next);
    }
  }

  lemma AloneEnsured(s: State, t: Thread, id: KeyId, works: bool)
    requires s.lock.None? && t !in s.threads
    ensures EnsureAlone(s, t, id, works) ==
            if !ValidKeyId(id) then s
            else if id in s.cache then Log(s, Existed(id))
            else if !works then Log(s, EnsureFailed(id))
            else s.(cache := s.cache[id := s.next], files := s.files[id := s.next], next := s.next + 1,
                    log := s.log + [Minted(id, s.next), Created(id, s.next)])
  {
    hide ValidKeyId;
    assert s.threads - {t} == s.threads;
    assert s.threads[t := Checked(id, Done)][t := Rechecking(id, Done)] - {t} == s.threads;
    var inside := s.threads[t := Checked(id, Done)][t := Rechecking(id, Done)];
    assert inside[t := Writing(id, s.next, Done)] - {t} == s.threads;
    assert s.log + [Minted(id, s.next)] + [Created(id, s.next)] == s.log + [Minted(id, s.next), Created(id, s.next)];
  }

  /** A restart is what opening the directory anew would load, and nobody is inside any more. */
  lemma RestartIsOpen(s: State, files: Files, loaded: Cache)
    requires Agree(s.files, files) && Agree(loaded, files)
    ensures var s' := Step(s, Restart);
            && s'.cache == loaded && s'.files == s.files && s'.lock.None? && s'.threads == map[]
            && s'.log == s.log + [Restarted]
  {
    AgreeingCacheIsUnique(s.files, loaded, files);
  }

  /** An undisturbed wrap uses the cached key, if there is one, and an unwrap opens what that key wrapped. */
  lemma WrapAloneIsWrap(s: State, t: Thread, id: KeyId, blob: Key, dek: Str)
    requires s.lock.None? && t !in s.threads
    ensures Step(Step(s, Wrap(t, id)), Fetch(t)) ==
            if id in s.cache then s.(log := s.log + [Fetched(id, s.cache[id])]) else s
    ensures Step(s, Unwrap(id, blob)) ==
            s.(log := s.log + [Tried(id, blob, id in s.cache && UnwrapWithKey(s.cache[id], Blob(blob, dek)).Ok?)])
  {
    assert s.threads[t := Fetching(id)] - {t} == s.threads;
  }

  lemma WriteAgrees(keys: map<KeyId, Key>, files: Files, id: KeyId, key: Key)
    requires Agree(keys, files)
    ensures Agree(keys[id := key], files[KeyName(id) := Good(key)])
    ensures Agree(keys - {id}, files - {KeyName(id)})
  {
    hide KeyName;
    forall other
      ensures KeyName(other) == KeyName(id) <==> other == id
    {
      KeyNamesDiffer(other, id);
    }
  }

  lemma ShredAloneIsShred(s: State, t: Thread, id: KeyId, files: Files, removes: bool)
    requires s.lock.None? && t !in s.threads && Agree(s.files, files)
    requires KeyName(id) in files ==> files[KeyName(id)].Good?
    ensures var s' := ShredAlone(s, t, id, removes);
            var after := ShredOutcome(s.cache, files, id, removes);
            && s'.cache == after.cache && Agree(s'.files, after.files)
            && s'.lock.None? && s'.threads == s.threads
            && s'.log == s.log + match after.answer
                                 case Ok(_) => [Shredded(id)]
                                 case Err(_) => if ValidKeyId(id) then [ShredFailed(id)] else []
  {
    hide KeyName, ValidKeyId;
    AloneShredded(s, t, id, removes);
    WriteAgrees(s.files, files, id, 0);
    assert KeyName(id) !in files ==> files - {KeyName(id)} == files;
  }

  lemma AloneShredded(s: State, t: Thread, id: KeyId, removes: bool)
    requires s.lock.None? && t !in s.threads
    ensures ShredAlone(s, t, id, removes) ==
            if !ValidKeyId(id) then s
            else if id in s.files && !removes then Log(s.(cache := s.cache - {id}), ShredFailed(id))
            else Log(s.(cache := s.cache - {id}, files := s.files - {id}), Shredded(id))
  {
    hide ValidKeyId;
    assert s.threads - {t} == s.threads;
    assert s.threads[t := Shredding(id)][t := Unfiling(id)] - {t} == s.threads;
  }

  /** A key is lost unshredded: it is created, its removal fails, and the next `ensure` mints over it. */
  lemma FailedRemovalLosesKey(t: Thread)
    ensures var id := Ascii("a");
            var s1 := EnsureAlone(Start(), t, id, true);
            var s2 := ShredAlone(s1, t, id, false);
            var s3 := EnsureAlone(s2, t, id, true);
            && s1.files == s2.files == map[id := 0] && s3.files == map[id := 1]
            && forall e :: e in s3.log ==> !e.Shredded?
  {
    var id := Ascii("a");
    var s1 := EnsureAlone(Start(), t, id, true);
    var s2 := ShredAlone(s1, t, id, false);
    assert id == [97] && ValidKeyId(id);
    hide EnsureAlone, ShredAlone, ValidKeyId;
    AloneEnsured(Start(), t, id, true);
    AloneShredded(s1, t, id, false);
    AloneEnsured(s2, t, id, true);
    assert map[id := 0][id := 1] == map[id := 1];
  }
}
