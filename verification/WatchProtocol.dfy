/** The whole directory-watch pipeline (`src/fs/watcher.rs`) as a step system:
    any number of callback, interface and consumer threads, one worker, two
    bounded queues, an overflow flag and a version counter. Every access to
    something shared is a step of its own; a thread that has made its update and
    still owes a wake-up is counted until it has tried to send it. */
module WatchProtocol {
  import opened Prelude
  import opened FileTrees
  import opened ChangeBatches
  import opened WatchWorker

  const WATCH_SIGNAL_CAPACITY: nat := 32
  const WATCH_OUTPUT_CAPACITY: nat := 2

  /** A change together with the identities of the notices it stands for. */
  datatype Parcel = Parcel(change: Change, ids: set<nat>)

  /** The accepted notice `id` reported `path` while `directory` was watched, and
      the consumer has not been told yet. */
  datatype Obligation = Obligation(id: nat, directory: Path, path: Path)

  datatype Phase =
    | Waiting
    | Handling(signal: Option<Signal>)
    | Syncing(signal: Option<Signal>, version: nat)
    | Absorbing(signal: Option<Signal>)
    | Publishing

  datatype State = State(
    // shared
    desired: set<Path>, desiredVersion: nat,
    signals: seq<Signal>, output: seq<Parcel>,
    overflow: bool, overflowIds: set<nat>,
    // notices in the hands of callback threads: accepted, and refused by the queue
    arriving: set<Notice>, refused: set<nat>,
    // threads between two of their steps
    interfaceUpdating: nat, interfaceWaking: nat, callbackWaking: nat, consumerWaking: nat,
    // the worker
    phase: Phase, watched: set<Path>, synced: set<Path>, appliedVersion: nat,
    batch: Option<Batch>, batchIds: set<nat>, pending: Option<Change>, pendingIds: set<nat>,
    // bookkeeping of the claims
    nextId: nat, owed: set<Obligation>)

  datatype Action =
    | Choose(directories: set<Path>) | Bump | WakeFromInterface
    | Accept(kind: NoticeKind, paths: seq<Path>) | Offer(notice: Notice) | StoreOverflow(id: nat) | WakeFromCallback
    | Receive | WakeFromConsumer
    | Pop | TimeOut | LoadVersion | Sync(watched: set<Path>)
    | Absorb(now: nat, later: nat, emitted: Change) | Publish

  ghost predicate Initial(s: State) {
    && s.desired == {} && s.desiredVersion == 0 && s.signals == [] && s.output == []
    && !s.overflow && s.overflowIds == {} && s.arriving == {} && s.refused == {}
    && s.interfaceUpdating == s.interfaceWaking == s.callbackWaking == s.consumerWaking == 0
    && s.phase.Waiting? && s.watched == {} && s.synced == {} && s.appliedVersion == 0
    && s.batch.None? && s.batchIds == {} && s.pending.None? && s.pendingIds == {}
    && s.owed == {}
  }

  function TrySend(signals: seq<Signal>, signal: Signal): seq<Signal> {
    if |signals| < WATCH_SIGNAL_CAPACITY then signals + [signal] else signals
  }

  /** What a notice owes the consumer at the moment it is accepted. */
  function Owed(notice: Notice, watched: set<Path>): set<Obligation> {
    (set d, p | d in watched && p in notice.paths && Touches(p, d) :: Obligation(notice.id, d, p))
    + (if notice.kind.Changed? then {} else set d | d in watched :: Obligation(notice.id, d, d))
  }

  predicate NamedBy(parcel: Parcel, o: Obligation) {
    && o.id in parcel.ids
    && o.directory in parcel.change.directories
    && (o.directory in parcel.change.paths || o.path in parcel.change.paths)
  }

  ghost predicate Enabled(s: State, action: Action) {
    match action
    case Choose(_) => true
    case Bump => s.interfaceUpdating > 0
    case WakeFromInterface => s.interfaceWaking > 0
    case Accept(_, _) => true
    case Offer(notice) => notice in s.arriving
    case StoreOverflow(id) => id in s.refused
    case WakeFromCallback => s.callbackWaking > 0
    case Receive => s.output != []
    case WakeFromConsumer => s.consumerWaking > 0
    case Pop => s.phase.Waiting? && s.signals != []
    case TimeOut => s.phase.Waiting? && s.batch.Some?
    case LoadVersion => s.phase.Handling?
    case Sync(watched) => s.phase.Syncing? && s.watched * s.desired <= watched <= s.desired
    case Absorb(now, later, emitted) =>
      && s.phase.Absorbing?
      && var batch := Absorbed(s.batch, s.watched, s.overflow, s.phase.signal, now);
         Due(batch, later) ==> IsEmission(s.pending, batch.value, emitted)
    case Publish => s.phase.Publishing?
  }

  function SignalIds(signal: Option<Signal>): set<nat> {
    if signal.Some? && signal.value.Event? then {signal.value.notice.id} else {}
  }

  function AfterAbsorb(s: State, now: nat, later: nat, emitted: Change): State
    requires s.phase.Absorbing?
  {
    var batch := Absorbed(s.batch, s.watched, s.overflow, s.phase.signal, now);
    var ids := s.batchIds + s.overflowIds + SignalIds(s.phase.signal);
    var common := s.(overflow := false, overflowIds := {}, phase := Publishing);
    if Due(batch, later) then
      common.(batch := None, batchIds := {}, pending := Some(emitted), pendingIds := s.pendingIds + ids)
    else
      common.(batch := batch, batchIds := if batch.None? then {} else ids)
  }

  function AfterPublish(s: State): State {
    if s.pending.None? || s.pending.value.directories == [] then
      s.(phase := Waiting, pending := None, pendingIds := {})
    else if |s.output| < WATCH_OUTPUT_CAPACITY then
      s.(phase := Waiting, pending := None, pendingIds := {},
         output := s.output + [Parcel(s.pending.value, s.pendingIds)])
    else
      s.(phase := Waiting)
  }

  function AfterSync(s: State, watched: set<Path>): State
    requires s.phase.Syncing?
  {
    s.(phase := Absorbing(s.phase.signal), appliedVersion := s.phase.version,
       watched := watched, synced := s.desired,
       batch := if s.batch.None? then None else Some(Retained(s.batch.value, watched)),
       pending := if s.pending.None? then None else Some(RetainedChange(s.pending.value, watched)),
       owed := set o | o in s.owed && o.directory in watched)
  }

  /** An event with more paths than a batch may hold is refused before it is
      sent; any other one only when the queue is full. */
  function AfterOffer(s: State, notice: Notice): State {
    if (!notice.kind.Broken? && |notice.paths| > MAX_CHANGE_PATHS) || |s.signals| >= WATCH_SIGNAL_CAPACITY then
      s.(arriving := s.arriving - {notice}, refused := s.refused + {notice.id})
    else
      s.(arriving := s.arriving - {notice}, signals := s.signals + [Event(notice)])
  }

  ghost function Next(s: State, action: Action): State
    requires Enabled(s, action)
  {
    match action
    case Choose(directories) =>
      if s.desired == directories then s
      else s.(desired := directories, interfaceUpdating := s.interfaceUpdating + 1)
    case Bump =>
      s.(interfaceUpdating := s.interfaceUpdating - 1, desiredVersion := s.desiredVersion + 1,
         interfaceWaking := s.interfaceWaking + 1)
    case WakeFromInterface =>
      s.(interfaceWaking := s.interfaceWaking - 1, signals := TrySend(s.signals, Reconfigure))
    case Accept(kind, paths) =>
      var notice := Notice(s.nextId, kind, paths);
      s.(nextId := s.nextId + 1, arriving := s.arriving + {notice}, owed := s.owed + Owed(notice, s.watched))
    case Offer(notice) => AfterOffer(s, notice)
    case StoreOverflow(id) =>
      s.(refused := s.refused - {id}, overflow := true, overflowIds := s.overflowIds + {id},
         callbackWaking := s.callbackWaking + 1)
    case WakeFromCallback =>
      s.(callbackWaking := s.callbackWaking - 1, signals := TrySend(s.signals, OutputReady))
    case Receive =>
      s.(output := s.output[1..], consumerWaking := s.consumerWaking + 1,
         owed := set o | o in s.owed && !NamedBy(s.output[0], o))
    case WakeFromConsumer =>
      s.(consumerWaking := s.consumerWaking - 1, signals := TrySend(s.signals, OutputReady))
    case Pop => s.(signals := s.signals[1..], phase := Handling(Some(s.signals[0])))
    case TimeOut => s.(phase := Handling(None))
    case LoadVersion =>
      s.(phase := if s.appliedVersion == s.desiredVersion then Absorbing(s.phase.signal)
                  else Syncing(s.phase.signal, s.desiredVersion))
    case Sync(watched) => AfterSync(s, watched)
    case Absorb(now, later, emitted) => AfterAbsorb(s, now, later, emitted)
    case Publish => AfterPublish(s)
  }

  // ----- Where an undelivered notice is -----

  ghost predicate EventNames(signal: Signal, o: Obligation) {
    signal.Event? && signal.notice.id == o.id && NoticeNames(signal.notice, o.path)
  }

  ghost predicate InHand(s: State, o: Obligation) {
    && (s.phase.Handling? || s.phase.Syncing? || s.phase.Absorbing?)
    && s.phase.signal.Some? && EventNames(s.phase.signal.value, o)
  }

  ghost predicate Arriving(s: State, o: Obligation) {
    exists n :: n in s.arriving && n.id == o.id && NoticeNames(n, o.path)
  }

  ghost predicate Queued(s: State, o: Obligation) {
    exists i :: 0 <= i < |s.signals| && EventNames(s.signals[i], o)
  }

  ghost predicate Flagged(s: State, o: Obligation) {
    o.id in s.refused || (s.overflow && o.id in s.overflowIds)
  }

  ghost predicate Batched(s: State, o: Obligation) {
    o.id in s.batchIds && OptionNames(s.batch, o.directory, o.path)
  }

  ghost predicate HeldBack(s: State, o: Obligation) {
    s.pending.Some? && NamedBy(Parcel(s.pending.value, s.pendingIds), o)
  }

  ghost predicate Published(s: State, o: Obligation) {
    exists i :: 0 <= i < |s.output| && NamedBy(s.output[i], o)
  }

  ghost predicate Held(s: State, o: Obligation) {
    Arriving(s, o) || Flagged(s, o) || Queued(s, o) || InHand(s, o) || Batched(s, o) || HeldBack(s, o)
      || Published(s, o)
  }

  ghost predicate NothingLost(s: State) {
    forall o :: o in s.owed ==> o.directory in s.watched && Touches(o.path, o.directory) && Held(s, o)
  }

  // ----- Why the worker cannot sleep through work -----

  ghost predicate OverflowWillBeSeen(s: State) {
    s.overflow ==>
      s.signals != [] || s.callbackWaking > 0 || s.phase.Handling? || s.phase.Syncing? || s.phase.Absorbing?
  }

  ghost predicate VersionWillBeSeen(s: State) {
    && s.appliedVersion <= s.desiredVersion
    && (s.phase.Syncing? ==> s.appliedVersion < s.phase.version <= s.desiredVersion)
    && (s.appliedVersion != s.desiredVersion ==>
          || s.signals != [] || s.interfaceWaking > 0 || s.phase.Handling?
          || (s.phase.Syncing? && s.phase.version == s.desiredVersion))
    && (s.synced != s.desired ==> s.interfaceUpdating > 0 || s.appliedVersion != s.desiredVersion)
    && s.watched <= s.synced
  }

  ghost predicate OutputWillBeRetried(s: State) {
    s.pending.Some? && |s.output| < WATCH_OUTPUT_CAPACITY ==>
      s.signals != [] || s.consumerWaking > 0 || !s.phase.Waiting?
  }

  ghost predicate Inv(s: State) {
    && |s.signals| <= WATCH_SIGNAL_CAPACITY && |s.output| <= WATCH_OUTPUT_CAPACITY
    && ValidOption(s.batch)
    && OverflowWillBeSeen(s) && VersionWillBeSeen(s) && OutputWillBeRetried(s)
    && NothingLost(s)
  }

  lemma WakeKeepsHeld(s: State, s': State, signal: Signal, o: Obligation)
    requires s' == s.(signals := TrySend(s.signals, signal), interfaceWaking := s'.interfaceWaking,
                      callbackWaking := s'.callbackWaking, consumerWaking := s'.consumerWaking)
    requires Held(s, o)
    ensures Held(s', o)
  {
    if Queued(s, o) {
      var i :| 0 <= i < |s.signals| && EventNames(s.signals[i], o);
      assert s'.signals[i] == s.signals[i];
    }
  }

  lemma OfferKeepsHeld(s: State, notice: Notice, o: Obligation)
    requires notice in s.arriving && Held(s, o)
    ensures Held(AfterOffer(s, notice), o)
  {
    var s' := AfterOffer(s, notice);
    if Arriving(s, o) {
      var n :| n in s.arriving && n.id == o.id && NoticeNames(n, o.path);
      if n != notice {
        assert n in s'.arriving;
      } else if s'.signals != s.signals {
        assert EventNames(s'.signals[|s.signals|], o);
      }
    } else if Queued(s, o) {
      var i :| 0 <= i < |s.signals| && EventNames(s.signals[i], o);
      assert s'.signals[i] == s.signals[i];
    }
  }

  lemma PopKeepsHeld(s: State, o: Obligation)
    requires Enabled(s, Pop) && Held(s, o)
    ensures Held(Next(s, Pop), o)
  {
    var s' := Next(s, Pop);
    if Queued(s, o) {
      var i :| 0 <= i < |s.signals| && EventNames(s.signals[i], o);
      if i > 0 {
        assert s'.signals[i - 1] == s.signals[i];
      }
    }
  }

  lemma ReceiveKeepsHeld(s: State, o: Obligation)
    requires Enabled(s, Receive) && Held(s, o) && !NamedBy(s.output[0], o)
    ensures Held(Next(s, Receive), o)
  {
    var s' := Next(s, Receive);
    if Published(s, o) {
      var i :| 0 <= i < |s.output| && NamedBy(s.output[i], o);
      assert s'.output[i - 1] == s.output[i];
    }
  }

  lemma SyncKeepsHeld(s: State, watched: set<Path>, o: Obligation)
    requires Enabled(s, Sync(watched)) && ValidOption(s.batch)
    requires Held(s, o) && o.directory in watched && Touches(o.path, o.directory)
    ensures Held(AfterSync(s, watched), o)
    ensures ValidOption(AfterSync(s, watched).batch)
  {
    if s.batch.Some? {
      RetainKeepsNames(s.batch.value, watched);
    }
    if HeldBack(s, o) {
      RetainedChangeKeepsNames(s.pending.value, watched);
      assert ChangeNames(s.pending.value, o.directory, o.path);
    }
  }

  lemma AbsorbKeepsHeld(s: State, now: nat, later: nat, emitted: Change, o: Obligation)
    requires Enabled(s, Absorb(now, later, emitted)) && ValidOption(s.batch)
    requires Held(s, o) && o.directory in s.watched && Touches(o.path, o.directory)
    ensures Held(AfterAbsorb(s, now, later, emitted), o)
  {
    hide Absorbed, IsEmission, BatchNames, EventNames, Arriving, Queued, Published, NoticeNames;
    var batch := Absorbed(s.batch, s.watched, s.overflow, s.phase.signal, now);
    if (s.overflow && o.id in s.overflowIds) || InHand(s, o) || Batched(s, o) {
      IsTakenIn(s, now, o);
    }
    if Due(batch, later) {
      EmissionKeepsNames(s.pending, batch.value, emitted);
      if HeldBack(s, o) {
        assert ChangeNames(s.pending.value, o.directory, o.path);
      }
    }
    SameElsewhere(s, AfterAbsorb(s, now, later, emitted), o);
  }

  lemma SameElsewhere(s: State, s': State, o: Obligation)
    requires s'.arriving == s.arriving && s'.signals == s.signals && s'.output == s.output
    ensures Arriving(s, o) ==> Arriving(s', o)
    ensures Queued(s, o) ==> Queued(s', o)
    ensures Published(s, o) ==> Published(s', o)
  {
  }

  /** What the flag, the hand or the batch held is in the batch afterwards. */
  lemma IsTakenIn(s: State, now: nat, o: Obligation)
    requires s.phase.Absorbing? && ValidOption(s.batch)
    requires (s.overflow && o.id in s.overflowIds) || InHand(s, o) || Batched(s, o)
    requires o.directory in s.watched && Touches(o.path, o.directory)
    ensures OptionNames(Absorbed(s.batch, s.watched, s.overflow, s.phase.signal, now), o.directory, o.path)
    ensures o.id in s.batchIds + s.overflowIds + SignalIds(s.phase.signal)
  {
    hide Absorbed, BatchNames, NoticeNames, Touches;
    AbsorbKeepsNames(s.batch, s.watched, s.overflow, s.phase.signal, now);
  }

  lemma PublishKeepsHeld(s: State, o: Obligation)
    requires Enabled(s, Publish) && Held(s, o)
    ensures Held(AfterPublish(s), o)
  {
    var s' := AfterPublish(s);
    if Published(s, o) {
      var i :| 0 <= i < |s.output| && NamedBy(s.output[i], o);
      assert s'.output[i] == s.output[i];
    } else if HeldBack(s, o) && s'.pending.None? {
      assert NamedBy(s'.output[|s.output|], o);
    }
  }

  lemma AcceptedIsHeld(s: State, kind: NoticeKind, paths: seq<Path>, o: Obligation)
    requires o in Next(s, Accept(kind, paths)).owed
    requires o in s.owed ==> Held(s, o) && o.directory in s.watched && Touches(o.path, o.directory)
    ensures Held(Next(s, Accept(kind, paths)), o) && o.directory in s.watched && Touches(o.path, o.directory)
  {
    var s' := Next(s, Accept(kind, paths));
    var notice := Notice(s.nextId, kind, paths);
    assert notice in s'.arriving;
    if o in s.owed && Arriving(s, o) {
      var n :| n in s.arriving && n.id == o.id && NoticeNames(n, o.path);
      assert n in s'.arriving;
    }
  }

  /** No step of any thread drops an undelivered notice. */
  lemma StepLosesNothing(s: State, action: Action)
    requires Inv(s) && Enabled(s, action)
    ensures NothingLost(Next(s, action))
  {
    var s' := Next(s, action);
    forall o | o in s'.owed
      ensures o.directory in s'.watched && Touches(o.path, o.directory) && Held(s', o)
    {
      match action
      case WakeFromInterface => WakeKeepsHeld(s, s', Reconfigure, o);
      case WakeFromCallback => WakeKeepsHeld(s, s', OutputReady, o);
      case WakeFromConsumer => WakeKeepsHeld(s, s', OutputReady, o);
      case Accept(kind, paths) => AcceptedIsHeld(s, kind, paths, o);
      case Offer(notice) => OfferKeepsHeld(s, notice, o);
      case Receive => ReceiveKeepsHeld(s, o);
      case Pop => PopKeepsHeld(s, o);
      case Sync(watched) => SyncKeepsHeld(s, watched, o);
      case Absorb(now, later, emitted) => AbsorbKeepsHeld(s, now, later, emitted, o);
      case Publish => PublishKeepsHeld(s, o);
      case _ =>
    }
  }

  lemma StepKeepsWakeUps(s: State, action: Action)
    requires Inv(s) && Enabled(s, action)
    ensures var s' := Next(s, action);
            && |s'.signals| <= WATCH_SIGNAL_CAPACITY && |s'.output| <= WATCH_OUTPUT_CAPACITY
            && OverflowWillBeSeen(s') && VersionWillBeSeen(s') && OutputWillBeRetried(s')
  {
    hide Enabled, Next, OverflowWillBeSeen, VersionWillBeSeen, OutputWillBeRetried, NothingLost, ValidOption;
    StepKeepsOverflow(s, action);
    StepKeepsVersion(s, action);
    StepKeepsOutput(s, action);
  }

  lemma StepKeepsOverflow(s: State, action: Action)
    requires Enabled(s, action) && OverflowWillBeSeen(s)
    ensures OverflowWillBeSeen(Next(s, action))
  {
    hide Absorbed, Due, IsEmission, Owed, NamedBy, Retained, RetainedChange;
  }

  lemma StepKeepsVersion(s: State, action: Action)
    requires Enabled(s, action) && VersionWillBeSeen(s)
    ensures VersionWillBeSeen(Next(s, action))
  {
    hide Absorbed, Due, IsEmission, Owed, NamedBy, Retained, RetainedChange;
  }

  lemma StepKeepsOutput(s: State, action: Action)
    requires Enabled(s, action) && OutputWillBeRetried(s)
    requires |s.signals| <= WATCH_SIGNAL_CAPACITY && |s.output| <= WATCH_OUTPUT_CAPACITY
    ensures |Next(s, action).signals| <= WATCH_SIGNAL_CAPACITY && |Next(s, action).output| <= WATCH_OUTPUT_CAPACITY
    ensures OutputWillBeRetried(Next(s, action))
  {
    hide Absorbed, Due, IsEmission, Owed, NamedBy, Retained, RetainedChange;
  }

  lemma StepKeepsInv(s: State, action: Action)
    requires Inv(s) && Enabled(s, action)
    ensures Inv(Next(s, action))
  {
    StepLosesNothing(s, action);
    StepKeepsWakeUps(s, action);
    if action.Absorb? {
      AbsorbKeepsNames(s.batch, s.watched, s.overflow, s.phase.signal, action.now);
    } else if action.Sync? && s.batch.Some? {
      RetainKeepsNames(s.batch.value, action.watched);
    }
  }

  // ----- Runs -----

  ghost predicate IsRun(states: seq<State>, actions: seq<Action>) {
    && |states| == |actions| + 1 && Initial(states[0])
    && forall k :: 0 <= k < |actions| ==> Enabled(states[k], actions[k]) && states[k + 1] == Next(states[k], actions[k])
  }

  lemma {:induction false} RunsKeepInv(states: seq<State>, actions: seq<Action>, k: nat)
    requires IsRun(states, actions) && k < |states|
    ensures Inv(states[k])
  {
    if k > 0 {
      RunsKeepInv(states, actions, k - 1);
      StepKeepsInv(states[k - 1], actions[k - 1]);
    }
  }

  /** In step `k` the consumer was told about the obligation. */
  ghost predicate ToldAt(states: seq<State>, actions: seq<Action>, k: nat, o: Obligation) {
    && k < |actions| && k < |states| && actions[k].Receive? && states[k].output != []
    && NamedBy(states[k].output[0], o)
  }

  /** No lost invalidation: whatever is owed at one point of a run is, at every
      later point, still held somewhere, unless the consumer received a change
      that names it in between or its directory stopped being watched. */
  lemma {:induction false} NoLostInvalidation(states: seq<State>, actions: seq<Action>, i: nat, j: nat, o: Obligation)
    requires IsRun(states, actions) && i <= j < |states| && o in states[i].owed
    ensures || (o in states[j].owed && Held(states[j], o))
            || (exists k :: i <= k < j && ToldAt(states, actions, k, o))
            || (exists k :: i < k <= j && o.directory !in states[k].watched)
    decreases j
  {
    hide Inv, Held, Next, Enabled, Initial;
    RunsKeepInv(states, actions, j);
    if o in states[j].owed {
      OwedIsHeld(states[j], o);
    }
    if i < j {
      NoLostInvalidation(states, actions, i, j - 1, o);
      if o in states[j - 1].owed && o !in states[j].owed {
        RunStep(states, actions, j - 1);
        OwedUntilTold(states[j - 1], actions[j - 1], o);
        assert actions[j - 1].Receive? ==> ToldAt(states, actions, j - 1, o);
      }
    }
  }

  /** Accepting an event owes each of its paths to the watched directory itself or
      to the watched directory that holds it, and owes nothing else. */
  lemma AcceptedIsOwed(s: State, kind: NoticeKind, paths: seq<Path>)
    ensures forall d, name ::
              d in s.watched && d + [name] in paths ==>
                Obligation(s.nextId, d, d + [name]) in Next(s, Accept(kind, paths)).owed
    ensures forall d :: d in s.watched && d in paths ==>
              Obligation(s.nextId, d, d) in Next(s, Accept(kind, paths)).owed
    ensures kind != Changed ==>
              forall d :: d in s.watched ==> Obligation(s.nextId, d, d) in Next(s, Accept(kind, paths)).owed
    ensures s.owed <= Next(s, Accept(kind, paths)).owed
    ensures forall o :: o in Next(s, Accept(kind, paths)).owed && o !in s.owed ==>
              && o.id == s.nextId && o.directory in s.watched
              && ((o.path in paths && (o.path == o.directory || exists name :: o.path == o.directory + [name]))
                  || (kind != Changed && o.path == o.directory))
  {
    forall d, name | d in s.watched && d + [name] in paths
      ensures Obligation(s.nextId, d, d + [name]) in Next(s, Accept(kind, paths)).owed
    {
      TouchesMeans(d + [name], d);
    }
    forall o | o in Next(s, Accept(kind, paths)).owed && o !in s.owed && o.path in paths && Touches(o.path, o.directory)
      ensures o.path == o.directory || exists name :: o.path == o.directory + [name]
    {
      TouchesMeans(o.path, o.directory);
    }
  }

  /** What the consumer was told: a change that names the directory and, in it, the
      path or everything. */
  ghost predicate Delivered(states: seq<State>, actions: seq<Action>, k: nat, id: nat, directory: Path, path: Path)
    requires |states| == |actions| + 1 && k < |actions|
  {
    && actions[k].Receive? && states[k].output != []
    && id in states[k].output[0].ids && directory in states[k].output[0].change.directories
    && (directory in states[k].output[0].change.paths || path in states[k].output[0].change.paths)
  }

  /** End to end: an event on a watched directory, or on an entry in it, has reached
      the consumer by the time everything is quiet, unless the directory stopped
      being watched; so has an event that says less than what changed. */
  lemma EventIsDelivered(
    states: seq<State>, actions: seq<Action>, i: nat, k: nat, kind: NoticeKind, paths: seq<Path>, directory: Path,
    path: Path)
    requires IsRun(states, actions) && i < k < |states| && actions[i] == Accept(kind, paths)
    requires directory in states[i].watched
    requires || (path in paths && (path == directory || (path != [] && path[..|path| - 1] == directory)))
             || (kind != Changed && path == directory)
    requires Blocked(states[k]) && NobodyOwesAWakeUp(states[k])
    requires states[k].arriving == {} && states[k].refused == {} && states[k].output == []
    ensures || (exists j :: i < j < k && Delivered(states, actions, j, states[i].nextId, directory, path))
            || (exists j :: i < j <= k && directory !in states[j].watched)
  {
    hide Inv, Held, Enabled, Initial, Next, Blocked, NobodyOwesAWakeUp;
    var o := Obligation(states[i].nextId, directory, path);
    RunStep(states, actions, i);
    AcceptedIsOwed(states[i], kind, paths);
    if path != directory {
      assert path == directory + [path[|path| - 1]];
    }
    NoLostInvalidation(states, actions, i + 1, k, o);
    QuietMeansDelivered(states, actions, k);
    if j :| i + 1 <= j < k && ToldAt(states, actions, j, o) {
      assert Delivered(states, actions, j, o.id, directory, path);
    }
  }

  lemma RunStep(states: seq<State>, actions: seq<Action>, k: nat)
    requires IsRun(states, actions) && k < |actions|
    ensures Enabled(states[k], actions[k]) && states[k + 1] == Next(states[k], actions[k])
  {
    hide Next, Enabled, Initial;
  }

  lemma OwedIsHeld(s: State, o: Obligation)
    requires Inv(s) && o in s.owed
    ensures Held(s, o)
  {
    hide Held;
  }

  lemma OwedUntilTold(s: State, action: Action, o: Obligation)
    requires Enabled(s, action) && o in s.owed && o !in Next(s, action).owed
    ensures || (action.Receive? && s.output != [] && NamedBy(s.output[0], o))
            || (action.Sync? && o.directory !in Next(s, action).watched)
  {
    hide Absorbed, IsEmission, Owed;
  }

  /** The worker is in the untimed `recv` on an empty queue. */
  ghost predicate Blocked(s: State) {
    s.phase.Waiting? && s.batch.None? && s.signals == []
  }

  ghost predicate NobodyOwesAWakeUp(s: State) {
    s.interfaceWaking == s.callbackWaking == s.consumerWaking == 0
  }

  /** No lost wake-up, although every single wake-up may be dropped by a full
      queue: a blocked worker has nothing left to do. */
  lemma NoLostWakeUp(states: seq<State>, actions: seq<Action>, k: nat)
    requires IsRun(states, actions) && k < |states|
    requires Blocked(states[k]) && NobodyOwesAWakeUp(states[k])
    ensures !states[k].overflow
    ensures states[k].appliedVersion == states[k].desiredVersion
    ensures states[k].interfaceUpdating == 0 ==> states[k].synced == states[k].desired
    ensures states[k].pending.Some? ==> |states[k].output| == WATCH_OUTPUT_CAPACITY
  {
    RunsKeepInv(states, actions, k);
  }

  /** Together: once every thread is idle and the consumer has read everything,
      every accepted notice on a directory that stayed watched was delivered. */
  lemma QuietMeansDelivered(states: seq<State>, actions: seq<Action>, k: nat)
    requires IsRun(states, actions) && k < |states|
    requires Blocked(states[k]) && NobodyOwesAWakeUp(states[k])
    requires states[k].arriving == {} && states[k].refused == {} && states[k].output == []
    ensures states[k].owed == {}
  {
    RunsKeepInv(states, actions, k);
    var s := states[k];
    assert s.pending.None?;
    assert forall o :: o in s.owed ==> !Held(s, o);
  }

  // ----- The worker's object takes the worker's steps -----

  ghost predicate Represents(worker: DirectoryWorker, s: State)
    reads worker, worker.batch
  {
    && worker.watched == s.watched && worker.appliedVersion == s.appliedVersion
    && worker.BatchValue() == s.batch && worker.pendingOutput == s.pending
  }

  /** Loading the version and, when it is new, applying it. */
  method StepVersion(
    worker: DirectoryWorker, version: nat, desired: set<Path>, refused: set<Path>, ghost s: State)
    returns (ghost actions: seq<Action>, ghost s': State)
    requires Represents(worker, s) && s.phase.Handling? && version == s.desiredVersion && desired == s.desired
    modifies worker.Repr()
    ensures worker.batch == old(worker.batch)
    ensures TakesSteps(s, actions, s') && Represents(worker, s') && s'.phase == Absorbing(s.phase.signal)
    ensures s'.overflow == s.overflow && s'.output == s.output
    ensures actions == if s.appliedVersion == version then [LoadVersion] else [LoadVersion, Sync(worker.watched)]
    ensures s.appliedVersion != version ==>
              forall p :: p in worker.watched <==> p in desired && (p in old(worker.watched) || p !in refused)
  {
    hide Retained, RetainedChange, Next, Enabled, TakesSteps, AfterSync;
    VersionLoaded(s);
    s' := Next(s, LoadVersion);
    actions := [LoadVersion];
    OneStep(s, LoadVersion);
    if worker.appliedVersion != version {
      worker.ApplyVersion(version, desired, refused);
      ghost var loaded := s';
      VersionApplied(loaded, worker.watched);
      s' := Next(loaded, Sync(worker.watched));
      OneMoreStep(s, actions, loaded, Sync(worker.watched));
      actions := actions + [Sync(worker.watched)];
    }
  }

  lemma VersionLoaded(s: State)
    requires s.phase.Handling?
    ensures Enabled(s, LoadVersion)
    ensures Next(s, LoadVersion) ==
              s.(phase := if s.appliedVersion == s.desiredVersion then Absorbing(s.phase.signal)
                          else Syncing(s.phase.signal, s.desiredVersion))
  {
  }

  lemma VersionApplied(s: State, watched: set<Path>)
    requires s.phase.Syncing? && s.watched * s.desired <= watched <= s.desired
    ensures Enabled(s, Sync(watched))
    ensures var s' := Next(s, Sync(watched));
            && s'.phase == Absorbing(s.phase.signal) && s'.appliedVersion == s.phase.version && s'.watched == watched
            && s'.batch == (if s.batch.None? then None else Some(Retained(s.batch.value, watched)))
            && s'.pending == (if s.pending.None? then None else Some(RetainedChange(s.pending.value, watched)))
            && s'.overflow == s.overflow && s'.output == s.output
  {
    hide Retained, RetainedChange;
  }

  /** Looking at the flag and at the signal, and emitting a batch that is due. */
  method StepAbsorb(
    worker: DirectoryWorker, signal: Option<Signal>, overflow: bool, now: nat, later: nat, ghost s: State)
    returns (ghost action: Action, ghost s': State)
    requires Represents(worker, s) && s.phase == Absorbing(signal) && overflow == s.overflow
    modifies worker.Repr()
    ensures fresh(worker.Repr() - old(worker.Repr()))
    ensures action.Absorb? && action.now == now && action.later == later && Enabled(s, action)
    ensures s' == Next(s, action) && Represents(worker, s') && s'.phase.Publishing? && s'.output == s.output
  {
    hide Absorbed, Due, IsEmission;
    worker.Absorb(overflow, signal, now);
    ghost var batch := worker.BatchValue();
    worker.Emit(later);
    DueMeansSome(batch, later);
    action := Absorb(now, later, if Due(batch, later) then worker.pendingOutput.value else Change([], []));
    s' := Next(s, action);
  }

  lemma DueMeansSome(batch: Option<Batch>, now: nat)
    ensures Due(batch, now) ==> batch.Some?
  {
  }

  /** Publishing: `room` is what the bounded output channel has left. */
  method StepPublish(worker: DirectoryWorker, room: bool, ghost s: State)
    returns (sent: Option<Change>, ghost s': State)
    requires Represents(worker, s) && s.phase.Publishing? && room == (|s.output| < WATCH_OUTPUT_CAPACITY)
    modifies worker`pendingOutput
    ensures s' == Next(s, Publish) && Represents(worker, s') && s'.phase.Waiting?
    ensures s'.output == s.output + if sent.Some? then [Parcel(sent.value, s.pendingIds)] else []
  {
    sent := worker.TryPublish(room);
    s' := Next(s, Publish);
  }

  ghost predicate TakesSteps(s: State, actions: seq<Action>, s': State)
    decreases |actions|
  {
    if actions == [] then s' == s
    else
      var front, last := actions[..|actions| - 1], actions[|actions| - 1];
      exists mid :: TakesSteps(s, front, mid) && Enabled(mid, last) && s' == Next(mid, last)
  }

  lemma OneStep(s: State, action: Action)
    requires Enabled(s, action)
    ensures TakesSteps(s, [action], Next(s, action))
  {
    assert TakesSteps(s, [], s);
    OneMoreStep(s, [], s, action);
  }

  lemma OneMoreStep(s: State, actions: seq<Action>, mid: State, action: Action)
    requires TakesSteps(s, actions, mid) && Enabled(mid, action)
    ensures TakesSteps(s, actions + [action], Next(mid, action))
  {
    hide Enabled, Next;
    assert (actions + [action])[..|actions|] == actions;
  }

  /** One turn of the worker's loop, from the signal in hand back to waiting: the
      object goes through exactly the worker's steps of the protocol. */
  method Turn(
    worker: DirectoryWorker, signal: Option<Signal>, version: nat, desired: set<Path>, refused: set<Path>,
    overflow: bool, now: nat, later: nat, room: bool, ghost s: State)
    returns (sent: Option<Change>, ghost ids: set<nat>, ghost actions: seq<Action>, ghost s': State)
    requires Represents(worker, s) && s.phase == Handling(signal)
    requires version == s.desiredVersion && desired == s.desired && overflow == s.overflow
    requires room == (|s.output| < WATCH_OUTPUT_CAPACITY)
    modifies worker.Repr()
    ensures TakesSteps(s, actions, s') && Represents(worker, s') && s'.phase.Waiting?
    ensures |actions| >= 3 && actions[0] == LoadVersion && actions[|actions| - 1] == Publish
    ensures s'.output == s.output + if sent.Some? then [Parcel(sent.value, ids)] else []
  {
    hide Next, Enabled, TakesSteps;
    ghost var applied, absorbed;
    actions, applied := StepVersion(worker, version, desired, refused, s);
    ghost var action;
    action, absorbed := StepAbsorb(worker, signal, overflow, now, later, applied);
    OneMoreStep(s, actions, applied, action);
    actions := actions + [action];
    sent, s' := StepPublish(worker, room, absorbed);
    ids := absorbed.pendingIds;
    PublishIsEnabled(absorbed);
    OneMoreStep(s, actions, absorbed, Publish);
    actions := actions + [Publish];
  }

  lemma PublishIsEnabled(s: State)
    requires s.phase.Publishing?
    ensures Enabled(s, Publish)
  {
  }
}
