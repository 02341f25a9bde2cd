/** Coalescing directory refreshes (`src/iced_ui/directory_refresh.rs`). */
module DirectoryRefreshing {
  import opened Prelude
  import opened FileTrees

  /** A running load; its ticket also names its cancellation token. */
  datatype Load = Load(ticket: nat, startedAt: nat)

  /** `now` counts the operations; `owed` holds, for every path with a change that
      no finished load has covered, when the last change was announced. Neither
      is part of the program's own state. */
  datatype State = State(
    sequence: nat, pending: set<Path>, active: map<Path, Load>, cancelled: set<nat>, now: nat, owed: map<Path, nat>)

  const Initially := State(0, {}, map[], {}, 0, map[])

  // ----- The operations on values -----

  function Queued(s: State, path: Path): State {
    s.(pending := s.pending + {path}, now := s.now + 1, owed := s.owed[path := s.now + 1])
  }

  function Started(s: State, path: Path): State {
    if path in s.active then s.(now := s.now + 1)
    else
      s.(sequence := s.sequence + 1, pending := s.pending - {path},
         active := s.active[path := Load(s.sequence + 1, s.now + 1)], now := s.now + 1)
  }

  predicate Accepts(s: State, path: Path, ticket: nat) {
    path in s.active && s.active[path].ticket == ticket
  }

  /** The change is covered when the load began after it. */
  function Finished(s: State, path: Path, ticket: nat): State {
    if !Accepts(s, path, ticket) then s.(now := s.now + 1)
    else
      s.(active := s.active - {path}, cancelled := s.cancelled + {ticket}, now := s.now + 1,
         owed := if path in s.owed && s.owed[path] < s.active[path].startedAt then s.owed - {path} else s.owed)
  }

  function Cancelled(s: State, path: Path): State {
    s.(pending := s.pending - {path}, active := s.active - {path}, now := s.now + 1, owed := s.owed - {path},
       cancelled := s.cancelled + if path in s.active then {s.active[path].ticket} else {})
  }

  function Retained(s: State, visible: set<Path>): State {
    s.(pending := s.pending * visible, now := s.now + 1,
       active := map p | p in s.active && p in visible :: s.active[p],
       owed := map p | p in s.owed && p in visible :: s.owed[p],
       cancelled := s.cancelled + set p | p in s.active && p !in visible :: s.active[p].ticket)
  }

  datatype Action =
    | Queue(path: Path)
    | Start(path: Path)
    | Finish(path: Path, ticket: nat)
    | Cancel(path: Path)
    | Retain(visible: set<Path>)

  function Next(s: State, action: Action): State {
    match action
    case Queue(path) => Queued(s, path)
    case Start(path) => Started(s, path)
    case Finish(path, ticket) => Finished(s, path, ticket)
    case Cancel(path) => Cancelled(s, path)
    case Retain(visible) => Retained(s, visible)
  }

  // ----- What every run keeps -----

  ghost predicate IsActive(s: State, ticket: nat) {
    exists p :: p in s.active && s.active[p].ticket == ticket
  }

  /** A change waits, or a load that began after it is running. */
  ghost predicate NothingForgotten(s: State) {
    forall p :: p in s.owed ==>
      s.owed[p] <= s.now && (p in s.pending || (p in s.active && s.owed[p] < s.active[p].startedAt))
  }

  /** Exactly the tokens of running loads are uncancelled, one for each path. */
  ghost predicate TokensMatch(s: State) {
    && (forall p :: p in s.active ==> 1 <= s.active[p].ticket <= s.sequence && s.active[p].startedAt <= s.now)
    && (forall p, q :: p in s.active && q in s.active && s.active[p].ticket == s.active[q].ticket ==> p == q)
    && (forall t :: t in s.cancelled ==> 1 <= t <= s.sequence)
    && (forall t :: 1 <= t <= s.sequence ==> (t in s.cancelled <==> !IsActive(s, t)))
  }

  ghost predicate Inv(s: State) {
    NothingForgotten(s) && TokensMatch(s)
  }

  lemma LeavesActive(s: State, s': State, gone: set<Path>)
    requires TokensMatch(s) && s'.sequence == s.sequence && s'.now >= s.now
    requires s'.active == s.active - gone
    requires s'.cancelled == s.cancelled + set p | p in s.active && p in gone :: s.active[p].ticket
    ensures TokensMatch(s')
  {
    forall t: nat | 1 <= t <= s'.sequence ensures t in s'.cancelled <==> !IsActive(s', t) {
      if IsActive(s', t) {
        var p :| p in s'.active && s'.active[p].ticket == t;
        assert p in s.active;
      }
      if t !in s'.cancelled {
        assert IsActive(s, t);
        var p :| p in s.active && s.active[p].ticket == t;
        assert p in s'.active;
      }
    }
  }

  lemma EntersActive(s: State, path: Path)
    requires TokensMatch(s) && path !in s.active
    ensures TokensMatch(Started(s, path))
  {
    var s' := Started(s, path);
    forall t: nat | 1 <= t <= s'.sequence ensures t in s'.cancelled <==> !IsActive(s', t) {
      if t == s'.sequence {
        assert s'.active[path].ticket == t;
      } else {
        if IsActive(s, t) {
          var p :| p in s.active && s.active[p].ticket == t;
          assert p in s'.active && s'.active[p].ticket == t;
        }
        if IsActive(s', t) {
          var p :| p in s'.active && s'.active[p].ticket == t;
          assert p in s.active && s.active[p].ticket == t;
        }
      }
    }
  }

  lemma StepKeepsTokens(s: State, action: Action)
    requires TokensMatch(s)
    ensures TokensMatch(Next(s, action)) && s.cancelled <= Next(s, action).cancelled
  {
    hide TokensMatch;
    var s' := Next(s, action);
    match action
    case Queue(path) =>
      SameTokens(s, s');
    case Start(path) =>
      if path in s.active {
        SameTokens(s, s');
      } else {
        EntersActive(s, path);
      }
    case Finish(path, ticket) =>
      if Accepts(s, path, ticket) {
        LeavesActive(s, s', {path});
      } else {
        SameTokens(s, s');
      }
    case Cancel(path) =>
      LeavesActive(s, s', {path});
    case Retain(visible) =>
      LeavesActive(s, s', s.active.Keys - visible);
  }

  lemma StepForgetsNothing(s: State, action: Action)
    requires NothingForgotten(s) && forall p :: p in s.active ==> s.active[p].startedAt <= s.now
    ensures NothingForgotten(Next(s, action))
  {
  }

  lemma StepKeepsInv(s: State, action: Action)
    requires Inv(s)
    ensures Inv(Next(s, action)) && s.cancelled <= Next(s, action).cancelled
  {
    hide Next, NothingForgotten, IsActive;
    StepKeepsTokens(s, action);
    StepForgetsNothing(s, action);
  }

  lemma SameTokens(s: State, s': State)
    requires TokensMatch(s) && s'.sequence == s.sequence && s'.now >= s.now
    requires s'.active == s.active && s'.cancelled == s.cancelled
    ensures TokensMatch(s')
  {
    assert forall t :: IsActive(s', t) <==> IsActive(s, t);
  }

  function Run(s: State, actions: seq<Action>): State {
    if actions == [] then s else Next(Run(s, actions[..|actions| - 1]), actions[|actions| - 1])
  }

  /** Every reachable state: no change is forgotten, no token dangles. */
  lemma {:induction false} RunsKeepInv(actions: seq<Action>)
    ensures Inv(Run(Initially, actions))
  {
    if actions != [] {
      RunsKeepInv(actions[..|actions| - 1]);
      StepKeepsInv(Run(Initially, actions[..|actions| - 1]), actions[|actions| - 1]);
    }
  }

  /** The last change of `path` in `actions`, if nothing dropped it since. */
  ghost predicate ChangeStands(actions: seq<Action>, path: Path, k: nat) {
    && k < |actions| && actions[k] == Queue(path)
    && forall j :: k < j < |actions| ==>
         actions[j] != Queue(path) && actions[j] != Cancel(path) && (actions[j].Retain? ==> path in actions[j].visible)
  }

  /** A load of `path` that began after step `k` was accepted. */
  ghost predicate Covered(s: State, actions: seq<Action>, path: Path, k: nat) {
    exists i, j :: k < i < j < |actions| && CoveredBy(s, actions, path, i, j)
  }

  ghost predicate CoveredBy(s: State, actions: seq<Action>, path: Path, i: nat, j: nat)
    requires i < j < |actions|
  {
    && actions[i] == Start(path) && path !in Run(s, actions[..i]).active
    && actions[j].Finish? && actions[j].path == path && actions[j].ticket == Run(s, actions[..i]).sequence + 1
    && Accepts(Run(s, actions[..j]), path, actions[j].ticket)
  }

  lemma {:induction false} TimePasses(actions: seq<Action>)
    ensures Run(Initially, actions).now == |actions|
  {
    if actions != [] {
      TimePasses(actions[..|actions| - 1]);
    }
  }

  lemma NothingRun(s: State, actions: seq<Action>)
    ensures Run(s, actions[..0]) == s
  {
  }

  lemma RunStep(s: State, actions: seq<Action>, n: nat)
    requires n < |actions|
    ensures Run(s, actions[..n + 1]) == Next(Run(s, actions[..n]), actions[n])
  {
    assert actions[..n + 1][..n] == actions[..n];
  }

  lemma ActiveStep(s: State, action: Action, path: Path)
    requires path in Next(s, action).active
    ensures path in s.active ==> Next(s, action).active[path] == s.active[path]
    ensures path !in s.active ==>
              action == Start(path) && Next(s, action).active[path] == Load(s.sequence + 1, s.now + 1)
  {
  }

  /** Which step began a load that is still running. */
  lemma {:induction false} ActiveWasStarted(actions: seq<Action>, n: nat, path: Path) returns (i: nat)
    requires n <= |actions| && path in Run(Initially, actions[..n]).active
    ensures i < n && actions[i] == Start(path) && path !in Run(Initially, actions[..i]).active
    ensures Run(Initially, actions[..n]).active[path] == Load(Run(Initially, actions[..i]).sequence + 1, i + 1)
  {
    hide Run, Next;
    if n == 0 {
      NothingRun(Initially, actions);
    }
    RunStep(Initially, actions, n - 1);
    var before := Run(Initially, actions[..n - 1]);
    TimePasses(actions[..n - 1]);
    ActiveStep(before, actions[n - 1], path);
    if path in before.active {
      i := ActiveWasStarted(actions, n - 1, path);
    } else {
      i := n - 1;
    }
  }

  /** No lost refresh, over whole runs: a change that nothing dropped is still
      owed, unless a load begun after it was accepted. */
  lemma {:induction false} ChangeIsOwedUntilCovered(actions: seq<Action>, path: Path, k: nat, n: nat)
    requires k < n <= |actions| && ChangeStands(actions, path, k)
    ensures var s := Run(Initially, actions[..n]);
            (path in s.owed && s.owed[path] == k + 1) || Covered(Initially, actions, path, k)
    decreases n
  {
    hide Run, Next, Covered, CoveredBy;
    RunStep(Initially, actions, n - 1);
    TimePasses(actions[..n - 1]);
    var before, action := Run(Initially, actions[..n - 1]), actions[n - 1];
    if n - 1 == k {
      NextIs(before, path, 0, {});
    } else {
      ChangeIsOwedUntilCovered(actions, path, k, n - 1);
      if path in before.owed && !Covered(Initially, actions, path, k) {
        OwedUnlessAccepted(before, action, path);
        if path !in Next(before, action).owed {
          var i := ActiveWasStarted(actions, n - 1, path);
          CoverFound(actions, path, k, i, n - 1);
        }
      }
    }
  }

  lemma OwedUnlessAccepted(s: State, action: Action, path: Path)
    requires path in s.owed && action != Queue(path) && action != Cancel(path)
    requires action.Retain? ==> path in action.visible
    ensures path in Next(s, action).owed ==> Next(s, action).owed[path] == s.owed[path]
    ensures path !in Next(s, action).owed ==>
              && action.Finish? && action.path == path && Accepts(s, path, action.ticket)
              && s.owed[path] < s.active[path].startedAt
  {
  }

  lemma CoverFound(actions: seq<Action>, path: Path, k: nat, i: nat, j: nat)
    requires k < i < j < |actions| && actions[i] == Start(path) && path !in Run(Initially, actions[..i]).active
    requires actions[j].Finish? && actions[j].path == path
               && Accepts(Run(Initially, actions[..j]), path, actions[j].ticket)
    requires actions[j].ticket == Run(Initially, actions[..i]).sequence + 1
    ensures Covered(Initially, actions, path, k)
  {
    hide Run;
    assert CoveredBy(Initially, actions, path, i, j);
  }

  /** So at any time a standing change is pending, or covered by a running load
      that began after it, or was covered by one that has been accepted. */
  lemma NoLostRefresh(actions: seq<Action>, path: Path, k: nat)
    requires ChangeStands(actions, path, k)
    ensures var s := Run(Initially, actions);
            || path in s.pending
            || (path in s.active && k + 1 < s.active[path].startedAt)
            || Covered(Initially, actions, path, k)
  {
    assert actions[..|actions|] == actions;
    ChangeIsOwedUntilCovered(actions, path, k, |actions|);
    RunsKeepInv(actions);
  }

  lemma CancelledIsRefused(s: State, path: Path, ticket: nat)
    requires Inv(s) && ticket in s.cancelled
    ensures !Accepts(s, path, ticket)
  {
    assert Accepts(s, path, ticket) ==> IsActive(s, ticket);
  }

  /** A ticket whose load was finished, cancelled or dropped is never accepted again. */
  lemma {:induction false} StaleTicketsStayStale(s: State, actions: seq<Action>, path: Path, ticket: nat)
    requires Inv(s) && ticket in s.cancelled
    ensures Inv(Run(s, actions)) && ticket in Run(s, actions).cancelled && !Accepts(Run(s, actions), path, ticket)
  {
    hide Inv, Next, Accepts;
    if actions != [] {
      StaleTicketsStayStale(s, actions[..|actions| - 1], path, ticket);
      StepKeepsInv(Run(s, actions[..|actions| - 1]), actions[|actions| - 1]);
    }
    CancelledIsRefused(Run(s, actions), path, ticket);
  }

  predicate IsReady(s: State, path: Path) {
    path in s.pending && path !in s.active
  }

  lemma {:induction false} SequenceGrows(actions: seq<Action>, i: nat, n: nat)
    requires i <= n <= |actions|
    ensures Run(Initially, actions[..i]).sequence <= Run(Initially, actions[..n]).sequence
    decreases n
  {
    hide Run;
    if i < n {
      RunStep(Initially, actions, n - 1);
      SequenceGrows(actions, i, n - 1);
    }
  }

  lemma LoadBegins(actions: seq<Action>, path: Path, i: nat)
    requires i < |actions| && actions[i] == Start(path) && path !in Run(Initially, actions[..i]).active
    ensures var s, s' := Run(Initially, actions[..i]), Run(Initially, actions[..i + 1]);
            && s'.sequence == s.sequence + 1 && s'.pending == s.pending - {path} && s'.owed == s.owed
            && s'.active == s.active[path := Load(s.sequence + 1, i + 1)]
  {
    hide Run;
    RunStep(Initially, actions, i);
    TimePasses(actions[..i]);
  }

  /** A load that is accepted in the end has been running all the time. */
  lemma {:induction false} StillRunning(actions: seq<Action>, path: Path, i: nat, j: nat, n: nat)
    requires i < n <= j < |actions| && CoveredBy(Initially, actions, path, i, j)
    ensures Accepts(Run(Initially, actions[..n]), path, actions[j].ticket)
    decreases j - n
  {
    hide Run, Next;
    if n < j {
      StillRunning(actions, path, i, j, n + 1);
      RunStep(Initially, actions, n);
      ActiveStep(Run(Initially, actions[..n]), actions[n], path);
      LoadBegins(actions, path, i);
      SequenceGrows(actions, i + 1, n);
    }
  }

  ghost predicate QueuedBetween(actions: seq<Action>, path: Path, i: nat, n: nat) {
    exists m :: i < m < n <= |actions| && actions[m] == Queue(path)
  }

  lemma QueuedBefore(actions: seq<Action>, path: Path, i: nat, n: nat)
    requires i < n < |actions|
    ensures QueuedBetween(actions, path, i, n + 1) <==>
              QueuedBetween(actions, path, i, n) || actions[n] == Queue(path)
  {
    if QueuedBetween(actions, path, i, n) {
      var m :| i < m < n && actions[m] == Queue(path);
      assert actions[m] == Queue(path) && m < n + 1;
    }
  }

  /** What one step does to the path of a load that it leaves running. */
  lemma StepDuringLoad(s: State, action: Action, path: Path)
    requires path in s.active && path in Next(s, action).active
    requires path in s.owed ==> s.owed[path] <= s.now
    ensures var s' := Next(s, action);
            && s'.active[path] == s.active[path]
            && (path in s'.pending <==> path in s.pending || action == Queue(path))
            && (path in s'.owed <==> path in s.owed || action == Queue(path))
            && (path in s'.owed ==> s'.owed[path] == if action == Queue(path) then s.now + 1 else s.owed[path])
  {
  }

  /** While a load runs, a change of its path shows as a pending refresh that is
      not yet ready, and as a change later than the load. */
  lemma {:induction false} DuringLoad(actions: seq<Action>, path: Path, i: nat, j: nat, n: nat)
    requires i < n <= j < |actions| && CoveredBy(Initially, actions, path, i, j)
    ensures var s := Run(Initially, actions[..n]);
            && path in s.active && s.active[path] == Load(actions[j].ticket, i + 1)
            && (path in s.pending <==> QueuedBetween(actions, path, i, n))
            && (path in s.owed && i + 1 <= s.owed[path] <==> QueuedBetween(actions, path, i, n))
    decreases n
  {
    hide Run, Next, QueuedBetween;
    StillRunning(actions, path, i, j, n);
    if n == i + 1 {
      LoadBegins(actions, path, i);
      OwedIsPast(actions, i, path);
      NothingBetween(actions, path, i);
    } else {
      DuringLoad(actions, path, i, j, n - 1);
      RunStep(Initially, actions, n - 1);
      TimePasses(actions[..n - 1]);
      OwedIsPast(actions, n - 1, path);
      QueuedBefore(actions, path, i, n - 1);
      StepDuringLoad(Run(Initially, actions[..n - 1]), actions[n - 1], path);
    }
  }

  lemma NothingBetween(actions: seq<Action>, path: Path, i: nat)
    ensures !QueuedBetween(actions, path, i, i + 1)
  {
  }

  lemma OwedIsPast(actions: seq<Action>, n: nat, path: Path)
    requires n <= |actions|
    ensures var s := Run(Initially, actions[..n]); path in s.owed ==> s.owed[path] <= s.now == n
  {
    hide Run;
    RunsKeepInv(actions[..n]);
    TimePasses(actions[..n]);
  }

  /** However often a path is queued while it is being loaded, and whatever
      happens to other paths meanwhile: no second load can begin, and afterwards
      one refresh is ready exactly when there was such a change. Since this holds
      of the next load as well, that one is enough. */
  lemma OneFollowUp(actions: seq<Action>, path: Path, i: nat, j: nat)
    requires i < j < |actions| && CoveredBy(Initially, actions, path, i, j)
    ensures forall n :: i < n <= j ==>
              var s := Run(Initially, actions[..n]); !IsReady(s, path) && Started(s, path).active == s.active
    ensures var after := Run(Initially, actions[..j + 1]);
            && (IsReady(after, path) <==> QueuedBetween(actions, path, i, j))
            && (path in after.owed <==> QueuedBetween(actions, path, i, j))
  {
    hide Run, QueuedBetween;
    forall n | i < n <= j
      ensures var s := Run(Initially, actions[..n]); !IsReady(s, path) && Started(s, path).active == s.active
    {
      DuringLoad(actions, path, i, j, n);
    }
    DuringLoad(actions, path, i, j, j);
    RunStep(Initially, actions, j);
  }

  // ----- The program's own object -----

  class DirectoryRefreshes {
    var sequence: nat
    var pending: set<Path>
    /** The ticket of the running load. */
    var active: map<Path, nat>
    /** Tokens whose flag has been set. */
    var cancelled: set<nat>
    ghost var loads: map<Path, Load>
    ghost var now: nat
    ghost var owed: map<Path, nat>

    ghost function View(): State
      reads this
    {
      State(sequence, pending, loads, cancelled, now, owed)
    }

    ghost predicate Valid()
      reads this
    {
      TicketsOf(active, loads) && Inv(View())
    }

    constructor ()
      ensures Valid() && View() == Initially
    {
      sequence, pending, active, cancelled := 0, {}, map[], {};
      loads, now, owed := map[], 0, map[];
    }

    method QueuePath(path: Path)
      requires Valid()
      modifies this
      ensures Valid() && View() == Queued(old(View()), path)
      ensures pending == old(pending) + {path} && active == old(active) && cancelled == old(cancelled)
    {
      hide Inv, TicketsOf;
      NextIs(View(), path, 0, {});
      StepKeepsInv(View(), Queue(path));
      pending := pending + {path};
      now, owed := now + 1, owed[path := now + 1];
    }

    /** Pending paths without a running load. */
    method Ready() returns (paths: set<Path>)
      requires Valid()
      ensures forall p :: p in paths <==> IsReady(View(), p)
      ensures forall p :: p in paths <==> p in pending && p !in active
    {
      paths := set p | p in pending && p !in active;
    }

    method StartLoad(path: Path) returns (ticket: Option<nat>)
      requires Valid()
      modifies this
      ensures Valid() && View() == Started(old(View()), path)
      ensures ticket.None? <==> path in old(active)
      ensures ticket.Some? ==>
                && Accepts(View(), path, ticket.value) && ticket.value !in cancelled
                && !old(IsActive(View(), ticket.value))
      ensures ticket.Some? ==>
                active == old(active)[path := ticket.value] && pending == old(pending) - {path}
      ensures ticket.None? ==> active == old(active) && pending == old(pending)
      ensures cancelled == old(cancelled)
    {
      hide Inv, IsActive, TicketsOf, Started, Next;
      NextIs(View(), path, 0, {});
      StepKeepsInv(View(), Start(path));
      TicketIsNew(View());
      StartedIs(View(), path);
      TicketEnters(active, loads, path, Load(sequence + 1, now + 1));
      if path in active {
        now := now + 1;
        return None;
      }
      pending := pending - {path};
      sequence := sequence + 1;
      active := active[path := sequence];
      loads, now := loads[path := Load(sequence, now + 1)], now + 1;
      ticket := Some(sequence);
    }

    /** True exactly for the ticket of the load that is running for this path. */
    method FinishLoad(path: Path, ticket: nat) returns (accepted: bool)
      requires Valid()
      modifies this
      ensures Valid() && View() == Finished(old(View()), path, ticket)
      ensures accepted <==> Accepts(old(View()), path, ticket)
      ensures accepted <==> path in old(active) && old(active)[path] == ticket
      ensures active == (if accepted then old(active) - {path} else old(active)) && pending == old(pending)
      ensures cancelled == old(cancelled) + if accepted then {ticket} else {}
    {
      hide Inv, TicketsOf, Finished, Next;
      ghost var after := Finished(View(), path, ticket);
      NextIs(View(), path, ticket, {});
      StepKeepsInv(View(), Finish(path, ticket));
      FinishedIs(View(), path, ticket);
      TicketLeaves(active, loads, path);
      assert Accepts(View(), path, ticket) <==> path in active && active[path] == ticket;
      if path !in active || active[path] != ticket {
        now := now + 1;
        return false;
      }
      owed := after.owed;
      active, loads, now := active - {path}, loads - {path}, now + 1;
      cancelled := cancelled + {ticket};
      accepted := true;
    }

    method CancelPath(path: Path) returns (had: bool)
      requires Valid()
      modifies this
      ensures Valid() && View() == Cancelled(old(View()), path)
      ensures had <==> path in old(pending) || path in old(active)
      ensures active == old(active) - {path} && pending == old(pending) - {path}
      ensures cancelled == old(cancelled) + if path in old(active) then {old(active)[path]} else {}
    {
      hide Inv, TicketsOf, Cancelled, Next;
      NextIs(View(), path, 0, {});
      StepKeepsInv(View(), Cancel(path));
      CancelledIs(View(), path);
      TicketLeaves(active, loads, path);
      had := path in pending || path in active;
      cancelled := cancelled + if path in active then {active[path]} else {};
      pending, active := pending - {path}, active - {path};
      loads, owed, now := loads - {path}, owed - {path}, now + 1;
    }

    method RetainVisible(visible: set<Path>)
      requires Valid()
      modifies this
      ensures Valid() && View() == Retained(old(View()), visible)
      ensures pending == old(pending) * visible && active == old(active) - (old(active).Keys - visible)
      ensures forall t :: t in cancelled <==>
                t in old(cancelled) || exists p :: p in old(active) && p !in visible && old(active)[p] == t
    {
      hide Inv, TicketsOf, Retained, Next;
      ghost var before := View();
      NextIs(before, [], 0, visible);
      StepKeepsInv(before, Retain(visible));
      ghost var after := Retained(before, visible);
      RetainedIs(before, visible);
      TicketsStay(active, loads, visible);
      DroppedTickets(active, loads, visible);
      cancelled := cancelled + set p | p in active && p !in visible :: active[p];
      pending := pending * visible;
      active := map p | p in active && p in visible :: active[p];
      loads, owed, now := after.active, after.owed, now + 1;
      assert View() == after;
    }

    /** Entering a search drops the running listing and leaves one refresh for
        the return; virtual places are left alone. */
    method DeferForSearch(root: Path, isPlainDirectory: bool)
      requires Valid()
      modifies this
      ensures Valid()
      ensures isPlainDirectory ==>
                && View() == Queued(Cancelled(old(View()), root), root)
                && IsReady(View(), root) && root in owed
                && (root in old(active) ==> old(active)[root] in cancelled)
      ensures !isPlainDirectory ==> View() == old(View())
    {
      if isPlainDirectory {
        var _ := CancelPath(root);
        QueuePath(root);
      }
    }
  }

  ghost predicate TicketsOf(active: map<Path, nat>, loads: map<Path, Load>) {
    active.Keys == loads.Keys && forall p :: p in active ==> active[p] == loads[p].ticket
  }

  lemma DroppedTickets(active: map<Path, nat>, loads: map<Path, Load>, visible: set<Path>)
    requires TicketsOf(active, loads)
    ensures (set p | p in active && p !in visible :: active[p]) ==
              set p | p in loads && p !in visible :: loads[p].ticket
  {
    var a := set p | p in active && p !in visible :: active[p];
    var b := set p | p in loads && p !in visible :: loads[p].ticket;
    assert forall p :: p in loads && p !in visible ==> active[p] in a;
    assert forall p :: p in active && p !in visible ==> loads[p].ticket in b;
  }

  lemma StartedIs(s: State, path: Path)
    ensures Started(s, path) ==
              if path in s.active then s.(now := s.now + 1)
              else State(s.sequence + 1, s.pending - {path}, s.active[path := Load(s.sequence + 1, s.now + 1)],
                         s.cancelled, s.now + 1, s.owed)
  {
  }

  lemma FinishedIs(s: State, path: Path, ticket: nat)
    ensures Finished(s, path, ticket) ==
              if !Accepts(s, path, ticket) then s.(now := s.now + 1)
              else State(s.sequence, s.pending, s.active - {path}, s.cancelled + {ticket}, s.now + 1,
                         Finished(s, path, ticket).owed)
  {
  }

  lemma CancelledIs(s: State, path: Path)
    ensures Cancelled(s, path) ==
              State(s.sequence, s.pending - {path}, s.active - {path},
                    s.cancelled + (if path in s.active then {s.active[path].ticket} else {}),
                    s.now + 1, s.owed - {path})
  {
  }

  lemma RetainedIs(s: State, visible: set<Path>)
    ensures Retained(s, visible) ==
              State(s.sequence, s.pending * visible, Retained(s, visible).active,
                    s.cancelled + (set p | p in s.active && p !in visible :: s.active[p].ticket), s.now + 1,
                    Retained(s, visible).owed)
    ensures Retained(s, visible).active == map p | p in s.active && p in visible :: s.active[p]
  {
  }

  lemma TicketEnters(active: map<Path, nat>, loads: map<Path, Load>, path: Path, load: Load)
    requires TicketsOf(active, loads)
    ensures path in active <==> path in loads
    ensures TicketsOf(active[path := load.ticket], loads[path := load])
  {
  }

  lemma TicketLeaves(active: map<Path, nat>, loads: map<Path, Load>, path: Path)
    requires TicketsOf(active, loads)
    ensures path in active <==> path in loads
    ensures path in active ==> active[path] == loads[path].ticket
    ensures TicketsOf(active - {path}, loads - {path})
  {
  }

  lemma TicketsStay(active: map<Path, nat>, loads: map<Path, Load>, visible: set<Path>)
    requires TicketsOf(active, loads)
    ensures TicketsOf(map p | p in active && p in visible :: active[p], map p | p in loads && p in visible :: loads[p])
  {
  }

  lemma NextIs(s: State, path: Path, ticket: nat, visible: set<Path>)
    ensures Next(s, Queue(path)) == Queued(s, path) && Next(s, Start(path)) == Started(s, path)
    ensures Next(s, Finish(path, ticket)) == Finished(s, path, ticket) && Next(s, Cancel(path)) == Cancelled(s, path)
    ensures Next(s, Retain(visible)) == Retained(s, visible)
  {
  }

  lemma TicketIsNew(s: State)
    requires Inv(s)
    ensures s.sequence + 1 !in s.cancelled && !IsActive(s, s.sequence + 1)
  {
  }
}
