/** One iteration of the directory-watch worker (`src/fs/watcher.rs`), as a
    mutable object and as the functions its methods compute. */
module WatchWorker {
  import opened Prelude
  import opened FileTrees
  import opened ChangeBatches

  /** What the notify callback passes on: a change of the named paths, a request
      to rescan everything, or an error that may have hidden any change. */
  datatype NoticeKind = Changed | Rescan | Broken
  datatype Notice = Notice(id: nat, kind: NoticeKind, paths: seq<Path>)

  datatype Signal = Reconfigure | OutputReady | Event(notice: Notice)

  function DirectoriesForEvent(paths: seq<Path>, watched: set<Path>): set<Path> {
    if paths == [] then watched
    else set d | d in watched && exists p :: p in paths && Touches(p, d)
  }

  /** An event concerns exactly the watched directories that it names, or that hold
      something it names; without any name it concerns all of them. */
  lemma EventDirectories(paths: seq<Path>, watched: set<Path>)
    ensures paths == [] ==> DirectoriesForEvent(paths, watched) == watched
    ensures paths != [] ==>
              forall d :: d in DirectoriesForEvent(paths, watched) <==>
                d in watched && exists p :: p in paths && (p == d || (p != [] && p[..|p| - 1] == d))
  {
    if paths != [] {
      forall d ensures d in DirectoriesForEvent(paths, watched) <==>
                         d in watched && exists p :: p in paths && (p == d || (p != [] && p[..|p| - 1] == d))
      {
        forall p ensures Touches(p, d) <==> p == d || (p != [] && p[..|p| - 1] == d) {
          TouchesMeans(p, d);
        }
      }
    }
  }

  function AfterOverflow(batch: Option<Batch>, watched: set<Path>, overflow: bool, now: nat): Option<Batch> {
    if overflow then FullRefreshed(batch, watched, now) else batch
  }

  function AfterSignal(batch: Option<Batch>, watched: set<Path>, signal: Option<Signal>, now: nat): Option<Batch> {
    if signal.None? || !signal.value.Event? then batch
    else
      var notice := signal.value.notice;
      if !notice.kind.Changed? then FullRefreshed(batch, watched, now)
      else
        var directories := DirectoriesForEvent(notice.paths, watched);
        if directories == {} then batch
        else Some(Recorded(if batch.Some? then batch.value else Fresh(now), directories, notice.paths, now))
  }

  /** The batch after the overflow flag and the signal in hand were looked at. */
  function Absorbed(
    batch: Option<Batch>, watched: set<Path>, overflow: bool, signal: Option<Signal>, now: nat): Option<Batch>
  {
    var after := AfterSignal(AfterOverflow(batch, watched, overflow, now), watched, signal, now);
    if after.Some? && after.value.directories == {} then None else after
  }

  predicate Due(batch: Option<Batch>, now: nat) {
    batch.Some? && now >= Deadline(batch.value)
  }

  /** However events arrive, a batch is due 2000 ms after its first one, and 700 ms
      after its last one. */
  lemma DueInTime(batch: Option<Batch>, watched: set<Path>, overflow: bool, signal: Option<Signal>, now: nat)
    ensures var after := Absorbed(batch, watched, overflow, signal, now);
            after.Some? ==>
              && after.value.maxDeadline == (if batch.Some? then batch.value.maxDeadline else now + 2000)
              && (after.value.quietDeadline == now + 700
                  || (batch.Some? && after.value.quietDeadline == batch.value.quietDeadline))
    ensures batch.Some? ==>
              (Due(batch, now) <==> now >= batch.value.quietDeadline || now >= batch.value.maxDeadline)
  {
  }

  /** `next` is what the pending output may become when `batch` is due. */
  ghost predicate IsEmission(pending: Option<Change>, batch: Batch, next: Change) {
    match pending
    case None => IsChangeOf(next, batch)
    case Some(previous) =>
      exists change, now :: IsChangeOf(change, batch) && IsChangeOf(next, MergedBatch(previous, change, now))
  }

  /** A notice concerns the path: only a plain change relies on its path list. */
  ghost predicate NoticeNames(notice: Notice, path: Path) {
    !notice.kind.Changed? || path in notice.paths
  }

  ghost predicate ValidOption(batch: Option<Batch>) {
    batch.Some? ==> ValidBatch(batch.value)
  }

  ghost predicate OptionNames(batch: Option<Batch>, directory: Path, path: Path) {
    batch.Some? && BatchNames(batch.value, directory, path)
  }

  lemma OverflowNamesWatched(batch: Option<Batch>, watched: set<Path>, overflow: bool, now: nat)
    requires ValidOption(batch)
    ensures ValidOption(AfterOverflow(batch, watched, overflow, now))
    ensures forall d, p :: OptionNames(batch, d, p) || (overflow && d in watched)
              ==> OptionNames(AfterOverflow(batch, watched, overflow, now), d, p)
  {
    FullRefreshNamesEverything(batch, watched, now);
  }

  lemma SignalNamesItsPaths(batch: Option<Batch>, watched: set<Path>, signal: Option<Signal>, now: nat)
    requires ValidOption(batch)
    ensures ValidOption(AfterSignal(batch, watched, signal, now))
    ensures forall d, p :: OptionNames(batch, d, p) ==> OptionNames(AfterSignal(batch, watched, signal, now), d, p)
    ensures signal.Some? && signal.value.Event? ==>
              forall d, p :: d in watched && Touches(p, d) && NoticeNames(signal.value.notice, p)
                ==> OptionNames(AfterSignal(batch, watched, signal, now), d, p)
  {
    hide FullRefreshed, Recorded, DirectoriesForEvent, ValidBatch, Touches;
    if signal.Some? && signal.value.Event? {
      FullRefreshNamesEverything(batch, watched, now);
      FreshIsValid(now);
      EventNamesItsPaths(if batch.Some? then batch.value else Fresh(now), watched, signal.value.notice, now);
    }
  }

  lemma FreshIsValid(now: nat)
    ensures ValidBatch(Fresh(now))
  {
  }

  /** A plain event records each of its paths under every directory it touches. */
  lemma EventNamesItsPaths(current: Batch, watched: set<Path>, notice: Notice, now: nat)
    requires ValidBatch(current)
    ensures var directories := DirectoriesForEvent(notice.paths, watched);
            var after := Recorded(current, directories, notice.paths, now);
            && ValidBatch(after)
            && (forall d, p :: BatchNames(current, d, p) ==> BatchNames(after, d, p))
            && (forall d, p :: d in watched && Touches(p, d) && p in notice.paths ==>
                  d in directories && BatchNames(after, d, p))
  {
    hide Recorded, BatchNames, ValidBatch, Touches;
    RecordKeepsNames(current, DirectoriesForEvent(notice.paths, watched), notice.paths, now);
  }

  /** Looking at the flag and the signal loses nothing that either of them, or
      the batch, stood for. */
  lemma AbsorbKeepsNames(
    batch: Option<Batch>, watched: set<Path>, overflow: bool, signal: Option<Signal>, now: nat)
    requires ValidOption(batch)
    ensures ValidOption(Absorbed(batch, watched, overflow, signal, now))
    ensures forall d, p :: OptionNames(batch, d, p) || (overflow && d in watched)
              ==> OptionNames(Absorbed(batch, watched, overflow, signal, now), d, p)
    ensures signal.Some? && signal.value.Event? ==>
              forall d, p :: d in watched && Touches(p, d) && NoticeNames(signal.value.notice, p)
                ==> OptionNames(Absorbed(batch, watched, overflow, signal, now), d, p)
  {
    OverflowNamesWatched(batch, watched, overflow, now);
    SignalNamesItsPaths(AfterOverflow(batch, watched, overflow, now), watched, signal, now);
  }

  lemma EmissionKeepsNames(pending: Option<Change>, batch: Batch, next: Change)
    requires IsEmission(pending, batch, next)
    ensures forall d, p :: BatchNames(batch, d, p) ==> ChangeNames(next, d, p)
    ensures forall d, p :: pending.Some? && ChangeNames(pending.value, d, p) ==> ChangeNames(next, d, p)
  {
    if pending.Some? {
      var change, now :| IsChangeOf(change, batch) && IsChangeOf(next, MergedBatch(pending.value, change, now));
      MergeKeepsNames(pending.value, change, now, next);
    }
  }

  // ----- The worker's own variables -----

  class DirectoryWorker {
    var watched: set<Path>
    var appliedVersion: nat
    var batch: ChangeBatch?
    var pendingOutput: Option<Change>

    ghost function Repr(): set<object>
      reads this
    {
      if batch == null then {this} else {this, batch}
    }

    function BatchValue(): Option<Batch>
      reads this, batch
    {
      if batch == null then None else Some(batch.Value())
    }

    constructor ()
      ensures watched == {} && appliedVersion == 0 && batch == null && pendingOutput.None?
    {
      watched, appliedVersion, batch, pendingOutput := {}, 0, null, None;
    }

    /** Stops watching what is no longer wanted and tries to watch the rest; a
        directory is left out only if the system refuses to watch it. */
    method SyncWatchedDirectories(desired: set<Path>, refused: set<Path>)
      modifies this`watched
      ensures forall p :: p in watched <==> p in desired && (p in old(watched) || p !in refused)
    {
      watched := set p | p in watched && p in desired;
      var missing := desired - watched;
      ghost var kept := watched;
      while missing != {}
        invariant missing <= desired && kept <= watched <= desired && missing !! kept
        invariant watched == kept + set p | p in desired - kept - missing && p !in refused
      {
        var path :| path in missing;
        missing := missing - {path};
        if path !in refused {
          watched := watched + {path};
        }
      }
    }

    /** A new version of the wanted directories is applied to the watches, to the
        batch and to the pending output. */
    method ApplyVersion(version: nat, desired: set<Path>, refused: set<Path>)
      modifies Repr()
      ensures appliedVersion == version && batch == old(batch)
      ensures forall p :: p in watched <==> p in desired && (p in old(watched) || p !in refused)
      ensures BatchValue() == if old(batch) == null then None else Some(Retained(old(batch.Value()), watched))
      ensures pendingOutput ==
              if old(pendingOutput).None? then None else Some(RetainedChange(old(pendingOutput).value, watched))
    {
      SyncWatchedDirectories(desired, refused);
      appliedVersion := version;
      if batch != null {
        batch.RetainWatched(watched);
      }
      if pendingOutput.Some? {
        pendingOutput := Some(RetainedChange(pendingOutput.value, watched));
      }
    }

    method RecordFullRefresh(now: nat)
      modifies Repr()
      ensures fresh(Repr() - old(Repr()))
      ensures watched == old(watched) && appliedVersion == old(appliedVersion)
      ensures pendingOutput == old(pendingOutput)
      ensures BatchValue() == FullRefreshed(old(BatchValue()), watched, now)
    {
      if watched == {} {
        return;
      }
      if batch == null {
        batch := new ChangeBatch(now);
      }
      batch.Record(watched, [], now);
      batch.fullRefresh := true;
      batch.paths := {};
    }

    method Absorb(overflow: bool, signal: Option<Signal>, now: nat)
      modifies Repr()
      ensures fresh(Repr() - old(Repr()))
      ensures watched == old(watched) && appliedVersion == old(appliedVersion)
      ensures pendingOutput == old(pendingOutput)
      ensures BatchValue() == Absorbed(old(BatchValue()), watched, overflow, signal, now)
    {
      hide FullRefreshed, AfterSignal;
      if overflow {
        RecordFullRefresh(now);
      }
      TakeSignal(signal, now);
      if batch != null && batch.directories == {} {
        batch := null;
      }
    }

    method TakeSignal(signal: Option<Signal>, now: nat)
      modifies Repr()
      ensures fresh(Repr() - old(Repr()))
      ensures watched == old(watched) && appliedVersion == old(appliedVersion)
      ensures pendingOutput == old(pendingOutput)
      ensures BatchValue() == AfterSignal(old(BatchValue()), watched, signal, now)
    {
      hide FullRefreshed, Recorded, DirectoriesForEvent;
      if signal.Some? && signal.value.Event? {
        var notice := signal.value.notice;
        if !notice.kind.Changed? {
          RecordFullRefresh(now);
        } else {
          var directories := DirectoriesForEvent(notice.paths, watched);
          if directories != {} {
            if batch == null {
              batch := new ChangeBatch(now);
            }
            batch.Record(directories, notice.paths, now);
          }
        }
      }
    }

    /** A due batch becomes, or is merged into, the pending output. */
    method Emit(now: nat)
      modifies this
      ensures watched == old(watched) && appliedVersion == old(appliedVersion)
      ensures if Due(old(BatchValue()), now)
              then batch == null && pendingOutput.Some?
                   && IsEmission(old(pendingOutput), old(BatchValue()).value, pendingOutput.value)
              else batch == old(batch) && pendingOutput == old(pendingOutput)
    {
      if batch != null && now >= Deadline(batch.Value()) {
        var change := batch.IntoChange();
        batch := null;
        if pendingOutput.Some? {
          var merged := MergeDirectoryChanges(pendingOutput.value, change, now);
          pendingOutput := Some(merged);
        } else {
          pendingOutput := Some(change);
        }
      }
    }

    /** `room` says whether the output channel accepts one more change. */
    method TryPublish(room: bool) returns (sent: Option<Change>)
      modifies this`pendingOutput
      ensures sent == if room && old(pendingOutput).Some? && old(pendingOutput).value.directories != []
                      then old(pendingOutput) else None
      ensures pendingOutput == if !room && old(pendingOutput).Some? && old(pendingOutput).value.directories != []
                               then old(pendingOutput) else None
    {
      sent := None;
      if pendingOutput.Some? && pendingOutput.value.directories != [] {
        if room {
          sent := pendingOutput;
          pendingOutput := None;
        }
      } else {
        pendingOutput := None;
      }
    }
  }
}
