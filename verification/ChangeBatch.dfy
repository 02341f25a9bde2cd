/** Coalescing of directory changes (`src/fs/watcher.rs`): the batch that grows
    while events keep coming, the change it turns into, and the merge that lets a
    full output channel keep only one pending change.

    Path vectors are modelled as sequences in arbitrary order; times are
    milliseconds. */
module ChangeBatches {
  import opened Prelude
  import opened FileTrees

  const MAX_CHANGE_PATHS: nat := 2048
  const CHANGE_QUIET_PERIOD: nat := 700
  const MAX_CHANGE_BATCH_AGE: nat := 2000

  /** What the consumer receives. A directory named among `paths` stands for
      everything in it. */
  datatype Change = Change(directories: seq<Path>, paths: seq<Path>)

  datatype Batch = Batch(
    directories: set<Path>, paths: set<Path>, fullRefresh: bool,
    quietDeadline: nat, maxDeadline: nat)

  /** The event on `path` concerns the directory `directory`. */
  predicate Touches(path: Path, directory: Path) {
    path == directory || IsChild(path, directory)
  }

  /** A directory is touched by itself and by its entries, by nothing deeper. */
  lemma TouchesMeans(path: Path, directory: Path)
    ensures Touches(path, directory) <==> path == directory || (path != [] && path[..|path| - 1] == directory)
    ensures Touches(path, directory) <==> path == directory || exists name: Name :: path == directory + [name]
  {
    if path != [] && path[..|path| - 1] == directory {
      assert path == directory + [path[|path| - 1]];
    }
    if name: Name :| path == directory + [name] {
      assert path[..|path| - 1] == directory;
    }
  }

  ghost predicate BatchNames(batch: Batch, directory: Path, path: Path) {
    && directory in batch.directories
    && (batch.fullRefresh || directory in batch.paths || path in batch.paths)
  }

  ghost predicate ChangeNames(change: Change, directory: Path, path: Path) {
    && directory in change.directories
    && (directory in change.paths || path in change.paths)
  }

  // ----- The values the mutable batch goes through -----

  function Fresh(now: nat): Batch {
    Batch({}, {}, false, now + CHANGE_QUIET_PERIOD, now + MAX_CHANGE_BATCH_AGE)
  }

  function Deadline(batch: Batch): nat {
    if batch.quietDeadline <= batch.maxDeadline then batch.quietDeadline else batch.maxDeadline
  }

  /** Once the set is full, the next path (even a known one) gives up on names. */
  function RecordPaths(paths: set<Path>, incoming: seq<Path>): (result: (set<Path>, bool))
    decreases |incoming|
  {
    if incoming == [] then (paths, false)
    else if |paths| >= MAX_CHANGE_PATHS then ({}, true)
    else RecordPaths(paths + {incoming[0]}, incoming[1..])
  }

  function Recorded(batch: Batch, directories: set<Path>, incoming: seq<Path>, now: nat): Batch {
    var touched := batch.(directories := batch.directories + directories, quietDeadline := now + CHANGE_QUIET_PERIOD);
    if batch.fullRefresh then touched
    else
      var (paths, full) := RecordPaths(batch.paths, incoming);
      touched.(paths := paths, fullRefresh := full)
  }

  function Retained(batch: Batch, watched: set<Path>): Batch {
    var kept := batch.directories * watched;
    batch.(directories := kept, paths := set p | p in batch.paths && exists d :: d in kept && Touches(p, d))
  }

  function FullRefreshed(batch: Option<Batch>, watched: set<Path>, now: nat): Option<Batch> {
    if watched == {} then batch
    else
      var current := if batch.Some? then batch.value else Fresh(now);
      Some(Recorded(current, watched, [], now).(fullRefresh := true, paths := {}))
  }

  ghost predicate IsChangeOf(change: Change, batch: Batch) {
    && (forall p :: p in change.directories <==> p in batch.directories)
    && (forall p :: p in change.paths <==> p in (if batch.fullRefresh then batch.directories else batch.paths))
  }

  predicate HasMarker(change: Change) {
    exists p :: p in change.paths && p in change.directories
  }

  function MergedBatch(previous: Change, next: Change, now: nat): Batch {
    Recorded(
      Fresh(now).(fullRefresh := HasMarker(previous) || HasMarker(next)),
      Elements(previous.directories) + Elements(next.directories),
      previous.paths + next.paths, now)
  }

  function KeepWatched(paths: seq<Path>, watched: set<Path>): (kept: seq<Path>)
    ensures forall p :: p in kept <==> p in paths && p in watched
  {
    if paths == [] then []
    else (if paths[0] in watched then [paths[0]] else []) + KeepWatched(paths[1..], watched)
  }

  function KeepTouching(paths: seq<Path>, directories: seq<Path>): (kept: seq<Path>)
    ensures forall p :: p in kept <==> p in paths && exists d :: d in directories && Touches(p, d)
  {
    if paths == [] then []
    else (if exists d :: d in directories && Touches(paths[0], d) then [paths[0]] else [])
         + KeepTouching(paths[1..], directories)
  }

  function RetainedChange(change: Change, watched: set<Path>): Change {
    var directories := KeepWatched(change.directories, watched);
    Change(directories, KeepTouching(change.paths, directories))
  }

  // ----- Nothing that was named is ever forgotten -----

  lemma {:induction false} RecordPathsKeepsAll(paths: set<Path>, incoming: seq<Path>)
    requires |paths| <= MAX_CHANGE_PATHS
    ensures var (kept, full) := RecordPaths(paths, incoming);
            && |kept| <= MAX_CHANGE_PATHS
            && (full ==> kept == {})
            && (!full ==> kept == paths + Elements(incoming))
    decreases |incoming|
  {
    if incoming != [] && |paths| < MAX_CHANGE_PATHS {
      RecordPathsKeepsAll(paths + {incoming[0]}, incoming[1..]);
      assert Elements(incoming) == {incoming[0]} + Elements(incoming[1..]);
    }
  }

  /** Names are only given up when there are too many of them. */
  lemma {:induction false} FullMeansMany(paths: set<Path>, incoming: seq<Path>)
    requires RecordPaths(paths, incoming).1
    ensures |paths + Elements(incoming)| >= 2048
    decreases |incoming|
  {
    if |paths| >= MAX_CHANGE_PATHS {
      SubsetSize(paths, paths + Elements(incoming));
    } else {
      FullMeansMany(paths + {incoming[0]}, incoming[1..]);
      assert Elements(incoming) == {incoming[0]} + Elements(incoming[1..]);
      assert paths + {incoming[0]} + Elements(incoming[1..]) == paths + Elements(incoming);
    }
  }

  /** A record adds what it was given, and nothing else. */
  lemma RecordAddsOnlyItsNames(batch: Batch, directories: set<Path>, incoming: seq<Path>, now: nat)
    requires ValidBatch(batch)
    ensures var after := Recorded(batch, directories, incoming, now);
            && after.directories == batch.directories + directories
            && (!after.fullRefresh ==> after.paths == batch.paths + Elements(incoming))
            && (after.fullRefresh && !batch.fullRefresh ==> |batch.paths + Elements(incoming)| >= 2048)
  {
    RecordPathsKeepsAll(batch.paths, incoming);
    if RecordPaths(batch.paths, incoming).1 {
      FullMeansMany(batch.paths, incoming);
    }
  }

  /** Nothing about an unwatched directory stays in a batch. */
  lemma RetainedAreWatched(batch: Batch, watched: set<Path>)
    ensures var after := Retained(batch, watched);
            && after.directories == batch.directories * watched && after.fullRefresh == batch.fullRefresh
            && forall p :: p in after.paths ==>
                 p in batch.paths && (p in after.directories || (p != [] && p[..|p| - 1] in after.directories))
  {
    forall p | p in Retained(batch, watched).paths
      ensures p in batch.paths
              && (p in batch.directories * watched || (p != [] && p[..|p| - 1] in batch.directories * watched))
    {
      var d :| d in batch.directories * watched && Touches(p, d);
      TouchesMeans(p, d);
    }
  }

  lemma RetainedChangeIsWatched(change: Change, watched: set<Path>)
    ensures var after := RetainedChange(change, watched);
            && (forall d :: d in after.directories <==> d in change.directories && d in watched)
            && forall p :: p in after.paths ==>
                 p in change.paths && (p in after.directories || (p != [] && p[..|p| - 1] in after.directories))
  {
    var after := RetainedChange(change, watched);
    forall p | p in after.paths
      ensures p in change.paths && (p in after.directories || (p != [] && p[..|p| - 1] in after.directories))
    {
      var d :| d in after.directories && Touches(p, d);
      TouchesMeans(p, d);
    }
  }

  // ----- A batch does not wait for ever -----

  /** Every record puts the deadline 700 ms off, but never beyond 2000 ms after the
      batch was begun. */
  lemma DeadlineMeans(batch: Batch, directories: set<Path>, incoming: seq<Path>, watched: set<Path>, now: nat)
    ensures Fresh(now).maxDeadline == now + 2000 && Fresh(now).quietDeadline == now + 700
    ensures var after := Recorded(batch, directories, incoming, now);
            after.maxDeadline == batch.maxDeadline && after.quietDeadline == now + 700
    ensures Retained(batch, watched).maxDeadline == batch.maxDeadline
    ensures Retained(batch, watched).quietDeadline == batch.quietDeadline
    ensures Deadline(batch) <= batch.maxDeadline && Deadline(batch) <= batch.quietDeadline
    ensures Deadline(batch) == batch.maxDeadline || Deadline(batch) == batch.quietDeadline
  {
  }

  ghost predicate ValidBatch(batch: Batch) {
    |batch.paths| <= MAX_CHANGE_PATHS && (batch.fullRefresh ==> batch.paths == {})
  }

  /** Recording keeps every name, adds the new ones, and respects the path limit. */
  lemma RecordKeepsNames(batch: Batch, directories: set<Path>, incoming: seq<Path>, now: nat)
    requires ValidBatch(batch)
    ensures ValidBatch(Recorded(batch, directories, incoming, now))
    ensures forall d, p :: BatchNames(batch, d, p) ==> BatchNames(Recorded(batch, directories, incoming, now), d, p)
    ensures forall d, p :: d in directories && p in incoming ==>
              BatchNames(Recorded(batch, directories, incoming, now), d, p)
  {
    RecordPathsKeepsAll(batch.paths, incoming);
  }

  lemma FullRefreshNamesEverything(batch: Option<Batch>, watched: set<Path>, now: nat)
    requires batch.Some? ==> ValidBatch(batch.value)
    ensures var after := FullRefreshed(batch, watched, now);
            && (after.Some? ==> ValidBatch(after.value))
            && (batch.Some? ==> after.Some?)
            && (watched != {} ==> after.Some? && watched <= after.value.directories && after.value.fullRefresh)
    ensures forall d, p :: batch.Some? && BatchNames(batch.value, d, p) ==>
              BatchNames(FullRefreshed(batch, watched, now).value, d, p)
  {
    if watched != {} {
      RecordKeepsNames(if batch.Some? then batch.value else Fresh(now), watched, [], now);
    }
  }

  lemma RetainKeepsNames(batch: Batch, watched: set<Path>)
    requires ValidBatch(batch)
    ensures ValidBatch(Retained(batch, watched))
    ensures forall d, p :: d in watched && Touches(p, d) && BatchNames(batch, d, p) ==>
              BatchNames(Retained(batch, watched), d, p)
  {
    SubsetSize(Retained(batch, watched).paths, batch.paths);
  }

  lemma RetainedChangeKeepsNames(change: Change, watched: set<Path>)
    ensures forall d, p :: d in watched && Touches(p, d) && ChangeNames(change, d, p) ==>
              ChangeNames(RetainedChange(change, watched), d, p)
  {
    forall d, p | d in watched && Touches(p, d) && ChangeNames(change, d, p)
      ensures ChangeNames(RetainedChange(change, watched), d, p)
    {
      var directories := KeepWatched(change.directories, watched);
      assert d in directories && Touches(d, d);
    }
  }

  /** A merge names whatever either side named, by marker if not by name. */
  lemma MergeKeepsNames(previous: Change, next: Change, now: nat, merged: Change)
    requires IsChangeOf(merged, MergedBatch(previous, next, now))
    ensures ValidBatch(MergedBatch(previous, next, now))
    ensures forall d, p :: ChangeNames(previous, d, p) || ChangeNames(next, d, p) ==> ChangeNames(merged, d, p)
  {
    var start := Fresh(now).(fullRefresh := HasMarker(previous) || HasMarker(next));
    var directories := Elements(previous.directories) + Elements(next.directories);
    RecordKeepsNames(start, directories, previous.paths + next.paths, now);
    forall d, p | ChangeNames(previous, d, p) || ChangeNames(next, d, p)
      ensures ChangeNames(merged, d, p)
    {
      assert d in directories;
      if !start.fullRefresh {
        assert p in previous.paths + next.paths;
      }
    }
  }

  // ----- The mutable batch -----

  class ChangeBatch {
    var directories: set<Path>
    var paths: set<Path>
    var fullRefresh: bool
    var quietDeadline: nat
    var maxDeadline: nat

    function Value(): Batch
      reads this
    {
      Batch(directories, paths, fullRefresh, quietDeadline, maxDeadline)
    }

    constructor (now: nat)
      ensures Value() == Fresh(now)
    {
      directories, paths, fullRefresh := {}, {}, false;
      quietDeadline, maxDeadline := now + CHANGE_QUIET_PERIOD, now + MAX_CHANGE_BATCH_AGE;
    }

    method Record(found: set<Path>, incoming: seq<Path>, now: nat)
      modifies this
      ensures Value() == Recorded(old(Value()), found, incoming, now)
    {
      directories := directories + found;
      quietDeadline := now + CHANGE_QUIET_PERIOD;
      if !fullRefresh {
        var i := 0;
        while i < |incoming|
          invariant i <= |incoming| && !fullRefresh
          invariant RecordPaths(paths, incoming[i..]) == RecordPaths(old(paths), incoming)
          invariant directories == old(directories) + found && quietDeadline == now + CHANGE_QUIET_PERIOD
          invariant maxDeadline == old(maxDeadline)
        {
          assert incoming[i..][1..] == incoming[i + 1..];
          if |paths| >= MAX_CHANGE_PATHS {
            fullRefresh := true;
            paths := {};
            break;
          }
          paths := paths + {incoming[i]};
          i := i + 1;
        }
      }
    }

    method RetainWatched(watched: set<Path>)
      modifies this
      ensures Value() == Retained(old(Value()), watched)
    {
      directories := set d | d in directories && d in watched;
      paths := set p | p in paths && exists d :: d in directories && Touches(p, d);
      assert directories == old(directories) * watched;
    }

    method IntoChange() returns (change: Change)
      ensures IsChangeOf(change, Value())
    {
      var listed := ListPaths(directories);
      var names := ListPaths(if fullRefresh then directories else paths);
      change := Change(listed, names);
    }
  }

  method ListPaths(paths: set<Path>) returns (listed: seq<Path>)
    ensures forall p :: p in listed <==> p in paths
    ensures |listed| == |paths|
  {
    listed := [];
    var rest := paths;
    while rest != {}
      invariant rest <= paths && |listed| + |rest| == |paths|
      invariant forall p :: p in listed <==> p in paths - rest
    {
      var p :| p in rest;
      rest := rest - {p};
      listed := listed + [p];
    }
  }

  /** The merge as the source runs it: through a throw-away batch. */
  method MergeDirectoryChanges(previous: Change, next: Change, now: nat) returns (merged: Change)
    ensures IsChangeOf(merged, MergedBatch(previous, next, now))
    ensures forall d, p :: ChangeNames(previous, d, p) || ChangeNames(next, d, p) ==> ChangeNames(merged, d, p)
  {
    var batch := new ChangeBatch(now);
    batch.fullRefresh := HasMarker(previous) || HasMarker(next);
    batch.Record(Elements(previous.directories) + Elements(next.directories), previous.paths + next.paths, now);
    merged := batch.IntoChange();
    MergeKeepsNames(previous, next, now, merged);
  }
}
