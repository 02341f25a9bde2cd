/** A whole local transfer (`src/fs/transfer_queue.rs`, `run_transfer_inner`):
    one root after the other, then cleanup when it was cancelled. */
module TransferJobs {
  import opened Prelude
  import opened FileTrees
  import opened FileSystems
  import opened TransferCopy
  import opened TransferCleanup
  import opened TransferReplace
  import opened TransferRoots
  import opened TransferRuns
  import opened TransferAccounts
  import opened Reservations

  /** `Crowded`: all 9999 candidate names are taken, or the target is named like
      a temporary sibling that this process has already used. */
  datatype RootResult = Skipped | Transferred | Stopped(reason: Result) | Crowded

  datatype RunResult = AllDone | Ended(why: RootResult) | Rejected(reason: Result)

  // ----- Preparation -----

  /** A folder is refused as a source of a destination at or below it. */
  method Prepare(job: Job, fs: FileSystem, control: Control) returns (result: Result)
    requires ParentClosed(fs.tree) && job.destination in fs.tree && fs.tree[job.destination].Directory?
    modifies control, fs`faults
    ensures result.Ok? ==> forall i :: 0 <= i < |job.sources| ==> !(job.sources[i] <= job.destination)
    ensures result.Failed? ==> result.reason.Refused? || fs.faults > old(fs.faults)
    ensures fs.faults >= old(fs.faults)
    ensures result == Failed(Refused) ==>
              exists i :: 0 <= i < |job.sources| && job.sources[i] in fs.tree && job.sources[i] <= job.destination
    ensures result.Cancelled? ==> control.raised
    ensures old(control.raised) ==> control.raised
  {
    var cancelled := control.Poll();
    if cancelled {
      return Cancelled;
    }
    var resolved := fs.Look();
    if !resolved.Done? {
      return Failed(resolved);
    }
    for i := 0 to |job.sources|
      invariant !old(control.raised) && fs.faults >= old(fs.faults)
      invariant forall j :: 0 <= j < i ==> !(job.sources[j] <= job.destination)
    {
      var source := job.sources[i];
      cancelled := control.Poll();
      if cancelled {
        return Cancelled;
      }
      var looked := fs.Look();
      if !looked.Done? {
        return Failed(looked);
      }
      if source in fs.tree {
        if fs.tree[source].Directory? && source <= job.destination {
          return Failed(Refused);
        }
      }
      AncestorsOfDestination(fs.tree, source, job.destination);
    }
    result := Ok;
  }

  lemma AncestorsOfDestination(tree: Tree, source: Path, destination: Path)
    requires ParentClosed(tree) && destination in tree && tree[destination].Directory?
    ensures source <= destination ==> source in tree && tree[source].Directory?
  {
    if source <= destination {
      AncestorsExist(tree, destination, source);
    }
  }

  // ----- One root, with its checks and its reservation -----

  /** Compares two different paths by the file they show. Where nothing stands there
      is nothing to compare, but the question itself may fail. */
  method SameFile(source: Path, target: Path, fs: FileSystem) returns (same: bool, answer: IoResult)
    modifies fs`faults
    ensures answer.Done? || answer.Fault?
    ensures answer.Done? ==> (same <==> target in fs.tree && (source, target) in fs.aliases)
    ensures fs.faults == old(fs.faults) + if answer.Fault? then 1 else 0
  {
    answer := fs.Look();
    same := answer.Done? && target in fs.tree && (source, target) in fs.aliases;
  }

  /** What the comparison of identities costs when it fails: the reservation just
      made is reported to no one. */
  function Leak(compared: Option<IoResult>, target: Path): set<Path> {
    if compared == Some(Fault) then {target} else {}
  }

  /** What the checks before a root say: pass over it, stop the run, no name left,
      or place it. */
  datatype Choice = PassOver | Halt(reason: Result) | NoName | Place

  /** The checks and the reservation for one source. A fault while comparing
      identities is reported with the new reservation still held and not yet
      recorded: exactly then the target is `leaked`. */
  method ChooseTarget(job: Job, source: Path, fs: FileSystem, control: Control, targets: ReservedTargets)
    returns (choice: Choice, target: Path, compared: Option<IoResult>, leaked: set<Path>, unseen: bool)
    requires !(source <= job.destination)
    modifies fs`faults, control, targets
    ensures choice.PassOver? ==> unseen || MaySkip(job, fs.aliases, old(targets.reserved), fs.tree, source)
    ensures unseen ==> choice.PassOver? && fs.faults > old(fs.faults)
    ensures choice.Halt? ==>
              || (choice.reason.Cancelled? && control.raised)
              || (choice.reason == Failed(Fault) && fs.faults > old(fs.faults))
    ensures choice.NoName? ==> source != [] && NoNameLeft(job, old(targets.reserved), fs.tree, source)
    ensures choice.Place? ==>
              && Accounted(job, fs.aliases, old(targets.reserved), fs.tree, source, Some(target))
              && source != [] && source in fs.tree && source != target
              && IsChild(target, job.destination) && target !in old(targets.reserved)
              && (job.policy.Skip? || (job.policy.Replace? && Exists(fs.tree, target)) ==>
                    target == Base(job.destination, source))
              && (Exists(fs.tree, target) && !job.policy.Replace? ==>
                    NoNameLeft(job, old(targets.reserved), fs.tree, source))
    ensures leaked == Leak(compared, target) && leaked !! old(targets.reserved)
    ensures targets.reserved == old(targets.reserved) + leaked + if choice.Place? then {target} else {}
    ensures compared == Some(Fault) ==> choice == Halt(Failed(Fault))
    ensures fs.faults >= old(fs.faults)
    ensures old(control.raised) ==> control.raised
  {
    hide *;
    target, compared, leaked, unseen := source, None, {}, false;
    LeakMeans(None, target);
    var cancelled := control.Poll();
    if cancelled {
      choice := Halt(Cancelled);
      return;
    }
    var looked := fs.Look();
    if source !in fs.tree || !looked.Done? {
      unseen := source in fs.tree;
      GoneMaySkip(job, fs.aliases, targets.reserved, fs.tree, source);
      choice := PassOver;
      return;
    }
    looked := fs.Look();
    if !looked.Done? {
      choice := Halt(Failed(looked));
      return;
    }
    if source == [] {
      choice := PassOver;
      return;
    }
    var base := Base(job.destination, source);
    ChildOf(base, job.destination);
    var heldByOthers := targets.reserved;
    var reservation := targets.ReserveDestination(base, IsDirectory(fs.tree, source), job.policy, fs.tree);
    if reservation.None? {
      TakenMaySkip(job, fs.aliases, heldByOthers, fs.tree, source);
      choice := PassOver;
      return;
    }
    target := reservation.value;
    LeakMeans(None, target);
    ChildFromParent(target, base, job.destination);
    TakenIsNotFree(fs.tree, heldByOthers, target);
    IsTargetMeans(job, heldByOthers, fs.tree, source, target);
    if target in heldByOthers {
      NoNameIsLeft(job, heldByOthers, fs.tree, source, target);
      choice := NoName;
      return;
    }
    var same := source == target;
    if !same {
      var answer;
      same, answer := SameFile(source, target, fs);
      compared := Some(answer);
      LeakMeans(compared, target);
      if answer.Fault? {
        leaked := {target};
        choice := Halt(Failed(Fault));
        return;
      }
    }
    if same {
      targets.Release([target]);
      OnePath(target);
      SameMaySkip(job, fs.aliases, heldByOthers, fs.tree, source, target);
      choice := PassOver;
      return;
    }
    if Exists(fs.tree, target) && !job.policy.Replace? {
      NoNameIsLeft(job, heldByOthers, fs.tree, source, target);
    }
    LandsThere(job, fs.aliases, heldByOthers, fs.tree, source, target);
    choice := Place;
  }

  /** The transfer of one source. */
  method TransferRoot(
    job: Job, source: Path, fs: FileSystem, control: Control, runtime: Runtime, sequence: TempSequence,
    targets: ReservedTargets)
    returns (result: RootResult, target: Path, compared: Option<IoResult>, replacing: bool, started: bool,
             backup: Path, held: seq<Path>, leaked: set<Path>, unseen: bool)
    requires runtime.Valid() && !(source <= job.destination)
    requires BetweenRoots(fs.tree, runtime.created, runtime.tracked, job.destination, sequence.process, sequence.next)
    modifies fs, control, sequence, targets
    modifies runtime`created, runtime`tracked, runtime`copiedSources, runtime`completedRoots
    ensures runtime.Valid() && ParentClosed(fs.tree)
    ensures result.Transferred? || result.Skipped? ==>
              BetweenRoots(fs.tree, runtime.created, runtime.tracked, job.destination, sequence.process, sequence.next)
    ensures !started ==>
              !result.Transferred? && fs.tree == old(fs.tree) && runtime.created == old(runtime.created)
    ensures RecordsAreGone(runtime.created, old(fs.tree))
    ensures replacing ==> started && job.policy.Replace? && Exists(old(fs.tree), target)
    ensures started ==>
              && source != [] && source in old(fs.tree) && IsChild(target, job.destination)
              && (result.Transferred? || result.Stopped?) && held == [target]
    ensures started && replacing ==>
              RootEffect(job.kind, source, target, job.destination, old(fs.tree), fs.tree, true)
    ensures started && !replacing ==>
              && Placed(job.kind, source, target, old(fs.tree), old(runtime.created), fs.tree, runtime.created,
                        result.Transferred?)
              && !Exists(old(fs.tree), target)
              && RootEffect(job.kind, source, target, job.destination, old(fs.tree), fs.tree,
                            result.Transferred? && target in old(fs.tree))
    ensures result.Transferred? ==>
              && IsCopy(old(fs.tree), source, fs.tree, target)
              && (job.kind.Move? && Unrelated(source, target) ==> forall p :: source <= p ==> p !in fs.tree)
    ensures replacing || (started && job.policy.Skip?) ==> target == Base(job.destination, source)
    ensures runtime.completedRoots ==
              old(runtime.completedRoots) + if result.Transferred? then [CompletedRoot(source, target)] else []
    ensures result.Stopped? || result.Crowded? ==>
              SafelyConserved(old(fs.tree), source, target, backup, fs.tree, runtime.created)
    ensures result.Stopped? && replacing ==>
              SafelyReplaced(old(fs.tree), source, target, backup, fs.tree, runtime.created)
    ensures Elements(held) !! old(targets.reserved) && leaked !! old(targets.reserved)
    ensures targets.reserved == old(targets.reserved) + Elements(held) + leaked
    ensures leaked == Leak(compared, target)
    ensures compared == Some(Fault) ==> result == Stopped(Failed(Fault)) && !started && held == []
    ensures result.Stopped? ==> !result.reason.Ok? && (result.reason.Cancelled? ==> control.raised)
    ensures old(control.raised) ==> control.raised
    ensures result.Skipped? ==> unseen || MaySkip(job, fs.aliases, old(targets.reserved), old(fs.tree), source)
    ensures unseen ==> result.Skipped? && fs.faults > old(fs.faults)
    ensures result.Skipped? ==> held == []
    ensures started ==> Accounted(job, fs.aliases, old(targets.reserved), old(fs.tree), source, Some(target))
    ensures result.Crowded? ==>
              || (source != [] && NoNameLeft(job, old(targets.reserved), old(fs.tree), source))
              || Issued(target, sequence.process, sequence.next)
    ensures result.Stopped? && result.reason.Failed? ==>
              || fs.faults > old(fs.faults)
              || (started && !replacing && target in old(fs.tree))
              || (job.kind.Move? && !(NoneBelow(old(runtime.copiedSources), source) && Unrelated(source, target)))
    ensures forall p :: p in runtime.copiedSources ==> p in old(runtime.copiedSources) || source <= p
    ensures fs.faults >= old(fs.faults) && sequence.next >= old(sequence.next)
  {
    hide *;
    replacing, started, backup, held := false, false, source, [];
    NoPath();
    BetweenRootsParts(fs.tree, runtime.created, runtime.tracked, job.destination, sequence.process, sequence.next);
    var choice;
    choice, target, compared, leaked, unseen := ChooseTarget(job, source, fs, control, targets);
    NothingStopped(fs.tree, runtime.created, runtime.tracked, job.destination, sequence.process, sequence.next,
                   source, target);
    backup := target;
    if choice != Place {
      result := match choice
        case PassOver => Skipped
        case Halt(reason) => Stopped(reason)
        case _ => Crowded;
      return;
    }
    held := [target];
    OnePath(target);
    var occupied := Exists(fs.tree, target) && !job.policy.Replace?;
    if occupied || exists p :: p in runtime.tracked && target <= p {
      if !occupied {
        ghost var p :| p in runtime.tracked && target <= p;
        TrackedIsIssued(runtime.tracked, job.destination, sequence.process, sequence.next, target, p);
      }
      result := Crowded;
      return;
    }
    NothingBelowIt(runtime.tracked, target);
    replacing := job.policy.Replace? && Exists(fs.tree, target);
    started := true;
    var ended;
    ended, backup := StartRoot(job, source, target, replacing, fs, control, runtime, sequence);
    result := if ended.Ok? then Transferred else Stopped(ended);
  }

  /** Bytes begin to move: the root replaces what stands at its target, or it
      takes a target that is free. */
  method StartRoot(
    job: Job, source: Path, target: Path, replacing: bool,
    fs: FileSystem, control: Control, runtime: Runtime, sequence: TempSequence)
    returns (ended: Result, backup: Path)
    requires runtime.Valid() && !(source <= job.destination) && source in fs.tree && source != target
    requires BetweenRoots(fs.tree, runtime.created, runtime.tracked, job.destination, sequence.process, sequence.next)
    requires IsChild(target, job.destination) && NothingBelow(runtime.tracked, target)
    requires replacing <==> Exists(fs.tree, target)
    modifies fs, control, sequence
    modifies runtime`created, runtime`tracked, runtime`copiedSources, runtime`completedRoots
    ensures runtime.Valid() && ParentClosed(fs.tree)
    ensures ended.Ok? ==>
              BetweenRoots(fs.tree, runtime.created, runtime.tracked, job.destination, sequence.process, sequence.next)
    ensures RecordsAreGone(runtime.created, old(fs.tree))
    ensures replacing ==> RootEffect(job.kind, source, target, job.destination, old(fs.tree), fs.tree, true)
    ensures !replacing ==>
              && Placed(job.kind, source, target, old(fs.tree), old(runtime.created), fs.tree, runtime.created,
                   ended.Ok?)
              && RootEffect(job.kind, source, target, job.destination, old(fs.tree), fs.tree,
                            ended.Ok? && target in old(fs.tree))
    ensures ended.Ok? ==>
              && IsCopy(old(fs.tree), source, fs.tree, target)
              && (job.kind.Move? && Unrelated(source, target) ==> forall p :: source <= p ==> p !in fs.tree)
    ensures runtime.completedRoots ==
              old(runtime.completedRoots) + if ended.Ok? then [CompletedRoot(source, target)] else []
    ensures !ended.Ok? ==> SafelyConserved(old(fs.tree), source, target, backup, fs.tree, runtime.created)
    ensures !ended.Ok? && replacing ==>
              SafelyReplaced(old(fs.tree), source, target, backup, fs.tree, runtime.created)
    ensures ended.Cancelled? ==> control.raised
    ensures old(control.raised) ==> control.raised
    ensures ended.Failed? ==>
              || fs.faults > old(fs.faults) || (!replacing && target in old(fs.tree))
              || (job.kind.Move? && !(NoneBelow(old(runtime.copiedSources), source) && Unrelated(source, target)))
    ensures forall p :: p in runtime.copiedSources ==> p in old(runtime.copiedSources) || source <= p
    ensures fs.faults >= old(fs.faults) && sequence.next >= old(sequence.next)
  {
    hide *;
    ghost var start, earlier := fs.tree, runtime.created;
    BetweenRootsParts(start, earlier, runtime.tracked, job.destination, sequence.process, sequence.next);
    OnlyLinksAreBroken(start, target);
    if replacing {
      ended, backup := ReplaceRoot(job.kind, source, target, job.destination, fs, control, runtime, sequence);
    } else {
      backup := target;
      ended := PlaceRoot(job.kind, source, target, job.destination, fs, control, runtime, sequence);
      PlacedParts(job.kind, source, target, start, earlier, fs.tree, runtime.created, ended.Ok?);
      PlacedEffect(job.kind, source, target, job.destination, start, earlier, fs.tree, runtime.created, ended.Ok?);
      PlacedRecords(start, earlier, runtime.created, target);
    }
  }

  lemma GoneMaySkip(job: Job, aliases: set<(Path, Path)>, taken: set<Path>, tree: Tree, source: Path)
    ensures source !in tree || source == [] ==> MaySkip(job, aliases, taken, tree, source)
  {
  }

  lemma TakenMaySkip(job: Job, aliases: set<(Path, Path)>, taken: set<Path>, tree: Tree, source: Path)
    requires source != [] && job.policy.Skip? && !Free(tree, taken, Base(job.destination, source))
    ensures MaySkip(job, aliases, taken, tree, source)
  {
  }

  lemma IsTargetMeans(job: Job, taken: set<Path>, tree: Tree, source: Path, target: Path)
    requires source != []
    ensures IsTarget(job, taken, tree, source, target) <==>
            HandedOut(Base(job.destination, source), IsDirectory(tree, source), job.policy, tree, taken, target)
  {
  }

  lemma SameMaySkip(
    job: Job, aliases: set<(Path, Path)>, taken: set<Path>, tree: Tree, source: Path, target: Path)
    requires source != [] && IsTarget(job, taken, tree, source, target)
    requires source == target || (target in tree && (source, target) in aliases)
    ensures MaySkip(job, aliases, taken, tree, source)
  {
    hide IsTarget;
    assert SameItem(aliases, tree, source, target);
  }

  lemma LandsThere(job: Job, aliases: set<(Path, Path)>, taken: set<Path>, tree: Tree, source: Path, target: Path)
    requires source in tree && source != [] && IsTarget(job, taken, tree, source, target)
    requires source != target && !(target in tree && (source, target) in aliases)
    ensures Accounted(job, aliases, taken, tree, source, Some(target))
  {
  }

  lemma NoNameIsLeft(job: Job, taken: set<Path>, tree: Tree, source: Path, target: Path)
    requires source != [] && IsTarget(job, taken, tree, source, target)
    requires job.policy.Skip? ==> Free(tree, taken, Base(job.destination, source))
    requires target in taken || (Exists(tree, target) && !job.policy.Replace?)
    ensures NoNameLeft(job, taken, tree, source)
  {
    TakenIsNotFree(tree, taken, target);
    TakenMeansAllTaken(Base(job.destination, source), IsDirectory(tree, source), job.policy, tree, taken, target);
  }

  lemma TrackedIsIssued(tracked: set<Path>, destination: Path, process: nat, next: nat, target: Path, p: Path)
    requires Leftover(tracked, destination, process, next) && IsChild(target, destination)
    requires p in tracked && target <= p
    ensures Issued(target, process, next)
  {
    var q :| q <= p && IsChild(q, destination) && Issued(q, process, next);
    PrefixesAreComparable(q, target, p);
  }

  lemma LeakMeans(compared: Option<IoResult>, target: Path)
    ensures Leak(compared, target) == if compared == Some(Fault) then {target} else {}
  {
  }

  lemma PlacedRecords(start: Tree, earlier: seq<Path>, created: seq<Path>, target: Path)
    requires forall p :: p in earlier ==> p !in start
    requires forall p :: p in created ==> p in earlier || (p !in start && target <= p)
    ensures RecordsAreGone(created, start)
  {
  }

  lemma NothingStopped(
    tree: Tree, created: seq<Path>, tracked: set<Path>, destination: Path, process: nat, next: nat,
    source: Path, target: Path)
    requires BetweenRoots(tree, created, tracked, destination, process, next)
    ensures SafelyConserved(tree, source, target, target, tree, created)
    ensures RecordsAreGone(created, tree)
  {
    UnchangedIsCopy(tree, tree, source);
  }

  lemma ChildFromParent(target: Path, base: Path, destination: Path)
    requires target != [] && base != [] && Parent(target) == Parent(base) && Parent(base) == destination
    ensures IsChild(target, destination)
  {
  }

  lemma TakenIsNotFree(tree: Tree, reserved: set<Path>, path: Path)
    ensures Exists(tree, path) || path in reserved ==> !Free(tree, reserved, path)
  {
  }

  lemma OnePath(path: Path)
    ensures Elements([path]) == {path}
  {
  }

  lemma NoPath()
    ensures Elements<Path>([]) == {}
  {
  }

  lemma NothingBelowIt(tracked: set<Path>, target: Path)
    requires !exists p :: p in tracked && target <= p
    ensures NothingBelow(tracked, target)
  {
  }

  // ----- The run -----

  lemma NoRecords(tree: Tree, runtime: Runtime, destination: Path, process: nat, next: nat)
    requires runtime.Valid() && runtime.created == []
    requires ParentClosed(tree) && destination in tree && tree[destination].Directory?
    ensures BetweenRoots(tree, runtime.created, runtime.tracked, destination, process, next)
  {
  }

  lemma MoreHeld(held: seq<Path>, more: seq<Path>)
    ensures Elements(held + more) == Elements(held) + Elements(more)
  {
  }

  lemma LandedEffect(
    job: Job, source: Path, target: Path, start: Tree, earlier: seq<Path>, after: Tree, created: seq<Path>,
    replacing: bool)
    requires source in start
    requires replacing ==>
               && job.policy.Replace? && Exists(start, target) && source != []
               && target == Base(job.destination, source)
               && RootEffect(job.kind, source, target, job.destination, start, after, true)
    requires !replacing ==>
               && Placed(job.kind, source, target, start, earlier, after, created, true) && !Exists(start, target)
               && RootEffect(job.kind, source, target, job.destination, start, after, target in start)
    ensures RootEffect(job.kind, source, target, job.destination, start, after, target in start)
    ensures target in start ==> GivesWay(job, start, source, target)
  {
    hide RootEffect, Placed;
    OnlyLinksAreBroken(start, target);
    if !replacing {
      PlacedParts(job.kind, source, target, start, earlier, after, created, true);
    }
  }

  lemma NothingRecorded(
    job: Job, before: Tree, tree: Tree, held: set<Path>, created: seq<Path>, roots: seq<CompletedRoot>)
    requires !job.policy.Replace? ==> ReplacesNothing(job, before, tree, held, created, roots)
    ensures !job.policy.Replace? ==> created == []
  {
    hide OnlyCopiesAdded;
  }

  lemma RootStopped(
    job: Job, start: Tree, source: Path, landed: seq<Option<Path>>, held: set<Path>, target: Path, backup: Path,
    started: bool, replacing: bool, after: Tree, earlier: seq<Path>, created: seq<Path>)
    requires RecordsAreGone(created, start) && LandedAreHeld(landed, held)
    requires SafelyConserved(start, source, target, backup, after, created)
    requires !started ==> !replacing && after == start && created == earlier
    requires !job.policy.Replace? ==> earlier == []
    requires started ==> source in start && IsChild(target, job.destination) && target !in held
    requires replacing ==>
               && job.policy.Replace? && Exists(start, target) && source != []
               && target == Base(job.destination, source)
               && SafelyReplaced(start, source, target, backup, after, created)
               && RootEffect(job.kind, source, target, job.destination, start, after, true)
    requires started && !replacing ==>
               && Placed(job.kind, source, target, start, earlier, after, created, false)
               && RootEffect(job.kind, source, target, job.destination, start, after, false)
    ensures StoppedAt(job, start, source, landed, target, backup, replacing, after, created)
  {
    hide SafelyConserved, SafelyReplaced, RootEffect, Placed, Grown, Exists;
    if started && !replacing {
      PlacedParts(job.kind, source, target, start, earlier, after, created, false);
    }
  }

  // ----- All that a run keeps from root to root -----

  ghost predicate RunKept(
    job: Job, aliases: set<(Path, Path)>, others: set<Path>, trees: seq<Tree>, landed: seq<Option<Path>>,
    held: set<Path>, created: seq<Path>, roots: seq<CompletedRoot>, places: seq<Path>, blind: set<nat>,
    copied: seq<Path>)
  {
    && RunSoFar(job, trees, landed, held, created, roots, places)
    && held == Targets(landed) && AllAccounted(job, aliases, others, trees, landed, blind)
    && CopiedFromSources(job, copied, |landed|)
  }

  lemma KeptParts(
    job: Job, aliases: set<(Path, Path)>, others: set<Path>, trees: seq<Tree>, landed: seq<Option<Path>>,
    held: set<Path>, created: seq<Path>, roots: seq<CompletedRoot>, places: seq<Path>, blind: set<nat>,
    copied: seq<Path>)
    requires RunKept(job, aliases, others, trees, landed, held, created, roots, places, blind, copied)
    ensures RunSoFar(job, trees, landed, held, created, roots, places)
    ensures |trees| == |landed| + 1 <= |job.sources| + 1
    ensures held == Targets(landed) && AllAccounted(job, aliases, others, trees, landed, blind)
    ensures CopiedFromSources(job, copied, |landed|)
  {
    hide RunSoFar, AllAccounted, CopiedFromSources, Targets;
    RunParts(job, trees, landed, held, created, roots, places);
  }

  lemma KeptAtStart(job: Job, aliases: set<(Path, Path)>, others: set<Path>, before: Tree)
    requires forall i :: 0 <= i < |job.sources| ==> !(job.sources[i] <= job.destination)
    ensures RunKept(job, aliases, others, [before], [], {}, [], [], job.sources, {}, [])
  {
    hide RunSoFar, AllAccounted, CopiedFromSources, Targets;
    RunStarts(job, before, {});
    NothingAccounted(job, aliases, others, [before]);
  }

  lemma SkippedKept(
    job: Job, aliases: set<(Path, Path)>, others: set<Path>, trees: seq<Tree>, landed: seq<Option<Path>>,
    held: set<Path>, created: seq<Path>, roots: seq<CompletedRoot>, places: seq<Path>, blind: set<nat>,
    copied: seq<Path>,
    unseen: bool, after: seq<Path>)
    requires RunKept(job, aliases, others, trees, landed, held, created, roots, places, blind, copied)
    requires |landed| < |job.sources| && |trees| == |landed| + 1
    requires unseen || MaySkip(job, aliases, others + held, trees[|landed|], job.sources[|landed|])
    requires forall p :: p in after ==> p in copied || job.sources[|landed|] <= p
    ensures RunKept(job, aliases, others, trees + [trees[|landed|]], landed + [None], held, created, roots, places,
                    if unseen then blind + {|landed|} else blind, after)
  {
    hide RunSoFar, AllAccounted, CopiedFromSources, Targets, MaySkip, Accounted;
    var tree, k := trees[|landed|], |landed|;
    RunParts(job, trees, landed, held, created, roots, places);
    RootSkipped(job, trees, landed, held, created, roots, places);
    RunParts(job, trees + [tree], landed + [None], held, created, roots, places);
    OneMoreTarget(landed, None);
    SkippedIsAccounted(job, aliases, others + held, tree, job.sources[k]);
    OneMoreAccounted(job, aliases, others, trees, landed, blind, tree, None, unseen);
    MoreCopied(job, copied, after, k);
  }

  lemma LandedKept(
    job: Job, aliases: set<(Path, Path)>, others: set<Path>, trees: seq<Tree>, landed: seq<Option<Path>>,
    held: set<Path>, created: seq<Path>, roots: seq<CompletedRoot>, places: seq<Path>, blind: set<nat>,
    copied: seq<Path>,
    target: Path, after: Tree, createdNow: seq<Path>, replacing: bool, copiedNow: seq<Path>)
    requires RunKept(job, aliases, others, trees, landed, held, created, roots, places, blind, copied)
    requires |trees| == |landed| + 1 <= |job.sources| && |job.sources| == |places|
    requires ParentClosed(trees[0]) && ParentClosed(trees[|landed|]) && !(job.sources[|landed|] <= job.destination)
    requires job.sources[|landed|] in trees[|landed|] && IsChild(target, job.destination) && target !in held
    requires IsCopy(trees[|landed|], job.sources[|landed|], after, target)
    requires job.kind.Move? && Unrelated(job.sources[|landed|], target) ==>
               forall p :: job.sources[|landed|] <= p ==> p !in after
    requires replacing ==>
               && job.policy.Replace? && Exists(trees[|landed|], target) && job.sources[|landed|] != []
               && target == Base(job.destination, job.sources[|landed|])
               && RootEffect(job.kind, job.sources[|landed|], target, job.destination, trees[|landed|], after, true)
    requires !replacing ==>
               && Placed(job.kind, job.sources[|landed|], target, trees[|landed|], created, after, createdNow, true)
               && !Exists(trees[|landed|], target)
               && RootEffect(job.kind, job.sources[|landed|], target, job.destination, trees[|landed|], after,
                             target in trees[|landed|])
    requires !job.policy.Replace? ==> !replacing
    requires Accounted(job, aliases, others + held, trees[|landed|], job.sources[|landed|], Some(target))
    requires forall p :: p in copiedNow ==> p in copied || job.sources[|landed|] <= p
    ensures RunKept(job, aliases, others, trees + [after], landed + [Some(target)], held + {target}, createdNow,
                    roots + [CompletedRoot(job.sources[|landed|], target)], places[|landed| := target], blind,
                    copiedNow)
  {
    hide *;
    var tree, k := trees[|landed|], |landed|;
    KeptParts(job, aliases, others, trees, landed, held, created, roots, places, blind, copied);
    LandedEffect(job, job.sources[k], target, tree, created, after, createdNow, replacing);
    RootLanded(job, trees, landed, held, created, roots, places, target, after, createdNow, target in tree);
    OneMoreTarget(landed, Some(target));
    OneMoreAccounted(job, aliases, others, trees, landed, blind, after, Some(target), false);
    MoreCopied(job, copied, copiedNow, k);
    KeptTogether(job, aliases, others, trees + [after], landed + [Some(target)], held + {target}, createdNow,
                 roots + [CompletedRoot(job.sources[k], target)], places[k := target], blind, copiedNow);
  }

  lemma KeptTogether(
    job: Job, aliases: set<(Path, Path)>, others: set<Path>, trees: seq<Tree>, landed: seq<Option<Path>>,
    held: set<Path>, created: seq<Path>, roots: seq<CompletedRoot>, places: seq<Path>, blind: set<nat>,
    copied: seq<Path>)
    requires RunSoFar(job, trees, landed, held, created, roots, places)
    requires |landed| <= |trees| && |landed| <= |job.sources|
    requires held == Targets(landed) && AllAccounted(job, aliases, others, trees, landed, blind)
    requires CopiedFromSources(job, copied, |landed|)
    ensures RunKept(job, aliases, others, trees, landed, held, created, roots, places, blind, copied)
  {
    hide RunSoFar, AllAccounted, CopiedFromSources, Targets;
  }

  /** One pass of the loop over the roots. */
  method RunRoot(
    job: Job, k: nat, fs: FileSystem, control: Control, runtime: Runtime, sequence: TempSequence,
    targets: ReservedTargets, ghost others: set<Path>, ghost held: seq<Path>,
    ghost trees: seq<Tree>, ghost landed: seq<Option<Path>>, ghost places: seq<Path>, ghost blind: set<nat>)
    returns (ended: RootResult, target: Path, compared: Option<IoResult>, replacing: bool, backup: Path,
             more: seq<Path>, leaked: set<Path>, ghost treesNow: seq<Tree>, ghost landedNow: seq<Option<Path>>,
             ghost placesNow: seq<Path>, ghost blindNow: set<nat>)
    requires runtime.Valid() && k < |job.sources| && !(job.sources[k] <= job.destination)
    requires BetweenRoots(fs.tree, runtime.created, runtime.tracked, job.destination, sequence.process, sequence.next)
    requires |trees| == k + 1 && |landed| == k && trees[k] == fs.tree && ParentClosed(trees[0])
    requires RunKept(job, fs.aliases, others, trees, landed, Elements(held), runtime.created,
                     runtime.completedRoots, places, blind, runtime.copiedSources)
    requires targets.reserved == others + Elements(held)
    modifies fs, control, sequence, targets
    modifies runtime`created, runtime`tracked, runtime`copiedSources, runtime`completedRoots
    ensures runtime.Valid() && ParentClosed(fs.tree)
    ensures Elements(more) !! old(targets.reserved) && leaked !! old(targets.reserved)
    ensures targets.reserved == old(targets.reserved) + Elements(more) + leaked
    ensures leaked == Leak(compared, target)
    ensures compared == Some(Fault) ==> ended == Stopped(Failed(Fault)) && more == []
    ensures ended.Transferred? || ended.Skipped? ==>
              && BetweenRoots(fs.tree, runtime.created, runtime.tracked, job.destination, sequence.process,
                              sequence.next)
              && |treesNow| == k + 2 && |landedNow| == k + 1 && treesNow[k + 1] == fs.tree && treesNow[0] == trees[0]
              && RunKept(job, fs.aliases, others, treesNow, landedNow, Elements(held + more), runtime.created,
                         runtime.completedRoots, placesNow, blindNow, runtime.copiedSources)
    ensures ended.Stopped? || ended.Crowded? ==>
              && treesNow == trees && landedNow == landed && placesNow == places && blindNow == blind
              && RunSoFar(job, trees, landed, Elements(held + more), old(runtime.created),
                          runtime.completedRoots, places)
              && AllAccounted(job, fs.aliases, others, trees, landed, blind)
              && StoppedAt(job, trees[k], job.sources[k], landed, target, backup, replacing, fs.tree, runtime.created)
              && (ended != Stopped(Cancelled) ==>
                    || fs.faults > old(fs.faults)
                    || StopExplained(job, others, trees, landed, ended.Crowded?, target, sequence.process,
                                     sequence.next))
    ensures fs.faults >= old(fs.faults) && (blindNow != blind ==> fs.faults > old(fs.faults))
    ensures ended == Stopped(Cancelled) ==> control.raised
    ensures old(control.raised) ==> control.raised
  {
    hide *;
    ghost var tree, earlier, roots := fs.tree, runtime.created, runtime.completedRoots;
    ghost var source, copied := job.sources[k], runtime.copiedSources;
    treesNow, landedNow, placesNow, blindNow := trees, landed, places, blind;
    BetweenRootsParts(tree, earlier, runtime.tracked, job.destination, sequence.process, sequence.next);
    KeptParts(job, fs.aliases, others, trees, landed, Elements(held), earlier, roots, places, blind, copied);
    RunParts(job, trees, landed, Elements(held), earlier, roots, places);
    var started, unseen;
    ended, target, compared, replacing, started, backup, more, leaked, unseen :=
      TransferRoot(job, job.sources[k], fs, control, runtime, sequence, targets);
    MoreHeld(held, more);
    if ended.Stopped? || ended.Crowded? {
      NothingRecorded(job, trees[0], tree, Elements(held), earlier, roots);
      RootStopped(job, tree, source, landed, Elements(held), target, backup, started, replacing,
                  fs.tree, earlier, runtime.created);
      assert roots + [] == roots;
      MoreIsHeld(job, trees, landed, Elements(held), Elements(held + more), earlier, roots, places);
      if ended != Stopped(Cancelled) && fs.faults == old(fs.faults) {
        StopIsExplained(job, others, trees, landed, ended.Crowded?, target, sequence.process, sequence.next, copied,
                        ended.Stopped? && started && !replacing && target in tree);
      }
    } else if ended.Transferred? {
      OnePath(target);
      PlacesAsMany(job, landed, places);
      LandedKept(job, fs.aliases, others, trees, landed, Elements(held), earlier, roots, places, blind,
                 copied, target, fs.tree, runtime.created, replacing, runtime.copiedSources);
      treesNow, landedNow, placesNow := trees + [fs.tree], landed + [Some(target)], places[k := target];
    } else {
      assert held + more == held && roots + [] == roots;
      SkippedKept(job, fs.aliases, others, trees, landed, Elements(held), earlier, roots, places,
                  blind, copied, unseen, runtime.copiedSources);
      treesNow, landedNow, blindNow := trees + [tree], landed + [None], if unseen then blind + {k} else blind;
    }
  }

  method RunRoots(
    job: Job, fs: FileSystem, control: Control, runtime: Runtime, sequence: TempSequence, targets: ReservedTargets)
    returns (result: RunResult, held: seq<Path>, leaked: set<Path>, compared: Option<IoResult>,
             target: Path, backup: Path, replacing: bool,
             ghost trees: seq<Tree>, ghost landed: seq<Option<Path>>, ghost places: seq<Path>, ghost blind: set<nat>)
    requires runtime.Valid() && runtime.created == [] && runtime.completedRoots == [] && runtime.copiedSources == []
    requires ParentClosed(fs.tree) && job.destination in fs.tree && fs.tree[job.destination].Directory?
    requires forall i :: 0 <= i < |job.sources| ==> !(job.sources[i] <= job.destination)
    modifies fs, control, sequence, targets
    modifies runtime`created, runtime`tracked, runtime`copiedSources, runtime`completedRoots
    ensures |trees| == |landed| + 1 <= |job.sources| + 1 && trees[0] == old(fs.tree)
    ensures ParentClosed(fs.tree) && ParentClosed(trees[|landed|])
    ensures exists earlier :: RunSoFar(job, trees, landed, Elements(held), earlier, runtime.completedRoots, places)
    ensures !result.Rejected?
    ensures result.AllDone? ==> |landed| == |job.sources| && trees[|landed|] == fs.tree
    ensures result.Ended? ==>
              && |landed| < |job.sources| && (result.why.Stopped? || result.why.Crowded?)
              && StoppedAt(job, trees[|landed|], job.sources[|landed|], landed, target, backup, replacing,
                           fs.tree, runtime.created)
    ensures Elements(held) !! old(targets.reserved) && leaked !! old(targets.reserved) && leaked !! Elements(held)
    ensures targets.reserved == old(targets.reserved) + Elements(held) + leaked
    ensures leaked == Leak(compared, target)
    ensures compared == Some(Fault) ==> result == Ended(Stopped(Failed(Fault)))
    ensures result.Ended? && result.why == Stopped(Cancelled) ==> control.raised
    ensures old(control.raised) ==> control.raised
    ensures AllAccounted(job, fs.aliases, old(targets.reserved), trees, landed, blind)
    ensures fs.faults >= old(fs.faults) && (blind != {} ==> fs.faults > old(fs.faults))
    ensures result.Ended? && result.why != Stopped(Cancelled) ==>
              || fs.faults > old(fs.faults)
              || StopExplained(job, old(targets.reserved), trees, landed, result.why.Crowded?, target,
                               sequence.process, sequence.next)
  {
    hide *;
    ghost var before := fs.tree;
    held, leaked, compared, target, backup, replacing := [], {}, None, [], [], false;
    trees, landed, places, blind := [before], [], job.sources, {};
    NoPath();
    LeakMeans(None, target);
    KeptAtStart(job, fs.aliases, targets.reserved, before);
    NoRecords(before, runtime, job.destination, sequence.process, sequence.next);
    KeptParts(job, fs.aliases, targets.reserved, trees, landed, {}, [], [], places, blind, []);
    for k := 0 to |job.sources|
      invariant runtime.Valid()
      invariant BetweenRoots(fs.tree, runtime.created, runtime.tracked, job.destination, sequence.process,
                             sequence.next)
      invariant |trees| == k + 1 && |landed| == k && trees[0] == before && trees[k] == fs.tree
      invariant RunKept(job, fs.aliases, old(targets.reserved), trees, landed, Elements(held), runtime.created,
                        runtime.completedRoots, places, blind, runtime.copiedSources)
      invariant Elements(held) !! old(targets.reserved) && leaked == {} && leaked == Leak(compared, target)
      invariant compared != Some(Fault)
      invariant targets.reserved == old(targets.reserved) + Elements(held)
      invariant old(control.raised) ==> control.raised
      invariant fs.faults >= old(fs.faults) && (blind != {} ==> fs.faults > old(fs.faults))
    {
      BetweenRootsParts(fs.tree, runtime.created, runtime.tracked, job.destination, sequence.process, sequence.next);
      var ended, more;
      ended, target, compared, replacing, backup, more, leaked, trees, landed, places, blind :=
        RunRoot(job, k, fs, control, runtime, sequence, targets, old(targets.reserved), held, trees, landed, places,
                blind);
      MoreHeld(held, more);
      LeakMeans(compared, target);
      NoPath();
      held := held + more;
      if ended.Stopped? || ended.Crowded? {
        result := Ended(ended);
        return;
      }
    }
    KeptParts(job, fs.aliases, old(targets.reserved), trees, landed, Elements(held), runtime.created,
              runtime.completedRoots, places, blind, runtime.copiedSources);
    BetweenRootsParts(fs.tree, runtime.created, runtime.tracked, job.destination, sequence.process, sequence.next);
    result := AllDone;
  }

  // ----- Cleanup, and the whole run -----

  lemma NotCleaned(tree: Tree, created: seq<Path>)
    requires ParentClosed(tree)
    ensures OnlyListedRemoved(tree, tree, created)
  {
  }

  lemma RemovalKeepsParents(before: Tree, after: Tree, listed: seq<Path>)
    requires OnlyListedRemoved(before, after, listed)
    ensures ParentClosed(after)
  {
  }

  /** A cancelled copy whose cleanup met no fault leaves what the last completed
      root had left. */
  lemma CopyIsUndone(
    job: Job, start: Tree, source: Path, landed: seq<Option<Path>>, target: Path, backup: Path, replacing: bool,
    after: Tree, created: seq<Path>, final: Tree)
    requires StoppedAt(job, start, source, landed, target, backup, replacing, after, created)
    requires OnlyListedRemoved(after, final, created)
    requires Grown(start, [], after, created, target) ==> final == start
    ensures job.kind.Copy? && !job.policy.Replace? ==> final == start
  {
    hide *;
    StopParts(job, start, source, landed, target, backup, replacing, after, created);
    if after == start {
      NothingTakenBack(start, final, created);
    }
  }

  lemma OnlyCopies(
    job: Job, before: Tree, tree: Tree, held: set<Path>, created: seq<Path>, roots: seq<CompletedRoot>)
    requires !job.policy.Replace? ==> ReplacesNothing(job, before, tree, held, created, roots)
    ensures job.kind.Copy? && !job.policy.Replace? ==> OnlyCopiesAdded(before, tree, roots)
  {
    hide OnlyCopiesAdded;
  }

  /** The whole run. `trees` holds the tree before the run and after each root
      that went through, `landed` where these went; `over` are the targets that
      were written over, and `places` says where each source is in the end. */
  method RunTransfer(
    job: Job, fs: FileSystem, control: Control, sequence: TempSequence, targets: ReservedTargets)
    returns (result: RunResult, completed: seq<CompletedRoot>, cleanup: Option<nat>, leaked: set<Path>,
             compared: Option<IoResult>, target: Path, backup: Path, replacing: bool,
             ghost trees: seq<Tree>, ghost landed: seq<Option<Path>>, ghost over: set<Path>, ghost places: seq<Path>,
             ghost blind: set<nat>)
    requires ParentClosed(fs.tree)
    modifies fs, control, sequence, targets
    ensures ParentClosed(fs.tree)
    ensures result.Rejected? ==> fs.tree == old(fs.tree) && leaked == {} && completed == []
    ensures result == Rejected(Failed(Refused)) ==>
              || job.destination !in fs.tree || !fs.tree[job.destination].Directory?
              || exists i :: 0 <= i < |job.sources| && job.sources[i] in fs.tree && job.sources[i] <= job.destination
    ensures !result.Rejected? ==>
              && RootByRoot(job, trees, landed) && trees[0] == old(fs.tree)
              && completed == Completed(job.sources, landed)
              && over == With(Overwritten(trees, landed), result.Ended? && replacing, target)
              && Guarantees(job, trees, landed, over, completed, places,
                            result.AllDone? || cleanup == Some(0), fs.tree)
    ensures result.AllDone? ==> |landed| == |job.sources| && trees[|landed|] == fs.tree
    ensures result.Ended? ==>
              && |landed| < |job.sources|
              && Conserved(trees[|landed|], job.sources[|landed|], target, backup, fs.tree)
              && (replacing ==>
                    && job.policy.Replace? && Exists(trees[|landed|], target) && job.sources[|landed|] != []
                    && target == Base(job.destination, job.sources[|landed|])
                    && ReplacedIsSafe(trees[|landed|], job.sources[|landed|], target, backup, fs.tree))
    ensures result == Ended(Stopped(Cancelled)) ==> cleanup.Some? && control.raised
    ensures result == Rejected(Cancelled) ==> control.raised
    ensures !result.Rejected? ==> AllAccounted(job, fs.aliases, old(targets.reserved), trees, landed, blind)
    ensures blind != {} || result == Rejected(Failed(Fault)) ==> fs.faults > old(fs.faults)
    ensures cleanup.Some? ==> fs.faults >= old(fs.faults) + cleanup.value
    ensures result.Ended? && result.why != Stopped(Cancelled) ==>
              || fs.faults > old(fs.faults)
              || StopExplained(job, old(targets.reserved), trees, landed, result.why.Crowded?, target,
                               sequence.process, sequence.next)
    ensures targets.reserved == old(targets.reserved) + leaked && leaked !! old(targets.reserved)
    ensures leaked == Leak(compared, target)
    ensures compared == Some(Fault) ==> result == Ended(Stopped(Failed(Fault)))
  {
    hide *;
    completed, cleanup, leaked, compared, target, backup, replacing := [], None, {}, None, [], [], false;
    trees, landed, over, places, blind := [fs.tree], [], {}, job.sources, {};
    LeakMeans(compared, target);
    if job.destination !in fs.tree || !fs.tree[job.destination].Directory? {
      result := Rejected(Failed(Refused));
      return;
    }
    var runtime := new Runtime();
    var prepared := Prepare(job, fs, control);
    if !prepared.Ok? {
      result := Rejected(prepared);
      return;
    }
    var held;
    result, held, leaked, compared, target, backup, replacing, trees, landed, places, blind :=
      RunRoots(job, fs, control, runtime, sequence, targets);
    completed := runtime.completedRoots;
    ghost var earlier :| RunSoFar(job, trees, landed, Elements(held), earlier, completed, places);
    RunParts(job, trees, landed, Elements(held), earlier, completed, places);
    OnlyCopies(job, trees[0], trees[|landed|], Elements(held), earlier, completed);
    over := With(Overwritten(trees, landed), result.Ended? && replacing, target);
    WithMeans(Overwritten(trees, landed), result.Ended? && replacing, target);
    if result.Ended? {
      cleanup, places := Clean(job, fs, control, runtime.created, trees, landed, Overwritten(trees, landed), places,
                               target, backup, replacing, result.why.Stopped?);
    }
    Guaranteed(job, trees, landed, over, completed, places, result.AllDone? || cleanup == Some(0), fs.tree);
    targets.Release(held);
  }

  /** What happens to a run that stopped: a cancelled one is cleaned up. */
  method Clean(
    job: Job, fs: FileSystem, control: Control, created: seq<Path>,
    ghost trees: seq<Tree>, ghost landed: seq<Option<Path>>, ghost over: set<Path>, ghost places: seq<Path>,
    ghost target: Path, ghost backup: Path, ghost replacing: bool, stopped: bool)
    returns (cleanup: Option<nat>, ghost finalPlaces: seq<Path>)
    requires RootByRoot(job, trees, landed) && |trees| == |landed| + 1 <= |job.sources|
    requires ParentClosed(fs.tree) && ParentClosed(trees[|landed|])
    requires OthersKept(job, trees[0], over, trees[|landed|]) && RootsStand(job, trees, landed, trees[|landed|])
    requires SourcesKept(job, trees[0], over, trees[|landed|], places) && PlacesAreKnown(job, landed, places)
    requires StoppedAt(job, trees[|landed|], job.sources[|landed|], landed, target, backup, replacing, fs.tree, created)
    modifies fs, control
    ensures ParentClosed(fs.tree)
    ensures OthersKept(job, trees[0], With(over, replacing, target), fs.tree)
    ensures RootsStand(job, trees, landed, fs.tree)
    ensures SourcesKept(job, trees[0], With(over, replacing, target), fs.tree, finalPlaces)
    ensures Conserved(trees[|landed|], job.sources[|landed|], target, backup, fs.tree)
    ensures replacing ==>
              && job.policy.Replace? && Exists(trees[|landed|], target) && job.sources[|landed|] != []
              && target == Base(job.destination, job.sources[|landed|])
              && ReplacedIsSafe(trees[|landed|], job.sources[|landed|], target, backup, fs.tree)
    ensures cleanup == Some(0) && job.kind.Copy? && !job.policy.Replace? ==> fs.tree == trees[|landed|]
    ensures old(control.raised) ==> control.raised && (stopped ==> cleanup.Some?)
    ensures fs.faults == old(fs.faults) + if cleanup.Some? then cleanup.value else 0
  {
    hide *;
    ghost var start, source, after := trees[|landed|], job.sources[|landed|], fs.tree;
    StopParts(job, start, source, landed, target, backup, replacing, after, created);
    cleanup := None;
    var cancelled := control.Poll();
    if cancelled && stopped {
      var faults, refusals := CleanupCreatedTargets(created, fs, start, target);
      cleanup := Some(faults);
      if faults == 0 {
        CopyIsUndone(job, start, source, landed, target, backup, replacing, after, created, fs.tree);
      }
    } else {
      NotCleaned(after, created);
    }
    RemovalKeepsParents(after, fs.tree, created);
    CleanupConserves(start, source, target, backup, after, created, fs.tree);
    finalPlaces := StopKeepsEverything(job, trees, landed, over, places, start, target, backup, replacing, after,
                                       created, fs.tree);
  }
}
