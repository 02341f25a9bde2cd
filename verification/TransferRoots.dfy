/** One root of a local transfer (`src/fs/transfer_queue.rs`, the match inside
    `run_transfer_inner`) and what the final cleanup can still reach. */
module TransferRoots {
  import opened FileTrees
  import opened FileSystems
  import opened TransferCopy
  import opened TransferCleanup
  import opened TransferReplace

  // ----- Data conservation for one root -----

  /** Wherever a move stopped: the source is whole, or the target holds all of it,
      or, for a source inside the item being replaced, that item is whole at the
      backup. */
  ghost predicate Conserved(before: Tree, source: Path, target: Path, backup: Path, after: Tree) {
    || IsCopy(before, source, after, source)
    || IsCopy(before, source, after, target)
    || (target <= source && IsCopy(before, target, after, backup))
  }

  ghost predicate ReplacedIsSafe(before: Tree, source: Path, target: Path, backup: Path, after: Tree) {
    || IsCopy(before, target, after, target)
    || IsCopy(before, target, after, backup)
    || IsCopy(before, source, after, target)
  }

  /** No recorded entry that exists lies at or below the place. */
  ghost predicate Shielded(place: Path, created: seq<Path>, after: Tree) {
    forall p :: p in created && p in after ==> !(place <= p)
  }

  /** The same claims for data that the final cleanup cannot reach. */
  ghost predicate KeptAt(before: Tree, root: Path, after: Tree, place: Path, created: seq<Path>) {
    IsCopy(before, root, after, place) && Shielded(place, created, after)
  }

  ghost predicate SafelyConserved(
    before: Tree, source: Path, target: Path, backup: Path, after: Tree, created: seq<Path>)
  {
    || KeptAt(before, source, after, source, created)
    || KeptAt(before, source, after, target, created)
    || (target <= source && KeptAt(before, target, after, backup, created))
  }

  ghost predicate SafelyReplaced(
    before: Tree, source: Path, target: Path, backup: Path, after: Tree, created: seq<Path>)
  {
    || KeptAt(before, target, after, target, created)
    || KeptAt(before, target, after, backup, created)
    || KeptAt(before, source, after, target, created)
  }

  lemma KeptThroughCleanup(
    before: Tree, root: Path, after: Tree, place: Path, created: seq<Path>, final: Tree)
    requires KeptAt(before, root, after, place, created) && OnlyListedRemoved(after, final, created)
    ensures IsCopy(before, root, final, place)
  {
    forall p | root <= p
      ensures p in before <==> Image(root, place, p) in final
      ensures p in before ==> final[Image(root, place, p)] == before[p]
    {
    }
  }

  /** Cleaning up after a cancelled move or replacement touches neither. */
  lemma CleanupConserves(
    before: Tree, source: Path, target: Path, backup: Path, after: Tree, created: seq<Path>, final: Tree)
    requires OnlyListedRemoved(after, final, created)
    ensures SafelyConserved(before, source, target, backup, after, created) ==>
              Conserved(before, source, target, backup, final)
    ensures SafelyReplaced(before, source, target, backup, after, created) ==>
              ReplacedIsSafe(before, source, target, backup, final)
  {
    hide IsCopy, Shielded, OnlyListedRemoved;
    if KeptAt(before, source, after, source, created) {
      KeptThroughCleanup(before, source, after, source, created, final);
    }
    if KeptAt(before, source, after, target, created) {
      KeptThroughCleanup(before, source, after, target, created, final);
    }
    if KeptAt(before, target, after, backup, created) {
      KeptThroughCleanup(before, target, after, backup, created, final);
    }
    if KeptAt(before, target, after, target, created) {
      KeptThroughCleanup(before, target, after, target, created, final);
    }
  }

  // ----- What one root leaves alone -----

  /** Nothing that stood before is gone or different, apart from a moved source
      and from a target that was written over. */
  ghost predicate KeptBeside(kind: Kind, source: Path, target: Path, before: Tree, after: Tree, over: bool) {
    forall p :: p in before && !(kind.Move? && source <= p) && !(over && target <= p) ==>
      p in after && after[p] == before[p]
  }

  /** Entries of the destination directory that were not there before, and with
      them what lies below. */
  ghost predicate NewSlot(target: Path, destination: Path, before: Tree, over: bool, p: Path) {
    destination < p && (Towards(destination, p) !in before || (over && Towards(destination, p) == target))
  }

  /** Whatever is new or different lies below an entry of the destination that is
      itself new, or below a target that was written over. */
  ghost predicate AddedInNewSlots(target: Path, destination: Path, before: Tree, after: Tree, over: bool) {
    forall p :: p in after && !(p in before && after[p] == before[p]) ==> NewSlot(target, destination, before, over, p)
  }

  /** The frame of one root: `over` says whether something stood at its target
      and was written over. */
  ghost predicate RootEffect(
    kind: Kind, source: Path, target: Path, destination: Path, before: Tree, after: Tree, over: bool)
  {
    && ParentClosed(after)
    && KeptBeside(kind, source, target, before, after, over)
    && AddedInNewSlots(target, destination, before, after, over)
  }

  lemma NoEffect(kind: Kind, source: Path, target: Path, destination: Path, tree: Tree)
    requires ParentClosed(tree)
    ensures RootEffect(kind, source, target, destination, tree, tree, false)
  {
  }

  /** Taking back recorded entries that are new does not change that. */
  lemma EffectAfterCleanup(
    kind: Kind, source: Path, target: Path, destination: Path, before: Tree, after: Tree, over: bool,
    created: seq<Path>, final: Tree)
    requires RootEffect(kind, source, target, destination, before, after, over)
    requires OnlyListedRemoved(after, final, created) && RecordsAreGone(created, before)
    ensures RootEffect(kind, source, target, destination, before, final, over)
  {
  }

  lemma PlacedEffect(
    kind: Kind, source: Path, target: Path, destination: Path, before: Tree, earlier: seq<Path>,
    after: Tree, created: seq<Path>, ok: bool)
    requires Placed(kind, source, target, before, earlier, after, created, ok)
    requires IsChild(target, destination) && ParentClosed(before) && ParentClosed(after)
    ensures RootEffect(kind, source, target, destination, before, after, ok && target in before)
  {
    hide IsCopy, Grown, AddedBelow, ParentClosed;
    if after == before {
      NoEffect(kind, source, target, destination, before);
      Widened(kind, source, target, destination, before, after, ok && target in before);
    } else {
      AdditionsKeep(kind, before, after, target);
      WrittenInSlot(target, destination, before, after, ok && target in before);
      KeptBesideTarget(kind, source, target, before, after, ok && target in before);
    }
  }

  lemma AdditionsKeep(kind: Kind, before: Tree, after: Tree, target: Path)
    requires kind.Copy? ==> AddedBelow(before, after, target)
    ensures kind.Copy? ==> forall p :: p in before ==> p in after && after[p] == before[p]
  {
  }

  lemma Widened(
    kind: Kind, source: Path, target: Path, destination: Path, before: Tree, after: Tree, over: bool)
    requires RootEffect(kind, source, target, destination, before, after, false)
    ensures RootEffect(kind, source, target, destination, before, after, over)
  {
    hide ParentClosed;
  }

  lemma WrittenInSlot(target: Path, destination: Path, before: Tree, after: Tree, over: bool)
    requires WrittenOnlyBelow(before, after, target) && IsChild(target, destination)
    requires over || target !in before
    ensures AddedInNewSlots(target, destination, before, after, over)
  {
    forall p | p in after && !(p in before && after[p] == before[p])
      ensures NewSlot(target, destination, before, over, p)
    {
      TowardsIsUnique(destination, p, target);
    }
  }

  lemma KeptBesideTarget(kind: Kind, source: Path, target: Path, before: Tree, after: Tree, over: bool)
    requires ParentClosed(before) && (over || target !in before)
    requires SameApartFrom(before, after, source, target, target)
    requires kind.Copy? ==> forall p :: p in before ==> p in after && after[p] == before[p]
    ensures KeptBeside(kind, source, target, before, after, over)
  {
    if target !in before {
      NothingBelowMissing(before, target);
    }
  }

  lemma ReplacedEffect(
    kind: Kind, source: Path, staging: Path, target: Path, backup: Path, destination: Path,
    before: Tree, installed: Tree, after: Tree)
    requires ParentClosed(before) && ParentClosed(after) && IsChild(target, destination)
    requires IsChild(staging, destination) && staging !in before
    requires backup == target || (IsChild(backup, destination) && backup !in before)
    requires SameApartFrom(before, installed, staging, target, backup)
    requires after == installed || (kind.Move? && OnlyRemovedBelow(installed, after, source))
    ensures RootEffect(kind, source, target, destination, before, after, true)
  {
    NothingBelowMissing(before, staging);
    if backup != target {
      NothingBelowMissing(before, backup);
    }
    forall p | p in after && !(p in before && after[p] == before[p])
      ensures NewSlot(target, destination, before, true, p)
    {
      if staging <= p {
        TowardsIsUnique(destination, p, staging);
      } else if target <= p {
        TowardsIsUnique(destination, p, target);
      } else {
        TowardsIsUnique(destination, p, backup);
      }
    }
  }

  // ----- What holds between two roots -----

  ghost predicate RecordsAreGone(created: seq<Path>, tree: Tree) {
    forall p :: p in created ==> p !in tree
  }

  ghost predicate BetweenRoots(
    tree: Tree, created: seq<Path>, tracked: set<Path>, destination: Path, process: nat, next: nat)
  {
    && ParentClosed(tree) && destination in tree && tree[destination].Directory?
    && RecordsAreGone(created, tree) && Leftover(tracked, destination, process, next)
  }

  lemma {:induction false} KeepOutsideNothing(created: seq<Path>, target: Path)
    requires forall p :: p in created ==> target <= p
    ensures KeepOutside(created, target) == []
  {
    if created == [] {
    } else {
      var front := created[..|created| - 1];
      assert created[|created| - 1] in created && forall p :: p in front ==> p in created;
      KeepOutsideNothing(front, target);
    }
  }

  /** Only additions, all of them at or below the target. */
  ghost predicate AddedBelow(before: Tree, after: Tree, target: Path) {
    && (forall p :: p in before ==> p in after && after[p] == before[p])
    && (forall p :: p in after ==> p in before || target <= p)
  }

  lemma GrownIsAddedBelow(before: Tree, earlier: seq<Path>, after: Tree, created: seq<Path>, target: Path)
    requires Grown(before, earlier, after, created, target)
    ensures AddedBelow(before, after, target)
    ensures forall p :: p in created ==> p in earlier || (p !in before && target <= p)
  {
    forall p | p in created[|earlier|..] ensures p !in before && target <= p {
      RecordedIsCreated(before, earlier, after, created, target, p);
    }
    assert created == earlier + created[|earlier|..];
  }

  lemma PlacedRoot(
    before: Tree, earlier: seq<Path>, trackedBefore: set<Path>, after: Tree, created: seq<Path>, tracked: set<Path>,
    destination: Path, process: nat, next: nat, source: Path, target: Path)
    requires BetweenRoots(before, earlier, trackedBefore, destination, process, next)
    requires IsChild(target, destination) && !(source <= destination) && ParentClosed(after)
    requires forall p :: p in trackedBefore <==> p in earlier
    requires forall p :: p in tracked <==> p in created
    requires NothingBelow(trackedBefore, target)
    requires forall p :: p in created ==> !(target <= p)
    requires forall p :: p in created ==> p in earlier || target <= p
    requires forall p :: p in after && !(target <= p) ==> p in before
    requires forall p :: p in before && !(target <= p) && !(source <= p) ==> p in after && after[p] == before[p]
    ensures BetweenRoots(after, created, tracked, destination, process, next)
  {
    assert !(target <= destination);
  }

  lemma WholeMeansSame(place: Path, before: Tree, after: Tree)
    requires IsCopy(before, place, after, place)
    ensures forall p :: p in after && place <= p ==> p in before
    ensures forall p :: p in before && place <= p ==> p in after && after[p] == before[p]
  {
    forall p | place <= p ensures p in before <==> p in after ensures p in before ==> after[p] == before[p] {
      assert Image(place, place, p) == p;
    }
  }

  lemma PlaceStopped(
    source: Path, target: Path, before: Tree, after: Tree, earlier: seq<Path>, created: seq<Path>, tracked: set<Path>)
    requires SourceIsWhole(source, before, after) || Delivered(source, target, before, after, tracked)
    requires forall p :: p in earlier ==> p !in before
    requires forall p :: p in created ==> p in earlier || (p !in before && target <= p)
    requires forall p :: p in tracked <==> p in created
    ensures SafelyConserved(before, source, target, target, after, created)
  {
    if SourceIsWhole(source, before, after) {
      WholeMeansSame(source, before, after);
    }
  }

  lemma SeparateItems(tree: Tree, source: Path, target: Path, destination: Path)
    requires ParentClosed(tree) && source in tree && source != target
    requires target in tree ==> tree[target].Symlink?
    requires IsChild(target, destination) && !(source <= destination)
    ensures Unrelated(source, target) && target != [] && Parent(target) == destination
  {
    if target <= source {
      AncestorsExist(tree, source, target);
    }
    assert source <= Parent(target) ==> source <= destination;
  }

  lemma RootIsReady(
    tree: Tree, created: seq<Path>, tracked: set<Path>, destination: Path, process: nat, next: nat,
    source: Path, target: Path)
    requires BetweenRoots(tree, created, tracked, destination, process, next)
    requires Unrelated(source, target) && target != [] && Parent(target) == destination && NothingBelow(tracked, target)
    ensures Ready(tree, tracked, source, target) && ParentClosed(tree)
    ensures forall p :: p in created ==> p !in tree
  {
  }

  /** What a root whose target was free did, whether it finished or stopped. */
  ghost predicate Placed(
    kind: Kind, source: Path, target: Path, before: Tree, earlier: seq<Path>, after: Tree, created: seq<Path>, ok: bool)
  {
    && source in before && SameApartFrom(before, after, source, target, target)
    && WrittenOnlyBelow(before, after, target)
    && (target in before ==>
          before[target].Symlink? && if ok then kind.Move? && !before[source].Directory? else after == before)
    && (kind.Copy? ==> AddedBelow(before, after, target))
    && (kind.Copy? && !ok ==> Grown(before, earlier, after, created, target))
    && (ok ==> IsCopy(before, source, after, target))
    && (ok && kind.Move? ==> forall p :: source <= p ==> p !in after)
    && (forall p :: p in created ==> p in earlier || (p !in before && target <= p))
    && (ok && earlier == [] ==> created == [])
  }

  /** One root whose target is free: nothing stands there, except perhaps a link
      that leads to nothing. Only a rename can take the place of such a link. */
  method PlaceRoot(
    kind: Kind, source: Path, target: Path, destination: Path,
    fs: FileSystem, control: Control, runtime: Runtime, sequence: TempSequence)
    returns (result: Result)
    requires runtime.Valid()
    requires BetweenRoots(fs.tree, runtime.created, runtime.tracked, destination, sequence.process, sequence.next)
    requires IsChild(target, destination) && source in fs.tree && !(source <= destination) && source != target
    requires target in fs.tree ==> fs.tree[target].Symlink?
    requires NothingBelow(runtime.tracked, target)
    modifies fs, control, runtime`created, runtime`tracked, runtime`copiedSources, runtime`completedRoots
    ensures runtime.Valid() && ParentClosed(fs.tree)
    ensures Placed(kind, source, target, old(fs.tree), old(runtime.created), fs.tree, runtime.created, result.Ok?)
    ensures result.Ok? ==>
              BetweenRoots(fs.tree, runtime.created, runtime.tracked, destination, sequence.process, sequence.next)
    ensures runtime.completedRoots ==
              old(runtime.completedRoots) + if result.Ok? then [CompletedRoot(source, target)] else []
    ensures !result.Ok? ==> SafelyConserved(old(fs.tree), source, target, target, fs.tree, runtime.created)
    ensures forall p :: p in runtime.copiedSources ==> p in old(runtime.copiedSources) || source <= p
    ensures result.Failed? ==>
              || fs.faults > old(fs.faults) || target in old(fs.tree)
              || (kind.Move? && !NoneBelow(old(runtime.copiedSources), source))
    ensures fs.faults >= old(fs.faults)
    ensures result.Cancelled? ==> control.raised
    ensures old(control.raised) ==> control.raised
  {
    hide *;
    ghost var before, earlier, trackedBefore := fs.tree, runtime.created, runtime.tracked;
    ghost var listed := |runtime.copiedSources|;
    BetweenRootsParts(before, earlier, trackedBefore, destination, sequence.process, sequence.next);
    SeparateItems(before, source, target, destination);
    RootIsReady(before, earlier, trackedBefore, destination, sequence.process, sequence.next, source, target);
    TrackedAreCreated(runtime);
    if kind.Copy? {
      result := CopyPath(kind, source, target, fs, control, runtime);
      CopyEnded(kind, source, target, before, earlier, fs.tree, runtime.created,
                runtime.copiedSources[listed..], result.Ok?);
      CopyListsOnlyBelow(kind, source, target, before, earlier, fs.tree, runtime.created,
                         old(runtime.copiedSources), runtime.copiedSources, result.Ok?);
      NothingCopiedOverLink(kind, source, target, before, earlier, fs.tree, runtime.created,
                            runtime.copiedSources[listed..], result.Ok?);
      GrownIsAddedBelow(before, earlier, fs.tree, runtime.created, target);
      AddedParts(before, fs.tree, source, target);
    } else {
      result := MovePath(source, target, fs, control, runtime);
      MoveEnded(source, target, before, fs.tree, runtime.tracked, result.Ok?);
    }
    TrackedAreCreated(runtime);
    ghost var createdThen := runtime.created;
    if result.Ok? {
      runtime.TrackCompletedRoot(source, target);
      TrackedAreCreated(runtime);
      PlacedRoot(before, earlier, trackedBefore, fs.tree, runtime.created, runtime.tracked,
                 destination, sequence.process, sequence.next, source, target);
      if earlier == [] {
        KeepOutsideNothing(createdThen, target);
      }
    } else {
      PlaceStopped(source, target, before, fs.tree, earlier, runtime.created, runtime.tracked);
    }
    RootPlaced(kind, source, target, before, earlier, fs.tree, createdThen, runtime.created, result.Ok?);
  }

  lemma RootPlaced(
    kind: Kind, source: Path, target: Path, before: Tree, earlier: seq<Path>,
    after: Tree, recorded: seq<Path>, created: seq<Path>, ok: bool)
    requires source in before && SameApartFrom(before, after, source, target, target)
    requires WrittenOnlyBelow(before, after, target)
    requires target in before ==>
               before[target].Symlink? && if ok then kind.Move? && !before[source].Directory? else after == before
    requires kind.Copy? ==> AddedBelow(before, after, target) && Grown(before, earlier, after, recorded, target)
    requires ok ==> IsCopy(before, source, after, target)
    requires ok && kind.Move? ==> forall p :: source <= p ==> p !in after
    requires forall p :: p in recorded ==> p in earlier || (p !in before && target <= p)
    requires forall p :: p in created ==> p in recorded
    requires ok && earlier == [] ==> created == []
    requires !ok ==> created == recorded
    ensures Placed(kind, source, target, before, earlier, after, created, ok)
  {
  }

  lemma BetweenRootsParts(
    tree: Tree, created: seq<Path>, tracked: set<Path>, destination: Path, process: nat, next: nat)
    requires BetweenRoots(tree, created, tracked, destination, process, next)
    ensures ParentClosed(tree) && destination in tree && tree[destination].Directory?
    ensures Leftover(tracked, destination, process, next)
    ensures forall p :: p in created ==> p !in tree
  {
  }

  lemma TrackedAreCreated(runtime: Runtime)
    requires runtime.Valid()
    ensures forall p :: p in runtime.tracked <==> p in runtime.created
  {
  }

  lemma CopyEnded(
    kind: Kind, source: Path, target: Path, before: Tree, earlier: seq<Path>,
    after: Tree, created: seq<Path>, listed: seq<Path>, ok: bool)
    requires CopyOutcome(kind, source, target, before, earlier, after, created, listed, ok)
    ensures ParentClosed(after) && Grown(before, earlier, after, created, target)
    ensures ok ==> IsCopy(before, source, after, target)
  {
  }

  lemma AddedParts(before: Tree, after: Tree, source: Path, target: Path)
    requires AddedBelow(before, after, target) && Unrelated(source, target)
    ensures forall p :: p in before ==> p in after && after[p] == before[p]
    ensures forall p :: p in after ==> p in before || target <= p
    ensures SameApartFrom(before, after, source, target, target) && SourceIsWhole(source, before, after)
    ensures WrittenOnlyBelow(before, after, target)
  {
    forall p | source <= p && p in after ensures p in before {
      PlacesApart(source, target, p);
    }
    UnchangedIsCopy(before, after, source);
  }

  lemma MoveEnded(source: Path, target: Path, before: Tree, after: Tree, tracked: set<Path>, ok: bool)
    requires MoveOutcome(source, target, before, after, tracked, ok)
    ensures ParentClosed(after) && SameApartFrom(before, after, source, target, target)
    ensures WrittenOnlyBelow(before, after, target)
    ensures ok ==> IsCopy(before, source, after, target) && forall p :: source <= p ==> p !in after
    ensures !ok ==> SourceIsWhole(source, before, after) || Delivered(source, target, before, after, tracked)
    ensures ok ==> forall p :: p in after && !(target <= p) ==> p in before
    ensures forall p :: p in before && !(target <= p) && !(source <= p) ==> p in after && after[p] == before[p]
  {
  }

  // ----- A root that replaces -----

  lemma RecordsStayGone(
    before: Tree, earlier: seq<Path>, trackedBefore: set<Path>, after: Tree, created: seq<Path>, p: Path,
    destination: Path, process: nat, next: nat, staging: Path, target: Path, backup: Path)
    requires BetweenRoots(before, earlier, trackedBefore, destination, process, next)
    requires forall q :: q in trackedBefore <==> q in earlier
    requires IsChild(staging, destination) && !Issued(staging, process, next)
    requires backup == target || (IsChild(backup, destination) && !Issued(backup, process, next))
    requires NothingBelow(trackedBefore, target)
    requires SameApartFrom(before, after, staging, target, backup) && p in earlier
    ensures p !in before && p !in after && !(staging <= p) && !(target <= p) && !(backup <= p)
  {
    FreshSiblingIsUntracked(trackedBefore, destination, process, next, staging);
    if backup != target {
      FreshSiblingIsUntracked(trackedBefore, destination, process, next, backup);
    }
  }

  /** What a replacement that stopped leaves behind is out of the cleanup's reach. */
  lemma ReplaceStopped(
    before: Tree, earlier: seq<Path>, trackedBefore: set<Path>, after: Tree, created: seq<Path>,
    destination: Path, process: nat, next: nat, source: Path, staging: Path, target: Path, backup: Path)
    requires BetweenRoots(before, earlier, trackedBefore, destination, process, next)
    requires forall q :: q in trackedBefore <==> q in earlier
    requires IsChild(staging, destination) && staging != target && !Issued(staging, process, next) && staging !in before
    requires IsChild(target, destination) && source in before && target in before
    requires backup == target
             || (IsChild(backup, destination) && backup != staging && backup !in before
                  && !Issued(backup, process, next))
    requires NothingBelow(trackedBefore, target) && !(source <= destination) && source != target
    requires ReplaceOutcome(source, staging, target, backup, before, after, false)
    requires RecordedBelow(before, earlier, created, staging)
    ensures SafelyReplaced(before, source, target, backup, after, created)
    ensures SafelyConserved(before, source, target, backup, after, created)
  {
    RecordedOnly(before, earlier, created, staging);
    assert Unrelated(staging, target) && Unrelated(staging, backup);
    forall p | p in created && p in after ensures !(target <= p) && !(backup <= p) && p !in before {
      if p in earlier {
        RecordsStayGone(before, earlier, trackedBefore, after, created, p, destination, process, next,
                        staging, target, backup);
      } else {
        PlacesApart(staging, target, p);
        PlacesApart(staging, backup, p);
      }
    }
    SourceSurvives(before, after, created, destination, source, staging, target, backup);
  }

  lemma SourceSurvives(
    before: Tree, after: Tree, created: seq<Path>,
    destination: Path, source: Path, staging: Path, target: Path, backup: Path)
    requires ParentClosed(before) && source in before && target in before && source != target
    requires IsChild(staging, destination) && staging !in before && IsChild(target, destination)
    requires backup == target || (IsChild(backup, destination) && backup !in before)
    requires !(source <= destination)
    requires ReplaceOutcome(source, staging, target, backup, before, after, false)
    requires forall p :: p in created && p in after ==> !(target <= p) && !(backup <= p) && p !in before
    ensures SafelyConserved(before, source, target, backup, after, created)
  {
    if target <= source {
      if IsCopy(before, target, after, target) {
        WholeMeansSame(target, before, after);
        UnchangedIsCopy(before, after, source);
      }
    } else {
      NothingBelowMissing(before, staging);
      ApartFromChildren(source, staging, destination);
      ApartFromChildren(source, target, destination);
      if backup != target {
        NothingBelowMissing(before, backup);
        ApartFromChildren(source, backup, destination);
      }
      forall p | source <= p
        ensures p in before <==> p in after
        ensures p in before ==> after[p] == before[p]
      {
        PlacesApart(source, staging, p);
        PlacesApart(source, target, p);
        PlacesApart(source, backup, p);
      }
      UnchangedIsCopy(before, after, source);
      WholeMeansSame(source, before, after);
    }
  }

  lemma ApartFromChildren(source: Path, child: Path, destination: Path)
    requires IsChild(child, destination) && !(source <= destination) && source != child && !(child <= source)
    ensures Unrelated(source, child)
  {
    assert source <= Parent(child) ==> source <= destination;
  }

  lemma ReplacedRoot(
    before: Tree, earlier: seq<Path>, trackedBefore: set<Path>, after: Tree, recorded: seq<Path>, created: seq<Path>,
    tracked: set<Path>, destination: Path, process: nat, next: nat, later: nat,
    source: Path, staging: Path, target: Path, backup: Path)
    requires BetweenRoots(before, earlier, trackedBefore, destination, process, next) && next <= later
    requires forall q :: q in trackedBefore <==> q in earlier
    requires forall q :: q in tracked <==> q in created
    requires forall q :: q in created ==> q in recorded
    requires IsChild(staging, destination) && !Issued(staging, process, next) && Issued(staging, process, later)
    requires IsChild(target, destination)
    requires backup == target || (IsChild(backup, destination) && !Issued(backup, process, next))
    requires NothingBelow(trackedBefore, target)
    requires ReplaceOutcome(source, staging, target, backup, before, after, true)
    requires RecordedBelow(before, earlier, recorded, staging)
    ensures BetweenRoots(after, created, tracked, destination, process, later)
  {
    RecordedOnly(before, earlier, recorded, staging);
    assert !(staging <= destination) && !(target <= destination) && !(backup <= destination);
    forall p | p in created ensures p !in after {
      if p in earlier {
        RecordsStayGone(before, earlier, trackedBefore, after, created, p, destination, process, next,
                        staging, target, backup);
      }
    }
    forall p | p in tracked ensures exists q :: q <= p && IsChild(q, destination) && Issued(q, process, later) {
      if p in earlier {
        var q :| q <= p && IsChild(q, destination) && Issued(q, process, next);
        LaterIssued(q, process, next, later);
      } else {
        assert staging <= p;
      }
    }
  }

  /** One root whose target exists and is to be replaced. */
  method ReplaceRoot(
    kind: Kind, source: Path, target: Path, destination: Path,
    fs: FileSystem, control: Control, runtime: Runtime, sequence: TempSequence)
    returns (result: Result, backup: Path)
    requires runtime.Valid()
    requires BetweenRoots(fs.tree, runtime.created, runtime.tracked, destination, sequence.process, sequence.next)
    requires IsChild(target, destination) && source in fs.tree && target in fs.tree
    requires !(source <= destination) && source != target
    requires NothingBelow(runtime.tracked, target)
    modifies fs, control, sequence
    modifies runtime`created, runtime`tracked, runtime`copiedSources, runtime`completedRoots
    ensures runtime.Valid() && ParentClosed(fs.tree) && sequence.next >= old(sequence.next)
    ensures RootEffect(kind, source, target, destination, old(fs.tree), fs.tree, true)
    ensures RecordsAreGone(runtime.created, old(fs.tree))
    ensures result.Ok? ==>
              && BetweenRoots(fs.tree, runtime.created, runtime.tracked, destination, sequence.process, sequence.next)
              && IsCopy(old(fs.tree), source, fs.tree, target)
    ensures runtime.completedRoots ==
              old(runtime.completedRoots) + if result.Ok? then [CompletedRoot(source, target)] else []
    ensures kind.Move? && result.Ok? && Unrelated(source, target) ==> forall p :: source <= p ==> p !in fs.tree
    ensures !result.Ok? ==> SafelyReplaced(old(fs.tree), source, target, backup, fs.tree, runtime.created)
    ensures !result.Ok? ==> SafelyConserved(old(fs.tree), source, target, backup, fs.tree, runtime.created)
    ensures forall p :: p in runtime.copiedSources ==> p in old(runtime.copiedSources) || source <= p
    ensures result.Failed? ==>
              || fs.faults > old(fs.faults)
              || (kind.Move? && !(NoneBelow(old(runtime.copiedSources), source) && Unrelated(source, target)))
    ensures fs.faults >= old(fs.faults)
    ensures result.Cancelled? ==> control.raised
    ensures old(control.raised) ==> control.raised
  {
    hide *;
    ghost var before := fs.tree;
    var staging;
    result, staging, backup := InstallRoot(kind, source, target, destination, fs, control, runtime, sequence);
    if !result.Ok? {
      return;
    }
    if kind.Move? {
      result := RemoveReplacedSource(source, target, destination, fs, control, runtime, sequence.process, sequence.next,
                                     before, staging, backup);
      if !result.Ok? {
        return;
      }
    }
    ghost var created, trackedThen := runtime.created, runtime.tracked;
    TrackedAreCreated(runtime);
    runtime.TrackCompletedRoot(source, target);
    TrackedAreCreated(runtime);
    FewerAreGone(created, runtime.created, before);
    FewerRecords(fs.tree, created, trackedThen, runtime.created, runtime.tracked, destination, sequence.process,
                 sequence.next);
  }

  /** The first part of a replacement: the new item is staged and put in place. */
  method InstallRoot(
    kind: Kind, source: Path, target: Path, destination: Path,
    fs: FileSystem, control: Control, runtime: Runtime, sequence: TempSequence)
    returns (result: Result, staging: Path, backup: Path)
    requires runtime.Valid()
    requires BetweenRoots(fs.tree, runtime.created, runtime.tracked, destination, sequence.process, sequence.next)
    requires IsChild(target, destination) && source in fs.tree && target in fs.tree
    requires !(source <= destination) && source != target
    requires NothingBelow(runtime.tracked, target)
    modifies fs, control, sequence, runtime`created, runtime`tracked, runtime`copiedSources
    ensures runtime.Valid() && ParentClosed(fs.tree) && ParentClosed(old(fs.tree))
    ensures sequence.next >= old(sequence.next)
    ensures RootEffect(kind, source, target, destination, old(fs.tree), fs.tree, true)
    ensures RecordsAreGone(runtime.created, old(fs.tree))
    ensures IsChild(staging, destination) && staging !in old(fs.tree)
    ensures backup == target || (IsChild(backup, destination) && backup !in old(fs.tree))
    ensures result.Ok? ==>
              && BetweenRoots(fs.tree, runtime.created, runtime.tracked, destination, sequence.process, sequence.next)
              && ReplaceOutcome(source, staging, target, backup, old(fs.tree), fs.tree, true)
              && IsCopy(old(fs.tree), source, fs.tree, target) && NothingBelow(runtime.tracked, target)
              && (kind.Move? ==> forall p :: p in Subtree(old(fs.tree), source) ==> p in runtime.copiedSources)
    ensures !result.Ok? ==> SafelyReplaced(old(fs.tree), source, target, backup, fs.tree, runtime.created)
    ensures !result.Ok? ==> SafelyConserved(old(fs.tree), source, target, backup, fs.tree, runtime.created)
    ensures result.Ok? && kind.Move? && NoneBelow(old(runtime.copiedSources), source) && Unrelated(source, target) ==>
              Exact(fs.tree, source, runtime.copiedSources)
    ensures forall p :: p in runtime.copiedSources ==> p in old(runtime.copiedSources) || source <= p
    ensures result.Failed? ==> fs.faults > old(fs.faults)
    ensures fs.faults >= old(fs.faults)
    ensures result.Cancelled? ==> control.raised
    ensures old(control.raised) ==> control.raised
  {
    hide *;
    ghost var before, earlier, trackedBefore := fs.tree, runtime.created, runtime.tracked;
    ghost var process, next := sequence.process, sequence.next;
    BetweenRootsParts(before, earlier, trackedBefore, destination, process, next);
    ChildOf(target, destination);
    NotAbove(source, target, destination);
    TrackedAreCreated(runtime);
    result, staging, backup := ReplacePathStaged(kind, source, target, fs, control, runtime, sequence);
    ReplaceEnded(source, staging, target, backup, before, fs.tree, result.Ok?);
    ReplacedEffect(kind, source, staging, target, backup, destination, before, fs.tree, fs.tree);
    RecordsAreNew(before, earlier, runtime.created, staging);
    if !result.Ok? {
      ReplaceStopped(before, earlier, trackedBefore, fs.tree, runtime.created, destination, process, next,
                     source, staging, target, backup);
      return;
    }
    ghost var recorded := runtime.created;
    runtime.ProtectDestination(target);
    FewerAreGone(recorded, runtime.created, before);
    TrackedAreCreated(runtime);
    ReplacedRoot(before, earlier, trackedBefore, fs.tree, recorded, runtime.created, runtime.tracked,
                 destination, process, next, sequence.next, source, staging, target, backup);
  }

  /** The last part of a replacing move: the new item stands complete at the
      target, and the source is removed entry by entry. */
  method RemoveReplacedSource(
    source: Path, target: Path, destination: Path, fs: FileSystem, control: Control, runtime: Runtime,
    ghost process: nat, ghost next: nat, ghost before: Tree, ghost staging: Path, ghost backup: Path)
    returns (result: Result)
    requires runtime.Valid() && NothingBelow(runtime.tracked, target)
    requires BetweenRoots(fs.tree, runtime.created, runtime.tracked, destination, process, next)
    requires ParentClosed(before) && source in before && target in before && source != target
    requires IsChild(staging, destination) && staging !in before && IsChild(target, destination)
    requires backup == target || (IsChild(backup, destination) && backup !in before)
    requires !(source <= destination)
    requires ReplaceOutcome(source, staging, target, backup, before, fs.tree, true)
    requires forall p :: p in Subtree(before, source) ==> p in runtime.copiedSources
    modifies fs, control
    ensures ParentClosed(fs.tree)
    ensures BetweenRoots(fs.tree, runtime.created, runtime.tracked, destination, process, next)
    ensures RootEffect(Move, source, target, destination, before, fs.tree, true)
    ensures IsCopy(before, source, fs.tree, target)
    ensures SafelyReplaced(before, source, target, backup, fs.tree, runtime.created)
    ensures SafelyConserved(before, source, target, backup, fs.tree, runtime.created)
    ensures result.Ok? && Unrelated(source, target) ==> forall p :: source <= p ==> p !in fs.tree
    ensures result.Failed? ==>
              fs.faults > old(fs.faults)
              || !(Exact(old(fs.tree), source, runtime.copiedSources) && Unrelated(source, target))
    ensures fs.faults >= old(fs.faults)
    ensures result.Cancelled? ==> control.raised
    ensures old(control.raised) ==> control.raised
  {
    hide *;
    ghost var installed := fs.tree;
    TrackedAreCreated(runtime);
    BetweenRootsParts(installed, runtime.created, runtime.tracked, destination, process, next);
    ReplaceEnded(source, staging, target, backup, before, installed, true);
    result := RemoveCopiedSource(source, runtime.copiedSources, target, fs, control);
    KeptInstalled(before, source, installed, fs.tree, target, runtime.created, runtime.tracked, backup);
    RemovedBetweenRoots(installed, fs.tree, source, runtime.created, runtime.tracked, destination, process, next);
    ReplacedEffect(Move, source, staging, target, backup, destination, before, installed, fs.tree);
    if result.Ok? {
      SourceWentAway(before, installed, fs.tree, runtime.copiedSources, destination, source, staging, target, backup);
    }
  }

  lemma ChildOf(target: Path, destination: Path)
    requires IsChild(target, destination)
    ensures target != [] && Parent(target) == destination
  {
  }

  lemma NotAbove(source: Path, target: Path, destination: Path)
    requires IsChild(target, destination) && !(source <= destination) && source != target
    ensures !(source <= target)
  {
    assert source <= Parent(target) ==> source <= destination;
  }

  lemma RecordsAreNew(before: Tree, earlier: seq<Path>, created: seq<Path>, staging: Path)
    requires forall p :: p in earlier ==> p !in before
    requires RecordedBelow(before, earlier, created, staging)
    ensures RecordsAreGone(created, before)
  {
    RecordedOnly(before, earlier, created, staging);
  }

  lemma FewerAreGone(created: seq<Path>, kept: seq<Path>, before: Tree)
    requires RecordsAreGone(created, before) && forall p :: p in kept ==> p in created
    ensures RecordsAreGone(kept, before)
  {
  }

  lemma ReplaceEnded(
    source: Path, staging: Path, target: Path, backup: Path, before: Tree, after: Tree, ok: bool)
    requires ReplaceOutcome(source, staging, target, backup, before, after, ok)
    ensures ParentClosed(after) && SameApartFrom(before, after, staging, target, backup)
    ensures ok ==> IsCopy(before, source, after, target)
  {
  }

  lemma KeptInstalled(
    before: Tree, source: Path, installed: Tree, after: Tree, target: Path,
    created: seq<Path>, tracked: set<Path>, backup: Path)
    requires IsCopy(before, source, installed, target) && SameBelow(installed, after, target)
    requires NothingBelow(tracked, target) && forall p :: p in tracked <==> p in created
    ensures IsCopy(before, source, after, target)
    ensures SafelyReplaced(before, source, target, backup, after, created)
    ensures SafelyConserved(before, source, target, backup, after, created)
  {
    forall p | source <= p
      ensures p in before <==> Image(source, target, p) in after
      ensures p in before ==> after[Image(source, target, p)] == before[p]
    {
      var q := Image(source, target, p);
      assert q in installed <==> q in after;
    }
  }

  lemma RemovedBetweenRoots(
    tree: Tree, after: Tree, source: Path, created: seq<Path>, tracked: set<Path>,
    destination: Path, process: nat, next: nat)
    requires BetweenRoots(tree, created, tracked, destination, process, next)
    requires OnlyRemovedBelow(tree, after, source) && !(source <= destination)
    ensures BetweenRoots(after, created, tracked, destination, process, next)
    ensures ParentClosed(after)
  {
  }

  lemma SourceWentAway(
    before: Tree, installed: Tree, after: Tree, snapshots: seq<Path>,
    destination: Path, source: Path, staging: Path, target: Path, backup: Path)
    requires ParentClosed(before) && source in before && target in before && source != target
    requires IsChild(staging, destination) && staging !in before && IsChild(target, destination)
    requires backup == target || (IsChild(backup, destination) && backup !in before)
    requires !(source <= destination)
    requires ReplaceOutcome(source, staging, target, backup, before, installed, true)
    requires OnlyRemovedBelow(installed, after, source)
    requires forall p :: p in Subtree(before, source) ==> p in snapshots
    requires forall p :: p in snapshots && source <= p ==> p !in after
    ensures Unrelated(source, target) ==> forall p :: source <= p ==> p !in after
  {
    if Unrelated(source, target) {
      NothingBelowMissing(before, staging);
      ApartFromChildren(source, staging, destination);
      if backup != target {
        NothingBelowMissing(before, backup);
        ApartFromChildren(source, backup, destination);
      }
      forall p | source <= p ensures p !in after {
        PlacesApart(source, staging, p);
        PlacesApart(source, target, p);
        PlacesApart(source, backup, p);
        assert p in installed <==> p in before;
        assert p in before ==> p in Subtree(before, source);
      }
    }
  }

  lemma FewerRecords(
    tree: Tree, created: seq<Path>, trackedThen: set<Path>, kept: seq<Path>, tracked: set<Path>,
    destination: Path, process: nat, next: nat)
    requires BetweenRoots(tree, created, trackedThen, destination, process, next)
    requires forall p :: p in kept ==> p in created
    requires forall p :: p in trackedThen <==> p in created
    requires forall p :: p in tracked <==> p in kept
    ensures BetweenRoots(tree, kept, tracked, destination, process, next)
  {
  }
}
