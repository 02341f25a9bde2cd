/** Replacing and moving one item (`src/fs/transfer_queue.rs`): the new item is
    completed beside the old one, the old one is set aside before the new one
    takes its place, and a moved source goes only after its copy is whole. */
module TransferReplace {
  import opened FileTrees
  import opened FileSystems
  import opened TempNames
  import opened TransferCopy
  import opened TransferCleanup

  /** The process-wide counter behind temporary names. */
  class TempSequence {
    const process: nat
    var next: nat

    constructor (process: nat)
      ensures this.process == process
    {
      this.process, this.next := process, 1;
    }
  }

  /** A sibling name that this process made with a sequence number below `next`. */
  ghost predicate Issued(path: Path, process: nat, next: nat) {
    path != [] && exists name, purpose, n: nat :: n < next && path[|path| - 1] == TempName(name, purpose, process, n)
  }

  function Sibling(target: Path, purpose: string, process: nat, n: nat): (path: Path)
    requires target != []
    ensures IsChild(path, Parent(target)) && path != target && Issued(path, process, n + 1)
  {
    var path := Parent(target) + [TempName(target[|target| - 1], purpose, process, n)];
    assert Parent(path) == Parent(target);
    assert path[|path| - 1] == TempName(target[|target| - 1], purpose, process, n);
    assert target == Parent(target) + [target[|target| - 1]];
    path
  }

  lemma SiblingIsNew(target: Path, purpose: string, process: nat, n: nat)
    requires target != []
    ensures !Issued(Sibling(target, purpose, process, n), process, n)
  {
    var path := Sibling(target, purpose, process, n);
    forall name, other, m: nat | m < n ensures path[|path| - 1] != TempName(name, other, process, m) {
      TempNamesDiffer(target[|target| - 1], purpose, n, name, other, m, process);
    }
  }

  method UnusedTransferSibling(target: Path, purpose: string, fs: FileSystem, sequence: TempSequence)
    returns (candidate: Path)
    requires target != []
    modifies sequence
    ensures sequence.next > old(sequence.next)
    ensures IsChild(candidate, Parent(target)) && candidate != target && candidate !in fs.tree
    ensures Issued(candidate, sequence.process, sequence.next)
    ensures !Issued(candidate, sequence.process, old(sequence.next))
  {
    ghost var rejected: set<Path> := {};
    while true
      invariant sequence.next >= old(sequence.next)
      invariant rejected <= fs.tree.Keys && forall p :: p in rejected ==> Issued(p, sequence.process, sequence.next)
      decreases fs.tree.Keys - rejected
    {
      candidate := Sibling(target, purpose, sequence.process, sequence.next);
      SiblingIsNew(target, purpose, sequence.process, sequence.next);
      sequence.next := sequence.next + 1;
      if candidate !in fs.tree {
        return;
      }
      rejected := rejected + {candidate};
    }
  }

  // ----- Commit with rollback -----

  /** Three places that have nothing to do with each other. */
  ghost predicate Apart3(a: Path, b: Path, c: Path) {
    Unrelated(a, b) && Unrelated(a, c) && Unrelated(b, c)
  }

  lemma SiblingsAreApart(staging: Path, target: Path, backup: Path)
    requires target != [] && IsChild(staging, Parent(target)) && IsChild(backup, Parent(target))
    requires staging != target && backup != target && staging != backup
    ensures Apart3(staging, target, backup)
  {
  }

  lemma SiblingCanBeRenamed(tree: Tree, source: Path, target: Path)
    requires ParentClosed(tree) && target != [] && source in tree && source != target && IsChild(source, Parent(target))
    requires target in tree ==> !tree[source].Directory? && !tree[target].Directory?
    ensures CanRename(tree, source, target)
  {
  }

  /** Either the staged item is installed and nothing of it is left beside the
      target, or it is still whole and the old item is whole at the target or,
      when even the rollback failed, at the backup. */
  ghost predicate CommitOutcome(before: Tree, staging: Path, target: Path, backup: Path, after: Tree, ok: bool) {
    && ParentClosed(after)
    && (forall p :: !(staging <= p) && !(target <= p) && !(backup <= p) ==>
          (p in before <==> p in after) && (p in before ==> after[p] == before[p]))
    && (ok ==> IsCopy(before, staging, after, target) && forall p :: staging <= p ==> p !in after)
    && (!ok ==> IsCopy(before, staging, after, staging))
    && (!ok ==> IsCopy(before, target, after, target) || IsCopy(before, target, after, backup))
  }

  lemma NothingCommitted(before: Tree, staging: Path, target: Path, backup: Path)
    requires ParentClosed(before)
    ensures CommitOutcome(before, staging, target, backup, before, false)
  {
    UnchangedIsCopy(before, before, staging);
    UnchangedIsCopy(before, before, target);
  }

  lemma ReplacedInOneStep(before: Tree, staging: Path, target: Path, after: Tree)
    requires ParentClosed(after) && IsRenamed(before, staging, target, after)
    ensures CommitOutcome(before, staging, target, target, after, true)
  {
  }

  lemma PlacesApart(a: Path, b: Path, p: Path)
    requires Unrelated(a, b) && a <= p
    ensures !(b <= p)
  {
    if b <= p { PrefixesAreComparable(a, b, p); }
  }

  /** A rename elsewhere leaves a place as it was. */
  lemma RenamedElsewhere(before: Tree, source: Path, target: Path, after: Tree, place: Path)
    requires IsRenamed(before, source, target, after) && Unrelated(place, source) && Unrelated(place, target)
    ensures IsCopy(before, place, after, place)
  {
    forall p | place <= p
      ensures p in before <==> p in after
      ensures p in before ==> after[p] == before[p]
    {
      PlacesApart(place, source, p);
      PlacesApart(place, target, p);
    }
    UnchangedIsCopy(before, after, place);
  }

  lemma OldSetAside(before: Tree, staging: Path, target: Path, backup: Path, aside: Tree)
    requires Apart3(staging, target, backup) && ParentClosed(aside) && IsRenamed(before, target, backup, aside)
    ensures IsCopy(before, staging, aside, staging)
    ensures CommitOutcome(before, staging, target, backup, aside, false)
  {
    RenamedElsewhere(before, target, backup, aside, staging);
  }

  lemma NewInstalled(before: Tree, staging: Path, target: Path, backup: Path, aside: Tree, after: Tree)
    requires Apart3(staging, target, backup) && ParentClosed(after)
    requires IsRenamed(before, target, backup, aside) && IsRenamed(aside, staging, target, after)
    requires IsCopy(before, staging, aside, staging)
    ensures CommitOutcome(before, staging, target, backup, after, true)
  {
    CopyOfCopy(before, staging, aside, staging, after, target);
  }

  lemma OldRestored(before: Tree, staging: Path, target: Path, backup: Path, aside: Tree, after: Tree)
    requires Apart3(staging, target, backup) && ParentClosed(after)
    requires IsRenamed(before, target, backup, aside) && IsRenamed(aside, backup, target, after)
    requires IsCopy(before, staging, aside, staging)
    ensures CommitOutcome(before, staging, target, backup, after, false)
  {
    CopyOfCopy(before, target, aside, backup, after, target);
    RenamedElsewhere(aside, backup, target, after, staging);
    CopyOfCopy(before, staging, aside, staging, after, staging);
  }

  lemma CopyKeptByRemoval(before: Tree, source: Path, after: Tree, target: Path, final: Tree, removed: Path)
    requires IsCopy(before, source, after, target) && OnlyRemovedBelow(after, final, removed)
               && Unrelated(target, removed)
    ensures IsCopy(before, source, final, target)
  {
    forall p | source <= p
      ensures p in before <==> Image(source, target, p) in final
      ensures p in before ==> final[Image(source, target, p)] == before[p]
    {
      PlacesApart(target, removed, Image(source, target, p));
    }
  }

  lemma BackupDropped(before: Tree, staging: Path, target: Path, backup: Path, after: Tree, final: Tree)
    requires Apart3(staging, target, backup)
    requires CommitOutcome(before, staging, target, backup, after, true) && OnlyRemovedBelow(after, final, backup)
    ensures CommitOutcome(before, staging, target, backup, final, true)
  {
    CopyKeptByRemoval(before, staging, after, target, final, backup);
  }

  method CommitStagedPath(staging: Path, target: Path, fs: FileSystem, sequence: TempSequence)
    returns (result: Result, backup: Path)
    requires ParentClosed(fs.tree) && target != [] && IsChild(staging, Parent(target)) && staging != target
    requires staging in fs.tree && target in fs.tree
    modifies fs, sequence
    ensures sequence.next >= old(sequence.next)
    ensures backup == target || (IsChild(backup, Parent(target)) && backup !in old(fs.tree))
    ensures backup == target || !Issued(backup, sequence.process, old(sequence.next))
    ensures CommitOutcome(old(fs.tree), staging, target, backup, fs.tree, result.Ok?)
    ensures result.Ok? || (result == Failed(Fault) && fs.faults > old(fs.faults))
    ensures fs.faults >= old(fs.faults)
  {
    hide *;
    ghost var before := fs.tree;
    NothingCommitted(before, staging, target, target);
    var looked := fs.Look();
    if !looked.Done? {
      return Failed(looked), target;
    }
    if fs.tree[staging].File? && fs.tree[target].File? {
      SiblingCanBeRenamed(before, staging, target);
      var replaced := fs.Rename(staging, target);
      if !replaced.Done? {
        return Failed(replaced), target;
      }
      ReplacedInOneStep(before, staging, target, fs.tree);
      return Ok, target;
    }
    backup := UnusedTransferSibling(target, "backup", fs, sequence);
    result := SetAsideAndInstall(staging, target, backup, fs);
  }

  /** The old item makes way before the staged one is installed. */
  method SetAsideAndInstall(staging: Path, target: Path, backup: Path, fs: FileSystem) returns (result: Result)
    requires ParentClosed(fs.tree) && target != [] && IsChild(staging, Parent(target)) && staging != target
    requires IsChild(backup, Parent(target)) && backup != target && backup !in fs.tree
    requires staging in fs.tree && target in fs.tree
    modifies fs
    ensures CommitOutcome(old(fs.tree), staging, target, backup, fs.tree, result.Ok?)
    ensures result.Ok? || (result == Failed(Fault) && fs.faults > old(fs.faults))
    ensures fs.faults >= old(fs.faults)
  {
    hide *;
    ghost var before := fs.tree;
    NothingCommitted(before, staging, target, backup);
    SiblingsAreApart(staging, target, backup);
    TargetCanBeSetAside(before, target, backup);
    var setAside := fs.Rename(target, backup);
    if !setAside.Done? {
      return Failed(setAside);
    }
    result := InstallOrRestore(staging, target, backup, fs, before);
  }

  lemma TargetCanBeSetAside(tree: Tree, target: Path, backup: Path)
    requires ParentClosed(tree) && target != [] && target in tree && backup !in tree
    requires IsChild(backup, Parent(target)) && backup != target
    ensures CanRename(tree, target, backup)
  {
  }

  /** The old item stands at the backup: install the staged one, or put the old
      one back. */
  method InstallOrRestore(staging: Path, target: Path, backup: Path, fs: FileSystem, ghost before: Tree)
    returns (result: Result)
    requires ParentClosed(before) && ParentClosed(fs.tree) && target != [] && Apart3(staging, target, backup)
    requires IsChild(staging, Parent(target)) && IsChild(backup, Parent(target))
    requires staging in before && target in before && IsRenamed(before, target, backup, fs.tree)
    modifies fs
    ensures CommitOutcome(before, staging, target, backup, fs.tree, result.Ok?)
    ensures result.Ok? || (result == Failed(Fault) && fs.faults > old(fs.faults))
    ensures fs.faults >= old(fs.faults)
  {
    hide *;
    ghost var aside := fs.tree;
    OldSetAside(before, staging, target, backup, aside);
    CanInstall(before, staging, target, backup, aside);
    var installed := fs.Rename(staging, target);
    if !installed.Done? {
      var restored := fs.Rename(backup, target);
      if !restored.Done? {
        return Failed(installed);
      }
      OldRestored(before, staging, target, backup, aside, fs.tree);
      return Failed(installed);
    }
    NewInstalled(before, staging, target, backup, aside, fs.tree);
    ghost var after := fs.tree;
    var dropped := RemoveSource(backup, fs);
    BackupDropped(before, staging, target, backup, after, fs.tree);
    result := Ok;
  }

  lemma CanInstall(before: Tree, staging: Path, target: Path, backup: Path, aside: Tree)
    requires ParentClosed(before) && target != [] && Apart3(staging, target, backup)
    requires IsChild(staging, Parent(target)) && IsChild(backup, Parent(target))
    requires staging in before && target in before && IsRenamed(before, target, backup, aside)
    ensures CanRename(aside, staging, target) && CanRename(aside, backup, target)
  {
    PlacesApart(staging, target, staging);
    PlacesApart(staging, backup, staging);
    assert Image(target, backup, target) == backup;
    assert Parent(target) in before && !(target <= Parent(target)) && !(backup <= Parent(target));
  }

  // ----- Replacing -----

  /** What is still tracked from earlier replacements lies below siblings that
      were issued before and have been moved away since. */
  ghost predicate Leftover(paths: set<Path>, directory: Path, process: nat, next: nat) {
    forall p :: p in paths ==> exists q :: q <= p && IsChild(q, directory) && Issued(q, process, next)
  }

  lemma FreshSiblingIsUntracked(paths: set<Path>, directory: Path, process: nat, next: nat, candidate: Path)
    requires Leftover(paths, directory, process, next)
    requires IsChild(candidate, directory) && !Issued(candidate, process, next)
    ensures NothingBelow(paths, candidate)
  {
    forall p | p in paths ensures !(candidate <= p) {
      var q :| q <= p && IsChild(q, directory) && Issued(q, process, next);
      if candidate <= p { PrefixesAreComparable(q, candidate, p); }
    }
  }

  ghost predicate SameApartFrom(before: Tree, after: Tree, a: Path, b: Path, c: Path) {
    forall p :: !(a <= p) && !(b <= p) && !(c <= p) ==>
      (p in before <==> p in after) && (p in before ==> after[p] == before[p])
  }

  ghost predicate RecordedBelow(before: Tree, earlier: seq<Path>, created: seq<Path>, root: Path) {
    earlier <= created && forall p :: p in created[|earlier|..] ==> p !in before && root <= p
  }

  /** The old item is whole at its place or at the backup. */
  ghost predicate OldIsWhole(before: Tree, target: Path, backup: Path, after: Tree) {
    IsCopy(before, target, after, target) || IsCopy(before, target, after, backup)
  }

  ghost predicate ReplaceOutcome(
    source: Path, staging: Path, target: Path, backup: Path, before: Tree, after: Tree, ok: bool)
  {
    && ParentClosed(after)
    && SameApartFrom(before, after, staging, target, backup)
    && (ok ==> IsCopy(before, source, after, target) && forall p :: staging <= p ==> p !in after)
    && (!ok ==> OldIsWhole(before, target, backup, after))
  }

  lemma CopyLeavesOthersAlone(
    kind: Kind, source: Path, staging: Path, before: Tree, earlier: seq<Path>,
    after: Tree, created: seq<Path>, listed: seq<Path>, ok: bool, place: Path)
    requires CopyOutcome(kind, source, staging, before, earlier, after, created, listed, ok)
    requires Unrelated(place, staging)
    ensures IsCopy(before, place, after, place)
    ensures RecordedBelow(before, earlier, created, staging)
    ensures forall p :: !(staging <= p) ==> (p in before <==> p in after) && (p in before ==> after[p] == before[p])
  {
    forall p | p in created[|earlier|..] ensures p !in before && staging <= p {
      RecordedIsCreated(before, earlier, after, created, staging, p);
    }
    forall p | place <= p
      ensures p in before <==> p in after
      ensures p in before ==> after[p] == before[p]
    {
      PlacesApart(place, staging, p);
    }
    UnchangedIsCopy(before, after, place);
  }

  lemma StagingFailed(
    source: Path, staging: Path, target: Path, backup: Path, before: Tree, staged: Tree, after: Tree)
    requires Unrelated(target, staging) && IsCopy(before, target, staged, target)
    requires forall p :: !(staging <= p) ==> (p in before <==> p in staged) && (p in before ==> staged[p] == before[p])
    requires OnlyRemovedBelow(staged, after, staging)
    ensures ReplaceOutcome(source, staging, target, backup, before, after, false)
  {
    CopyKeptByRemoval(before, target, staged, target, after, staging);
  }

  lemma CommitFailed(
    source: Path, staging: Path, target: Path, backup: Path, before: Tree, staged: Tree, tried: Tree, after: Tree)
    requires Unrelated(target, staging) && Unrelated(backup, staging) && IsCopy(before, target, staged, target)
    requires forall p :: !(staging <= p) ==> (p in before <==> p in staged) && (p in before ==> staged[p] == before[p])
    requires CommitOutcome(staged, staging, target, backup, tried, false)
    requires OnlyRemovedBelow(tried, after, staging)
    ensures ReplaceOutcome(source, staging, target, backup, before, after, false)
  {
    if IsCopy(staged, target, tried, target) {
      CopyOfCopy(before, target, staged, target, tried, target);
      CopyKeptByRemoval(before, target, tried, target, after, staging);
    } else {
      CopyOfCopy(before, target, staged, target, tried, backup);
      CopyKeptByRemoval(before, target, tried, backup, after, staging);
    }
  }

  lemma CommitSucceeded(
    source: Path, staging: Path, target: Path, backup: Path, before: Tree, staged: Tree, after: Tree)
    requires IsCopy(before, source, staged, staging)
    requires forall p :: !(staging <= p) ==> (p in before <==> p in staged) && (p in before ==> staged[p] == before[p])
    requires CommitOutcome(staged, staging, target, backup, after, true)
    ensures ReplaceOutcome(source, staging, target, backup, before, after, true)
  {
    CopyOfCopy(before, source, staged, staging, after, target);
  }

  lemma StagingIsReady(tree: Tree, tracked: set<Path>, source: Path, target: Path, staging: Path)
    requires ParentClosed(tree) && source in tree && target in tree && target != [] && !(source <= target)
    requires IsChild(staging, Parent(target)) && staging !in tree && NothingBelow(tracked, staging)
    ensures Ready(tree, tracked, source, staging)
  {
    NothingBelowMissing(tree, staging);
    assert source <= Parent(staging) ==> source <= target;
  }

  /** Copies beside the target and commits only a complete, synced copy. */
  method ReplacePathStaged(
    kind: Kind, source: Path, target: Path, fs: FileSystem, control: Control, runtime: Runtime, sequence: TempSequence)
    returns (result: Result, staging: Path, backup: Path)
    requires ParentClosed(fs.tree) && runtime.Valid() && target != [] && source in fs.tree && target in fs.tree
    requires !(source <= target)
    requires Leftover(runtime.tracked, Parent(target), sequence.process, sequence.next)
    modifies fs, control, sequence, runtime`created, runtime`tracked, runtime`copiedSources
    ensures runtime.Valid() && old(runtime.copiedSources) <= runtime.copiedSources
    ensures sequence.next >= old(sequence.next)
    ensures IsChild(staging, Parent(target)) && staging != target && staging !in old(fs.tree)
    ensures Issued(staging, sequence.process, sequence.next) && !Issued(staging, sequence.process, old(sequence.next))
    ensures backup == target || (IsChild(backup, Parent(target)) && backup != staging && backup !in old(fs.tree))
    ensures backup == target || !Issued(backup, sequence.process, old(sequence.next))
    ensures ReplaceOutcome(source, staging, target, backup, old(fs.tree), fs.tree, result.Ok?)
    ensures RecordedBelow(old(fs.tree), old(runtime.created), runtime.created, staging)
    ensures result.Ok? && kind.Move? ==>
              forall p :: p in Subtree(old(fs.tree), source) ==> p in runtime.copiedSources
    ensures result.Ok? && kind.Move? && NoneBelow(old(runtime.copiedSources), source) && Unrelated(source, target) ==>
              Exact(fs.tree, source, runtime.copiedSources)
    ensures forall p :: p in runtime.copiedSources ==> p in old(runtime.copiedSources) || source <= p
    ensures result.Failed? ==> fs.faults > old(fs.faults)
    ensures fs.faults >= old(fs.faults)
    ensures result.Cancelled? ==> control.raised
    ensures old(control.raised) ==> control.raised
  {
    hide *;
    ghost var before, earlier, listed := fs.tree, runtime.created, |runtime.copiedSources|;
    staging := UnusedTransferSibling(target, "staging", fs, sequence);
    backup := target;
    SiblingsAreApart2(staging, target);
    FreshSiblingIsUntracked(runtime.tracked, Parent(target), sequence.process, old(sequence.next), staging);
    StagingIsReady(before, runtime.tracked, source, target, staging);
    result := CopyPath(kind, source, staging, fs, control, runtime);
    ghost var staged := fs.tree;
    CopyLeavesOthersAlone(kind, source, staging, before, earlier, staged, runtime.created,
                          runtime.copiedSources[listed..], result.Ok?, target);
    CopyListsOnlyBelow(kind, source, staging, before, earlier, staged, runtime.created,
                       old(runtime.copiedSources), runtime.copiedSources, result.Ok?);
    if !result.Ok? {
      var _ := RemoveSource(staging, fs);
      StagingFailed(source, staging, target, backup, before, staged, fs.tree);
      return;
    }
    CopyDelivered(kind, source, staging, before, earlier, staged, runtime.created, runtime.copiedSources, listed);
    ghost var issued := sequence.next;
    result, backup := CommitOrDiscard(source, staging, target, fs, sequence, before);
    if result.Ok? {
      ExactReplaced(kind, source, staging, target, backup, before, earlier, staged, runtime.created,
                    old(runtime.copiedSources), runtime.copiedSources, fs.tree);
    }
    LaterIssued(staging, sequence.process, issued, sequence.next);
    if backup != target {
      StillNotIssued(backup, sequence.process, old(sequence.next), issued);
    }
  }

  /** The complete copy at the staging place is synced and committed; whenever
      that fails it is taken away again. */
  method CommitOrDiscard(
    source: Path, staging: Path, target: Path, fs: FileSystem, sequence: TempSequence, ghost before: Tree)
    returns (result: Result, backup: Path)
    requires ParentClosed(fs.tree) && target != [] && IsChild(staging, Parent(target)) && staging != target
    requires source in before && target in before && Unrelated(target, staging)
    requires IsCopy(before, source, fs.tree, staging) && IsCopy(before, target, fs.tree, target)
    requires forall p :: !(staging <= p) ==>
               (p in before <==> p in fs.tree) && (p in before ==> fs.tree[p] == before[p])
    modifies fs, sequence
    ensures sequence.next >= old(sequence.next) && !result.Cancelled?
    ensures result.Failed? ==> fs.faults > old(fs.faults)
    ensures fs.faults >= old(fs.faults)
    ensures backup == target || (IsChild(backup, Parent(target)) && backup != staging && backup !in before)
    ensures backup == target || !Issued(backup, sequence.process, old(sequence.next))
    ensures ReplaceOutcome(source, staging, target, backup, before, fs.tree, result.Ok?)
  {
    hide *;
    ghost var staged := fs.tree;
    backup := target;
    var synced := fs.Sync();
    if !synced.Done? {
      result := Failed(synced);
      var _ := RemoveSource(staging, fs);
      StagingFailed(source, staging, target, backup, before, staged, fs.tree);
      return;
    }
    StagedIsThere(before, source, staged, staging, target);
    result, backup := CommitStagedPath(staging, target, fs, sequence);
    BackupIsNew(before, staged, staging, target, backup);
    if !result.Ok? {
      ghost var tried := fs.tree;
      BackupIsApart(staging, target, backup, staged);
      TriedIsClosed(staged, staging, target, backup, tried);
      var _ := RemoveSource(staging, fs);
      CommitFailed(source, staging, target, backup, before, staged, tried, fs.tree);
      return;
    }
    CommitSucceeded(source, staging, target, backup, before, staged, fs.tree);
  }

  lemma LaterIssued(path: Path, process: nat, earlier: nat, later: nat)
    requires earlier <= later && Issued(path, process, earlier)
    ensures Issued(path, process, later)
  {
    var name, purpose, n: nat :| n < earlier && path[|path| - 1] == TempName(name, purpose, process, n);
  }

  lemma StillNotIssued(path: Path, process: nat, earlier: nat, later: nat)
    requires earlier <= later && !Issued(path, process, later)
    ensures !Issued(path, process, earlier)
  {
  }

  lemma SiblingsAreApart2(staging: Path, target: Path)
    requires target != [] && IsChild(staging, Parent(target)) && staging != target
    ensures Unrelated(target, staging)
  {
  }

  lemma CopyDelivered(
    kind: Kind, source: Path, target: Path, before: Tree, earlier: seq<Path>,
    after: Tree, created: seq<Path>, copiedSources: seq<Path>, from: nat)
    requires from <= |copiedSources|
    requires CopyOutcome(kind, source, target, before, earlier, after, created, copiedSources[from..], true)
    ensures ParentClosed(after) && IsCopy(before, source, after, target)
    ensures kind.Move? ==> forall p :: p in Subtree(before, source) ==> p in copiedSources
  {
  }

  lemma StagedIsThere(before: Tree, source: Path, staged: Tree, staging: Path, target: Path)
    requires source in before && IsCopy(before, source, staged, staging)
    requires target in before && IsCopy(before, target, staged, target)
    ensures staging in staged && target in staged
  {
    assert Image(source, staging, source) == staging && Image(target, target, target) == target;
  }

  lemma BackupIsApart(staging: Path, target: Path, backup: Path, staged: Tree)
    requires target != [] && IsChild(staging, Parent(target)) && staging != target && staging in staged
    requires backup == target || (IsChild(backup, Parent(target)) && backup !in staged)
    ensures Unrelated(backup, staging)
  {
    assert backup != staging && |backup| == |staging|;
  }

  lemma BackupIsNew(before: Tree, staged: Tree, staging: Path, target: Path, backup: Path)
    requires target != [] && IsChild(staging, Parent(target)) && staging in staged && staging != target
    requires forall p :: !(staging <= p) ==> (p in before <==> p in staged) && (p in before ==> staged[p] == before[p])
    requires backup == target || (IsChild(backup, Parent(target)) && backup !in staged)
    ensures backup == target || (backup != staging && backup !in before)
  {
    assert backup != staging && |backup| == |staging|;
  }

  lemma TriedIsClosed(staged: Tree, staging: Path, target: Path, backup: Path, tried: Tree)
    requires CommitOutcome(staged, staging, target, backup, tried, false)
    ensures ParentClosed(tried)
  {
  }

  // ----- Moving -----

  /** Every entry that is new or differs from what it was lies at or below the place. */
  ghost predicate WrittenOnlyBelow(before: Tree, after: Tree, place: Path) {
    forall p :: p in after && !(place <= p) ==> p in before && after[p] == before[p]
  }

  ghost predicate MoveOutcome(source: Path, target: Path, before: Tree, after: Tree, tracked: set<Path>, ok: bool) {
    && ParentClosed(after)
    && SameApartFrom(before, after, source, target, target)
    && WrittenOnlyBelow(before, after, target)
    && (ok ==> IsCopy(before, source, after, target) && NothingBelow(tracked, target)
               && forall p :: source <= p ==> p !in after)
    && (!ok ==> SourceIsWhole(source, before, after) || Delivered(source, target, before, after, tracked))
  }

  ghost predicate SourceIsWhole(source: Path, before: Tree, after: Tree) {
    IsCopy(before, source, after, source)
  }

  /** The target holds everything, and no cleanup will touch it. */
  ghost predicate Delivered(source: Path, target: Path, before: Tree, after: Tree, tracked: set<Path>) {
    IsCopy(before, source, after, target) && NothingBelow(tracked, target)
  }

  lemma {:induction false} AncestorsAreListed(listed: seq<Path>, source: Path, i: nat, ancestor: Path) returns (x: nat)
    requires ListedInOrder(listed, source) && i < |listed| && source <= ancestor <= listed[i]
    ensures x <= i && listed[x] == ancestor
    decreases i
  {
    x := i;
    assert BehindItsParent(listed, source, i);
    if listed[i] != ancestor {
      assert ancestor <= Parent(listed[i]);
      var parent :| 0 <= parent < |listed[..i]| && listed[..i][parent] == Parent(listed[i]);
      x := AncestorsAreListed(listed, source, parent, ancestor);
    }
  }

  /** The order in which a copy records its sources is one in which they can be
      removed from the end. */
  lemma CopyListsExactly(tree: Tree, source: Path, snapshots: seq<Path>, from: nat)
    requires from <= |snapshots| && ListedInOrder(snapshots[from..], source)
    requires forall p :: p in snapshots[..from] ==> !(source <= p)
    requires forall p :: p in snapshots[from..] ==> p in tree
    requires forall p :: p in Subtree(tree, source) ==> p in snapshots[from..]
    ensures Exact(tree, source, snapshots)
  {
    var listed := snapshots[from..];
    ListedBelow(listed, source);
    assert forall i :: 0 <= i < from ==> snapshots[i] in snapshots[..from];
    assert forall i :: from <= i < |snapshots| ==> snapshots[i] == listed[i - from];
    assert forall p :: p in listed ==> p in snapshots;
    forall i, j | 0 <= i < j < |snapshots| && source <= snapshots[i] ensures !(snapshots[j] <= snapshots[i]) {
      assert i >= from;
      if snapshots[j] <= snapshots[i] {
        var x := AncestorsAreListed(listed, source, i - from, listed[j - from]);
      }
    }
  }

  lemma RenamedAway(source: Path, target: Path, before: Tree, after: Tree, tracked: set<Path>)
    requires ParentClosed(after) && IsRenamed(before, source, target, after) && NothingBelow(tracked, target)
    ensures MoveOutcome(source, target, before, after, tracked, true)
  {
  }

  lemma CopyStopped(source: Path, target: Path, before: Tree, after: Tree, tracked: set<Path>)
    requires ParentClosed(after) && IsCopy(before, source, after, source)
    requires forall p :: !(target <= p) ==> (p in before <==> p in after) && (p in before ==> after[p] == before[p])
    ensures MoveOutcome(source, target, before, after, tracked, false) && SourceIsWhole(source, before, after)
  {
  }

  lemma SourceGone(
    source: Path, target: Path, before: Tree, copied: Tree, after: Tree, tracked: set<Path>, snapshots: seq<Path>,
    ok: bool)
    requires Unrelated(source, target) && NothingBelow(tracked, target)
    requires IsCopy(before, source, copied, target)
    requires forall p :: !(target <= p) ==> (p in before <==> p in copied) && (p in before ==> copied[p] == before[p])
    requires OnlyRemovedBelow(copied, after, source)
    requires forall p :: p in Subtree(before, source) ==> p in snapshots
    requires ok ==> forall p :: p in snapshots && source <= p ==> p !in after
    ensures MoveOutcome(source, target, before, after, tracked, ok)
    ensures Delivered(source, target, before, after, tracked)
  {
    CopyKeptByRemoval(before, source, copied, target, after, source);
    forall p | source <= p && p in after ensures p in before {
      PlacesApart(source, target, p);
    }
  }

  lemma CopyListsOnlyBelow(
    kind: Kind, source: Path, target: Path, before: Tree, earlier: seq<Path>,
    after: Tree, created: seq<Path>, copiedBefore: seq<Path>, copied: seq<Path>, ok: bool)
    requires copiedBefore <= copied
    requires CopyOutcome(kind, source, target, before, earlier, after, created, copied[|copiedBefore|..], ok)
    ensures forall p :: p in copied ==> p in copiedBefore || source <= p
  {
    var listed := copied[|copiedBefore|..];
    ListedBelow(listed, source);
    forall p | p in copied ensures p in copiedBefore || source <= p {
      assert copied == copiedBefore + listed;
      if p !in copiedBefore {
        var i :| 0 <= i < |listed| && listed[i] == p;
      }
    }
  }

  /** Replacing the target does not change what was listed of a source beside it. */
  lemma ExactInPlace(
    before: Tree, staged: Tree, after: Tree, source: Path, staging: Path, target: Path, backup: Path,
    snapshots: seq<Path>, from: nat)
    requires ParentClosed(before) && source in before && target != [] && target in before
    requires Unrelated(source, target) && Unrelated(source, staging) && from <= |snapshots|
    requires IsChild(staging, Parent(target)) && staging !in before
    requires backup == target || (IsChild(backup, Parent(target)) && backup !in before)
    requires forall p :: !(staging <= p) ==> (p in before <==> p in staged) && (p in before ==> staged[p] == before[p])
    requires ListedInOrder(snapshots[from..], source) && forall p :: p in snapshots[from..] ==> p in before
    requires forall p :: p in snapshots[..from] ==> !(source <= p)
    requires forall p :: p in Subtree(before, source) ==> p in snapshots[from..]
    requires SameApartFrom(before, after, staging, target, backup)
    ensures Exact(after, source, snapshots)
  {
    hide ListedInOrder, SameApartFrom, Exact;
    ExactAfterCopy(before, staged, source, staging, snapshots, from);
    if backup != target {
      StagingIsApart(before, source, backup, target);
    }
    SameSubtree(before, after, source, staging, target, backup);
    SameSubtree2(before, staged, source, staging);
    ExactElsewhere(staged, after, source, snapshots);
  }

  lemma ExactReplaced(
    kind: Kind, source: Path, staging: Path, target: Path, backup: Path, before: Tree, earlier: seq<Path>,
    staged: Tree, created: seq<Path>, copiedBefore: seq<Path>, copied: seq<Path>, after: Tree)
    requires ParentClosed(before) && source in before && target != [] && target in before && !(source <= target)
    requires IsChild(staging, Parent(target)) && staging !in before && copiedBefore <= copied
    requires backup == target || (IsChild(backup, Parent(target)) && backup !in before)
    requires CopyOutcome(kind, source, staging, before, earlier, staged, created, copied[|copiedBefore|..], true)
    requires forall p :: !(staging <= p) ==> (p in before <==> p in staged) && (p in before ==> staged[p] == before[p])
    requires ReplaceOutcome(source, staging, target, backup, before, after, true)
    ensures kind.Move? && NoneBelow(copiedBefore, source) && Unrelated(source, target) ==> Exact(after, source, copied)
  {
    hide *;
    if kind.Move? && NoneBelow(copiedBefore, source) && Unrelated(source, target) {
      EarlierIsFresh(copiedBefore, copied, |copiedBefore|, source);
      CopyEndedClosed(kind, source, staging, before, earlier, staged, created, copied[|copiedBefore|..], true);
      ReplacedApart(source, staging, target, backup, before, after);
      StagingIsApart(before, source, staging, target);
      ExactInPlace(before, staged, after, source, staging, target, backup, copied, |copiedBefore|);
    }
  }

  lemma ReplacedApart(source: Path, staging: Path, target: Path, backup: Path, before: Tree, after: Tree)
    requires ReplaceOutcome(source, staging, target, backup, before, after, true)
    ensures SameApartFrom(before, after, staging, target, backup)
  {
  }

  lemma StagingIsApart(tree: Tree, source: Path, sibling: Path, target: Path)
    requires ParentClosed(tree) && source in tree && target != [] && !(source <= target)
    requires IsChild(sibling, Parent(target)) && sibling !in tree
    ensures Unrelated(source, sibling)
  {
    NothingBelowMissing(tree, sibling);
    assert source <= Parent(sibling) ==> source <= target;
  }

  lemma SameSubtree(before: Tree, after: Tree, source: Path, a: Path, b: Path, c: Path)
    requires SameApartFrom(before, after, a, b, c)
    requires Unrelated(source, a) && Unrelated(source, b) && Unrelated(source, c)
    ensures forall p :: source <= p ==> (p in before <==> p in after)
  {
    forall p | source <= p ensures p in before <==> p in after {
      PlacesApart(source, a, p);
      PlacesApart(source, b, p);
      PlacesApart(source, c, p);
    }
  }

  lemma SameSubtree2(before: Tree, staged: Tree, source: Path, staging: Path)
    requires Unrelated(source, staging) && forall p :: !(staging <= p) ==> (p in before <==> p in staged)
    ensures forall p :: source <= p ==> (p in before <==> p in staged)
  {
    forall p | source <= p ensures p in before <==> p in staged {
      PlacesApart(source, staging, p);
    }
  }

  lemma ExactElsewhere(tree: Tree, after: Tree, root: Path, snapshots: seq<Path>)
    requires Exact(tree, root, snapshots) && forall p :: root <= p ==> (p in tree <==> p in after)
    ensures Exact(after, root, snapshots)
  {
    forall p | p in Subtree(after, root) ensures p in snapshots {
      assert p in Subtree(tree, root);
    }
  }

  lemma CopyEndedClosed(
    kind: Kind, source: Path, target: Path, before: Tree, earlier: seq<Path>,
    after: Tree, created: seq<Path>, listed: seq<Path>, ok: bool)
    requires CopyOutcome(kind, source, target, before, earlier, after, created, listed, ok)
    ensures ParentClosed(after) && ListedInOrder(listed, source) && forall p :: p in listed ==> p in before
    ensures ok && kind.Move? ==> forall p :: p in Subtree(before, source) ==> p in listed
  {
  }

  lemma ExactAfterCopy(before: Tree, copied: Tree, source: Path, target: Path, snapshots: seq<Path>, from: nat)
    requires Unrelated(source, target) && from <= |snapshots| && ListedInOrder(snapshots[from..], source)
    requires forall p :: !(target <= p) ==> (p in before <==> p in copied) && (p in before ==> copied[p] == before[p])
    requires forall p :: p in snapshots[from..] ==> p in before
    requires forall p :: p in Subtree(before, source) ==> p in snapshots[from..]
    ensures (forall p :: p in snapshots[..from] ==> !(source <= p)) ==> Exact(copied, source, snapshots)
    ensures forall p :: p in Subtree(before, source) ==> p in snapshots
  {
    ListedBelow(snapshots[from..], source);
    forall p | p in snapshots[from..] ensures p in copied {
      var i :| 0 <= i < |snapshots[from..]| && snapshots[from..][i] == p;
      PlacesApart(source, target, p);
    }
    forall p | p in Subtree(copied, source) ensures p in Subtree(before, source) {
      PlacesApart(source, target, p);
    }
    if forall p :: p in snapshots[..from] ==> !(source <= p) {
      CopyListsExactly(copied, source, snapshots, from);
    }
  }

  ghost predicate NoneBelow(paths: seq<Path>, root: Path) {
    forall p :: p in paths ==> !(root <= p)
  }

  lemma RecordedOnly(before: Tree, earlier: seq<Path>, created: seq<Path>, target: Path)
    requires RecordedBelow(before, earlier, created, target)
    ensures forall p :: p in created ==> p in earlier || (p !in before && target <= p)
  {
    assert created == earlier + created[|earlier|..];
  }

  lemma NothingMoved(source: Path, target: Path, before: Tree, tracked: set<Path>)
    requires ParentClosed(before)
    ensures SourceIsWhole(source, before, before)
    ensures MoveOutcome(source, target, before, before, tracked, false)
  {
    UnchangedIsCopy(before, before, source);
  }

  /** A rename when the system allows it, otherwise a synced copy whose source is
      then removed entry by entry. Once that removal has begun, only a fault or
      a cancellation can stop it, and by then the target is whole. */
  method MovePath(source: Path, target: Path, fs: FileSystem, control: Control, runtime: Runtime)
    returns (result: Result)
    requires Ready(fs.tree, runtime.tracked, source, target) && runtime.Valid()
    requires source in fs.tree && (target in fs.tree ==> fs.tree[target].Symlink?)
    modifies fs, control, runtime`created, runtime`tracked, runtime`copiedSources
    ensures runtime.Valid() && old(runtime.copiedSources) <= runtime.copiedSources
    ensures target in old(fs.tree) ==>
              if result.Ok? then !old(fs.tree)[source].Directory? else fs.tree == old(fs.tree)
    ensures MoveOutcome(source, target, old(fs.tree), fs.tree, runtime.tracked, result.Ok?)
    ensures forall p :: p in runtime.created ==> p in old(runtime.created) || (p !in old(fs.tree) && target <= p)
    ensures !SourceIsWhole(source, old(fs.tree), fs.tree) && NoneBelow(old(runtime.copiedSources), source) ==>
              result != Failed(Refused)
    ensures forall p :: p in runtime.copiedSources ==> p in old(runtime.copiedSources) || source <= p
    ensures result.Failed? ==>
              fs.faults > old(fs.faults) || target in old(fs.tree) || !NoneBelow(old(runtime.copiedSources), source)
    ensures fs.faults >= old(fs.faults)
    ensures result.Cancelled? ==> control.raised
    ensures old(control.raised) ==> control.raised
  {
    hide *;
    ghost var before := fs.tree;
    ReadyParts(before, runtime.tracked, source, target);
    NothingMoved(source, target, before, runtime.tracked);
    var cancelled := control.Poll();
    if cancelled {
      return Cancelled;
    }
    var renamed := fs.Rename(source, target);
    if renamed.Done? {
      RenamedAway(source, target, before, fs.tree, runtime.tracked);
      LinksGiveWayToLeaves(before, source, target);
      return Ok;
    }
    result := MoveByCopy(source, target, fs, control, runtime);
  }

  /** Where a rename is not possible: a copy, synced before the source goes. */
  method MoveByCopy(source: Path, target: Path, fs: FileSystem, control: Control, runtime: Runtime)
    returns (result: Result)
    requires Ready(fs.tree, runtime.tracked, source, target) && runtime.Valid()
    requires source in fs.tree && (target in fs.tree ==> fs.tree[target].Symlink?)
    modifies fs, control, runtime`created, runtime`tracked, runtime`copiedSources
    ensures runtime.Valid() && old(runtime.copiedSources) <= runtime.copiedSources
    ensures target in old(fs.tree) ==> !result.Ok? && fs.tree == old(fs.tree)
    ensures MoveOutcome(source, target, old(fs.tree), fs.tree, runtime.tracked, result.Ok?)
    ensures forall p :: p in runtime.created ==> p in old(runtime.created) || (p !in old(fs.tree) && target <= p)
    ensures !SourceIsWhole(source, old(fs.tree), fs.tree) && NoneBelow(old(runtime.copiedSources), source) ==>
              result != Failed(Refused)
    ensures forall p :: p in runtime.copiedSources ==> p in old(runtime.copiedSources) || source <= p
    ensures result.Failed? ==>
              fs.faults > old(fs.faults) || target in old(fs.tree) || !NoneBelow(old(runtime.copiedSources), source)
    ensures fs.faults >= old(fs.faults)
    ensures result.Cancelled? ==> control.raised
    ensures old(control.raised) ==> control.raised
  {
    hide *;
    ghost var before, earlier, listed := fs.tree, runtime.created, |runtime.copiedSources|;
    ReadyParts(before, runtime.tracked, source, target);
    result := CopyPath(Move, source, target, fs, control, runtime);
    ghost var copied := fs.tree;
    CopyLeavesOthersAlone(Move, source, target, before, earlier, copied, runtime.created,
                          runtime.copiedSources[listed..], result.Ok?, source);
    CopyEndedClosed(Move, source, target, before, earlier, copied, runtime.created,
                    runtime.copiedSources[listed..], result.Ok?);
    CopyListsOnlyBelow(Move, source, target, before, earlier, copied, runtime.created,
                       old(runtime.copiedSources), runtime.copiedSources, result.Ok?);
    CopyStopped(source, target, before, copied, runtime.tracked);
    RecordedOnly(before, earlier, runtime.created, target);
    NothingCopiedOverLink(Move, source, target, before, earlier, copied, runtime.created,
                          runtime.copiedSources[listed..], result.Ok?);
    if !result.Ok? {
      return;
    }
    var synced := fs.Sync();
    if !synced.Done? {
      return Failed(synced);
    }
    runtime.ProtectDestination(target);
    ExactAfterCopy(before, copied, source, target, runtime.copiedSources, listed);
    if NoneBelow(old(runtime.copiedSources), source) {
      EarlierIsFresh(old(runtime.copiedSources), runtime.copiedSources, listed, source);
    }
    result := RemoveCopiedSource(source, runtime.copiedSources, target, fs, control);
    SourceGone(source, target, before, copied, fs.tree, runtime.tracked, runtime.copiedSources, result.Ok?);
  }

  lemma LinksGiveWayToLeaves(tree: Tree, source: Path, target: Path)
    requires CanRename(tree, source, target)
    ensures target in tree && tree[target].Symlink? ==> !tree[source].Directory?
  {
  }

  /** Where a link already stands nothing can be created, not even below it. */
  lemma NothingCopiedOverLink(
    kind: Kind, source: Path, target: Path, before: Tree, earlier: seq<Path>,
    after: Tree, created: seq<Path>, listed: seq<Path>, ok: bool)
    requires CopyOutcome(kind, source, target, before, earlier, after, created, listed, ok)
    ensures target in before && before[target].Symlink? ==> !ok && after == before
  {
    if target in before && before[target].Symlink? {
      assert after[target] == before[target];
      forall p | p in after ensures p in before {
        if p !in before {
          CreatedBelowRoot(before, earlier, after, created, target, p);
          AncestorsExist(after, p, target);
        }
      }
    }
  }

  lemma CreatedBelowRoot(before: Tree, earlier: seq<Path>, after: Tree, created: seq<Path>, root: Path, p: Path)
    requires Grown(before, earlier, after, created, root) && p in after && p !in before
    ensures root <= p
  {
    RecordedIsCreated(before, earlier, after, created, root, p);
  }

  lemma ReadyParts(tree: Tree, tracked: set<Path>, source: Path, target: Path)
    requires Ready(tree, tracked, source, target)
    ensures ParentClosed(tree) && Unrelated(source, target) && NothingBelow(tracked, target)
  {
  }

  lemma EarlierIsFresh(earlier: seq<Path>, snapshots: seq<Path>, from: nat, source: Path)
    requires from == |earlier| && earlier <= snapshots && NoneBelow(earlier, source)
    ensures forall p :: p in snapshots[..from] ==> !(source <= p)
  {
    assert snapshots[..from] == earlier;
  }
}
