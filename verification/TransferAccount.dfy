/** What becomes of every source of a transfer (`src/fs/transfer_queue.rs`, the loop
    in `run_transfer_inner`): the reasons for which a root may be skipped or may
    stop, and when none of them applies. */
module TransferAccounts {
  import opened Prelude
  import opened FileTrees
  import opened Reservations
  import opened TempNames
  import opened TransferCopy
  import opened TransferReplace
  import opened TransferRuns

  /** One file under two paths; `aliases` are the pairs of paths under which the
      system shows the same file. */
  predicate SameItem(aliases: set<(Path, Path)>, tree: Tree, source: Path, target: Path) {
    source == target || (target in tree && (source, target) in aliases)
  }

  /** The name at which the policy places the source. */
  ghost predicate IsTarget(job: Job, taken: set<Path>, tree: Tree, source: Path, target: Path)
    requires source != []
  {
    HandedOut(Base(job.destination, source), IsDirectory(tree, source), job.policy, tree, taken, target)
  }

  /** The only reasons to skip a source: it is gone or has no name, its name is
      taken and the policy says so, or it would be placed upon itself. */
  ghost predicate MaySkip(job: Job, aliases: set<(Path, Path)>, taken: set<Path>, tree: Tree, source: Path) {
    || source !in tree || source == []
    || (job.policy.Skip? && !Free(tree, taken, Base(job.destination, source)))
    || exists target :: IsTarget(job, taken, tree, source, target) && SameItem(aliases, tree, source, target)
  }

  /** All the names that the source could take are taken. */
  ghost predicate NoNameLeft(job: Job, taken: set<Path>, tree: Tree, source: Path)
    requires source != []
  {
    forall i :: 1 <= i <= LAST_COUNTER ==>
      !Free(tree, taken, Candidate(Base(job.destination, source), IsDirectory(tree, source), i))
  }

  /** A root landed where its policy says, or there was a reason to skip it. */
  ghost predicate Accounted(
    job: Job, aliases: set<(Path, Path)>, taken: set<Path>, tree: Tree, source: Path, landing: Option<Path>)
  {
    match landing
    case None => MaySkip(job, aliases, taken, tree, source)
    case Some(target) =>
      && source in tree && source != [] && IsTarget(job, taken, tree, source, target)
      && !SameItem(aliases, tree, source, target)
  }

  function Targets(landed: seq<Option<Path>>): (targets: set<Path>)
    ensures forall t :: t in targets <==> exists i :: 0 <= i < |landed| && landed[i] == Some(t)
  {
    set i | 0 <= i < |landed| && landed[i].Some? :: landed[i].value
  }

  /** `others` are the names that other transfers have reserved; the roots whose
      first look at the source faulted are in `blind`. */
  ghost predicate AllAccounted(
    job: Job, aliases: set<(Path, Path)>, others: set<Path>, trees: seq<Tree>, landed: seq<Option<Path>>,
    blind: set<nat>)
    requires |landed| <= |trees| && |landed| <= |job.sources|
  {
    forall i :: 0 <= i < |landed| && i !in blind ==>
      Accounted(job, aliases, others + Targets(landed[..i]), trees[i], job.sources[i], landed[i])
  }

  lemma OneMoreTarget(landed: seq<Option<Path>>, landing: Option<Path>)
    ensures Targets(landed + [landing]) == Targets(landed) + if landing.Some? then {landing.value} else {}
  {
    var now := landed + [landing];
    forall t ensures t in Targets(now) <==> t in Targets(landed) || landing == Some(t) {
      if t in Targets(landed) {
        var i :| 0 <= i < |landed| && landed[i] == Some(t);
        assert now[i] == Some(t);
      }
      if landing == Some(t) {
        assert now[|landed|] == Some(t);
      }
    }
  }

  lemma OneMoreAccounted(
    job: Job, aliases: set<(Path, Path)>, others: set<Path>, trees: seq<Tree>, landed: seq<Option<Path>>,
    blind: set<nat>, after: Tree, landing: Option<Path>, unseen: bool)
    requires |trees| == |landed| + 1 <= |job.sources|
    requires AllAccounted(job, aliases, others, trees, landed, blind)
    requires || unseen
             || Accounted(job, aliases, others + Targets(landed), trees[|landed|], job.sources[|landed|], landing)
    ensures AllAccounted(job, aliases, others, trees + [after], landed + [landing],
                         if unseen then blind + {|landed|} else blind)
  {
    hide Accounted, Targets;
    var now, k := landed + [landing], |landed|;
    var unseenNow := if unseen then blind + {k} else blind;
    forall i | 0 <= i < |now| && i !in unseenNow
      ensures Accounted(job, aliases, others + Targets(now[..i]), (trees + [after])[i], job.sources[i], now[i])
    {
      if i < k {
        assert now[..i] == landed[..i];
      } else {
        assert now[..i] == landed;
      }
    }
  }

  /** When both are kept, an existing source that the system shows under one path
      only is never skipped while a name is free. */
  lemma NothingSkippedKeepingBoth(job: Job, taken: set<Path>, tree: Tree, source: Path, landing: Option<Path>)
    requires job.policy.KeepBoth? && Accounted(job, {}, taken, tree, source, landing)
    requires Exists(tree, source) && source != []
    requires |Taken(tree, taken, job.destination)| < LAST_COUNTER
    ensures landing.Some? && Free(tree, taken, landing.value)
  {
    hide Exists, Free, Candidate;
    var base := Base(job.destination, source);
    assert Parent(base) == job.destination;
    SomeNameIsFree(base, IsDirectory(tree, source), tree, taken);
    var i :| 1 <= i <= LAST_COUNTER && Free(tree, taken, Candidate(base, IsDirectory(tree, source), i));
    var first := LeastFree(base, IsDirectory(tree, source), tree, taken, i);
    OnlyLinksAreBroken(tree, source);
    ExistingIsNotFree(tree, taken, source);
  }

  lemma ExistingIsNotFree(tree: Tree, taken: set<Path>, path: Path)
    requires Exists(tree, path)
    ensures !Free(tree, taken, path)
  {
  }

  /** When the policy is to replace, every existing source but one standing at its
      own name is placed at that name. */
  lemma NothingSkippedReplacing(job: Job, taken: set<Path>, tree: Tree, source: Path, landing: Option<Path>)
    requires job.policy.Replace? && Accounted(job, {}, taken, tree, source, landing)
    requires source in tree && source != [] && Base(job.destination, source) !in taken
    ensures source != Base(job.destination, source) ==> landing == Some(Base(job.destination, source))
  {
  }

  /** Where a source lands, in words: under its own name in the destination, unless
      that name is taken and both are kept, or another transfer holds it; then under
      another name in the same folder. */
  lemma LandsByName(
    job: Job, aliases: set<(Path, Path)>, taken: set<Path>, tree: Tree, source: Path, target: Path)
    requires Accounted(job, aliases, taken, tree, source, Some(target))
    ensures source in tree && source != [] && source != target
    ensures target != [] && target[..|target| - 1] == job.destination
    ensures var plain := job.destination + [source[|source| - 1]];
            && (job.policy.Skip? ==> target == plain)
            && (job.policy.Replace? && plain !in taken ==> target == plain)
            && (!job.policy.Skip? && !Exists(tree, plain) && plain !in taken ==> target == plain)
            && (target != plain ==> target !in taken && !Exists(tree, target))
  {
    hide Exists;
    var base := Base(job.destination, source);
    assert base == job.destination + [source[|source| - 1]];
    assert Candidate(base, IsDirectory(tree, source), 1) == base;
    FreeMeans(tree, taken, base);
    FreeMeans(tree, taken, target);
  }

  /** The other name that a copy gets: its number goes in front of the extension of a
      file, and takes the place of what follows the last dot of a folder. */
  lemma LandsNumbered(
    job: Job, aliases: set<(Path, Path)>, taken: set<Path>, tree: Tree, source: Path, target: Path, stem: Name,
    extension: Name)
    requires Accounted(job, aliases, taken, tree, source, Some(target))
    requires target != job.destination + [source[|source| - 1]]
    requires stem != [] && '.' !in extension && source[|source| - 1] == stem + "." + extension
    ensures exists i :: 2 <= i <= 9999
              && (tree[source].File? ==> target[|target| - 1] == stem + " (" + Decimal(i) + ")." + extension)
              && (tree[source].Directory? ==> target[|target| - 1] == stem + " (" + Decimal(i) + ")")
  {
    hide Exists, Free, Candidate, IsDirectory, CandidateName, Decimal, MaySkip, SameItem;
    var base, isDirectory := Base(job.destination, source), IsDirectory(tree, source);
    assert base == job.destination + [source[|source| - 1]];
    var i :| FirstFree(base, isDirectory, tree, taken, i) && target == Candidate(base, isDirectory, i);
    CandidateMeans(base, isDirectory, i);
    NamesOfCopies(stem, extension, i);
    DirectoryMeans(tree, source);
  }

  lemma DirectoryMeans(tree: Tree, path: Path)
    requires path in tree
    ensures tree[path].File? ==> !IsDirectory(tree, path)
    ensures tree[path].Directory? ==> IsDirectory(tree, path)
  {
  }

  lemma CandidateMeans(base: Path, isDirectory: bool, i: nat)
    requires base != []
    ensures i == 1 ==> Candidate(base, isDirectory, i) == base
    ensures var path := Candidate(base, isDirectory, i);
            path[|path| - 1] == CandidateName(base[|base| - 1], isDirectory, i)
  {
  }

  lemma FreeMeans(tree: Tree, taken: set<Path>, path: Path)
    ensures Free(tree, taken, path) <==> !Exists(tree, path) && path !in taken
  {
  }

  // ----- Why a run stops when no call faults and nobody cancels -----

  /** An earlier source lies above or below this one. */
  ghost predicate Tangled(job: Job, k: nat)
    requires k < |job.sources|
  {
    exists i :: 0 <= i < k && !Unrelated(job.sources[i], job.sources[k])
  }

  /** A name was not to be had, a link that leads to nothing was in the way, or a
      moved source is not apart from its target or from an earlier source. */
  ghost predicate StopExplained(
    job: Job, others: set<Path>, trees: seq<Tree>, landed: seq<Option<Path>>, crowded: bool, target: Path,
    process: nat, next: nat)
    requires |trees| == |landed| + 1 <= |job.sources|
  {
    var k := |landed|;
    if crowded then
      || (job.sources[k] != [] && NoNameLeft(job, others + Targets(landed), trees[k], job.sources[k]))
      || Issued(target, process, next)
    else
      BrokenLink(trees[k], target) || (job.kind.Move? && (Tangled(job, k) || !Unrelated(job.sources[k], target)))
  }

  ghost predicate CopiedFromSources(job: Job, copied: seq<Path>, k: nat)
    requires k <= |job.sources|
  {
    forall p :: p in copied ==> exists i :: 0 <= i < k && job.sources[i] <= p
  }

  lemma MoreCopied(job: Job, before: seq<Path>, copied: seq<Path>, k: nat)
    requires k < |job.sources| && CopiedFromSources(job, before, k)
    requires forall p :: p in copied ==> p in before || job.sources[k] <= p
    ensures CopiedFromSources(job, copied, k + 1)
  {
    forall p | p in copied ensures exists i :: 0 <= i < k + 1 && job.sources[i] <= p {
      if p in before {
        var i :| 0 <= i < k && job.sources[i] <= p;
      }
    }
  }

  lemma StopIsExplained(
    job: Job, others: set<Path>, trees: seq<Tree>, landed: seq<Option<Path>>, crowded: bool, target: Path,
    process: nat, next: nat, copied: seq<Path>, link: bool)
    requires |trees| == |landed| + 1 <= |job.sources| && CopiedFromSources(job, copied, |landed|)
    requires var source := job.sources[|landed|];
             if crowded then
               || (source != [] && NoNameLeft(job, others + Targets(landed), trees[|landed|], source))
               || Issued(target, process, next)
             else
               link || (job.kind.Move? && !(NoneBelow(copied, source) && Unrelated(source, target)))
    requires link ==> target in trees[|landed|] && !Exists(trees[|landed|], target)
    ensures StopExplained(job, others, trees, landed, crowded, target, process, next)
  {
    hide NoNameLeft, Issued, Exists, Targets;
    var k := |landed|;
    if !crowded && !link && Unrelated(job.sources[k], target) {
      var p :| p in copied && job.sources[k] <= p;
      var i :| 0 <= i < k && job.sources[i] <= p;
      PrefixesAreComparable(job.sources[i], job.sources[k], p);
      assert Tangled(job, k);
    }
  }

  lemma NothingAccounted(job: Job, aliases: set<(Path, Path)>, others: set<Path>, trees: seq<Tree>)
    ensures AllAccounted(job, aliases, others, trees, [], {}) && Targets([]) == {}
    ensures CopiedFromSources(job, [], 0)
  {
  }

  lemma SkippedIsAccounted(job: Job, aliases: set<(Path, Path)>, taken: set<Path>, tree: Tree, source: Path)
    ensures MaySkip(job, aliases, taken, tree, source) ==> Accounted(job, aliases, taken, tree, source, None)
  {
  }

  /** With room in the folder, a run that keeps both leaves no existing source out. */
  lemma EverySourceLands(
    job: Job, others: set<Path>, trees: seq<Tree>, landed: seq<Option<Path>>, i: nat)
    requires |landed| <= |trees| && i < |landed| <= |job.sources|
    requires job.policy.KeepBoth? && AllAccounted(job, {}, others, trees, landed, {})
    requires Exists(trees[i], job.sources[i]) && job.sources[i] != []
    requires |Taken(trees[i], others + Targets(landed[..i]), job.destination)| < LAST_COUNTER
    ensures landed[i].Some? && Free(trees[i], others + Targets(landed[..i]), landed[i].value)
  {
    hide Accounted, Exists, Free, Targets;
    NothingSkippedKeepingBoth(job, others + Targets(landed[..i]), trees[i], job.sources[i], landed[i]);
  }

  /** With room in the folder, no link leading to nothing at the target, and moved
      sources that lie apart, there is no reason to stop. */
  lemma NoReasonToStop(
    job: Job, others: set<Path>, trees: seq<Tree>, landed: seq<Option<Path>>, crowded: bool, target: Path,
    process: nat, next: nat)
    requires |trees| == |landed| + 1 <= |job.sources| && job.sources[|landed|] != []
    requires |Taken(trees[|landed|], others + Targets(landed), job.destination)| < LAST_COUNTER
    requires !Issued(target, process, next) && !BrokenLink(trees[|landed|], target)
    requires job.kind.Move? ==>
               && Unrelated(job.sources[|landed|], target)
               && forall i, j :: 0 <= i < j < |job.sources| ==> Unrelated(job.sources[i], job.sources[j])
    ensures !StopExplained(job, others, trees, landed, crowded, target, process, next)
  {
    hide Free, Targets, Issued, BrokenLink;
    var k := |landed|;
    var base := Base(job.destination, job.sources[k]);
    assert Parent(base) == job.destination;
    SomeNameIsFree(base, IsDirectory(trees[k], job.sources[k]), trees[k], others + Targets(landed));
  }
}
