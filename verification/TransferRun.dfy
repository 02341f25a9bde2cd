/** What a run over several roots keeps (`src/fs/transfer_queue.rs`, the loop in
    `run_transfer_inner`), stated over the trees between the roots: nothing but
    moved sources and overwritten targets is gone, and what was completed stays
    complete while later roots run, stop and are cleaned up. */
module TransferRuns {
  import opened Prelude
  import opened FileTrees
  import opened FileSystems
  import opened TransferCopy
  import opened TransferCleanup
  import opened TransferReplace
  import opened TransferRoots
  import opened Reservations

  datatype Job = Job(kind: Kind, policy: ConflictPolicy, destination: Path, sources: seq<Path>)

  /** The name a source takes when nothing is in its way. */
  function Base(destination: Path, source: Path): (base: Path)
    requires source != []
    ensures IsChild(base, destination)
  {
    var base := destination + [source[|source| - 1]];
    assert Parent(base) == destination;
    base
  }

  // ----- The trees of a run -----

  /** A target that already stood there is replaced under the policy that says so,
      or was a link leading to nothing and gave way to a moved file. */
  ghost predicate GivesWay(job: Job, start: Tree, source: Path, target: Path)
    requires source in start && target in start
  {
    if job.policy.Replace? && Exists(start, target)
    then source != [] && target == Base(job.destination, source)
    else job.kind.Move? && BrokenLink(start, target) && !start[source].Directory?
  }

  /** Without replacements such a link has stood there since before the run. */
  ghost predicate WrittenOver(job: Job, before: Tree, start: Tree, source: Path, target: Path)
    requires source in start && target in start
  {
    && GivesWay(job, start, source, target)
    && (!job.policy.Replace? ==> target in before && before[target] == start[target])
  }

  /** A root was skipped, or it landed whole at its target. */
  ghost predicate RootEnded(
    job: Job, before: Tree, start: Tree, source: Path, after: Tree, landing: Option<Path>)
  {
    match landing
    case None => after == start
    case Some(target) =>
      && IsChild(target, job.destination) && source in start && IsCopy(start, source, after, target)
      && (target in start ==> WrittenOver(job, before, start, source, target))
      && (job.kind.Move? && Unrelated(source, target) ==> forall p :: source <= p ==> p !in after)
  }

  /** `trees` are the trees before each root, and `landed` is where each went. */
  ghost predicate RootByRoot(job: Job, trees: seq<Tree>, landed: seq<Option<Path>>) {
    && |trees| == |landed| + 1 <= |job.sources| + 1
    && forall i :: 0 <= i < |landed| ==>
         RootEnded(job, trees[0], trees[i], job.sources[i], trees[i + 1], landed[i])
  }

  /** The targets that stood there when their root began and were written over. */
  function Overwritten(trees: seq<Tree>, landed: seq<Option<Path>>): (over: set<Path>)
    requires |trees| == |landed| + 1
  {
    set i | 0 <= i < |landed| && landed[i].Some? && landed[i].value in trees[i] :: landed[i].value
  }

  function Completed(sources: seq<Path>, landed: seq<Option<Path>>): (roots: seq<CompletedRoot>)
    requires |landed| <= |sources|
  {
    if landed == [] then []
    else
      var last := |landed| - 1;
      Completed(sources, landed[..last])
      + if landed[last].Some? then [CompletedRoot(sources[last], landed[last].value)] else []
  }

  lemma NothingRun(job: Job, tree: Tree)
    ensures RootByRoot(job, [tree], []) && Overwritten([tree], []) == {} && Completed(job.sources, []) == []
  {
  }

  lemma TreesGrow(job: Job, trees: seq<Tree>, landed: seq<Option<Path>>, after: Tree, landing: Option<Path>)
    requires RootByRoot(job, trees, landed) && |landed| < |job.sources|
    requires RootEnded(job, trees[0], trees[|landed|], job.sources[|landed|], after, landing)
    ensures RootByRoot(job, trees + [after], landed + [landing])
  {
    hide RootEnded;
  }

  lemma OverwrittenGrows(trees: seq<Tree>, landed: seq<Option<Path>>, after: Tree, landing: Option<Path>)
    requires |trees| == |landed| + 1
    ensures Overwritten(trees + [after], landed + [landing]) ==
              Overwritten(trees, landed)
              + if landing.Some? && landing.value in trees[|landed|] then {landing.value} else {}
    ensures landing.None? ==> Overwritten(trees + [after], landed + [landing]) == Overwritten(trees, landed)
  {
    var now, then_ := Overwritten(trees + [after], landed + [landing]), Overwritten(trees, landed);
    forall r | r in then_ ensures r in now {
      var i :| 0 <= i < |landed| && landed[i].Some? && landed[i].value in trees[i] && landed[i].value == r;
      assert (landed + [landing])[i] == landed[i] && (trees + [after])[i] == trees[i];
    }
    if landing.Some? && landing.value in trees[|landed|] {
      assert (landed + [landing])[|landed|] == landing && (trees + [after])[|landed|] == trees[|landed|];
    }
  }

  lemma CompletedGrows(sources: seq<Path>, landed: seq<Option<Path>>, landing: Option<Path>)
    requires |landed| < |sources|
    ensures Completed(sources, landed + [landing]) ==
              Completed(sources, landed)
              + if landing.Some? then [CompletedRoot(sources[|landed|], landing.value)] else []
    ensures landing.None? ==> Completed(sources, landed + [landing]) == Completed(sources, landed)
  {
    assert (landed + [landing])[..|landed|] == landed;
  }

  // ----- Entries that are nobody's business stay as they are -----

  ghost predicate NoneAbove(paths: seq<Path>, path: Path) {
    forall i :: 0 <= i < |paths| ==> !(paths[i] <= path)
  }

  /** Nothing but moved sources and overwritten targets went away or changed. */
  ghost predicate OthersKept(job: Job, before: Tree, over: set<Path>, tree: Tree) {
    forall p :: p in before && (job.kind.Move? ==> NoneAbove(job.sources, p)) && NothingOver(over, p) ==>
      p in tree && tree[p] == before[p]
  }

  ghost predicate NothingOver(over: set<Path>, path: Path) {
    forall r :: r in over ==> !(r <= path)
  }

  function With(over: set<Path>, written: bool, target: Path): set<Path> {
    if written then over + {target} else over
  }

  lemma OthersAtStart(job: Job, tree: Tree)
    ensures OthersKept(job, tree, {}, tree)
  {
  }

  lemma RootKeepsOthers(
    job: Job, before: Tree, over: set<Path>, start: Tree, k: nat, target: Path, after: Tree, written: bool)
    requires k < |job.sources| && OthersKept(job, before, over, start)
    requires RootEffect(job.kind, job.sources[k], target, job.destination, start, after, written)
    ensures OthersKept(job, before, With(over, written, target), after)
  {
    hide ParentClosed, AddedInNewSlots;
    var now := With(over, written, target);
    forall p | p in before && (job.kind.Move? ==> NoneAbove(job.sources, p)) && NothingOver(now, p)
      ensures p in after && after[p] == before[p]
    {
      assert NothingOver(over, p);
      assert written ==> target in now;
    }
  }

  /** While nothing is replaced, whatever is new or different in the destination
      lies below a target that was reserved for it. */
  ghost predicate WrittenOnlyInHeld(before: Tree, tree: Tree, destination: Path, held: set<Path>) {
    forall p :: p in tree && !(p in before && tree[p] == before[p]) ==>
      destination < p && Towards(destination, p) in held
  }

  lemma NothingWritten(tree: Tree, destination: Path, held: set<Path>)
    ensures WrittenOnlyInHeld(tree, tree, destination, held)
  {
  }

  lemma HeldGrow(before: Tree, tree: Tree, destination: Path, held: set<Path>, more: set<Path>)
    requires WrittenOnlyInHeld(before, tree, destination, held) && held <= more
    ensures WrittenOnlyInHeld(before, tree, destination, more)
  {
  }

  lemma RootWritesInHeld(
    before: Tree, start: Tree, destination: Path, held: set<Path>, target: Path, after: Tree)
    requires WrittenOnlyInHeld(before, start, destination, held) && target in held
    requires WrittenOnlyBelow(start, after, target) && IsChild(target, destination)
    ensures WrittenOnlyInHeld(before, after, destination, held)
  {
    forall p | p in after && !(p in before && after[p] == before[p])
      ensures destination < p && Towards(destination, p) in held
    {
      if target <= p {
        TowardsIsUnique(destination, p, target);
      }
    }
  }

  /** So a link standing at a name that no one has reserved is an old one. */
  lemma LinkIsOld(before: Tree, start: Tree, destination: Path, held: set<Path>, target: Path)
    requires WrittenOnlyInHeld(before, start, destination, held)
    requires IsChild(target, destination) && target !in held && target in start
    ensures target in before && before[target] == start[target]
  {
    if !(target in before && start[target] == before[target]) {
      TowardsIsUnique(destination, target, target);
    }
  }

  // ----- Completed roots stay complete -----

  /** No root after number `i` moves `q` or something above it away. */
  ghost predicate Unmoved(job: Job, i: nat, q: Path) {
    job.kind.Move? ==> forall j :: i < j < |job.sources| ==> !(job.sources[j] <= q)
  }

  /** Root number `i`, which began in `start`, stands at `target`: entry by entry,
      apart from what later roots have moved on from there. */
  ghost predicate Stands(job: Job, i: nat, start: Tree, target: Path, tree: Tree)
    requires i < |job.sources|
  {
    forall p :: job.sources[i] <= p && Unmoved(job, i, Image(job.sources[i], target, p)) ==>
      SameAtImage(start, job.sources[i], tree, target, p)
  }

  ghost predicate RootsStand(job: Job, trees: seq<Tree>, landed: seq<Option<Path>>, tree: Tree)
    requires |landed| <= |trees| && |landed| <= |job.sources|
  {
    forall i :: 0 <= i < |landed| && landed[i].Some? ==> Stands(job, i, trees[i], landed[i].value, tree)
  }

  ghost predicate IsNew(landed: seq<Option<Path>>, target: Path) {
    forall i :: 0 <= i < |landed| && landed[i].Some? ==> landed[i].value != target
  }

  lemma UnmovedBelow(job: Job, i: nat, t: Path, q: Path)
    requires t <= q && Unmoved(job, i, q)
    ensures Unmoved(job, i, t)
  {
  }

  lemma StandsStill(
    job: Job, i: nat, origin: Tree, t: Path, start: Tree, k: nat, target: Path, after: Tree, written: bool)
    requires i < k < |job.sources| && IsChild(t, job.destination) && job.sources[i] in origin
    requires IsChild(target, job.destination) && t != target
    requires Stands(job, i, origin, t, start)
    requires RootEffect(job.kind, job.sources[k], target, job.destination, start, after, written)
    ensures Stands(job, i, origin, t, after)
  {
    hide ParentClosed;
    var source := job.sources[i];
    forall p | source <= p && Unmoved(job, i, Image(source, t, p)) ensures SameAtImage(origin, source, after, t, p) {
      var q := Image(source, t, p);
      UnmovedBelow(job, i, t, q);
      assert Image(source, t, source) == t;
      assert SameAtImage(origin, source, start, t, source) && t in start;
      assert SameAtImage(origin, source, start, t, p);
      TowardsIsUnique(job.destination, q, t);
      if target <= q {
        TowardsIsUnique(job.destination, q, target);
      }
      assert !NewSlot(target, job.destination, start, written, q);
    }
  }

  lemma RootsStandStill(
    job: Job, trees: seq<Tree>, landed: seq<Option<Path>>, start: Tree, target: Path, after: Tree, written: bool)
    requires RootByRoot(job, trees, landed) && RootsStand(job, trees, landed, start) && |landed| < |job.sources|
    requires IsChild(target, job.destination) && IsNew(landed, target)
    requires RootEffect(job.kind, job.sources[|landed|], target, job.destination, start, after, written)
    ensures RootsStand(job, trees, landed, after)
  {
    hide Stands, RootEffect, IsCopy, WrittenOver;
    forall i | 0 <= i < |landed| && landed[i].Some? ensures Stands(job, i, trees[i], landed[i].value, after) {
      assert RootEnded(job, trees[0], trees[i], job.sources[i], trees[i + 1], landed[i]);
      StandsStill(job, i, trees[i], landed[i].value, start, |landed|, target, after, written);
    }
  }

  lemma OneMoreStands(
    job: Job, trees: seq<Tree>, landed: seq<Option<Path>>, after: Tree, landing: Option<Path>)
    requires |trees| == |landed| + 1 <= |job.sources|
    requires RootsStand(job, trees, landed, after)
    requires landing.Some? ==> IsCopy(trees[|landed|], job.sources[|landed|], after, landing.value)
    ensures RootsStand(job, trees + [after], landed + [landing], after)
  {
    var k, now, then_ := |landed|, landed + [landing], trees + [after];
    forall i | 0 <= i < |now| && now[i].Some? ensures Stands(job, i, then_[i], now[i].value, after) {
      if i < k {
        assert now[i] == landed[i] && then_[i] == trees[i];
      } else {
        assert now[i] == landing && then_[i] == trees[k];
      }
    }
  }

  /** A completed root that no later move takes apart is an exact copy. */
  lemma StandsWhole(job: Job, trees: seq<Tree>, landed: seq<Option<Path>>, tree: Tree, i: nat)
    requires RootByRoot(job, trees, landed) && RootsStand(job, trees, landed, tree)
    requires i < |landed| && landed[i].Some?
    requires job.kind.Move? ==> forall j :: i < j < |job.sources| ==> Unrelated(job.sources[j], landed[i].value)
    ensures IsCopy(trees[i], job.sources[i], tree, landed[i].value)
  {
    var source, target := job.sources[i], landed[i].value;
    assert Stands(job, i, trees[i], target, tree);
    forall p | source <= p ensures SameAtImage(trees[i], source, tree, target, p) {
      NoSourceAbove(job, i, target, Image(source, target, p));
    }
  }

  lemma NoSourceAbove(job: Job, i: nat, target: Path, q: Path)
    requires target <= q
    requires job.kind.Move? ==> forall j :: i < j < |job.sources| ==> Unrelated(job.sources[j], target)
    ensures Unmoved(job, i, q)
  {
    if job.kind.Move? {
      forall j | i < j < |job.sources| ensures !(job.sources[j] <= q) {
        if job.sources[j] <= q {
          PrefixesAreComparable(job.sources[j], target, q);
        }
      }
    }
  }

  // ----- Every source is whole somewhere -----

  /** Each source stands whole at its place. */
  ghost predicate AllKept(before: Tree, sources: seq<Path>, tree: Tree, places: seq<Path>) {
    && |places| == |sources|
    && forall i :: 0 <= i < |sources| ==> IsCopy(before, sources[i], tree, places[i])
  }

  /** Existing items, none of them inside another. */
  ghost predicate SeparateSources(tree: Tree, sources: seq<Path>) {
    && (forall i :: 0 <= i < |sources| ==> sources[i] in tree)
    && (forall i, j :: 0 <= i < j < |sources| ==> Unrelated(sources[i], sources[j]))
  }

  /** No source lies at or below a place that is written over. */
  ghost predicate ClearOf(sources: seq<Path>, over: set<Path>) {
    forall i :: 0 <= i < |sources| ==> NothingOver(over, sources[i])
  }

  ghost predicate PlacesAreSeparate(tree: Tree, places: seq<Path>, destination: Path) {
    && (forall i :: 0 <= i < |places| ==> places[i] in tree && !(places[i] <= destination))
    && (forall i, j :: 0 <= i < j < |places| ==> Unrelated(places[i], places[j]))
  }

  ghost predicate SourcesKept(job: Job, before: Tree, over: set<Path>, tree: Tree, places: seq<Path>) {
    SeparateSources(before, job.sources) && ClearOf(job.sources, over) ==>
      AllKept(before, job.sources, tree, places) && PlacesAreSeparate(tree, places, job.destination)
  }

  /** A source that is done is at its own place or where it landed; the others
      have not been touched. */
  ghost predicate PlacesAreKnown(job: Job, landed: seq<Option<Path>>, places: seq<Path>) {
    && |places| == |job.sources|
    && forall i :: 0 <= i < |places| ==>
         places[i] == job.sources[i] || (i < |landed| && landed[i] == Some(places[i]))
  }

  lemma SourcesAtStart(job: Job, before: Tree)
    requires forall i :: 0 <= i < |job.sources| ==> !(job.sources[i] <= job.destination)
    ensures SourcesKept(job, before, {}, before, job.sources)
    ensures PlacesAreKnown(job, [], job.sources)
  {
    hide IsCopy;
    forall i | 0 <= i < |job.sources| ensures IsCopy(before, job.sources[i], before, job.sources[i]) {
      UnchangedIsCopy(before, before, job.sources[i]);
    }
  }

  lemma LessIsClear(sources: seq<Path>, over: set<Path>, more: set<Path>)
    requires ClearOf(sources, more) && over <= more
    ensures ClearOf(sources, over)
  {
    forall i | 0 <= i < |sources| ensures NothingOver(over, sources[i]) {
      assert NothingOver(more, sources[i]);
    }
  }

  /** An item that is not written over is apart from any target of the run. */
  lemma ApartFromTarget(tree: Tree, place: Path, target: Path, destination: Path)
    requires ParentClosed(tree) && place in tree && !(place <= destination) && IsChild(target, destination)
    requires target !in tree || !(target <= place)
    ensures Unrelated(place, target)
  {
    if target !in tree {
      NothingBelowMissing(tree, target);
    }
    assert place <= Parent(target) ==> place <= destination;
  }

  /** An item apart from the source of a root, and not below an overwritten
      target, is left alone by that root. */
  lemma StaysThroughRoot(
    kind: Kind, source: Path, target: Path, destination: Path, tree: Tree, after: Tree, written: bool, place: Path)
    requires RootEffect(kind, source, target, destination, tree, after, written)
    requires ParentClosed(tree) && place in tree && !(place <= destination) && Unrelated(place, source)
    requires IsChild(target, destination) && (written ==> !(target <= place))
    ensures IsCopy(tree, place, after, place)
  {
    hide ParentClosed;
    forall p | place <= p
      ensures p in tree <==> p in after
      ensures p in tree ==> after[p] == tree[p]
    {
      PlacesApart(place, source, p);
      if target <= p && written {
        BelowPlace(place, target, destination, p);
      }
      if NewSlot(target, destination, tree, written, p) {
        SlotOfPlace(tree, place, destination, p);
      }
    }
    UnchangedIsCopy(tree, after, place);
  }

  lemma BelowPlace(place: Path, target: Path, destination: Path, p: Path)
    requires place <= p && target <= p && IsChild(target, destination) && !(place <= destination)
    ensures target <= place
  {
    PrefixesAreComparable(place, target, p);
    if place <= target {
      PrefixOfChild(place, target, destination);
    }
  }

  lemma PrefixOfChild(place: Path, child: Path, directory: Path)
    requires IsChild(child, directory) && place <= child
    ensures place == child || place <= directory
  {
  }

  lemma SlotOfPlace(tree: Tree, place: Path, destination: Path, p: Path)
    requires ParentClosed(tree) && place in tree && place <= p && !(place <= destination) && destination < p
    ensures Towards(destination, p) in tree && Towards(destination, p) <= place
  {
    BelowPlace(place, Towards(destination, p), destination, p);
    AncestorsExist(tree, place, Towards(destination, p));
  }

  /** One more root keeps every source whole: the others where they were, this
      one at `now`, its own place or its target. */
  lemma RootKeepsAll(
    kind: Kind, before: Tree, sources: seq<Path>, tree: Tree, places: seq<Path>, k: nat, destination: Path,
    target: Path, after: Tree, written: bool, now: Path)
    requires k < |sources| && AllKept(before, sources, tree, places) && places[k] == sources[k]
    requires ParentClosed(tree) && PlacesAreSeparate(tree, places, destination) && IsChild(target, destination)
    requires RootEffect(kind, sources[k], target, destination, tree, after, written)
    requires written ==> forall i :: 0 <= i < |places| && i != k ==> !(target <= places[i])
    requires IsCopy(tree, sources[k], after, now)
    requires now == sources[k] || (now == target && (written || target !in tree))
    ensures AllKept(before, sources, after, places[k := now])
    ensures PlacesAreSeparate(after, places[k := now], destination)
  {
    hide IsCopy, ParentClosed, RootEffect;
    var moved := places[k := now];
    forall i | 0 <= i < |sources|
      ensures IsCopy(before, sources[i], after, moved[i])
      ensures moved[i] in after && !(moved[i] <= destination)
      ensures i != k && now == target ==> Unrelated(places[i], target)
    {
      if i != k {
        assert Unrelated(places[i], places[k]);
        StaysThroughRoot(kind, sources[k], target, destination, tree, after, written, places[i]);
        CopyOfCopy(before, sources[i], tree, places[i], after, places[i]);
        CopyIsThere(tree, places[i], after, places[i]);
        if now == target {
          ApartFromTarget(tree, places[i], target, destination);
        }
      } else {
        CopyOfCopy(before, sources[k], tree, sources[k], after, now);
        CopyIsThere(tree, sources[k], after, now);
        ChildIsLonger(target, destination);
      }
    }
    forall i, j | 0 <= i < j < |moved| ensures Unrelated(moved[i], moved[j]) {
    }
  }

  lemma ChildIsLonger(child: Path, directory: Path)
    requires IsChild(child, directory)
    ensures directory < child
  {
  }

  lemma CopyIsThere(before: Tree, source: Path, after: Tree, target: Path)
    requires IsCopy(before, source, after, target) && source in before
    ensures target in after
  {
    assert Image(source, target, source) == target;
  }

  /** Nothing that stands at a place is written over by the next root. */
  lemma PlacesAreClear(job: Job, landed: seq<Option<Path>>, places: seq<Path>, over: set<Path>, target: Path, k: nat)
    requires PlacesAreKnown(job, landed, places) && ClearOf(job.sources, over) && target in over
    requires IsChild(target, job.destination) && IsNew(landed, target)
    requires forall i :: 0 <= i < |landed| && landed[i].Some? ==> IsChild(landed[i].value, job.destination)
    ensures forall i :: 0 <= i < |places| && i != k ==> !(target <= places[i])
  {
    forall i | 0 <= i < |places| && i != k ensures !(target <= places[i]) {
      if places[i] == job.sources[i] {
        assert NothingOver(over, job.sources[i]);
      } else {
        assert landed[i].value == places[i] && |places[i]| == |target|;
      }
    }
  }

  lemma LandedInDestination(job: Job, trees: seq<Tree>, landed: seq<Option<Path>>)
    requires RootByRoot(job, trees, landed)
    ensures forall i :: 0 <= i < |landed| && landed[i].Some? ==> IsChild(landed[i].value, job.destination)
  {
    hide IsCopy, WrittenOver, IsChild;
    forall i | 0 <= i < |landed| && landed[i].Some? ensures IsChild(landed[i].value, job.destination) {
      assert RootEnded(job, trees[0], trees[i], job.sources[i], trees[i + 1], landed[i]);
    }
  }

  /** The step of `SourcesKept`: root number `|landed|` ends with its data at `now`. */
  lemma RootKeepsSources(
    job: Job, trees: seq<Tree>, landed: seq<Option<Path>>, over: set<Path>, start: Tree, places: seq<Path>,
    target: Path, after: Tree, written: bool, now: Path)
    requires RootByRoot(job, trees, landed) && |landed| < |job.sources| && ParentClosed(start)
    requires SourcesKept(job, trees[0], over, start, places) && PlacesAreKnown(job, landed, places)
    requires IsChild(target, job.destination) && IsNew(landed, target)
    requires RootEffect(job.kind, job.sources[|landed|], target, job.destination, start, after, written)
    requires now == job.sources[|landed|] || (now == target && (written || target !in start))
    requires SeparateSources(trees[0], job.sources) && ClearOf(job.sources, With(over, written, target)) ==>
               IsCopy(start, job.sources[|landed|], after, now)
    ensures SourcesKept(job, trees[0], With(over, written, target), after, places[|landed| := now])
  {
    hide RootByRoot, RootEffect, IsCopy, AllKept, PlacesAreSeparate, SeparateSources, ClearOf, ParentClosed, IsNew;
    ByRoot(job, trees, landed);
    if SeparateSources(trees[0], job.sources) && ClearOf(job.sources, With(over, written, target)) {
      LessIsClear(job.sources, over, With(over, written, target));
      if written {
        LandedInDestination(job, trees, landed);
        PlacesAreClear(job, landed, places, With(over, written, target), target, |landed|);
      }
      RootKeepsAll(job.kind, trees[0], job.sources, start, places, |landed|, job.destination, target, after,
                   written, now);
    }
  }

  lemma OneMorePlace(job: Job, landed: seq<Option<Path>>, places: seq<Path>, landing: Option<Path>)
    requires PlacesAreKnown(job, landed, places) && |landed| < |job.sources|
    ensures PlacesAreKnown(job, landed + [landing],
                           if landing.Some? then places[|landed| := landing.value] else places)
  {
  }

  // ----- Copies that replace nothing only add -----

  /** `after` is `before` plus complete copies of the listed roots, and nothing else. */
  ghost predicate OnlyCopiesAdded(before: Tree, tree: Tree, roots: seq<CompletedRoot>) {
    && (forall p :: p in before ==> p in tree && tree[p] == before[p])
    && (forall p :: p in tree && p !in before ==> exists j :: 0 <= j < |roots| && roots[j].target <= p)
    && (forall j :: 0 <= j < |roots| ==>
          && roots[j].target !in before
          && IsCopy(tree, roots[j].source, tree, roots[j].target)
          && (roots[j].source in before ==> IsCopy(before, roots[j].source, tree, roots[j].target)))
  }

  lemma NewTargetIsApart(tree: Tree, place: Path, target: Path, destination: Path)
    requires ParentClosed(tree) && place in tree && target !in tree
    requires IsChild(target, destination) && !(place <= destination)
    ensures Unrelated(place, target)
  {
    NothingBelowMissing(tree, target);
    assert place <= Parent(target) ==> place <= destination;
  }

  lemma PlacedParts(
    kind: Kind, source: Path, target: Path, before: Tree, earlier: seq<Path>, after: Tree, created: seq<Path>, ok: bool)
    requires Placed(kind, source, target, before, earlier, after, created, ok)
    ensures source in before && WrittenOnlyBelow(before, after, target)
    ensures kind.Copy? ==> AddedBelow(before, after, target) && (ok ==> target !in before)
    ensures kind.Copy? && !ok ==> Grown(before, earlier, after, created, target)
    ensures ok ==> IsCopy(before, source, after, target)
    ensures ok && kind.Move? ==> forall p :: source <= p ==> p !in after
    ensures forall p :: p in created ==> p in earlier || (p !in before && target <= p)
    ensures target in before ==> if ok then kind.Move? && !before[source].Directory? else after == before
    ensures ok && earlier == [] ==> created == []
  {
  }

  lemma RootAddsCopy(
    before: Tree, tree: Tree, roots: seq<CompletedRoot>, source: Path, target: Path, after: Tree, destination: Path)
    requires ParentClosed(before) && ParentClosed(tree) && OnlyCopiesAdded(before, tree, roots)
    requires RootsAreSeparate(tree, roots, destination)
    requires source in tree && target !in tree && IsChild(target, destination) && !(source <= destination)
    requires AddedBelow(tree, after, target) && IsCopy(tree, source, after, target)
    ensures OnlyCopiesAdded(before, after, roots + [CompletedRoot(source, target)])
    ensures RootsAreSeparate(after, roots + [CompletedRoot(source, target)], destination)
  {
    hide *;
    var now := roots + [CompletedRoot(source, target)];
    EntriesOfRoots(before, tree, roots, source, target, after);
    forall j | 0 <= j < |now|
      ensures now[j].target !in before && IsChild(now[j].target, destination)
      ensures now[j].source in after && now[j].target in after && !(now[j].source <= destination)
      ensures IsCopy(after, now[j].source, after, now[j].target)
      ensures now[j].source in before ==> IsCopy(before, now[j].source, after, now[j].target)
    {
      if j < |roots| {
        RootParts(before, tree, roots, destination, j);
        OlderCopyStays(before, tree, roots[j].source, roots[j].target, target, after, destination);
      } else {
        EntryIsKept(before, tree, roots, target);
        SourceIsKept(tree, after, target, source);
        NewCopyStands(before, tree, roots, source, target, after, destination);
      }
    }
    RootsTogether(before, after, now, destination);
  }

  lemma RootParts(before: Tree, tree: Tree, roots: seq<CompletedRoot>, destination: Path, j: nat)
    requires OnlyCopiesAdded(before, tree, roots) && RootsAreSeparate(tree, roots, destination) && j < |roots|
    ensures roots[j].target !in before && IsChild(roots[j].target, destination)
    ensures roots[j].source in tree && roots[j].target in tree && !(roots[j].source <= destination)
    ensures IsCopy(tree, roots[j].source, tree, roots[j].target)
    ensures roots[j].source in before ==> IsCopy(before, roots[j].source, tree, roots[j].target)
  {
    hide IsCopy;
  }

  lemma EntryIsKept(before: Tree, tree: Tree, roots: seq<CompletedRoot>, p: Path)
    requires OnlyCopiesAdded(before, tree, roots)
    ensures p in before ==> p in tree
  {
  }

  lemma SourceIsKept(tree: Tree, after: Tree, target: Path, source: Path)
    requires AddedBelow(tree, after, target)
    ensures source in tree ==> source in after
  {
  }

  lemma EntriesOfRoots(
    before: Tree, tree: Tree, roots: seq<CompletedRoot>, source: Path, target: Path, after: Tree)
    requires OnlyCopiesAdded(before, tree, roots) && AddedBelow(tree, after, target)
    ensures forall p :: p in before ==> p in after && after[p] == before[p]
    ensures var now := roots + [CompletedRoot(source, target)];
            forall p :: p in after && p !in before ==> exists j :: 0 <= j < |now| && now[j].target <= p
  {
    hide IsCopy;
    var now := roots + [CompletedRoot(source, target)];
    forall p | p in after && p !in before ensures exists j :: 0 <= j < |now| && now[j].target <= p {
      if p in tree {
        var j :| 0 <= j < |roots| && roots[j].target <= p;
        assert now[j].target <= p;
      } else {
        assert now[|roots|].target <= p;
      }
    }
  }

  lemma RootsTogether(before: Tree, after: Tree, now: seq<CompletedRoot>, destination: Path)
    requires forall p :: p in before ==> p in after && after[p] == before[p]
    requires forall p :: p in after && p !in before ==> exists j :: 0 <= j < |now| && now[j].target <= p
    requires forall j :: 0 <= j < |now| ==>
               && now[j].target !in before && IsChild(now[j].target, destination)
               && now[j].source in after && now[j].target in after && !(now[j].source <= destination)
               && IsCopy(after, now[j].source, after, now[j].target)
               && (now[j].source in before ==> IsCopy(before, now[j].source, after, now[j].target))
    ensures OnlyCopiesAdded(before, after, now) && RootsAreSeparate(after, now, destination)
  {
    hide IsCopy;
  }

  lemma OlderCopyStays(
    before: Tree, tree: Tree, source: Path, older: Path, target: Path, after: Tree, destination: Path)
    requires ParentClosed(tree) && AddedBelow(tree, after, target) && IsCopy(tree, source, tree, older)
    requires source in tree && older in tree && target !in tree
    requires IsChild(target, destination) && IsChild(older, destination) && !(source <= destination)
    ensures source in after && older in after && IsCopy(after, source, after, older)
    ensures IsCopy(before, source, tree, older) ==> IsCopy(before, source, after, older)
  {
    hide IsCopy, ParentClosed;
    ChildIsLonger(older, destination);
    NewTargetIsApart(tree, source, target, destination);
    NewTargetIsApart(tree, older, target, destination);
    SameUnderAddition(tree, after, target, source);
    SameUnderAddition(tree, after, target, older);
    CopyThere(before, tree, after, source, older);
  }

  lemma NewCopyStands(
    before: Tree, tree: Tree, roots: seq<CompletedRoot>, source: Path, target: Path, after: Tree, destination: Path)
    requires ParentClosed(before) && ParentClosed(tree) && OnlyCopiesAdded(before, tree, roots)
    requires RootsAreSeparate(tree, roots, destination)
    requires source in tree && target !in tree && IsChild(target, destination) && !(source <= destination)
    requires AddedBelow(tree, after, target) && IsCopy(tree, source, after, target)
    ensures target in after && IsCopy(after, source, after, target)
    ensures source in before ==> IsCopy(before, source, after, target)
  {
    hide *;
    NewTargetIsApart(tree, source, target, destination);
    SameUnderAddition(tree, after, target, source);
    CopyIsThere(tree, source, after, target);
    CopyOfCopy(after, source, tree, source, after, target);
    if source in before {
      NotAddedBelowOld(before, tree, roots, source, destination);
      CopyOfCopy(before, source, tree, source, after, target);
    }
  }

  ghost predicate RootsAreSeparate(tree: Tree, roots: seq<CompletedRoot>, destination: Path) {
    forall j :: 0 <= j < |roots| ==>
      && roots[j].source in tree && !(roots[j].source <= destination)
      && roots[j].target in tree && IsChild(roots[j].target, destination)
  }

  lemma SameUnderAddition(tree: Tree, after: Tree, target: Path, place: Path)
    requires AddedBelow(tree, after, target) && Unrelated(place, target)
    ensures IsCopy(tree, place, after, place) && IsCopy(after, place, tree, place)
  {
    forall p | place <= p ensures p in after <==> p in tree {
      PlacesApart(place, target, p);
    }
    UnchangedIsCopy(tree, after, place);
    UnchangedIsCopy(after, tree, place);
  }

  lemma CopyThere(before: Tree, tree: Tree, after: Tree, source: Path, target: Path)
    requires IsCopy(tree, source, tree, target)
    requires IsCopy(after, source, tree, source) && IsCopy(tree, target, after, target)
    ensures IsCopy(after, source, after, target)
    ensures IsCopy(before, source, tree, target) ==> IsCopy(before, source, after, target)
  {
    CopyOfCopy(after, source, tree, source, tree, target);
    CopyOfCopy(after, source, tree, target, after, target);
    if IsCopy(before, source, tree, target) {
      CopyOfCopy(before, source, tree, target, after, target);
    }
  }

  /** A run adds nothing below an old item. */
  lemma NotAddedBelowOld(before: Tree, tree: Tree, roots: seq<CompletedRoot>, source: Path, destination: Path)
    requires ParentClosed(before) && OnlyCopiesAdded(before, tree, roots) && RootsAreSeparate(tree, roots, destination)
    requires source in before && !(source <= destination)
    ensures IsCopy(before, source, tree, source)
  {
    hide IsCopy, OnlyCopiesAdded;
    forall p | source <= p
      ensures p in tree <==> p in before
      ensures p in before ==> tree[p] == before[p]
    {
      NotAddedAt(before, tree, roots, source, destination, p);
    }
    UnchangedIsCopy(before, tree, source);
  }

  lemma NotAddedAt(
    before: Tree, tree: Tree, roots: seq<CompletedRoot>, source: Path, destination: Path, p: Path)
    requires ParentClosed(before) && OnlyCopiesAdded(before, tree, roots) && RootsAreSeparate(tree, roots, destination)
    requires source in before && !(source <= destination) && source <= p
    ensures p in tree <==> p in before
    ensures p in before ==> tree[p] == before[p]
  {
    hide IsCopy, ParentClosed;
    if p in tree && p !in before {
      var j :| 0 <= j < |roots| && roots[j].target <= p;
      NewTargetIsApart(before, source, roots[j].target, destination);
      PlacesApart(source, roots[j].target, p);
    }
  }

  // ----- All of it, root after root -----

  ghost predicate LandedAreHeld(landed: seq<Option<Path>>, held: set<Path>) {
    forall i :: 0 <= i < |landed| && landed[i].Some? ==> landed[i].value in held
  }

  /** What holds for the first `|landed|` roots, with the targets reserved for them. */
  ghost predicate RunSoFar(
    job: Job, trees: seq<Tree>, landed: seq<Option<Path>>, held: set<Path>, created: seq<Path>,
    roots: seq<CompletedRoot>, places: seq<Path>)
  {
    && RootByRoot(job, trees, landed) && LandedAreHeld(landed, held)
    && OthersKept(job, trees[0], Overwritten(trees, landed), trees[|landed|])
    && RootsStand(job, trees, landed, trees[|landed|])
    && SourcesKept(job, trees[0], Overwritten(trees, landed), trees[|landed|], places)
    && PlacesAreKnown(job, landed, places) && roots == Completed(job.sources, landed)
    && (!job.policy.Replace? ==> ReplacesNothing(job, trees[0], trees[|landed|], held, created, roots))
  }

  ghost predicate ReplacesNothing(
    job: Job, before: Tree, tree: Tree, held: set<Path>, created: seq<Path>, roots: seq<CompletedRoot>)
  {
    && created == [] && WrittenOnlyInHeld(before, tree, job.destination, held)
    && (job.kind.Copy? ==> OnlyCopiesAdded(before, tree, roots) && RootsAreSeparate(tree, roots, job.destination))
  }

  lemma RunStarts(job: Job, before: Tree, held: set<Path>)
    requires forall i :: 0 <= i < |job.sources| ==> !(job.sources[i] <= job.destination)
    ensures RunSoFar(job, [before], [], held, [], [], job.sources)
  {
    hide OthersKept, SourcesKept, PlacesAreKnown, IsCopy;
    NothingRun(job, before);
    OthersAtStart(job, before);
    SourcesAtStart(job, before);
    NothingWritten(before, job.destination, held);
  }

  lemma RunParts(
    job: Job, trees: seq<Tree>, landed: seq<Option<Path>>, held: set<Path>, created: seq<Path>,
    roots: seq<CompletedRoot>, places: seq<Path>)
    requires RunSoFar(job, trees, landed, held, created, roots, places)
    ensures RootByRoot(job, trees, landed) && LandedAreHeld(landed, held)
    ensures |trees| == |landed| + 1 <= |job.sources| + 1
    ensures OthersKept(job, trees[0], Overwritten(trees, landed), trees[|landed|])
    ensures RootsStand(job, trees, landed, trees[|landed|])
    ensures SourcesKept(job, trees[0], Overwritten(trees, landed), trees[|landed|], places)
    ensures PlacesAreKnown(job, landed, places) && roots == Completed(job.sources, landed)
    ensures !job.policy.Replace? ==> ReplacesNothing(job, trees[0], trees[|landed|], held, created, roots)
  {
    hide RootByRoot, LandedAreHeld, OthersKept, RootsStand, SourcesKept, PlacesAreKnown, ReplacesNothing;
    ByRoot(job, trees, landed);
  }

  lemma RunTogether(
    job: Job, trees: seq<Tree>, landed: seq<Option<Path>>, held: set<Path>, created: seq<Path>,
    roots: seq<CompletedRoot>, places: seq<Path>, tree: Tree)
    requires RootByRoot(job, trees, landed) && LandedAreHeld(landed, held)
    requires |trees| == |landed| + 1 <= |job.sources| + 1 && trees[|landed|] == tree
    requires OthersKept(job, trees[0], Overwritten(trees, landed), tree)
    requires RootsStand(job, trees, landed, tree)
    requires SourcesKept(job, trees[0], Overwritten(trees, landed), tree, places)
    requires PlacesAreKnown(job, landed, places) && roots == Completed(job.sources, landed)
    requires !job.policy.Replace? ==> ReplacesNothing(job, trees[0], tree, held, created, roots)
    ensures RunSoFar(job, trees, landed, held, created, roots, places)
  {
    hide RootByRoot, LandedAreHeld, OthersKept, RootsStand, SourcesKept, PlacesAreKnown, ReplacesNothing;
  }

  lemma RootSkipped(
    job: Job, trees: seq<Tree>, landed: seq<Option<Path>>, held: set<Path>, created: seq<Path>,
    roots: seq<CompletedRoot>, places: seq<Path>)
    requires RunSoFar(job, trees, landed, held, created, roots, places) && |landed| < |job.sources|
    ensures RunSoFar(job, trees + [trees[|landed|]], landed + [None], held, created, roots, places)
  {
    hide *;
    RunParts(job, trees, landed, held, created, roots, places);
    var tree, none: Option<Path> := trees[|landed|], None;
    NothingLanded(job, trees[0], tree, job.sources[|landed|]);
    TreesGrow(job, trees, landed, tree, none);
    OverwrittenGrows(trees, landed, tree, none);
    OneMoreStands(job, trees, landed, tree, none);
    OneMorePlace(job, landed, places, none);
    CompletedGrows(job.sources, landed, none);
    OneMoreHeld(landed, held, held, none);
    RunTogether(job, trees + [tree], landed + [none], held, created, roots, places, tree);
  }

  lemma NothingLanded(job: Job, before: Tree, tree: Tree, source: Path)
    ensures RootEnded(job, before, tree, source, tree, None)
  {
  }

  lemma OneMoreHeld(landed: seq<Option<Path>>, held: set<Path>, more: set<Path>, landing: Option<Path>)
    requires LandedAreHeld(landed, held) && held <= more && (landing.Some? ==> landing.value in more)
    ensures LandedAreHeld(landed + [landing], more)
    ensures landing.Some? && landing.value !in held ==> IsNew(landed, landing.value)
  {
  }

  lemma MoreIsHeld(
    job: Job, trees: seq<Tree>, landed: seq<Option<Path>>, held: set<Path>, more: set<Path>, created: seq<Path>,
    roots: seq<CompletedRoot>, places: seq<Path>)
    requires RunSoFar(job, trees, landed, held, created, roots, places) && held <= more
    ensures RunSoFar(job, trees, landed, more, created, roots, places)
  {
    hide RootByRoot, OthersKept, RootsStand, SourcesKept, PlacesAreKnown, OnlyCopiesAdded, RootsAreSeparate;
    RunParts(job, trees, landed, held, created, roots, places);
    if !job.policy.Replace? {
      HeldGrow(trees[0], trees[|landed|], job.destination, held, more);
    }
  }

  /** The step of a run: a root that landed at a target no one held. */
  lemma RootLanded(
    job: Job, trees: seq<Tree>, landed: seq<Option<Path>>, held: set<Path>, earlier: seq<Path>,
    roots: seq<CompletedRoot>, places: seq<Path>, target: Path, after: Tree, created: seq<Path>, written: bool)
    requires RunSoFar(job, trees, landed, held, earlier, roots, places) && |landed| < |job.sources|
    requires ParentClosed(trees[0]) && ParentClosed(trees[|landed|]) && !(job.sources[|landed|] <= job.destination)
    requires job.sources[|landed|] in trees[|landed|] && IsChild(target, job.destination) && target !in held
    requires IsCopy(trees[|landed|], job.sources[|landed|], after, target)
    requires job.kind.Move? && Unrelated(job.sources[|landed|], target) ==>
               forall p :: job.sources[|landed|] <= p ==> p !in after
    requires RootEffect(job.kind, job.sources[|landed|], target, job.destination, trees[|landed|], after, written)
    requires written <==> target in trees[|landed|]
    requires written ==> GivesWay(job, trees[|landed|], job.sources[|landed|], target)
    requires !job.policy.Replace? ==>
               Placed(job.kind, job.sources[|landed|], target, trees[|landed|], earlier, after, created, true)
    ensures RunSoFar(job, trees + [after], landed + [Some(target)], held + {target}, created,
                     roots + [CompletedRoot(job.sources[|landed|], target)], places[|landed| := target])
  {
    hide *;
    RunParts(job, trees, landed, held, earlier, roots, places);
    var k, start, landing := |landed|, trees[|landed|], Some(target);
    var over, more := Overwritten(trees, landed), held + {target};
    OneMoreHeld(landed, held, more, landing);
    RootKeepsOthers(job, trees[0], over, start, k, target, after, written);
    RootsStandStill(job, trees, landed, start, target, after, written);
    RootKeepsSources(job, trees, landed, over, start, places, target, after, written, target);
    if !job.policy.Replace? {
      RootReplacesNothing(job, trees[0], start, held, earlier, roots, k, target, after, created);
    }
    LandedRightly(job, trees[0], start, job.sources[k], after, target);
    TreesGrow(job, trees, landed, after, landing);
    OverwrittenGrows(trees, landed, after, landing);
    WithMeans(over, written, target);
    OneMoreStands(job, trees, landed, after, landing);
    OneMorePlace(job, landed, places, landing);
    PlacesAsMany(job, landed, places);
    CompletedGrows(job.sources, landed, landing);
    RunTogether(job, trees + [after], landed + [landing], more, created,
                roots + [CompletedRoot(job.sources[k], target)], places[k := target], after);
  }

  lemma LandedRightly(job: Job, before: Tree, start: Tree, source: Path, after: Tree, target: Path)
    requires IsChild(target, job.destination) && source in start && IsCopy(start, source, after, target)
    requires target in start ==>
               && GivesWay(job, start, source, target)
               && (!job.policy.Replace? ==> target in before && before[target] == start[target])
    requires job.kind.Move? && Unrelated(source, target) ==> forall p :: source <= p ==> p !in after
    ensures RootEnded(job, before, start, source, after, Some(target))
  {
    hide IsCopy, GivesWay;
  }

  lemma RootReplacesNothing(
    job: Job, before: Tree, start: Tree, held: set<Path>, earlier: seq<Path>, roots: seq<CompletedRoot>, k: nat,
    target: Path, after: Tree, created: seq<Path>)
    requires k < |job.sources| && ReplacesNothing(job, before, start, held, earlier, roots)
    requires ParentClosed(before) && ParentClosed(start) && !(job.sources[k] <= job.destination)
    requires IsChild(target, job.destination) && target !in held
    requires Placed(job.kind, job.sources[k], target, start, earlier, after, created, true)
    ensures ReplacesNothing(
              job, before, after, held + {target}, created, roots + [CompletedRoot(job.sources[k], target)])
    ensures target in start ==> target in before && before[target] == start[target]
  {
    hide OnlyCopiesAdded, RootsAreSeparate, ParentClosed, IsCopy, Placed, WrittenOnlyInHeld;
    PlacedParts(job.kind, job.sources[k], target, start, earlier, after, created, true);
    if target in start {
      LinkIsOld(before, start, job.destination, held, target);
    }
    HeldGrow(before, start, job.destination, held, held + {target});
    RootWritesInHeld(before, start, job.destination, held + {target}, target, after);
    if job.kind.Copy? {
      RootAddsCopy(before, start, roots, job.sources[k], target, after, job.destination);
    }
  }

  /** Only entries of the destination are ever written over. So whatever lies
      elsewhere, and below no moved source, stays as it was, and sources that lie
      elsewhere are clear of all targets. */
  lemma OutsideStays(
    job: Job, trees: seq<Tree>, landed: seq<Option<Path>>, written: bool, target: Path, final: Tree)
    requires RootByRoot(job, trees, landed) && (written ==> IsChild(target, job.destination))
    requires OthersKept(job, trees[0], With(Overwritten(trees, landed), written, target), final)
    ensures forall p :: p in trees[0] && !(job.destination < p) && (job.kind.Move? ==> NoneAbove(job.sources, p)) ==>
              p in final && final[p] == trees[0][p]
    ensures (forall i :: 0 <= i < |job.sources| ==> !(job.destination < job.sources[i])) ==>
              ClearOf(job.sources, With(Overwritten(trees, landed), written, target))
  {
    hide RootByRoot, NothingOver;
    ByRoot(job, trees, landed);
    LandedInDestination(job, trees, landed);
    var over := With(Overwritten(trees, landed), written, target);
    forall p | !(job.destination < p) ensures NothingOver(over, p) {
      NothingAbove(over, job.destination, p);
    }
  }

  lemma NothingAbove(over: set<Path>, destination: Path, p: Path)
    requires (forall r :: r in over ==> IsChild(r, destination)) && !(destination < p)
    ensures NothingOver(over, p)
  {
    forall r | r in over ensures !(r <= p) {
      ChildIsLonger(r, destination);
    }
  }

  // ----- A root that stopped, and the cleanup after it -----

  /** Where a run stopped: the tree when that root began, and what it was doing. */
  ghost predicate StoppedAt(
    job: Job, start: Tree, source: Path, landed: seq<Option<Path>>, target: Path, backup: Path, replacing: bool,
    after: Tree, created: seq<Path>)
  {
    && RecordsAreGone(created, start)
    && SafelyConserved(start, source, target, backup, after, created)
    && (replacing ==>
          && job.policy.Replace? && Exists(start, target) && source != [] && target == Base(job.destination, source)
          && SafelyReplaced(start, source, target, backup, after, created))
    && ((after == start && !replacing)
        || (source in start && IsChild(target, job.destination) && IsNew(landed, target)
            && (target in start ==> replacing)
            && RootEffect(job.kind, source, target, job.destination, start, after, replacing)))
    && (job.kind.Copy? && !job.policy.Replace? ==>
          (after == start && created == []) || Grown(start, [], after, created, target))
  }

  lemma StopParts(
    job: Job, start: Tree, source: Path, landed: seq<Option<Path>>, target: Path, backup: Path, replacing: bool,
    after: Tree, created: seq<Path>)
    requires StoppedAt(job, start, source, landed, target, backup, replacing, after, created)
    ensures RecordsAreGone(created, start) && SafelyConserved(start, source, target, backup, after, created)
    ensures replacing ==>
              && job.policy.Replace? && Exists(start, target) && source != [] && target == Base(job.destination, source)
              && SafelyReplaced(start, source, target, backup, after, created)
    ensures !(after == start && !replacing) ==>
              && source in start && IsChild(target, job.destination) && IsNew(landed, target)
              && (target in start ==> replacing)
              && RootEffect(job.kind, source, target, job.destination, start, after, replacing)
    ensures job.kind.Copy? && !job.policy.Replace? ==>
              (after == start && created == []) || Grown(start, [], after, created, target)
  {
  }

  lemma NothingTakenBack(start: Tree, final: Tree, created: seq<Path>)
    requires RecordsAreGone(created, start) && OnlyListedRemoved(start, final, created)
    ensures final == start
  {
  }

  /** Where the data of a stopped root are. */
  lemma PlaceOfSource(start: Tree, source: Path, target: Path, backup: Path, final: Tree, written: bool)
    returns (now: Path)
    requires ParentClosed(start) && source in start && Conserved(start, source, target, backup, final)
    requires target in start ==> written
    ensures now == source || (now == target && (written || target !in start))
    ensures (written ==> !(target <= source)) ==> IsCopy(start, source, final, now)
  {
    hide IsCopy, ParentClosed;
    if target !in start {
      NothingBelowMissing(start, target);
    }
    now := if IsCopy(start, source, final, source) then source else target;
  }

  /** However a run stopped, and whatever part of the cleanup then failed: nobody
      else's entries are gone, what was completed stands, and every source is
      whole somewhere. */
  lemma StopKeepsEverything(
    job: Job, trees: seq<Tree>, landed: seq<Option<Path>>, over: set<Path>, places: seq<Path>, start: Tree,
    target: Path, backup: Path, replacing: bool, after: Tree, created: seq<Path>, final: Tree)
    returns (finalPlaces: seq<Path>)
    requires RootByRoot(job, trees, landed) && |landed| < |job.sources| && ParentClosed(start)
    requires OthersKept(job, trees[0], over, start) && RootsStand(job, trees, landed, start)
    requires SourcesKept(job, trees[0], over, start, places) && PlacesAreKnown(job, landed, places)
    requires StoppedAt(job, start, job.sources[|landed|], landed, target, backup, replacing, after, created)
    requires OnlyListedRemoved(after, final, created)
    ensures OthersKept(job, trees[0], With(over, replacing, target), final)
    ensures RootsStand(job, trees, landed, final)
    ensures SourcesKept(job, trees[0], With(over, replacing, target), final, finalPlaces)
  {
    hide *;
    var k := |landed|;
    ByRoot(job, trees, landed);
    StopParts(job, start, job.sources[k], landed, target, backup, replacing, after, created);
    PlacesAsMany(job, landed, places);
    WithMeans(over, replacing, target);
    if after == start && !replacing {
      NothingTakenBack(start, final, created);
      finalPlaces := places;
    } else {
      EffectAfterCleanup(job.kind, job.sources[k], target, job.destination, start, after, replacing, created, final);
      RootKeepsOthers(job, trees[0], over, start, k, target, final, replacing);
      RootsStandStill(job, trees, landed, start, target, final, replacing);
      CleanupConserves(start, job.sources[k], target, backup, after, created, final);
      var now := PlaceOfSource(start, job.sources[k], target, backup, final, replacing);
      ClearMeans(job.sources, With(over, replacing, target), k);
      RootKeepsSources(job, trees, landed, over, start, places, target, final, replacing, now);
      finalPlaces := places[k := now];
    }
  }

  lemma ByRoot(job: Job, trees: seq<Tree>, landed: seq<Option<Path>>)
    requires RootByRoot(job, trees, landed)
    ensures |trees| == |landed| + 1 <= |job.sources| + 1
  {
  }

  lemma PlacesAsMany(job: Job, landed: seq<Option<Path>>, places: seq<Path>)
    requires PlacesAreKnown(job, landed, places)
    ensures |places| == |job.sources|
    ensures forall i :: |landed| <= i < |places| ==> places[i] == job.sources[i]
  {
  }

  lemma WithMeans(over: set<Path>, written: bool, target: Path)
    ensures With(over, written, target) == over + if written then {target} else {}
    ensures !written ==> With(over, written, target) == over
  {
  }

  lemma ClearMeans(sources: seq<Path>, over: set<Path>, k: nat)
    requires k < |sources|
    ensures ClearOf(sources, over) ==> forall r :: r in over ==> !(r <= sources[k])
  {
    if ClearOf(sources, over) {
      assert NothingOver(over, sources[k]);
    }
  }

  /** What the state of the file system is when a run is over. */
  ghost predicate Guarantees(
    job: Job, trees: seq<Tree>, landed: seq<Option<Path>>, over: set<Path>, roots: seq<CompletedRoot>,
    places: seq<Path>, exact: bool, final: Tree)
    requires |trees| == |landed| + 1 <= |job.sources| + 1
  {
    && OthersKept(job, trees[0], over, final)
    && RootsStand(job, trees, landed, final)
    && SourcesKept(job, trees[0], over, final, places)
    && (job.kind.Copy? && !job.policy.Replace? && exact ==> OnlyCopiesAdded(trees[0], final, roots))
  }

  lemma Guaranteed(
    job: Job, trees: seq<Tree>, landed: seq<Option<Path>>, over: set<Path>, roots: seq<CompletedRoot>,
    places: seq<Path>, exact: bool, final: Tree)
    requires |trees| == |landed| + 1 <= |job.sources| + 1
    requires OthersKept(job, trees[0], over, final) && RootsStand(job, trees, landed, final)
    requires SourcesKept(job, trees[0], over, final, places)
    requires job.kind.Copy? && !job.policy.Replace? && exact ==> OnlyCopiesAdded(trees[0], final, roots)
    ensures Guarantees(job, trees, landed, over, roots, places, exact, final)
  {
    hide OthersKept, RootsStand, SourcesKept, OnlyCopiesAdded;
  }

  // ----- Links that lead to nothing -----

  /** Nothing but the sources went away or changed. */
  ghost predicate AllOthersKept(before: Tree, sources: seq<Path>, final: Tree) {
    forall p :: p in before && NoneAbove(sources, p) ==> p in final && final[p] == before[p]
  }

  /** A root gave a broken link up for something else. */
  ghost predicate LosesLink(job: Job, trees: seq<Tree>, landed: seq<Option<Path>>, i: nat)
    requires RootByRoot(job, trees, landed) && i < |landed|
  {
    && landed[i].Some? && landed[i].value in trees[i] && NoneAbove(job.sources, landed[i].value)
    && job.sources[i] in trees[i] && trees[i][landed[i].value] != trees[i][job.sources[i]]
  }

  /** A move that replaces nothing keeps every entry but its sources exactly when
      no root landed on a broken link. */
  lemma MoveKeepsOthersIff(job: Job, trees: seq<Tree>, landed: seq<Option<Path>>, final: Tree)
    requires job.kind.Move? && !job.policy.Replace? && RootByRoot(job, trees, landed) && ParentClosed(trees[0])
    requires OthersKept(job, trees[0], Overwritten(trees, landed), final) && RootsStand(job, trees, landed, final)
    ensures AllOthersKept(trees[0], job.sources, final) <==>
              forall i :: 0 <= i < |landed| ==> !LosesLink(job, trees, landed, i)
  {
    hide IsCopy, Stands, ParentClosed;
    forall i | 0 <= i < |landed| && landed[i].Some? && landed[i].value in trees[i]
               && NoneAbove(job.sources, landed[i].value)
      ensures landed[i].value in trees[0] && trees[0][landed[i].value] == trees[i][landed[i].value]
      ensures landed[i].value in final && job.sources[i] in trees[i]
      ensures final[landed[i].value] == trees[i][job.sources[i]]
    {
      LandedOnLink(job, trees, landed, final, i);
    }
    if forall i :: 0 <= i < |landed| ==> !LosesLink(job, trees, landed, i) {
      forall p | p in trees[0] && NoneAbove(job.sources, p) ensures p in final && final[p] == trees[0][p] {
        if !NothingOver(Overwritten(trees, landed), p) {
          var r :| r in Overwritten(trees, landed) && r <= p;
          var i :| 0 <= i < |landed| && landed[i].Some? && landed[i].value in trees[i] && landed[i].value == r;
          LinkIsLeaf(job, trees, landed, i, p);
          assert !LosesLink(job, trees, landed, i);
        }
      }
    }
  }

  lemma LandedOnLink(job: Job, trees: seq<Tree>, landed: seq<Option<Path>>, final: Tree, i: nat)
    requires !job.policy.Replace? && RootByRoot(job, trees, landed) && RootsStand(job, trees, landed, final)
    requires i < |landed| && landed[i].Some? && landed[i].value in trees[i] && NoneAbove(job.sources, landed[i].value)
    ensures landed[i].value in trees[0] && trees[0][landed[i].value] == trees[i][landed[i].value]
    ensures landed[i].value in final && job.sources[i] in trees[i]
    ensures final[landed[i].value] == trees[i][job.sources[i]]
  {
    var source, target := job.sources[i], landed[i].value;
    assert RootEnded(job, trees[0], trees[i], source, trees[i + 1], landed[i]);
    assert Stands(job, i, trees[i], target, final);
    assert Image(source, target, source) == target && Unmoved(job, i, target);
    assert SameAtImage(trees[i], source, final, target, source);
  }

  lemma LinkIsLeaf(job: Job, trees: seq<Tree>, landed: seq<Option<Path>>, i: nat, p: Path)
    requires !job.policy.Replace? && RootByRoot(job, trees, landed) && ParentClosed(trees[0])
    requires i < |landed| && landed[i].Some? && landed[i].value in trees[i]
    requires p in trees[0] && landed[i].value <= p
    ensures p == landed[i].value
  {
    hide IsCopy;
    assert RootEnded(job, trees[0], trees[i], job.sources[i], trees[i + 1], landed[i]);
    OnlyLinksAreBroken(trees[i], landed[i].value);
    if p != landed[i].value {
      AncestorsExist(trees[0], p, landed[i].value);
    }
  }

  /** What a caller can see to beforehand: no link stands in the destination. */
  lemma NoLinkNoLoss(job: Job, trees: seq<Tree>, landed: seq<Option<Path>>)
    requires !job.policy.Replace? && RootByRoot(job, trees, landed)
    requires job.kind.Copy? || forall p :: p in trees[0] && IsChild(p, job.destination) ==> !trees[0][p].Symlink?
    ensures Overwritten(trees, landed) == {}
  {
    hide IsCopy;
    forall i | 0 <= i < |landed| && landed[i].Some? ensures landed[i].value !in trees[i] {
      assert RootEnded(job, trees[0], trees[i], job.sources[i], trees[i + 1], landed[i]);
      OnlyLinksAreBroken(trees[i], landed[i].value);
    }
  }

  /** For one root, in terms of what stands at the free target before: the rename
      happens and costs another entry exactly when a link leading to nothing
      stands there and the source is no folder (nor the very same link). */
  lemma RenameLosesLinkIff(tree: Tree, source: Path, target: Path, destination: Path)
    requires ParentClosed(tree) && destination in tree && tree[destination].Directory?
    requires source in tree && !(source <= destination) && source != target
    requires IsChild(target, destination) && !Exists(tree, target)
    ensures (CanRename(tree, source, target) && !AllOthersKept(tree, [source], Renamed(tree, source, target))) <==>
              (BrokenLink(tree, target) && !tree[source].Directory? && tree[source] != tree[target])
  {
    hide ParentClosed, AllOthersKept, Renamed, CanRename;
    OnlyLinksAreBroken(tree, target);
    RenameLosesIff(tree, source, target, destination);
  }

  /** For any name in the destination, free or taken: two items that are no
      folders, and differ. */
  lemma RenameLosesIff(tree: Tree, source: Path, target: Path, destination: Path)
    requires ParentClosed(tree) && destination in tree && tree[destination].Directory?
    requires source in tree && !(source <= destination) && source != target && IsChild(target, destination)
    ensures (CanRename(tree, source, target) && !AllOthersKept(tree, [source], Renamed(tree, source, target))) <==>
              (target in tree && !tree[source].Directory? && !tree[target].Directory? && tree[source] != tree[target])
  {
    hide ParentClosed, AllOthersKept, Renamed;
    ChildHasParent(target, destination);
    if CanRename(tree, source, target) {
      NothingBelowEmpty(tree, target);
      RenameMoves(tree, source, target);
      RenameKeepsOthersIff(tree, source, target, Renamed(tree, source, target));
    } else if target in tree && !tree[target].Directory? {
      ApartFromLeaf(tree, source, target, destination);
    }
  }

  lemma NothingBelowEmpty(tree: Tree, path: Path)
    requires ParentClosed(tree) && (path in tree && tree[path].Directory? ==> Children(tree, path) == {})
    ensures forall p :: p in tree && path <= p ==> p == path
  {
    forall p | p in tree && path <= p && p != path ensures false {
      AncestorsExist(tree, p, path);
      DescendantsGoThroughChildren(tree, path, p);
    }
  }

  lemma ChildHasParent(child: Path, directory: Path)
    requires IsChild(child, directory)
    ensures child != [] && Parent(child) == directory
  {
  }

  lemma RenameKeepsOthersIff(tree: Tree, source: Path, target: Path, after: Tree)
    requires ParentClosed(tree) && source in tree && Unrelated(source, target)
    requires forall p :: p in tree && target <= p ==> p == target
    requires IsRenamed(tree, source, target, after)
    ensures AllOthersKept(tree, [source], after) <==> (target in tree ==> tree[source] == tree[target])
  {
    hide ParentClosed;
    assert Image(source, target, source) == target;
    assert [source][0] == source;
    if target in tree {
      assert NoneAbove([source], target);
    }
    forall p | p in tree && NoneAbove([source], p) && p != target ensures p in after && after[p] == tree[p] {
      assert !([source][0] <= p);
    }
  }

  lemma ApartFromLeaf(tree: Tree, source: Path, target: Path, destination: Path)
    requires ParentClosed(tree) && source in tree && source != target && !(source <= destination)
    requires IsChild(target, destination) && (target in tree ==> !tree[target].Directory?)
    ensures Unrelated(source, target)
  {
    if target <= source {
      AncestorsExist(tree, source, target);
    }
    if source <= target {
      PrefixOfChild(source, target, destination);
    }
  }

  /** Such a move exists: the name in the destination is free under every policy,
      although a link stands there, and the moved file takes its place. */
  lemma LinkIsLost() returns (tree: Tree, source: Path, target: Path)
    ensures ParentClosed(tree) && source in tree && tree[source].File? && IsChild(target, ["out"])
    ensures BrokenLink(tree, target) && Free(tree, {}, target) && CanRename(tree, source, target)
    ensures !AllOthersKept(tree, [source], Renamed(tree, source, target))
  {
    source, target := ["in"], ["out", "in"];
    var out: Path := ["out"];
    tree := map[[] := Directory, source := File([1]), out := Directory, target := Symlink(["gone"])];
    assert |source| == 1 && |out| == 1 && |target| == 2 && source[0] != out[0];
    assert Parent(source) == [] && Parent(out) == [] && Parent(target) == out;
    LinkToNothing(tree, target, ["gone"]);
    assert !(source <= out);
    RenameLosesLinkIff(tree, source, target, out);
  }

  const CROWDED_BASE: Path := ["out", "in"]

  /** A file, and a folder in which every name that it could take is taken. */
  ghost function CrowdedTree(): Tree {
    var taken := set i | 1 <= i <= LAST_COUNTER :: Candidate(CROWDED_BASE, false, i);
    map p | p in {[], ["out"], ["in"]} + taken ::
      if p == [] || p == ["out"] then Directory else File(if p == ["in"] then [1] else [])
  }

  /** When all names are taken the search returns the plain one, and a move goes
      over the file that stands there. */
  lemma CrowdedIsLost()
    ensures ParentClosed(CrowdedTree()) && ["in"] in CrowdedTree()
    ensures forall i :: 1 <= i <= LAST_COUNTER ==> !Free(CrowdedTree(), {}, Candidate(CROWDED_BASE, false, i))
    ensures IsFirstFree(CROWDED_BASE, false, CrowdedTree(), {}, CROWDED_BASE)
    ensures CanRename(CrowdedTree(), ["in"], CROWDED_BASE)
    ensures !AllOthersKept(CrowdedTree(), [["in"]], Renamed(CrowdedTree(), ["in"], CROWDED_BASE))
  {
    hide AllOthersKept, Renamed, Candidate, CanRename, ParentClosed;
    var tree, source: Path, out: Path := CrowdedTree(), ["in"], ["out"];
    assert Parent(CROWDED_BASE) == out && Candidate(CROWDED_BASE, false, 1) == CROWDED_BASE;
    forall i | 1 <= i <= LAST_COUNTER
      ensures Candidate(CROWDED_BASE, false, i) in tree && !Free(tree, {}, Candidate(CROWDED_BASE, false, i))
    {
      CandidateStands(i);
    }
    CrowdedIsClosed();
    assert source != out && !(source <= out);
    RenameLosesIff(tree, source, CROWDED_BASE, out);
  }

  lemma CandidateStands(i: nat)
    requires 1 <= i <= LAST_COUNTER
    ensures var path := Candidate(CROWDED_BASE, false, i);
            && path in CrowdedTree() && CrowdedTree()[path] == File([])
            && !Free(CrowdedTree(), {}, path)
  {
    var path := Candidate(CROWDED_BASE, false, i);
    assert Parent(path) == ["out"] && |path| == 2;
  }

  lemma CrowdedIsClosed()
    ensures ParentClosed(CrowdedTree())
  {
    hide Candidate;
    var tree := CrowdedTree();
    var root: Path, out: Path := [], ["out"];
    assert Parent(CROWDED_BASE) == out && Parent(out) == root && Parent(["in"]) == root;
    forall p | p in tree && p != [] ensures Parent(p) in tree && tree[Parent(p)].Directory? {
    }
  }

  lemma LinkToNothing(tree: Tree, link: Path, nothing: Path)
    requires link in tree && tree[link] == Symlink(nothing) && nothing !in tree
    ensures BrokenLink(tree, link)
  {
    OnlyLinksAreBroken(tree - {link}, nothing);
  }
}
