/** Taking back what a transfer made, and taking away what it has copied
    (`src/fs/transfer_queue.rs`, `cleanup_created_targets`, `remove_source`;
    `src/fs/transfer_queue/local.rs`, `remove_copied_source`). */
module TransferCleanup {
  import opened FileTrees
  import opened FileSystems
  import opened TransferCopy

  /** Entries disappeared, all of them listed; everything else is as it was. */
  ghost predicate OnlyListedRemoved(before: Tree, after: Tree, listed: seq<Path>) {
    && ParentClosed(after)
    && (forall p :: p in after ==> p in before && after[p] == before[p])
    && (forall p :: p in before && p !in listed ==> p in after)
  }

  // ----- Reverse creation order -----

  ghost predicate BehindParent(base: Tree, created: seq<Path>, k: nat)
    requires k < |created|
  {
    && created[k] !in base && created[k] != [] && created[k] !in created[..k]
    && (Parent(created[k]) in base || Parent(created[k]) in created[..k])
  }

  /** What is left after the entries from `i` on were taken back. */
  ghost predicate RolledBackTo(base: Tree, tree: Tree, created: seq<Path>, i: nat)
    requires i <= |created|
  {
    && ParentClosed(tree)
    && (forall p :: p in base ==> p in tree && tree[p] == base[p])
    && (forall p :: p in tree ==> p in base || p in created[..i])
    && (forall k :: 0 <= k < i ==> BehindParent(base, created, k))
  }

  lemma GrownCanBeRolledBack(base: Tree, tree: Tree, created: seq<Path>, root: Path)
    requires ParentClosed(tree) && Grown(base, [], tree, created, root)
    ensures RolledBackTo(base, tree, created, |created|)
  {
    assert created[0..] == created && created[..|created|] == created;
    forall k | 0 <= k < |created| ensures BehindParent(base, created, k) {
      assert CreatedInOrder(base, tree, created, 0, k, root);
      assert created[0..k] == created[..k];
    }
  }

  /** In reverse creation order every directory is empty when its turn comes:
      whatever was created below it was created later. */
  lemma LastCreatedIsEmpty(base: Tree, tree: Tree, created: seq<Path>, i: nat)
    requires 0 < i <= |created| && ParentClosed(base) && RolledBackTo(base, tree, created, i)
    ensures Children(tree, created[i - 1]) == {}
  {
    var last := created[i - 1];
    assert BehindParent(base, created, i - 1);
    forall k | 0 <= k < i ensures created[k] != [] && Parent(created[k]) != last {
      assert BehindParent(base, created, k);
      assert last !in created[..k] by {
        assert forall x :: 0 <= x < k ==> created[x] == created[..i - 1][x];
      }
    }
    forall p | p in tree && p != [] ensures Parent(p) != last {
      if p !in base {
        var k :| 0 <= k < |created[..i]| && created[..i][k] == p;
        assert Parent(created[k]) != last;
      }
    }
  }

  lemma OneRolledBack(base: Tree, tree: Tree, created: seq<Path>, i: nat)
    requires 0 < i <= |created| && ParentClosed(base) && RolledBackTo(base, tree, created, i)
    ensures Children(tree, created[i - 1]) == {}
    ensures RolledBackTo(base, tree - {created[i - 1]}, created, i - 1)
  {
    hide ParentClosed;
    LastCreatedIsEmpty(base, tree, created, i);
    LeafCanGo(tree, created[i - 1]);
    LastIsNew(base, tree, created, i);
    OneFewerLeft(base, tree, created, i);
  }

  lemma LastIsNew(base: Tree, tree: Tree, created: seq<Path>, i: nat)
    requires 0 < i <= |created| && RolledBackTo(base, tree, created, i)
    ensures created[i - 1] !in base
  {
    hide ParentClosed;
    assert BehindParent(base, created, i - 1);
  }

  lemma OneFewerLeft(base: Tree, tree: Tree, created: seq<Path>, i: nat)
    requires 0 < i <= |created| && forall p :: p in tree ==> p in base || p in created[..i]
    ensures forall p :: p in tree - {created[i - 1]} ==> p in base || p in created[..i - 1]
  {
    assert created[..i] == created[..i - 1] + [created[i - 1]];
  }

  /** Removes the recorded entries, last one first. Failures are only counted, as
      the source only logs them. Whatever fails, nothing that was not recorded is
      touched; when no call faults, a recorded growth is undone exactly. */
  method CleanupCreatedTargets(created: seq<Path>, fs: FileSystem, ghost base: Tree, ghost root: Path)
    returns (faults: nat, refusals: nat)
    requires ParentClosed(fs.tree)
    modifies fs
    ensures OnlyListedRemoved(old(fs.tree), fs.tree, created)
    ensures faults == 0 && ParentClosed(base) && Grown(base, [], old(fs.tree), created, root) ==>
              refusals == 0 && fs.tree == base
    ensures fs.faults == old(fs.faults) + faults
  {
    hide *;
    faults, refusals := 0, 0;
    ghost var before := fs.tree;
    ghost var exact := ParentClosed(base) && Grown(base, [], before, created, root);
    NothingRemovedYet(before, created);
    if exact {
      GrownCanBeRolledBack(base, before, created, root);
    }
    var i := |created|;
    while i > 0
      invariant 0 <= i <= |created| && ParentClosed(fs.tree)
      invariant OnlyListedRemoved(before, fs.tree, created) && fs.faults == old(fs.faults) + faults
      invariant exact && faults == 0 ==> refusals == 0 && RolledBackTo(base, fs.tree, created, i)
    {
      var path := created[i - 1];
      ghost var tree := fs.tree;
      if exact && faults == 0 {
        OneRolledBack(base, tree, created, i);
      }
      if path in fs.tree {
        var result := RemoveEntry(path, fs);
        faults := faults + if result.Fault? then 1 else 0;
        refusals := refusals + if result.Refused? then 1 else 0;
        if result.Done? {
          OneMoreRemoved(before, tree, created, path);
        }
      } else {
        assert fs.tree == tree - {path};
      }
      i := i - 1;
    }
    if exact && faults == 0 {
      AllRolledBack(base, fs.tree, created);
    }
  }

  lemma NothingRemovedYet(tree: Tree, listed: seq<Path>)
    requires ParentClosed(tree)
    ensures OnlyListedRemoved(tree, tree, listed)
  {
  }

  lemma OneMoreRemoved(before: Tree, tree: Tree, listed: seq<Path>, path: Path)
    requires OnlyListedRemoved(before, tree, listed) && path in listed && ParentClosed(tree - {path})
    ensures OnlyListedRemoved(before, tree - {path}, listed)
  {
  }

  lemma AllRolledBack(base: Tree, tree: Tree, created: seq<Path>)
    requires RolledBackTo(base, tree, created, 0)
    ensures tree == base
  {
    assert created[..0] == [];
  }

  /** Removes one entry of its own kind; a directory has to be empty. */
  method RemoveEntry(path: Path, fs: FileSystem) returns (result: IoResult)
    requires ParentClosed(fs.tree) && path in fs.tree
    modifies fs
    ensures ParentClosed(fs.tree)
    ensures fs.tree == if result.Done? then old(fs.tree) - {path} else old(fs.tree)
    ensures result.Done? || result.Refused? ==> (result.Done? <==> Children(old(fs.tree), path) == {})
    ensures fs.faults == old(fs.faults) + if result.Fault? then 1 else 0
  {
    if fs.tree[path].Directory? {
      result := fs.RemoveDirectory(path);
    } else {
      OnlyDirectoriesHaveEntriesBelow(fs.tree, path);
      result := fs.RemoveFile(path);
    }
    LeafCanGo(old(fs.tree), path);
  }

  lemma LeafCanGo(tree: Tree, path: Path)
    requires ParentClosed(tree)
    ensures Children(tree, path) == {} ==> ParentClosed(tree - {path})
  {
    if Children(tree, path) == {} {
      forall p | p in tree && p != [] && p != path ensures Parent(p) != path {
        assert Parent(p) == path ==> p in Children(tree, path);
      }
    }
  }

  /** Removes one item whatever it is; nothing to remove counts as done. */
  method RemoveSource(path: Path, fs: FileSystem) returns (result: IoResult)
    requires ParentClosed(fs.tree)
    modifies fs
    ensures OnlyRemovedBelow(old(fs.tree), fs.tree, path)
    ensures result.Done? ==> Subtree(fs.tree, path) == {}
    ensures result.Done? || result.Fault?
    ensures fs.faults == old(fs.faults) + if result.Fault? then 1 else 0
  {
    if path !in fs.tree {
      NothingBelowMissing(fs.tree, path);
      return Done;
    }
    if fs.tree[path].Directory? {
      result := fs.RemoveTree(path);
    } else {
      OnlyDirectoriesHaveEntriesBelow(fs.tree, path);
      result := RemoveEntry(path, fs);
    }
  }

  // ----- Removing a copied source entry by entry -----

  /** The recorded entries below `root` are all of its entries, ancestors first. */
  ghost predicate Exact(tree: Tree, root: Path, snapshots: seq<Path>) {
    && (forall p :: p in Subtree(tree, root) ==> p in snapshots)
    && (forall i :: 0 <= i < |snapshots| && root <= snapshots[i] ==> snapshots[i] in tree)
    && (forall i, j :: 0 <= i < j < |snapshots| && root <= snapshots[i] ==> !(snapshots[j] <= snapshots[i]))
  }

  ghost predicate RemovedFrom(before: Tree, tree: Tree, root: Path, snapshots: seq<Path>, i: nat)
    requires i <= |snapshots|
  {
    forall p :: p in before && root <= p ==> (p in tree <==> p in snapshots[..i])
  }

  lemma NextSnapshotIsEmpty(before: Tree, tree: Tree, root: Path, snapshots: seq<Path>, i: nat)
    requires 0 < i <= |snapshots| && Exact(before, root, snapshots) && root <= snapshots[i - 1]
    requires RemovedFrom(before, tree, root, snapshots, i) && forall p :: p in tree ==> p in before
    ensures snapshots[i - 1] in tree && Children(tree, snapshots[i - 1]) == {}
  {
    var last := snapshots[i - 1];
    assert last in snapshots[..i];
    forall p | p in tree && root <= p ensures !(last < p) {
      assert p in before;
      var k :| 0 <= k < |snapshots[..i]| && snapshots[..i][k] == p;
      assert k < i - 1 ==> !(last <= snapshots[k]);
    }
    assert forall p :: IsChild(p, last) ==> last < p;
  }

  ghost predicate SameBelow(before: Tree, after: Tree, place: Path) {
    forall p :: place <= p ==> (p in before <==> p in after) && (p in before ==> after[p] == before[p])
  }

  /** Only entries that were copied are removed, children before parents. An entry
      that is gone, has been filled again, or is another file now stops the
      removal; everything at or below `installed` was made by this transfer, so
      none of it is the file that was copied from there. */
  method RemoveCopiedSource(root: Path, snapshots: seq<Path>, installed: Path, fs: FileSystem, control: Control)
    returns (result: Result)
    requires ParentClosed(fs.tree)
    modifies fs, control
    ensures OnlyListedRemoved(old(fs.tree), fs.tree, snapshots)
    ensures OnlyRemovedBelow(old(fs.tree), fs.tree, root)
    ensures SameBelow(old(fs.tree), fs.tree, installed)
    ensures result.Ok? ==> forall p :: p in snapshots && root <= p ==> p !in fs.tree
    ensures Exact(old(fs.tree), root, snapshots) && Unrelated(root, installed) ==> result != Failed(Refused)
    ensures result.Failed? ==> result.reason.Refused? || fs.faults > old(fs.faults)
    ensures fs.faults >= old(fs.faults)
    ensures result.Cancelled? ==> control.raised
    ensures old(control.raised) ==> control.raised
  {
    hide *;
    ghost var before := fs.tree;
    NothingRemovedYet(before, snapshots);
    NothingRemovedBelowYet(before, root, snapshots, installed);
    var i := |snapshots|;
    while i > 0
      invariant 0 <= i <= |snapshots| && ParentClosed(fs.tree)
      invariant OnlyListedRemoved(before, fs.tree, snapshots) && OnlyRemovedBelow(before, fs.tree, root)
      invariant SameBelow(before, fs.tree, installed)
      invariant forall p :: p in fs.tree ==> p in before
      invariant forall k :: i <= k < |snapshots| && root <= snapshots[k] ==> snapshots[k] !in fs.tree
      invariant Exact(before, root, snapshots) ==> RemovedFrom(before, fs.tree, root, snapshots, i)
      invariant fs.faults == old(fs.faults)
      invariant old(control.raised) ==> control.raised
    {
      var path := snapshots[i - 1];
      ghost var tree := fs.tree;
      if root <= path {
        var cancelled := control.Poll();
        if cancelled {
          return Cancelled;
        }
        if Exact(before, root, snapshots) {
          NextSnapshotIsEmpty(before, tree, root, snapshots, i);
          SnapshotGone(before, tree, root, snapshots, i);
        }
        if path !in fs.tree || installed <= path {
          NotBoth(root, installed, path);
          return Failed(Refused);
        }
        var removed := RemoveEntry(path, fs);
        if !removed.Done? {
          return Failed(removed);
        }
        OneMoreRemoved(before, tree, snapshots, path);
        OneMoreRemovedBelow(before, tree, root, path, installed);
      } else if Exact(before, root, snapshots) {
        SnapshotSkipped(before, tree, root, snapshots, i);
      }
      i := i - 1;
    }
    result := Ok;
  }

  lemma NotBoth(root: Path, installed: Path, path: Path)
    requires root <= path
    ensures Unrelated(root, installed) ==> !(installed <= path)
  {
    if installed <= path {
      PrefixesAreComparable(root, installed, path);
    }
  }

  lemma NothingRemovedBelowYet(tree: Tree, root: Path, snapshots: seq<Path>, installed: Path)
    requires ParentClosed(tree)
    ensures SameBelow(tree, tree, installed)
    ensures OnlyRemovedBelow(tree, tree, root)
    ensures Exact(tree, root, snapshots) ==> RemovedFrom(tree, tree, root, snapshots, |snapshots|)
  {
    assert snapshots[..|snapshots|] == snapshots;
  }

  lemma OneMoreRemovedBelow(before: Tree, tree: Tree, root: Path, path: Path, installed: Path)
    requires OnlyRemovedBelow(before, tree, root) && root <= path && ParentClosed(tree - {path})
    requires SameBelow(before, tree, installed) && !(installed <= path)
    ensures OnlyRemovedBelow(before, tree - {path}, root) && SameBelow(before, tree - {path}, installed)
  {
  }

  lemma SnapshotSkipped(before: Tree, tree: Tree, root: Path, snapshots: seq<Path>, i: nat)
    requires 0 < i <= |snapshots| && !(root <= snapshots[i - 1])
    requires RemovedFrom(before, tree, root, snapshots, i)
    ensures RemovedFrom(before, tree, root, snapshots, i - 1)
  {
    assert snapshots[..i] == snapshots[..i - 1] + [snapshots[i - 1]];
  }

  lemma SnapshotGone(before: Tree, tree: Tree, root: Path, snapshots: seq<Path>, i: nat)
    requires 0 < i <= |snapshots| && Exact(before, root, snapshots) && root <= snapshots[i - 1]
    requires RemovedFrom(before, tree, root, snapshots, i)
    ensures RemovedFrom(before, tree - {snapshots[i - 1]}, root, snapshots, i - 1)
  {
    assert snapshots[..i] == snapshots[..i - 1] + [snapshots[i - 1]];
    assert forall k :: 0 <= k < i - 1 && root <= snapshots[k] ==> !(snapshots[i - 1] <= snapshots[k]);
  }
}
