/** A file system in which every call may fail, and a cancellation flag that may
    be raised between any two calls. A failed call changes nothing but the number
    of faults so far, which says whether the system is to blame for a failure. */
module FileSystems {
  import opened FileTrees

  /** `Refused` is an outcome the state of the tree explains; `Fault` stands for
      every other I/O error (permissions, a full or unplugged disk, ...). */
  datatype IoResult = Done | Refused | Fault

  class FileSystem {
    /** Pairs of different paths under which the system shows one file. */
    const aliases: set<(Path, Path)>
    var tree: Tree
    var faults: nat

    constructor (initial: Tree, aliases: set<(Path, Path)>)
      ensures tree == initial && faults == 0 && this.aliases == aliases
    {
      this.aliases := aliases;
      tree, faults := initial, 0;
    }

    /** Looking at an entry (its kind, its size, its identity) may fail as well. */
    method Look() returns (result: IoResult)
      modifies this`faults
      ensures result.Done? || result.Fault?
      ensures faults == old(faults) + if result.Fault? then 1 else 0
    {
      if * {
        faults := faults + 1;
        return Fault;
      }
      result := Done;
    }

    method ReadDirectory(path: Path) returns (listing: seq<Path>, result: IoResult)
      modifies this`faults
      ensures result.Done? ==> path in tree && tree[path].Directory? && IsListing(tree, path, listing)
      ensures result.Refused? ==> path !in tree || !tree[path].Directory?
      ensures faults == old(faults) + if result.Fault? then 1 else 0
    {
      listing := [];
      if path !in tree || !tree[path].Directory? {
        return [], Refused;
      }
      if * {
        faults := faults + 1;
        return [], Fault;
      }
      var rest := Children(tree, path);
      while rest != {}
        invariant rest <= Children(tree, path)
        invariant forall p :: p in listing <==> p in Children(tree, path) - rest
        invariant forall i, j :: 0 <= i < j < |listing| ==> listing[i] != listing[j]
      {
        var p :| p in rest;
        assert p !in listing;
        rest := rest - {p};
        listing := listing + [p];
      }
      result := Done;
    }

    /** Removes a file or a link; what a link points to is not touched. */
    method RemoveFile(path: Path) returns (result: IoResult)
      modifies this
      ensures result.Done? ==> path in old(tree) && !old(tree)[path].Directory? && tree == old(tree) - {path}
      ensures faults == old(faults) + if result.Fault? then 1 else 0
      ensures result.Refused? ==> path !in tree || tree[path].Directory?
      ensures !result.Done? ==> tree == old(tree)
    {
      if path !in tree || tree[path].Directory? {
        return Refused;
      }
      if * {
        faults := faults + 1;
        return Fault;
      }
      tree := tree - {path};
      result := Done;
    }

    /** Removes an empty directory. Some systems remove a link to a directory
        this way as well, so a link is either removed or refused. */
    method RemoveDirectory(path: Path) returns (result: IoResult)
      modifies this
      ensures faults == old(faults) + if result.Fault? then 1 else 0
      ensures result.Done? ==>
                && path in old(tree) && !old(tree)[path].File?
                && (old(tree)[path].Directory? ==> Children(old(tree), path) == {})
                && tree == old(tree) - {path}
      ensures result.Refused? ==>
                path !in tree || !tree[path].Directory? || Children(tree, path) != {}
      ensures !result.Done? ==> tree == old(tree)
    {
      if path !in tree || tree[path].File? || (tree[path].Directory? && Children(tree, path) != {}) {
        return Refused;
      }
      if * {
        if tree[path].Symlink? {
          return Refused;
        }
        faults := faults + 1;
        return Fault;
      }
      tree := tree - {path};
      result := Done;
    }

    /** Succeeds only where nothing exists yet, below an existing directory. */
    method CreateNew(path: Path, node: Node) returns (result: IoResult)
      modifies this
      ensures faults == old(faults) + if result.Fault? then 1 else 0
      ensures result.Done? ==> CanCreate(old(tree), path) && tree == old(tree)[path := node]
      ensures result.Refused? ==> !CanCreate(tree, path)
      ensures !result.Done? ==> tree == old(tree)
    {
      if !CanCreate(tree, path) {
        return Refused;
      }
      if * {
        faults := faults + 1;
        return Fault;
      }
      tree := tree[path := node];
      result := Done;
    }

    /** Appends to an open file; a failing write may have written a part. */
    method Append(path: Path, chunk: Bytes) returns (result: IoResult)
      requires path in tree && tree[path].File?
      modifies this
      ensures faults == old(faults) + if result.Fault? then 1 else 0
      ensures path in tree && tree[path].File? && tree == old(tree)[path := tree[path]]
      ensures result.Done? ==> tree[path] == File(old(tree)[path].content + chunk)
      ensures !result.Refused?
    {
      var written: nat;
      if * {
        written, result := |chunk|, Done;
      } else {
        written :| written <= |chunk|;
        faults, result := faults + 1, Fault;
      }
      tree := tree[path := File(tree[path].content + chunk[..written])];
      assert chunk[..|chunk|] == chunk;
    }

    /** Moves a whole subtree. A file or link at the target is replaced. */
    method Rename(source: Path, target: Path) returns (result: IoResult)
      requires ParentClosed(tree)
      modifies this
      ensures ParentClosed(tree)
      ensures faults == old(faults) + if result.Fault? then 1 else 0
      ensures result.Done? ==> CanRename(old(tree), source, target) && IsRenamed(old(tree), source, target, tree)
      ensures result.Refused? ==> !CanRename(tree, source, target)
      ensures !result.Done? ==> tree == old(tree)
    {
      if !CanRename(tree, source, target) {
        return Refused;
      }
      if * {
        faults := faults + 1;
        return Fault;
      }
      RenameMoves(tree, source, target);
      RenameKeepsParents(tree, source, target, Renamed(tree, source, target));
      tree := Renamed(tree, source, target);
      result := Done;
    }

    /** `remove_dir_all` and its kin: a failure may leave a part behind. */
    method RemoveTree(path: Path) returns (result: IoResult)
      requires ParentClosed(tree)
      modifies this
      ensures faults == old(faults) + if result.Fault? then 1 else 0
      ensures OnlyRemovedBelow(old(tree), tree, path)
      ensures result.Done? ==> tree == old(tree) - Subtree(old(tree), path)
      ensures !result.Refused?
    {
      WholeSubtreeCanGo(tree, path);
      if * {
        tree := tree - Subtree(tree, path);
        result := Done;
      } else {
        assert tree - {} == tree;
        var removed: set<Path> :| removed <= Subtree(tree, path) && ParentClosed(tree - removed);
        tree := tree - removed;
        faults, result := faults + 1, Fault;
      }
    }

    /** Forcing data to the disk changes nothing, but may fail. */
    method Sync() returns (result: IoResult)
      modifies this`faults
      ensures !result.Refused?
      ensures faults == old(faults) + if result.Fault? then 1 else 0
    {
      result := Look();
    }
  }

  lemma WholeSubtreeCanGo(tree: Tree, path: Path)
    requires ParentClosed(tree)
    ensures ParentClosed(tree - Subtree(tree, path))
  {
    var after := tree - Subtree(tree, path);
    forall p | p in after && p != [] ensures Parent(p) in after && after[Parent(p)].Directory? {
      assert path <= Parent(p) ==> path <= p;
    }
  }

  predicate CanCreate(tree: Tree, path: Path) {
    path != [] && path !in tree && Parent(path) in tree && tree[Parent(path)].Directory?
  }

  predicate CanRename(tree: Tree, source: Path, target: Path) {
    && source in tree && target != [] && !(source <= target) && !(target <= source)
    && Parent(target) in tree && tree[Parent(target)].Directory?
    && (target in tree ==>
          if tree[source].Directory? then tree[target].Directory? && Children(tree, target) == {}
          else !tree[target].Directory?)
  }

  /** What a rename leaves at `q`, if anything. */
  function Renamed(before: Tree, source: Path, target: Path): Tree {
    var images := set p | p in before && source <= p :: Image(source, target, p);
    map q | q in (before.Keys + images) && !(source <= q) && (target <= q ==> Image(target, source, q) in before)
      :: if target <= q then before[Image(target, source, q)] else before[q]
  }

  lemma ImagesAreElsewhere(source: Path, target: Path, path: Path)
    requires source <= path && !(source <= target) && !(target <= source)
    ensures !(source <= Image(source, target, path))
    ensures Image(target, source, Image(source, target, path)) == path
  {
    ImageInverse(source, target, path);
    if source <= Image(source, target, path) {
      PrefixesAreComparable(source, target, Image(source, target, path));
    }
  }

  lemma RenameMoves(before: Tree, source: Path, target: Path)
    requires CanRename(before, source, target) && ParentClosed(before)
    ensures IsRenamed(before, source, target, Renamed(before, source, target))
  {
    hide Renamed, ParentClosed;
    var after := Renamed(before, source, target);
    forall p | source <= p
      ensures p in before <==> Image(source, target, p) in after
      ensures p in before ==> after[Image(source, target, p)] == before[p]
      ensures p !in after
    {
      ImagesAreElsewhere(source, target, p);
      RenamedAt(before, source, target, Image(source, target, p));
      RenamedAt(before, source, target, p);
    }
    forall p | !(source <= p) && !(target <= p)
      ensures (p in before <==> p in after) && (p in before ==> after[p] == before[p])
    {
      RenamedAt(before, source, target, p);
    }
  }

  lemma RenamedAt(before: Tree, source: Path, target: Path, q: Path)
    requires !(source <= target) && !(target <= source)
    ensures var after := Renamed(before, source, target);
            if source <= q then q !in after
            else if target <= q then
              && (q in after <==> Image(target, source, q) in before)
              && (q in after ==> after[q] == before[Image(target, source, q)])
            else (q in after <==> q in before) && (q in after ==> after[q] == before[q])
  {
    if target <= q && Image(target, source, q) in before {
      ImageInverse(target, source, q);
    }
  }

  lemma MovedParents(before: Tree, source: Path, target: Path, after: Tree, p: Path)
    requires CanRename(before, source, target) && ParentClosed(before)
    requires IsRenamed(before, source, target, after)
    requires target < p && p in after
    ensures Parent(p) in after && after[Parent(p)].Directory?
  {
    var q := Image(target, source, p);
    ImageInverse(target, source, p);
    ImageOfParent(target, source, p);
    ImageInverse(target, source, Parent(p));
    assert source <= Parent(q) && Parent(q) in before && before[Parent(q)].Directory?;
    assert Image(source, target, Parent(q)) == Parent(p);
  }

  lemma StayingParents(before: Tree, source: Path, target: Path, after: Tree, p: Path)
    requires CanRename(before, source, target) && ParentClosed(before)
    requires IsRenamed(before, source, target, after)
    requires !(target < p) && p != [] && p in after
    ensures Parent(p) in after && after[Parent(p)].Directory?
  {
    if p != target {
      assert p in before;
    }
    assert Parent(p) in before && before[Parent(p)].Directory?;
    assert !(target <= Parent(p)) && !(source <= Parent(p));
  }

  lemma RenameKeepsParents(before: Tree, source: Path, target: Path, after: Tree)
    requires CanRename(before, source, target) && ParentClosed(before)
    requires IsRenamed(before, source, target, after)
    ensures ParentClosed(after)
  {
    forall p | p in after && p != [] ensures Parent(p) in after && after[Parent(p)].Directory? {
      if target < p {
        MovedParents(before, source, target, after, p);
      } else {
        StayingParents(before, source, target, after, p);
      }
    }
  }

  ghost predicate IsRenamed(before: Tree, source: Path, target: Path, after: Tree) {
    && IsCopy(before, source, after, target)
    && (forall p :: source <= p ==> p !in after)
    && (forall p :: !(source <= p) && !(target <= p) ==>
          (p in before <==> p in after) && (p in before ==> after[p] == before[p]))
  }

  /** The shared cancellation flag: it may be raised at any moment and is never
      lowered. `raised` is what the next check will see. */
  class Control {
    var raised: bool

    method Poll() returns (cancelled: bool)
      modifies this
      ensures cancelled == raised && (old(raised) ==> raised)
    {
      if * {
        raised := true;
      }
      cancelled := raised;
    }
  }
}
