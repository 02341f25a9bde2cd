/** Paths as component sequences, and finite trees of files as maps from paths. */
module FileTrees {

  type Name = string
  type Path = seq<Name>
  type Bytes = seq<bv8>

  /** A file holds its contents; a symbolic link is a leaf whatever it points to. */
  datatype Node = File(content: Bytes) | Directory | Symlink(destination: Path)

  type Tree = map<Path, Node>

  /** What `exists()` answers: links are followed, and one that leads round in a
      circle or to nothing does not exist. */
  predicate Exists(tree: Tree, path: Path)
    decreases tree.Keys
  {
    path in tree && (tree[path].Symlink? ==> Exists(tree - {path}, tree[path].destination))
  }

  /** What `is_dir()` answers: links are followed here too. */
  predicate IsDirectory(tree: Tree, path: Path)
    decreases tree.Keys
  {
    path in tree
    && (tree[path].Directory? || (tree[path].Symlink? && IsDirectory(tree - {path}, tree[path].destination)))
  }

  /** Something stands here, although `exists()` denies it. */
  predicate BrokenLink(tree: Tree, path: Path) {
    path in tree && !Exists(tree, path)
  }

  lemma OnlyLinksAreBroken(tree: Tree, path: Path)
    ensures BrokenLink(tree, path) <==> path in tree && !Exists(tree, path)
    ensures BrokenLink(tree, path) ==> tree[path].Symlink?
    ensures path !in tree ==> !Exists(tree, path)
  {
  }

  function Parent(path: Path): (parent: Path)
    requires path != []
    ensures parent < path && |parent| == |path| - 1
  {
    path[..|path| - 1]
  }

  predicate IsChild(path: Path, directory: Path) {
    path != [] && Parent(path) == directory
  }

  /** Every entry hangs below directories that are themselves entries. */
  predicate ParentClosed(tree: Tree) {
    forall p :: p in tree && p != [] ==> Parent(p) in tree && tree[Parent(p)].Directory?
  }

  /** Everything at or below `root`; `<=` on paths is "is a prefix of". */
  function Subtree(tree: Tree, root: Path): (paths: set<Path>) {
    set p | p in tree && root <= p
  }

  function Children(tree: Tree, directory: Path): (paths: set<Path>) {
    set p | p in tree && IsChild(p, directory)
  }

  lemma PrefixesAreComparable(a: Path, b: Path, path: Path)
    requires a <= path && b <= path
    ensures a <= b || b <= a
  {
    assert if |a| <= |b| then a == b[..|a|] else b == a[..|b|];
  }

  lemma {:induction false} AncestorsExist(tree: Tree, path: Path, ancestor: Path)
    requires ParentClosed(tree) && path in tree && ancestor <= path
    ensures ancestor in tree
    ensures ancestor != path ==> tree[ancestor].Directory?
    decreases |path|
  {
    if ancestor != path {
      assert ancestor <= Parent(path);
      AncestorsExist(tree, Parent(path), ancestor);
      if ancestor == Parent(path) { assert tree[ancestor].Directory?; }
    }
  }

  lemma NothingBelowMissing(tree: Tree, path: Path)
    requires ParentClosed(tree) && path !in tree
    ensures forall q :: q in tree ==> !(path <= q)
  {
    forall q | q in tree && path <= q ensures false { AncestorsExist(tree, q, path); }
  }

  /** The child of `directory` on the way down to `path`. */
  function Towards(directory: Path, path: Path): (child: Path)
    requires directory < path
    ensures child <= path && IsChild(child, directory) && directory < child
  {
    var child := path[..|directory| + 1];
    assert Parent(child) == directory;
    child
  }

  lemma TowardsIsUnique(directory: Path, path: Path, child: Path)
    requires child <= path && IsChild(child, directory)
    ensures directory < path && Towards(directory, path) == child
  {
  }

  lemma DescendantsGoThroughChildren(tree: Tree, directory: Path, path: Path)
    requires ParentClosed(tree) && path in tree && directory < path
    ensures Towards(directory, path) in Children(tree, directory)
    ensures directory in tree && tree[directory].Directory?
  {
    AncestorsExist(tree, path, Towards(directory, path));
    AncestorsExist(tree, path, directory);
  }

  lemma OnlyDirectoriesHaveEntriesBelow(tree: Tree, path: Path)
    requires ParentClosed(tree) && path in tree && !tree[path].Directory?
    ensures Children(tree, path) == {} && Subtree(tree, path) == {path}
  {
    forall q | q in tree && path <= q ensures q == path {
      if q != path { DescendantsGoThroughChildren(tree, path, q); }
    }
    assert forall q :: IsChild(q, path) ==> path <= q && q != path;
  }

  /** A listing names every child once, in whatever order the system reports. */
  ghost predicate IsListing(tree: Tree, directory: Path, listing: seq<Path>) {
    && (forall p :: p in listing <==> p in Children(tree, directory))
    && (forall i, j :: 0 <= i < j < |listing| ==> listing[i] != listing[j])
  }

  /** Where `path`, at or below `source`, lies once `source` stands at `target`. */
  function Image(source: Path, target: Path, path: Path): (image: Path)
    requires source <= path
    ensures target <= image && |image| - |target| == |path| - |source|
  {
    target + path[|source|..]
  }

  lemma ImageInverse(source: Path, target: Path, path: Path)
    requires source <= path
    ensures Image(target, source, Image(source, target, path)) == path
  {
    assert Image(source, target, path)[|target|..] == path[|source|..];
  }

  lemma ImageComposes(source: Path, target: Path, child: Path, path: Path)
    requires source <= child <= path
    ensures Image(child, Image(source, target, child), path) == Image(source, target, path)
  {
    assert path[|source|..] == child[|source|..] + path[|child|..];
  }

  lemma ImageOfParent(source: Path, target: Path, path: Path)
    requires source < path
    ensures Parent(Image(source, target, path)) == Image(source, target, Parent(path))
  {
    assert path[|source|..][..|path| - |source| - 1] == Parent(path)[|source|..];
  }

  /** What `source` held in `before` is exactly what `target` holds in `after`. */
  ghost predicate IsCopy(before: Tree, source: Path, after: Tree, target: Path) {
    forall p :: source <= p ==>
      && (p in before <==> Image(source, target, p) in after)
      && (p in before ==> after[Image(source, target, p)] == before[p])
  }

  lemma CopyOfCopy(a: Tree, x: Path, b: Tree, y: Path, c: Tree, z: Path)
    requires IsCopy(a, x, b, y) && IsCopy(b, y, c, z)
    ensures IsCopy(a, x, c, z)
  {
    forall p | x <= p
      ensures p in a <==> Image(x, z, p) in c
      ensures p in a ==> c[Image(x, z, p)] == a[p]
    {
      var q := Image(x, y, p);
      ImageInverse(x, y, p);
      assert Image(y, z, q) == Image(x, z, p);
    }
  }

  lemma UnchangedIsCopy(before: Tree, after: Tree, place: Path)
    requires forall p :: place <= p ==> (p in before <==> p in after) && (p in before ==> after[p] == before[p])
    ensures IsCopy(before, place, after, place)
  {
    forall p | place <= p ensures Image(place, place, p) == p {}
  }

  /** Entries were only removed, and only at or below `root`. */
  ghost predicate OnlyRemovedBelow(before: Tree, after: Tree, root: Path) {
    && after.Keys <= before.Keys
    && (forall p :: p in after ==> after[p] == before[p])
    && (forall p :: p in before && !(root <= p) ==> p in after)
    && ParentClosed(after)
  }
}
