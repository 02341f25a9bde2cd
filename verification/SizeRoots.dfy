/** The size of a selection (`src/fs/properties.rs`): its minimal roots, and a
    walk that counts every file once however many names it has. */
module SizeRoots {
  import opened Prelude
  import opened FileTrees
  import opened FileSystems
  import PT = PortableTotals

  /** What an entry occupies: its length, and its blocks of 512 bytes. */
  datatype Extent = Extent(length: nat, blocks: nat)

  /** An entry as `lstat` shows it; names with one inode of one device share one
      file. The device of a folder changes where a file system is mounted. */
  datatype Item = Regular(inode: nat) | Folder(extent: Extent, device: nat) | Link(extent: Extent)

  /** A disk that holds still: its entries, and the extent of each inode. */
  datatype Disk = Disk(items: map<Path, Item>, files: map<nat, Extent>)

  ghost predicate IsDisk(disk: Disk) {
    && (forall p :: p in disk.items && p != [] ==> Parent(p) in disk.items && disk.items[Parent(p)].Folder?)
    && (forall p :: p in disk.items && disk.items[p].Regular? ==> disk.items[p].inode in disk.files)
  }

  predicate IsFolder(disk: Disk, path: Path) {
    path in disk.items && disk.items[path].Folder?
  }

  // ----- Minimal roots -----

  /** Another selected folder lies at or above the path. */
  predicate Sheltered(disk: Disk, paths: seq<Path>, path: Path) {
    exists i :: 0 <= i < |paths| && paths[i] != path && IsFolder(disk, paths[i]) && paths[i] <= path
  }

  /** Keeps the first of every path that no other selected folder contains. */
  method MinimalSizeRoots(disk: Disk, paths: seq<Path>) returns (roots: seq<Path>)
    ensures forall p :: p in roots <==> p in paths && !Sheltered(disk, paths, p)
    ensures forall i, j :: 0 <= i < j < |roots| ==> roots[i] != roots[j]
  {
    var found: seq<Path> := [];
    for n := 0 to |paths|
      invariant forall p :: p in found ==> p in paths[..n]
      invariant forall i, j :: 0 <= i < j < |found| ==> found[i] != found[j]
      invariant forall p :: p in paths[..n] && !Sheltered(disk, paths, p) ==> p in found
    {
      var path := paths[n];
      assert paths[..n + 1] == paths[..n] + [path];
      if path !in found && !Sheltered(disk, found, path) {
        found := found + [path];
      } else if path !in found {
        ShelterWidens(disk, found, paths, path);
      }
    }
    assert paths[..|paths|] == paths;
    roots := [];
    for n := 0 to |found|
      invariant forall p :: p in roots <==> p in found[..n] && !Sheltered(disk, paths, p)
      invariant forall i, j :: 0 <= i < j < |roots| ==> roots[i] != roots[j]
    {
      assert found[..n + 1] == found[..n] + [found[n]];
      if !Sheltered(disk, paths, found[n]) {
        assert found[n] !in found[..n];
        roots := roots + [found[n]];
      }
    }
    assert found[..|found|] == found;
  }

  lemma ShelterWidens(disk: Disk, some: seq<Path>, paths: seq<Path>, path: Path)
    requires Sheltered(disk, some, path) && forall p :: p in some ==> p in paths
    ensures Sheltered(disk, paths, path)
  {
    var i :| 0 <= i < |some| && some[i] != path && IsFolder(disk, some[i]) && some[i] <= path;
    assert some[i] in some;
    var j :| 0 <= j < |paths| && paths[j] == some[i];
  }

  /** What the roots of a selection are, apart from their order. */
  ghost predicate AreRoots(disk: Disk, paths: seq<Path>, roots: seq<Path>) {
    && (forall p :: p in roots <==> p in paths && !Sheltered(disk, paths, p))
    && forall i, j :: 0 <= i < j < |roots| ==> roots[i] != roots[j]
  }

  /** The topmost selected folder above a path is a root. */
  lemma {:induction false} ShelterIsRooted(disk: Disk, paths: seq<Path>, roots: seq<Path>, path: Path)
    returns (root: Path)
    requires AreRoots(disk, paths, roots) && path in paths
    ensures root in roots && root <= path && (root == path || IsFolder(disk, root))
    decreases |path|
  {
    if Sheltered(disk, paths, path) {
      var i :| 0 <= i < |paths| && paths[i] != path && IsFolder(disk, paths[i]) && paths[i] <= path;
      root := ShelterIsRooted(disk, paths, roots, paths[i]);
      assert root <= paths[i] <= path;
    } else {
      root := path;
    }
  }

  lemma {:induction false} FoldersAbove(disk: Disk, path: Path, ancestor: Path)
    requires IsDisk(disk) && path in disk.items && ancestor <= path && ancestor != path
    ensures IsFolder(disk, ancestor)
    decreases |path|
  {
    if ancestor != Parent(path) {
      assert ancestor <= Parent(path);
      FoldersAbove(disk, Parent(path), ancestor);
    }
  }

  /** No root that exists lies below another root. */
  lemma RootsAreAntichain(disk: Disk, paths: seq<Path>, roots: seq<Path>, a: Path, b: Path)
    requires IsDisk(disk) && AreRoots(disk, paths, roots)
    requires a in roots && b in roots && a != b && b in disk.items
    ensures !(a <= b)
  {
    FolderRootsStandAlone(disk, paths, roots, a, b);
    if a <= b {
      FoldersAbove(disk, b, a);
    }
  }

  /** No root at all lies below a root that is a folder. */
  lemma FolderRootsStandAlone(disk: Disk, paths: seq<Path>, roots: seq<Path>, a: Path, b: Path)
    requires AreRoots(disk, paths, roots) && a in roots && b in roots && a != b
    ensures !(IsFolder(disk, a) && a <= b)
  {
    var i :| 0 <= i < |paths| && paths[i] == a;
    assert IsFolder(disk, a) && a <= b ==> Sheltered(disk, paths, b);
  }

  ghost predicate IsAntichain(paths: seq<Path>) {
    forall a, b :: a in paths && b in paths && a != b ==> !(a <= b)
  }

  /** Two selected paths of which the upper one is no folder (it is gone, say) and
      has no selected folder above it. */
  ghost predicate StrayPair(disk: Disk, paths: seq<Path>, a: Path, b: Path) {
    a in paths && b in paths && a != b && a <= b && !IsFolder(disk, a) && !Sheltered(disk, paths, a)
  }

  /** Exactly when the roots are an antichain, existing or not. */
  lemma RootsAreAntichainIff(disk: Disk, paths: seq<Path>, roots: seq<Path>)
    requires AreRoots(disk, paths, roots)
    ensures IsAntichain(roots) <==> forall a, b :: !StrayPair(disk, paths, a, b)
  {
    hide Sheltered, IsFolder;
    forall a, b | StrayPair(disk, paths, a, b) ensures !IsAntichain(roots) {
      StrayRoots(disk, paths, roots, a, b);
    }
    forall a, b | a in roots && b in roots && a != b && a <= b ensures StrayPair(disk, paths, a, b) {
      FolderRootsStandAlone(disk, paths, roots, a, b);
    }
  }

  lemma StrayRoots(disk: Disk, paths: seq<Path>, roots: seq<Path>, a: Path, b: Path)
    requires AreRoots(disk, paths, roots) && StrayPair(disk, paths, a, b)
    ensures !IsAntichain(roots)
  {
    var root := ShelterIsRooted(disk, paths, roots, b);
    PrefixesAreComparable(root, a, b);
    ShelterOf(disk, paths, root, a);
    assert a in roots && root in paths;
  }

  lemma ShelterOf(disk: Disk, paths: seq<Path>, folder: Path, path: Path)
    ensures folder in paths && folder != path && IsFolder(disk, folder) && folder <= path ==>
              Sheltered(disk, paths, path)
  {
    if folder in paths {
      var i :| 0 <= i < |paths| && paths[i] == folder;
    }
  }

  ghost function CoveredBy(disk: Disk, paths: seq<Path>): (covered: set<Path>)
    ensures forall p :: p in covered <==> p in disk.items && exists i :: 0 <= i < |paths| && paths[i] <= p
  {
    set p | p in disk.items && exists i :: 0 <= i < |paths| && paths[i] <= p
  }

  /** The roots cover everything that the selection covers. */
  lemma RootsCoverSelection(disk: Disk, paths: seq<Path>, roots: seq<Path>)
    requires AreRoots(disk, paths, roots)
    ensures CoveredBy(disk, roots) == CoveredBy(disk, paths)
  {
    forall p | p in CoveredBy(disk, paths) ensures p in CoveredBy(disk, roots) {
      var i :| 0 <= i < |paths| && paths[i] <= p;
      var root := ShelterIsRooted(disk, paths, roots, paths[i]);
      var j :| 0 <= j < |roots| && roots[j] == root;
      assert roots[j] <= paths[i] <= p;
    }
    forall p | p in CoveredBy(disk, roots) ensures p in CoveredBy(disk, paths) {
      var i :| 0 <= i < |roots| && roots[i] <= p;
      assert roots[i] in roots;
      var j :| 0 <= j < |paths| && paths[j] == roots[i];
    }
  }

  // ----- Mounted file systems -----

  function DeviceOf(disk: Disk, path: Path): nat {
    if IsFolder(disk, path) then disk.items[path].device else 0
  }

  /** A walk stays on the device of its root: it meets a mounted folder, but does
      not look into it. */
  predicate Entered(disk: Disk, root: Path, path: Path) {
    forall n :: |root| < n < |path| ==> DeviceOf(disk, path[..n]) == DeviceOf(disk, root)
  }

  ghost function Walked(disk: Disk, root: Path): (walked: set<Path>)
    ensures forall p :: p in walked <==> p in disk.items && root <= p && Entered(disk, root, p)
  {
    set p | p in disk.items && root <= p && Entered(disk, root, p)
  }

  ghost function Reached(disk: Disk, tops: set<Path>): (reached: set<Path>)
    ensures forall p :: p in reached <==> exists root :: root in tops && p in Walked(disk, root)
  {
    set p | p in disk.items && exists root :: root in tops && p in Walked(disk, root)
  }

  lemma ReachedOneMore(disk: Disk, tops: set<Path>, root: Path)
    ensures Reached(disk, tops + {root}) == Reached(disk, tops) + Walked(disk, root)
  {
    hide Walked;
    forall p | p in Reached(disk, tops + {root}) ensures p in Reached(disk, tops) + Walked(disk, root) {
      var top :| top in tops + {root} && p in Walked(disk, top);
      assert top in tops || top == root;
    }
    forall p | p in Walked(disk, root) ensures p in Reached(disk, tops + {root}) {
      assert root in tops + {root};
    }
    forall p | p in Reached(disk, tops) ensures p in Reached(disk, tops + {root}) {
      var top :| top in tops && p in Walked(disk, top);
      assert top in tops + {root};
    }
  }

  /** From `upper`, what the walk of `lower` would find is out of reach. */
  ghost predicate CutOff(disk: Disk, upper: Path, lower: Path) {
    && upper <= lower && upper != lower && IsFolder(disk, upper) && lower in disk.items
    && (!Entered(disk, upper, lower)
        || (DeviceOf(disk, lower) != DeviceOf(disk, upper) && HoldsSomething(disk, lower)))
  }

  ghost predicate HoldsSomething(disk: Disk, folder: Path) {
    exists p :: p in disk.items && folder <= p && folder != p
  }

  lemma EnteredFurther(disk: Disk, upper: Path, lower: Path, path: Path)
    requires upper <= lower <= path
    requires Entered(disk, upper, lower) && Entered(disk, lower, path)
    requires upper == lower || lower == path || DeviceOf(disk, lower) == DeviceOf(disk, upper)
    ensures Entered(disk, upper, path)
  {
    hide DeviceOf;
    forall n | |upper| < n < |path| ensures DeviceOf(disk, path[..n]) == DeviceOf(disk, upper) {
      if n < |lower| {
        assert path[..n] == lower[..n];
      } else if n == |lower| {
        assert path[..n] == lower;
      }
    }
  }

  lemma EnteredFromWithin(disk: Disk, upper: Path, lower: Path, path: Path)
    requires upper <= lower <= path && upper != lower && lower != path && Entered(disk, upper, path)
    ensures DeviceOf(disk, lower) == DeviceOf(disk, upper) && Entered(disk, lower, path)
  {
    hide DeviceOf;
    assert path[..|lower|] == lower;
  }

  /** What a selected folder does not reach, no root above it reaches either. */
  lemma OutOfReach(disk: Disk, paths: seq<Path>, folder: Path, path: Path)
    requires folder in paths && IsFolder(disk, folder) && folder <= path && folder != path
    requires !Entered(disk, folder, path)
    ensures path !in Reached(disk, TopPaths(disk, paths))
  {
    hide Entered, DeviceOf, Walked, Reached, Sheltered, TopPaths;
    if path in Reached(disk, TopPaths(disk, paths)) {
      var top :| top in TopPaths(disk, paths) && path in Walked(disk, top);
      PrefixesAreComparable(top, folder, path);
      ShelterOf(disk, paths, folder, top);
      if top != folder {
        EnteredFromWithin(disk, top, folder, path);
      }
    }
  }

  /** The roots reach all that the selected paths reach if and only if no selected
      folder lies across a mount below another one. */
  lemma RootsReachSelectionIff(disk: Disk, paths: seq<Path>)
    requires IsDisk(disk)
    ensures Reached(disk, TopPaths(disk, paths)) == Reached(disk, Elements(paths)) <==>
            forall a, b :: a in paths && b in paths ==> !CutOff(disk, a, b)
  {
    hide Entered, DeviceOf, Walked, Reached, Sheltered, TopPaths, CutOff, Elements;
    if a, b :| a in paths && b in paths && CutOff(disk, a, b) {
      var lost := LostBeyond(disk, paths, a, b);
    } else {
      forall p | p in Reached(disk, Elements(paths)) ensures p in Reached(disk, TopPaths(disk, paths)) {
        var path :| path in Elements(paths) && p in Walked(disk, path);
        ReachedFromTop(disk, paths, path, p);
      }
      forall p | p in Reached(disk, TopPaths(disk, paths)) ensures p in Reached(disk, Elements(paths)) {
        var top :| top in TopPaths(disk, paths) && p in Walked(disk, top);
        assert top in Elements(paths);
      }
    }
  }

  lemma LostBeyond(disk: Disk, paths: seq<Path>, upper: Path, lower: Path) returns (lost: Path)
    requires IsDisk(disk) && upper in paths && lower in paths && CutOff(disk, upper, lower)
    ensures lost in Reached(disk, Elements(paths)) && lost !in Reached(disk, TopPaths(disk, paths))
  {
    hide DeviceOf, Sheltered, TopPaths, Elements;
    assert lower in Elements(paths);
    if !Entered(disk, upper, lower) {
      lost := lower;
      assert Entered(disk, lower, lower);
    } else {
      var p :| p in disk.items && lower <= p && lower != p;
      lost := p[..|lower| + 1];
      assert lost <= p && lower == lost[..|lower|];
      if lost != p {
        FoldersAbove(disk, p, lost);
      }
      assert Entered(disk, lower, lost);
    }
    assert lost in Walked(disk, lower);
    OutOfReach(disk, paths, upper, lost);
  }

  lemma ReachedFromTop(disk: Disk, paths: seq<Path>, path: Path, p: Path)
    requires IsDisk(disk) && path in paths && p in Walked(disk, path)
    requires forall a, b :: a in paths && b in paths ==> !CutOff(disk, a, b)
    ensures p in Reached(disk, TopPaths(disk, paths))
  {
    hide Entered, DeviceOf, Walked, Reached, Sheltered, TopPaths;
    var top := TopmostAbove(disk, paths, path);
    if top == path {
      assert p in Walked(disk, top);
    } else {
      assert !CutOff(disk, top, path);
      if p != path {
        FoldersAbove(disk, p, path);
        assert HoldsSomething(disk, path);
      }
      EnteredFurther(disk, top, path, p);
      assert p in Walked(disk, top);
    }
  }

  /** The topmost selected folder above a path is not sheltered. */
  lemma {:induction false} TopmostAbove(disk: Disk, paths: seq<Path>, path: Path) returns (top: Path)
    requires path in paths
    ensures top in TopPaths(disk, paths) && top in paths && top <= path && (top == path || IsFolder(disk, top))
    decreases |path|
  {
    if Sheltered(disk, paths, path) {
      var i :| 0 <= i < |paths| && paths[i] != path && IsFolder(disk, paths[i]) && paths[i] <= path;
      top := TopmostAbove(disk, paths, paths[i]);
      assert top <= paths[i] <= path;
    } else {
      top := path;
    }
  }

  /** Without any mount the roots reach everything at or below the selection. */
  lemma WithoutMountsAllIsReached(disk: Disk, paths: seq<Path>)
    requires IsDisk(disk)
    requires forall p, q :: IsFolder(disk, p) && IsFolder(disk, q) ==> DeviceOf(disk, p) == DeviceOf(disk, q)
    ensures Reached(disk, TopPaths(disk, paths)) == CoveredBy(disk, paths)
  {
    hide Sheltered, TopPaths, Reached;
    forall p | p in CoveredBy(disk, paths) ensures p in Reached(disk, TopPaths(disk, paths)) {
      var i :| 0 <= i < |paths| && paths[i] <= p;
      var top := TopmostAbove(disk, paths, paths[i]);
      assert top <= p;
      AllEntered(disk, top, p);
      assert p in Walked(disk, top);
    }
    forall p | p in Reached(disk, TopPaths(disk, paths)) ensures p in CoveredBy(disk, paths) {
      var top :| top in TopPaths(disk, paths) && p in Walked(disk, top);
      var i :| 0 <= i < |paths| && paths[i] == top;
      assert paths[i] <= p;
    }
  }

  lemma AllEntered(disk: Disk, root: Path, p: Path)
    requires IsDisk(disk) && root <= p && p in disk.items
    requires forall p, q :: IsFolder(disk, p) && IsFolder(disk, q) ==> DeviceOf(disk, p) == DeviceOf(disk, q)
    ensures Entered(disk, root, p)
  {
    hide DeviceOf;
    forall n | |root| < n < |p| ensures DeviceOf(disk, p[..n]) == DeviceOf(disk, root) {
      FoldersAbove(disk, p, p[..n]);
      FoldersAbove(disk, p, root);
    }
  }

  const MOUNTED :=
    Disk(map[[] := Folder(Extent(0, 0), 1), ["a"] := Folder(Extent(0, 0), 1), ["a", "m"] := Folder(Extent(0, 0), 2),
             ["a", "m", "f"] := Regular(7)],
         map[7 := Extent(5, 1)])

  /** A selected mount below a selected folder: its file is in the selection, but
      in no root's walk. */
  lemma MountIsLost()
    ensures IsDisk(MOUNTED)
    ensures ["a", "m", "f"] in Reached(MOUNTED, Elements([["a"], ["a", "m"]]))
    ensures ["a", "m", "f"] !in Reached(MOUNTED, TopPaths(MOUNTED, [["a"], ["a", "m"]]))
  {
    hide Sheltered, TopPaths, Reached;
    MountedIsADisk();
    var upper: Path, lower: Path, file: Path := ["a"], ["a", "m"], ["a", "m", "f"];
    assert lower in Elements([upper, lower]);
    assert file in Walked(MOUNTED, lower);
    assert file[..2] == lower;
    OutOfReach(MOUNTED, [upper, lower], upper, file);
  }

  lemma MountedIsADisk()
    ensures IsDisk(MOUNTED)
  {
    assert Parent(["a"]) == [];
    assert Parent(["a", "m"]) == ["a"];
    assert Parent(["a", "m", "f"]) == ["a", "m"];
    assert forall p :: p in MOUNTED.items ==> p == [] || p == ["a"] || p == ["a", "m"] || p == ["a", "m", "f"];
  }

  /** The same selection in another order, or with repeats, has the same roots. */
  lemma RootsIgnoreOrder(disk: Disk, a: seq<Path>, b: seq<Path>, rootsA: seq<Path>, rootsB: seq<Path>)
    requires (forall p :: p in a <==> p in b) && AreRoots(disk, a, rootsA) && AreRoots(disk, b, rootsB)
    ensures multiset(rootsA) == multiset(rootsB)
  {
    forall p | p in a ensures Sheltered(disk, a, p) <==> Sheltered(disk, b, p) {
      if Sheltered(disk, a, p) {
        ShelterWidens(disk, a, b, p);
      }
      if Sheltered(disk, b, p) {
        ShelterWidens(disk, b, a, p);
      }
    }
    forall p ensures multiset(rootsA)[p] == multiset(rootsB)[p] {
      OncePerPath(rootsA, p);
      OncePerPath(rootsB, p);
    }
  }

  lemma {:induction false} OncePerPath(paths: seq<Path>, p: Path)
    requires forall i, j :: 0 <= i < j < |paths| ==> paths[i] != paths[j]
    ensures multiset(paths)[p] == if p in paths then 1 else 0
  {
    if paths != [] {
      var n := |paths| - 1;
      assert paths == paths[..n] + [paths[n]];
      assert paths[n] !in paths[..n];
      OncePerPath(paths[..n], p);
    }
  }

  // ----- The walk -----

  ghost function SumOf<T(!new)>(members: set<T>, weight: T -> nat): nat {
    if members == {} then 0
    else
      var x :| x in members;
      weight(x) + SumOf(members - {x}, weight)
  }

  lemma {:induction false} SumOfOneMore<T(!new)>(members: set<T>, weight: T -> nat, x: T)
    requires x !in members
    ensures SumOf(members + {x}, weight) == SumOf(members, weight) + weight(x)
  {
    var all := members + {x};
    var first :| first in all && SumOf(all, weight) == weight(first) + SumOf(all - {first}, weight);
    if first == x {
      assert all - {x} == members;
    } else {
      SumOfOneMore(members - {first}, weight, x);
      assert all - {first} == (members - {first}) + {x};
      assert members == (members - {first}) + {first};
      SumOfOneMore(members - {first}, weight, first);
    }
  }

  datatype Measure = Length | Occupied

  function Measured(extent: Extent, measure: Measure): nat {
    match measure
    case Length => extent.length
    case Occupied => extent.blocks * 512
  }

  /** What a folder or a link occupies by itself. */
  function OwnWeight(disk: Disk, measure: Measure): Path -> nat {
    (p: Path) => if p in disk.items && !disk.items[p].Regular? then Measured(disk.items[p].extent, measure) else 0
  }

  function InodeWeight(disk: Disk, measure: Measure): nat -> nat {
    (inode: nat) => if inode in disk.files then Measured(disk.files[inode], measure) else 0
  }

  ghost function Inodes(disk: Disk, paths: set<Path>): (inodes: set<nat>)
    ensures forall n :: n in inodes <==>
              exists p :: p in paths && p in disk.items && disk.items[p].Regular? && disk.items[p].inode == n
  {
    set p | p in paths && p in disk.items && disk.items[p].Regular? :: disk.items[p].inode
  }

  ghost function Folders(disk: Disk, paths: set<Path>): set<Path> {
    set p | p in paths && p in disk.items && disk.items[p].Folder?
  }

  ghost function Links(disk: Disk, paths: set<Path>): set<Path> {
    set p | p in paths && p in disk.items && disk.items[p].Link?
  }

  datatype DirectorySize =
    DirectorySize(bytes: nat, occupied: nat, files: nat, directories: nat, links: nat, unreadable: nat)

  function Counted(n: nat, yes: bool): nat {
    if yes then PT.SaturatingAdd(n, 1, PT.U64_MAX) else n
  }

  function Enlarged(size: DirectorySize, length: nat, occupied: nat): DirectorySize {
    size.(bytes := PT.SaturatingAdd(size.bytes, length, PT.U64_MAX),
          occupied := PT.SaturatingAdd(size.occupied, PT.Saturated(occupied, PT.U64_MAX), PT.U64_MAX))
  }

  /** Adds one entry; a file counts only when its inode is new. */
  function Accumulated(size: DirectorySize, disk: Disk, p: Path, countItem: bool, inodes: set<nat>): DirectorySize
    requires p in disk.items
  {
    match disk.items[p]
    case Link(extent) =>
      Enlarged(size, Measured(extent, Length), Measured(extent, Occupied)).(links := Counted(size.links, countItem))
    case Regular(inode) =>
      if inode in inodes then size
      else
        Enlarged(size, Added(disk, p, inodes, Length), Added(disk, p, inodes, Occupied))
        .(files := Counted(size.files, countItem))
    case Folder(extent, _) =>
      Enlarged(size, Measured(extent, Length), Measured(extent, Occupied))
      .(directories := Counted(size.directories, countItem))
  }

  /** Folders and links by themselves, and each inode once. */
  ghost function Total(disk: Disk, seen: set<Path>, measure: Measure): nat {
    SumOf(seen, OwnWeight(disk, measure)) + SumOf(Inodes(disk, seen), InodeWeight(disk, measure))
  }

  /** What one more entry adds. */
  function Added(disk: Disk, p: Path, inodes: set<nat>, measure: Measure): nat
    requires p in disk.items
  {
    match disk.items[p]
    case Folder(extent, _) => Measured(extent, measure)
    case Link(extent) => Measured(extent, measure)
    case Regular(inode) => if inode in inodes then 0 else InodeWeight(disk, measure)(inode)
  }

  lemma OneMoreWeighed(disk: Disk, seen: set<Path>, p: Path, measure: Measure)
    requires p in disk.items && p !in seen
    ensures Total(disk, seen + {p}, measure) == Total(disk, seen, measure) + Added(disk, p, Inodes(disk, seen), measure)
  {
    hide Inodes, SumOf;
    SumOfOneMore(seen, OwnWeight(disk, measure), p);
    if disk.items[p].Regular? {
      FileAdds(disk, seen, p);
      if disk.items[p].inode !in Inodes(disk, seen) {
        SumOfOneMore(Inodes(disk, seen), InodeWeight(disk, measure), disk.items[p].inode);
      }
    } else {
      OtherAdds(disk, seen, p);
    }
  }

  /** The totals in words: nothing weighs nothing, and one more entry adds its own
      length and 512 for each of its blocks, but a file only when none of its
      other names was met. */
  lemma TotalMeans(disk: Disk, seen: set<Path>, p: Path)
    requires IsDisk(disk) && p in disk.items && p !in seen
    ensures Total(disk, {}, Length) == Total(disk, {}, Occupied) == 0
    ensures var known := exists q :: q in seen && q in disk.items && disk.items[q].Regular?
                                     && disk.items[p].Regular? && disk.items[q].inode == disk.items[p].inode;
            var extent := if disk.items[p].Regular? then disk.files[disk.items[p].inode] else disk.items[p].extent;
            && Total(disk, seen + {p}, Length) == Total(disk, seen, Length) + (if known then 0 else extent.length)
            && Total(disk, seen + {p}, Occupied) ==
                 Total(disk, seen, Occupied) + (if known then 0 else 512 * extent.blocks)
  {
    hide Total;
    NothingWeighs(disk, Length);
    NothingWeighs(disk, Occupied);
    OneMoreWeighed(disk, seen, p, Length);
    OneMoreWeighed(disk, seen, p, Occupied);
  }

  lemma NothingWeighs(disk: Disk, measure: Measure)
    ensures Total(disk, {}, measure) == 0
  {
    assert Inodes(disk, {}) == {};
  }

  /** One more entry in both totals. */
  lemma EnlargedByOne(size: DirectorySize, disk: Disk, seen: set<Path>, p: Path)
    requires HasTotals(size, disk, seen) && p in disk.items && p !in seen
    ensures var inodes := Inodes(disk, seen);
            var after := Enlarged(size, Added(disk, p, inodes, Length), Added(disk, p, inodes, Occupied));
            HasTotals(after, disk, seen + {p})
  {
    hide Inodes, Total, Added, PT.Saturated, PT.SaturatingAdd;
    var inodes := Inodes(disk, seen);
    OneMoreWeighed(disk, seen, p, Length);
    OneMoreWeighed(disk, seen, p, Occupied);
    PT.SaturatesOnce(Total(disk, seen, Length), Added(disk, p, inodes, Length), PT.U64_MAX);
    SaturatesTwice(Total(disk, seen, Occupied), Added(disk, p, inodes, Occupied), PT.U64_MAX);
  }

  /** The totals do not depend on the counts. */
  lemma SameTotals(disk: Disk, seen: set<Path>)
    ensures forall a: DirectorySize, b: DirectorySize ::
              HasTotals(a, disk, seen) && a.bytes == b.bytes && a.occupied == b.occupied ==> HasTotals(b, disk, seen)
  {
  }

  lemma SaturatesTwice(a: nat, b: nat, limit: nat)
    ensures PT.SaturatingAdd(PT.Saturated(a, limit), PT.Saturated(b, limit), limit) == PT.Saturated(a + b, limit)
  {
  }

  lemma OtherAdds(disk: Disk, seen: set<Path>, p: Path)
    requires p in disk.items && !disk.items[p].Regular?
    ensures Inodes(disk, seen + {p}) == Inodes(disk, seen)
  {
    assert forall q :: q in seen + {p} && q in disk.items && disk.items[q].Regular? ==> q in seen;
  }

  ghost predicate HasTotals(size: DirectorySize, disk: Disk, seen: set<Path>) {
    && size.bytes == PT.Saturated(Total(disk, seen, Length), PT.U64_MAX)
    && size.occupied == PT.Saturated(Total(disk, seen, Occupied), PT.U64_MAX)
  }

  /** The size of a set of entries; folders that were selected are not counted as items. */
  ghost predicate IsSizeOf(size: DirectorySize, disk: Disk, seen: set<Path>, topFolders: set<Path>) {
    && HasTotals(size, disk, seen)
    && size.files == PT.Saturated(|Inodes(disk, seen)|, PT.U64_MAX)
    && size.directories == PT.Saturated(|Folders(disk, seen) - topFolders|, PT.U64_MAX)
    && size.links == PT.Saturated(|Links(disk, seen)|, PT.U64_MAX)
  }

  lemma OneMoreCounted(
    size: DirectorySize, disk: Disk, seen: set<Path>, topFolders: set<Path>, p: Path, countItem: bool)
    requires IsSizeOf(size, disk, seen, topFolders) && p in disk.items && p !in seen
    requires countItem || disk.items[p].Folder?
    requires disk.items[p].Folder? ==> (countItem <==> p !in topFolders)
    ensures IsSizeOf(Accumulated(size, disk, p, countItem, Inodes(disk, seen)), disk, seen + {p}, topFolders)
    ensures Inodes(disk, seen + {p}) ==
              Inodes(disk, seen) + if disk.items[p].Regular? then {disk.items[p].inode} else {}
  {
    hide Inodes, IsSizeOf;
    match disk.items[p] {
      case Link(_) =>
        LinkCounted(size, disk, seen, topFolders, p);
      case Folder(_, _) =>
        FolderCounted(size, disk, seen, topFolders, p, countItem);
      case Regular(_) =>
        FileCountedOnce(size, disk, seen, topFolders, p);
    }
  }

  lemma LinkCounted(size: DirectorySize, disk: Disk, seen: set<Path>, topFolders: set<Path>, p: Path)
    requires IsSizeOf(size, disk, seen, topFolders) && p in disk.items && disk.items[p].Link? && p !in seen
    ensures IsSizeOf(Accumulated(size, disk, p, true, Inodes(disk, seen)), disk, seen + {p}, topFolders)
    ensures Inodes(disk, seen + {p}) == Inodes(disk, seen)
  {
    hide Inodes, Folders, Links, HasTotals, PT.Saturated, PT.SaturatingAdd;
    EnlargedByOne(size, disk, seen, p);
    SameTotals(disk, seen + {p});
    LinkAdds(disk, seen, p);
    PT.SaturatesOnce(|Links(disk, seen)|, 1, PT.U64_MAX);
  }

  lemma FolderCounted(
    size: DirectorySize, disk: Disk, seen: set<Path>, topFolders: set<Path>, p: Path, countItem: bool)
    requires IsSizeOf(size, disk, seen, topFolders) && p in disk.items && disk.items[p].Folder? && p !in seen
    requires countItem <==> p !in topFolders
    ensures IsSizeOf(Accumulated(size, disk, p, countItem, Inodes(disk, seen)), disk, seen + {p}, topFolders)
    ensures Inodes(disk, seen + {p}) == Inodes(disk, seen)
  {
    hide Inodes, Folders, Links, HasTotals, PT.Saturated, PT.SaturatingAdd;
    EnlargedByOne(size, disk, seen, p);
    SameTotals(disk, seen + {p});
    FolderAdds(disk, seen, topFolders, p);
    PT.SaturatesOnce(|Folders(disk, seen) - topFolders|, 1, PT.U64_MAX);
  }

  lemma FileCountedOnce(size: DirectorySize, disk: Disk, seen: set<Path>, topFolders: set<Path>, p: Path)
    requires IsSizeOf(size, disk, seen, topFolders) && p in disk.items && disk.items[p].Regular? && p !in seen
    ensures IsSizeOf(Accumulated(size, disk, p, true, Inodes(disk, seen)), disk, seen + {p}, topFolders)
    ensures Inodes(disk, seen + {p}) == Inodes(disk, seen) + {disk.items[p].inode}
  {
    hide Inodes, IsSizeOf, Accumulated;
    FileAdds(disk, seen, p);
    if disk.items[p].inode in Inodes(disk, seen) {
      KnownFile(size, disk, seen, topFolders, p);
    } else {
      NewFile(size, disk, seen, topFolders, p);
    }
  }

  lemma KnownFile(size: DirectorySize, disk: Disk, seen: set<Path>, topFolders: set<Path>, p: Path)
    requires IsSizeOf(size, disk, seen, topFolders) && p in disk.items && disk.items[p].Regular? && p !in seen
    requires disk.items[p].inode in Inodes(disk, seen)
    ensures IsSizeOf(Accumulated(size, disk, p, true, Inodes(disk, seen)), disk, seen + {p}, topFolders)
  {
    hide Inodes, Folders, Links, Total, PT.Saturated, PT.SaturatingAdd;
    OneMoreWeighed(disk, seen, p, Length);
    OneMoreWeighed(disk, seen, p, Occupied);
    FileAdds(disk, seen, p);
  }

  lemma NewFile(size: DirectorySize, disk: Disk, seen: set<Path>, topFolders: set<Path>, p: Path)
    requires IsSizeOf(size, disk, seen, topFolders) && p in disk.items && disk.items[p].Regular? && p !in seen
    requires disk.items[p].inode !in Inodes(disk, seen)
    ensures IsSizeOf(Accumulated(size, disk, p, true, Inodes(disk, seen)), disk, seen + {p}, topFolders)
  {
    hide Inodes, Folders, Links, HasTotals, Added, PT.Saturated, PT.SaturatingAdd;
    var inode, inodes := disk.items[p].inode, Inodes(disk, seen);
    EnlargedByOne(size, disk, seen, p);
    SameTotals(disk, seen + {p});
    FileAdds(disk, seen, p);
    assert |inodes + {inode}| == |inodes| + 1;
    PT.SaturatesOnce(|inodes|, 1, PT.U64_MAX);
  }

  lemma LinkAdds(disk: Disk, seen: set<Path>, p: Path)
    requires p in disk.items && disk.items[p].Link? && p !in seen
    ensures Inodes(disk, seen + {p}) == Inodes(disk, seen) && Folders(disk, seen + {p}) == Folders(disk, seen)
    ensures |Links(disk, seen + {p})| == |Links(disk, seen)| + 1
  {
    assert Links(disk, seen + {p}) == Links(disk, seen) + {p};
  }

  lemma FolderAdds(disk: Disk, seen: set<Path>, topFolders: set<Path>, p: Path)
    requires p in disk.items && disk.items[p].Folder? && p !in seen
    ensures Inodes(disk, seen + {p}) == Inodes(disk, seen) && Links(disk, seen + {p}) == Links(disk, seen)
    ensures |Folders(disk, seen + {p}) - topFolders| ==
              |Folders(disk, seen) - topFolders| + if p in topFolders then 0 else 1
  {
    if p in topFolders {
      assert Folders(disk, seen + {p}) - topFolders == Folders(disk, seen) - topFolders;
    } else {
      assert Folders(disk, seen + {p}) - topFolders == Folders(disk, seen) - topFolders + {p};
    }
  }

  lemma FileAdds(disk: Disk, seen: set<Path>, p: Path)
    requires p in disk.items && disk.items[p].Regular?
    ensures Folders(disk, seen + {p}) == Folders(disk, seen) && Links(disk, seen + {p}) == Links(disk, seen)
    ensures Inodes(disk, seen + {p}) == Inodes(disk, seen) + {disk.items[p].inode}
    ensures disk.items[p].inode in Inodes(disk, seen) ==> Inodes(disk, seen + {p}) == Inodes(disk, seen)
  {
    forall n ensures n in Inodes(disk, seen + {p}) <==> n in Inodes(disk, seen) + {disk.items[p].inode} {
      if n in Inodes(disk, seen) {
        var q :| q in seen && q in disk.items && disk.items[q].Regular? && disk.items[q].inode == n;
        assert q in seen + {p};
      }
      if n in Inodes(disk, seen + {p}) {
        var q :| q in seen + {p} && q in disk.items && disk.items[q].Regular? && disk.items[q].inode == n;
        assert q == p || q in seen;
      }
      assert p in seen + {p};
    }
  }

  /** What a walk met: the paths of the entries that could be read. */
  ghost function Found(met: seq<Option<Path>>): (found: set<Path>)
    ensures forall p :: p in found <==> Some(p) in met
  {
    set i | 0 <= i < |met| && met[i].Some? :: met[i].value
  }

  function Faults(met: seq<Option<Path>>): nat {
    if met == [] then 0 else Faults(met[..|met| - 1]) + if met[|met| - 1].None? then 1 else 0
  }

  lemma OneMoreMet(met: seq<Option<Path>>, next: Option<Path>)
    ensures Faults(met + [next]) == Faults(met) + if next.None? then 1 else 0
    ensures Found(met + [next]) == Found(met) + if next.None? then {} else {next.value}
  {
    assert (met + [next])[..|met|] == met;
  }

  /** Reading the disk may fail; the failures are counted. */
  class Scanner {
    var missed: nat

    constructor ()
      ensures missed == 0
    {
      missed := 0;
    }

    method Read() returns (done: bool)
      modifies this
      ensures missed == old(missed) + if done then 0 else 1
    {
      done := *;
      if !done {
        missed := missed + 1;
      }
    }

    /** Every entry that a root's walk reaches, in some order, each once; an entry that
        cannot be read shows as an error, and an unreadable folder may hide what is
        below it. */
    method Walk(disk: Disk, root: Path) returns (met: seq<Option<Path>>)
      modifies this
      ensures Found(met) <= Walked(disk, root) && MetOnce(met)
      ensures missed == old(missed) + Faults(met)
      ensures Faults(met) == 0 ==> Found(met) == Walked(disk, root)
    {
      hide Walked, Faults;
      var rest := set p | p in disk.items && root <= p && Entered(disk, root, p);
      WalkedMeans(disk, root);
      met := [];
      NothingMet();
      while rest != {}
        invariant Found(met) <= Walked(disk, root) && rest <= Walked(disk, root) && rest !! Found(met)
        invariant MetOnce(met) && missed == old(missed) + Faults(met)
        invariant Faults(met) == 0 ==> Found(met) + rest == Walked(disk, root)
      {
        var p :| p in rest;
        rest := rest - {p};
        var done := Read();
        OneMoreMet(met, if done then Some(p) else None);
        if done {
          met := met + [Some(p)];
        } else {
          met := met + [None];
          if * {
            rest := rest - set q | q in rest && p <= q;
          }
        }
      }
    }
  }

  ghost predicate MetOnce(met: seq<Option<Path>>) {
    forall i, j :: 0 <= i < j < |met| && met[i].Some? ==> met[i] != met[j]
  }

  lemma NothingMet()
    ensures Found([]) == {} && Faults([]) == 0
  {
  }

  /** The selected folders that are not below another one. */
  ghost function TopFolders(disk: Disk, paths: seq<Path>): (tops: set<Path>)
    ensures forall p :: p in tops <==> p in paths && !Sheltered(disk, paths, p) && IsFolder(disk, p)
  {
    set p | p in paths && !Sheltered(disk, paths, p) && IsFolder(disk, p)
  }

  ghost function TopPaths(disk: Disk, paths: seq<Path>): (tops: set<Path>)
    ensures forall p :: p in tops <==> p in paths && !Sheltered(disk, paths, p)
  {
    set p | p in paths && !Sheltered(disk, paths, p)
  }

  /** What lies below one root was not met below an earlier one. */
  lemma RootsDoNotOverlap(disk: Disk, paths: seq<Path>, roots: seq<Path>, k: nat, p: Path)
    requires IsDisk(disk) && AreRoots(disk, paths, roots) && k < |roots| && p in Walked(disk, roots[k])
    ensures p !in Reached(disk, Elements(roots[..k]))
  {
    hide Entered, Walked, Reached, AreRoots;
    forall root | root in Elements(roots[..k]) ensures p !in Walked(disk, root) {
      var i :| 0 <= i < k && roots[..k][i] == root;
      ComparableRoots(disk, paths, roots, i, k, p);
    }
  }

  lemma ComparableRoots(disk: Disk, paths: seq<Path>, roots: seq<Path>, i: nat, k: nat, p: Path)
    requires IsDisk(disk) && AreRoots(disk, paths, roots) && i < k < |roots| && p in disk.items && roots[k] <= p
    ensures !(roots[i] <= p)
  {
    var a, b := roots[i], roots[k];
    assert a in roots && b in roots;
    FolderRootsStandAlone(disk, paths, roots, a, b);
    FolderRootsStandAlone(disk, paths, roots, b, a);
    if b != p {
      FoldersAbove(disk, p, b);
    }
    if a <= p {
      PrefixesAreComparable(a, b, p);
      if a != p {
        FoldersAbove(disk, p, a);
      }
    }
  }

  lemma LeafAlone(disk: Disk, path: Path)
    requires IsDisk(disk) && path in disk.items && !IsFolder(disk, path)
    ensures Walked(disk, path) == {path}
  {
    assert path in Walked(disk, path);
    forall p | p in Walked(disk, path) ensures p == path {
      if p != path {
        FoldersAbove(disk, p, path);
      }
    }
  }

  lemma CountsAsItem(disk: Disk, paths: seq<Path>, roots: seq<Path>, root: Path, p: Path)
    requires AreRoots(disk, paths, roots) && root in roots && IsFolder(disk, root) && root <= p
    ensures IsFolder(disk, p) ==> (p != root <==> p !in TopFolders(disk, paths))
  {
    if p in TopFolders(disk, paths) && p != root {
      FolderRootsStandAlone(disk, paths, roots, root, p);
    }
  }

  lemma RootCountsNot(disk: Disk, paths: seq<Path>, roots: seq<Path>, root: Path)
    requires AreRoots(disk, paths, roots) && root in roots
    ensures IsFolder(disk, root) ==> root in TopFolders(disk, paths)
  {
  }

  /** Adds one root to the size. */
  method AddRoot(
    disk: Disk, ghost paths: seq<Path>, ghost roots: seq<Path>, root: Path, scanner: Scanner, control: Control,
    size: DirectorySize, hardLinks: set<nat>, ghost seen: set<Path>)
    returns (newSize: DirectorySize, newLinks: set<nat>, cancelled: bool, ghost newSeen: set<Path>)
    requires IsDisk(disk) && AreRoots(disk, paths, roots) && root in roots
    requires IsSizeOf(size, disk, seen, TopFolders(disk, paths)) && hardLinks == Inodes(disk, seen)
    requires Walked(disk, root) !! seen && size.unreadable <= PT.U64_MAX
    modifies scanner, control
    ensures IsSizeOf(newSize, disk, newSeen, TopFolders(disk, paths)) && newLinks == Inodes(disk, newSeen)
    ensures seen <= newSeen <= seen + Walked(disk, root) && scanner.missed >= old(scanner.missed)
    ensures !cancelled ==>
              newSize.unreadable ==
                Unread(size, scanner.missed - old(scanner.missed) + Absent(disk, root)).unreadable
    ensures !cancelled && scanner.missed == old(scanner.missed) ==> newSeen == seen + Walked(disk, root)
    ensures cancelled ==> control.raised
  {
    hide *;
    newSize, newLinks, newSeen := size, hardLinks, seen;
    cancelled := control.Poll();
    AbsentMeans(disk, root);
    if cancelled {
      return;
    }
    var readable := true;
    if root in disk.items {
      readable := scanner.Read();
    }
    if root !in disk.items || !readable {
      UnreadCounted(size, disk, seen, TopFolders(disk, paths), 1);
      newSize := Unread(size, 1);
      return;
    }
    UnreadNothing(size);
    if !IsFolder(disk, root) {
      LeafAlone(disk, root);
      NotAFolder(disk, root);
      OneMoreCounted(size, disk, seen, TopFolders(disk, paths), root, true);
      newSize := Accumulated(size, disk, root, true, hardLinks);
      SameUnreadable(size, disk, root, true, hardLinks);
      newLinks := hardLinks + if disk.items[root].Regular? then {disk.items[root].inode} else {};
      newSeen := seen + {root};
      return;
    }
    newSize, newLinks, cancelled, newSeen :=
      AddFolder(disk, paths, roots, root, scanner, control, size, hardLinks, seen);
  }

  /** Adds what the walk of one folder meets. */
  method AddFolder(
    disk: Disk, ghost paths: seq<Path>, ghost roots: seq<Path>, root: Path, scanner: Scanner, control: Control,
    size: DirectorySize, hardLinks: set<nat>, ghost seen: set<Path>)
    returns (newSize: DirectorySize, newLinks: set<nat>, cancelled: bool, ghost newSeen: set<Path>)
    requires IsDisk(disk) && AreRoots(disk, paths, roots) && root in roots && IsFolder(disk, root)
    requires IsSizeOf(size, disk, seen, TopFolders(disk, paths)) && hardLinks == Inodes(disk, seen)
    requires Walked(disk, root) !! seen && size.unreadable <= PT.U64_MAX
    modifies scanner, control
    ensures IsSizeOf(newSize, disk, newSeen, TopFolders(disk, paths)) && newLinks == Inodes(disk, newSeen)
    ensures seen <= newSeen <= seen + Walked(disk, root) && scanner.missed >= old(scanner.missed)
    ensures !cancelled ==> newSize.unreadable == Unread(size, scanner.missed - old(scanner.missed)).unreadable
    ensures !cancelled && scanner.missed == old(scanner.missed) ==> newSeen == seen + Walked(disk, root)
    ensures cancelled ==> control.raised
  {
    hide *;
    newSize, newLinks, newSeen, cancelled := size, hardLinks, seen, false;
    var met := scanner.Walk(disk, root);
    WalkStarts(met, size, seen);
    for i := 0 to |met|
      invariant scanner.missed == old(scanner.missed) + Faults(met)
      invariant newSeen == seen + Found(met[..i])
      invariant IsSizeOf(newSize, disk, newSeen, TopFolders(disk, paths)) && newLinks == Inodes(disk, newSeen)
      invariant newSize.unreadable == Unread(size, Faults(met[..i])).unreadable
    {
      MetNext(met, i, seen, newSeen, Walked(disk, root));
      cancelled := control.Poll();
      if cancelled {
        return;
      }
      if met[i].None? {
        UnreadCounted(newSize, disk, newSeen, TopFolders(disk, paths), 1);
        UnreadOneMore(size, newSize, Faults(met[..i]));
        newSize := Unread(newSize, 1);
      } else {
        var p := met[i].value;
        EntryCounted(disk, paths, roots, root, newSize, newSeen, p);
        newSize := Accumulated(newSize, disk, p, p != root, newLinks);
        newLinks := newLinks + if disk.items[p].Regular? then {disk.items[p].inode} else {};
        newSeen := newSeen + {p};
      }
    }
    AllMet(met, seen, newSeen);
  }

  lemma WalkStarts(met: seq<Option<Path>>, size: DirectorySize, seen: set<Path>)
    ensures seen == seen + Found(met[..0])
    ensures size.unreadable <= PT.U64_MAX ==> size.unreadable == Unread(size, Faults(met[..0])).unreadable
  {
    NothingMet();
    assert met[..0] == [];
  }

  lemma AllMet(met: seq<Option<Path>>, seen: set<Path>, now: set<Path>)
    requires now == seen + Found(met[..|met|])
    ensures now == seen + Found(met) && Faults(met[..|met|]) == Faults(met)
  {
    assert met[..|met|] == met;
  }

  lemma EntryCounted(
    disk: Disk, paths: seq<Path>, roots: seq<Path>, root: Path, size: DirectorySize, seen: set<Path>, p: Path)
    requires AreRoots(disk, paths, roots) && root in roots && IsFolder(disk, root)
    requires IsSizeOf(size, disk, seen, TopFolders(disk, paths)) && p in Walked(disk, root) && p !in seen
    ensures p in disk.items
    ensures var after := Accumulated(size, disk, p, p != root, Inodes(disk, seen));
            IsSizeOf(after, disk, seen + {p}, TopFolders(disk, paths)) && after.unreadable == size.unreadable
    ensures Inodes(disk, seen + {p}) ==
              Inodes(disk, seen) + if disk.items[p].Regular? then {disk.items[p].inode} else {}
  {
    hide *;
    WalkedMeans(disk, root);
    NotAFolder(disk, p);
    CountsAsItem(disk, paths, roots, root, p);
    RootCountsNot(disk, paths, roots, root);
    OneMoreCounted(size, disk, seen, TopFolders(disk, paths), p, p != root);
    SameUnreadable(size, disk, p, p != root, Inodes(disk, seen));
  }

  lemma MetNext(met: seq<Option<Path>>, i: nat, seen: set<Path>, now: set<Path>, walked: set<Path>)
    requires i < |met| && MetOnce(met) && Found(met) <= walked && walked !! seen
    requires now == seen + Found(met[..i])
    ensures Faults(met[..i + 1]) == Faults(met[..i]) + if met[i].None? then 1 else 0
    ensures met[i].None? ==> now == seen + Found(met[..i + 1])
    ensures met[i].Some? ==>
              && met[i].value !in now && met[i].value in walked
              && now + {met[i].value} == seen + Found(met[..i + 1])
    ensures seen <= now <= seen + walked
  {
    assert met[..i + 1] == met[..i] + [met[i]];
    OneMoreMet(met[..i], met[i]);
  }

  /** A selected path that does not exist counts as one that cannot be read. */
  function Absent(disk: Disk, path: Path): nat {
    if path in disk.items then 0 else 1
  }

  lemma AbsentMeans(disk: Disk, root: Path)
    requires IsDisk(disk)
    ensures Absent(disk, root) == if root in disk.items then 0 else 1
    ensures root !in disk.items ==> Walked(disk, root) == {}
  {
    forall p | p in Walked(disk, root) ensures root in disk.items {
      if p != root {
        FoldersAbove(disk, p, root);
      }
    }
  }

  function Unread(size: DirectorySize, count: nat): DirectorySize {
    size.(unreadable := PT.Saturated(size.unreadable + count, PT.U64_MAX))
  }

  lemma UnreadNothing(size: DirectorySize)
    ensures size.unreadable <= PT.U64_MAX ==> Unread(size, 0) == size
  {
  }

  lemma UnreadOneMore(size: DirectorySize, now: DirectorySize, count: nat)
    requires now.unreadable == Unread(size, count).unreadable
    ensures Unread(now, 1).unreadable == Unread(size, count + 1).unreadable
  {
  }

  lemma UnreadCounted(size: DirectorySize, disk: Disk, seen: set<Path>, topFolders: set<Path>, count: nat)
    requires IsSizeOf(size, disk, seen, topFolders)
    ensures IsSizeOf(Unread(size, count), disk, seen, topFolders)
  {
  }

  lemma SameUnreadable(size: DirectorySize, disk: Disk, p: Path, countItem: bool, inodes: set<nat>)
    requires p in disk.items
    ensures Accumulated(size, disk, p, countItem, inodes).unreadable == size.unreadable
  {
  }

  lemma WalkedMeans(disk: Disk, root: Path)
    ensures forall p :: p in Walked(disk, root) <==> p in disk.items && root <= p && Entered(disk, root, p)
  {
  }

  lemma NotAFolder(disk: Disk, path: Path)
    requires path in disk.items
    ensures IsFolder(disk, path) <==> disk.items[path].Folder?
  {
  }

  /** The whole calculation. At every exit the size is that of the entries met, each
      of them once and each inode once; when it was not cut short and everything
      could be read, these are all that the roots reach. What could not be read is
      counted: every failure, and every root that does not exist. */
  method CalculateSize(disk: Disk, paths: seq<Path>, scanner: Scanner, control: Control)
    returns (size: DirectorySize, cancelled: bool, ghost seen: set<Path>)
    requires IsDisk(disk)
    modifies scanner, control
    ensures seen <= Reached(disk, TopPaths(disk, paths))
    ensures IsSizeOf(size, disk, seen, TopFolders(disk, paths))
    ensures scanner.missed >= old(scanner.missed)
    ensures !cancelled && scanner.missed == old(scanner.missed) ==> seen == Reached(disk, TopPaths(disk, paths))
    ensures !cancelled ==>
              size.unreadable ==
                PT.Saturated(scanner.missed - old(scanner.missed) + |Missing(disk, TopPaths(disk, paths))|, PT.U64_MAX)
    ensures cancelled ==> control.raised
  {
    hide *;
    var roots := MinimalSizeRoots(disk, paths);
    FoundRoots(disk, paths, roots);
    size, cancelled := DirectorySize(0, 0, 0, 0, 0, 0), false;
    var hardLinks: set<nat> := {};
    seen := {};
    NothingSeen(disk, roots, TopFolders(disk, paths));
    for k := 0 to |roots|
      invariant scanner.missed >= old(scanner.missed)
      invariant IsSizeOf(size, disk, seen, TopFolders(disk, paths)) && hardLinks == Inodes(disk, seen)
      invariant SeenSoFar(disk, roots, k, seen, scanner.missed == old(scanner.missed))
      invariant IsUnreadable(size, disk, roots[..k], scanner.missed - old(scanner.missed))
    {
      ghost var seenBefore, before, missed := seen, size, scanner.missed - old(scanner.missed);
      RootIsNew(disk, paths, roots, k, seen, missed == 0);
      UnreadableFits(size, disk, roots[..k], missed);
      size, hardLinks, cancelled, seen :=
        AddRoot(disk, paths, roots, roots[k], scanner, control, size, hardLinks, seen);
      SeenOneMore(disk, roots, k, seenBefore, missed == 0, seen, !cancelled && scanner.missed == old(scanner.missed));
      if cancelled {
        SeenIsReached(disk, paths, roots, k + 1, seen, false);
        return;
      }
      MissingOneMore(before, disk, roots, k, missed, scanner.missed - old(scanner.missed) - missed, size);
    }
    SeenIsReached(disk, paths, roots, |roots|, seen, scanner.missed == old(scanner.missed));
    MissingAtLast(size, disk, paths, roots, scanner.missed - old(scanner.missed));
    cancelled := control.Poll();
  }

  ghost function Missing(disk: Disk, paths: set<Path>): (missing: set<Path>)
    ensures forall p :: p in missing <==> p in paths && p !in disk.items
  {
    set p | p in paths && p !in disk.items
  }

  ghost predicate IsUnreadable(size: DirectorySize, disk: Disk, roots: seq<Path>, missed: nat) {
    size.unreadable == PT.Saturated(missed + |Missing(disk, Elements(roots))|, PT.U64_MAX)
  }

  lemma UnreadableFits(size: DirectorySize, disk: Disk, roots: seq<Path>, missed: nat)
    requires IsUnreadable(size, disk, roots, missed)
    ensures size.unreadable <= PT.U64_MAX
  {
  }

  lemma MissingOneMore(
    before: DirectorySize, disk: Disk, roots: seq<Path>, k: nat, missed: nat, more: nat, size: DirectorySize)
    requires k < |roots| && forall i, j :: 0 <= i < j < |roots| ==> roots[i] != roots[j]
    requires IsUnreadable(before, disk, roots[..k], missed)
    requires size.unreadable == Unread(before, more + Absent(disk, roots[k])).unreadable
    ensures IsUnreadable(size, disk, roots[..k + 1], missed + more)
  {
    var earlier, now := Missing(disk, Elements(roots[..k])), Missing(disk, Elements(roots[..k + 1]));
    assert roots[..k + 1] == roots[..k] + [roots[k]];
    if roots[k] in disk.items {
      assert now == earlier;
    } else {
      assert roots[k] !in earlier;
      assert now == earlier + {roots[k]};
    }
  }

  lemma MissingAtLast(size: DirectorySize, disk: Disk, paths: seq<Path>, roots: seq<Path>, missed: nat)
    requires AreRoots(disk, paths, roots) && IsUnreadable(size, disk, roots[..|roots|], missed)
    ensures size.unreadable == PT.Saturated(missed + |Missing(disk, TopPaths(disk, paths))|, PT.U64_MAX)
  {
    hide Sheltered;
    assert roots[..|roots|] == roots;
    assert Elements(roots) == TopPaths(disk, paths);
  }

  lemma FoundRoots(disk: Disk, paths: seq<Path>, roots: seq<Path>)
    requires forall p :: p in roots <==> p in paths && !Sheltered(disk, paths, p)
    requires forall i, j :: 0 <= i < j < |roots| ==> roots[i] != roots[j]
    ensures AreRoots(disk, paths, roots)
  {
  }

  lemma NothingSeen(disk: Disk, roots: seq<Path>, topFolders: set<Path>)
    ensures IsSizeOf(DirectorySize(0, 0, 0, 0, 0, 0), disk, {}, topFolders)
    ensures Inodes(disk, {}) == {} && SeenSoFar(disk, roots, 0, {}, true)
    ensures IsUnreadable(DirectorySize(0, 0, 0, 0, 0, 0), disk, roots[..0], 0)
  {
    assert Missing(disk, Elements(roots[..0])) == {};
    assert Folders(disk, {}) == {} && Links(disk, {}) == {};
  }

  /** What the first `k` roots reach, all of it unless something was missed. */
  ghost predicate SeenSoFar(disk: Disk, roots: seq<Path>, k: nat, seen: set<Path>, whole: bool)
    requires k <= |roots|
  {
    && seen <= Reached(disk, Elements(roots[..k]))
    && (whole ==> seen == Reached(disk, Elements(roots[..k])))
  }

  lemma SeenOneMore(
    disk: Disk, roots: seq<Path>, k: nat, before: set<Path>, wholeBefore: bool, seen: set<Path>, whole: bool)
    requires k < |roots| && SeenSoFar(disk, roots, k, before, wholeBefore)
    requires before <= seen <= before + Walked(disk, roots[k])
    requires whole ==> wholeBefore && seen == before + Walked(disk, roots[k])
    ensures SeenSoFar(disk, roots, k + 1, seen, whole)
  {
    hide Reached, Walked;
    assert roots[..k + 1] == roots[..k] + [roots[k]];
    assert Elements(roots[..k + 1]) == Elements(roots[..k]) + {roots[k]};
    ReachedOneMore(disk, Elements(roots[..k]), roots[k]);
  }

  lemma RootIsNew(disk: Disk, paths: seq<Path>, roots: seq<Path>, k: nat, seen: set<Path>, whole: bool)
    requires IsDisk(disk) && AreRoots(disk, paths, roots) && k < |roots| && SeenSoFar(disk, roots, k, seen, whole)
    ensures roots[k] in roots && Walked(disk, roots[k]) !! seen
  {
    forall p | p in Walked(disk, roots[k]) ensures p !in seen {
      RootsDoNotOverlap(disk, paths, roots, k, p);
    }
  }

  lemma SeenIsReached(disk: Disk, paths: seq<Path>, roots: seq<Path>, k: nat, seen: set<Path>, whole: bool)
    requires AreRoots(disk, paths, roots) && k <= |roots| && SeenSoFar(disk, roots, k, seen, whole)
    ensures seen <= Reached(disk, TopPaths(disk, paths))
    ensures whole && k == |roots| ==> seen == Reached(disk, TopPaths(disk, paths))
  {
    hide Sheltered, Walked;
    assert roots[..|roots|] == roots;
    assert Elements(roots) == TopPaths(disk, paths);
    forall p | p in seen ensures p in Reached(disk, Elements(roots)) {
      var root :| root in Elements(roots[..k]) && p in Walked(disk, root);
      assert root in Elements(roots);
    }
  }
}
