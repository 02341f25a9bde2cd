/** Choosing a destination no other transfer holds (`src/fs/transfer_queue.rs`,
    `reserve_destination` to `unique_destination`). A path is its own key. */
module Reservations {
  import opened Prelude
  import opened FileTrees
  import opened TempNames

  datatype ConflictPolicy = Replace | Skip | KeepBoth

  const LAST_COUNTER: nat := 9999

  /** The last dot that is not the first character. */
  function ExtensionDot(name: Name): (dot: Option<nat>)
    ensures dot.Some? ==> 0 < dot.value < |name| && name[dot.value] == '.'
  {
    if |name| < 2 then None
    else if name[|name| - 1] == '.' then Some(|name| - 1)
    else ExtensionDot(name[..|name| - 1])
  }

  /** The name with counter `index` before its extension; 1 is the plain name. */
  function CandidateName(name: Name, isDirectory: bool, index: nat): Name {
    var dot := ExtensionDot(name);
    if index == 1 then name
    else
      (if dot.Some? then name[..dot.value] else name) + " (" + Decimal(index) + ")"
      + (if isDirectory || dot.None? then "" else name[dot.value..])
  }

  function Candidate(base: Path, isDirectory: bool, index: nat): (path: Path)
    requires base != []
    ensures path != [] && Parent(path) == Parent(base)
    ensures index == 1 ==> path == base
  {
    var path := Parent(base) + [CandidateName(base[|base| - 1], isDirectory, index)];
    assert Parent(path) == Parent(base);
    assert base == Parent(base) + [base[|base| - 1]];
    path
  }

  lemma {:induction false} DotIsLast(stem: Name, extension: Name)
    requires stem != [] && '.' !in extension
    ensures ExtensionDot(stem + "." + extension) == Some(|stem|)
  {
    var name := stem + "." + extension;
    if extension == [] {
      assert name[|name| - 1] == '.';
    } else {
      var front, last := extension[..|extension| - 1], extension[|extension| - 1];
      assert last in extension && name[|name| - 1] == last;
      DotIsLast(stem, front);
      assert name[..|name| - 1] == stem + "." + front;
    }
  }

  lemma {:induction false} NoDot(name: Name)
    requires name != [] && '.' !in name[1..]
    ensures ExtensionDot(name) == None
  {
    if |name| >= 2 {
      var front := name[..|name| - 1];
      assert name[|name| - 1] == name[1..][|name| - 2];
      assert name[1..] == front[1..] + [name[|name| - 1]];
      NoDot(front);
    }
  }

  /** What the names look like: `photo.jpg`, `photo (2).jpg`, `photo (3).jpg`, and
      `music`, `music (2)`; a folder loses what follows its last dot. */
  lemma NamesOfCopies(stem: Name, extension: Name, index: nat)
    requires stem != [] && '.' !in extension && index > 1
    ensures CandidateName(stem + "." + extension, false, index) == stem + " (" + Decimal(index) + ")." + extension
    ensures CandidateName(stem + "." + extension, true, index) == stem + " (" + Decimal(index) + ")"
    ensures CandidateName(stem + "." + extension, false, 1) == stem + "." + extension
  {
    DotIsLast(stem, extension);
    var name := stem + "." + extension;
    assert name[..|stem|] == stem && name[|stem|..] == "." + extension;
    assert ")" + ("." + extension) == ")." + extension;
  }

  lemma NamesWithoutExtension(name: Name, isDirectory: bool, index: nat)
    requires name != [] && '.' !in name[1..] && index > 1
    ensures CandidateName(name, isDirectory, index) == name + " (" + Decimal(index) + ")"
  {
    NoDot(name);
  }

  /** Different numbers make different names. */
  lemma CandidatesDiffer(base: Path, isDirectory: bool, i: nat, j: nat)
    requires base != [] && 1 <= i < j
    ensures Candidate(base, isDirectory, i) != Candidate(base, isDirectory, j)
  {
    var name := base[|base| - 1];
    var a, b := CandidateName(name, isDirectory, i), CandidateName(name, isDirectory, j);
    if a == b {
      if i == 1 {
        PlainNameIsShorter(name, isDirectory, j);
      } else {
        NumberInName(name, isDirectory, i);
        NumberInName(name, isDirectory, j);
        DecimalIsInjective(i, j);
      }
    }
    assert Candidate(base, isDirectory, i) == Parent(base) + [a];
    assert Candidate(base, isDirectory, j) == Parent(base) + [b];
  }

  lemma NumberInName(name: Name, isDirectory: bool, index: nat)
    requires index > 1
    ensures var dot := ExtensionDot(name);
            var stem := if dot.Some? then name[..dot.value] else name;
            var rest := if isDirectory || dot.None? then "" else name[dot.value..];
            var text := CandidateName(name, isDirectory, index);
            && |text| == |stem| + |Decimal(index)| + |rest| + 3
            && text[|stem| + 2..|text| - |rest| - 1] == Decimal(index)
  {
    hide Decimal;
    var dot := ExtensionDot(name);
    var stem := if dot.Some? then name[..dot.value] else name;
    var rest := if isDirectory || dot.None? then "" else name[dot.value..];
    NumberBetween(stem + " (", Decimal(index), ")" + rest);
    assert CandidateName(name, isDirectory, index) == stem + " (" + Decimal(index) + (")" + rest);
  }

  lemma NumberBetween(before: string, number: string, after: string)
    ensures var text := before + number + after; text[|before|..|text| - |after|] == number
  {
  }

  lemma PlainNameIsShorter(name: Name, isDirectory: bool, index: nat)
    requires index > 1
    ensures CandidateName(name, isDirectory, index) != name
  {
    var dot := ExtensionDot(name);
    if dot.Some? && isDirectory {
      assert CandidateName(name, isDirectory, index)[dot.value] == ' ';
    }
  }

  /** A link that leads to nothing does not make a name taken. */
  predicate Free(tree: Tree, reserved: set<Path>, path: Path) {
    !Exists(tree, path) && path !in reserved
  }

  ghost predicate FirstFree(base: Path, isDirectory: bool, tree: Tree, reserved: set<Path>, index: nat)
    requires base != []
  {
    && 1 <= index <= LAST_COUNTER && Free(tree, reserved, Candidate(base, isDirectory, index))
    && forall j :: 1 <= j < index ==> !Free(tree, reserved, Candidate(base, isDirectory, j))
  }

  /** The entries of a folder, and its names that others have reserved. */
  ghost function Taken(tree: Tree, reserved: set<Path>, directory: Path): (taken: set<Path>)
    ensures forall p :: p in taken <==> p in tree.Keys + reserved && IsChild(p, directory)
  {
    set p | p in tree.Keys + reserved && IsChild(p, directory)
  }

  ghost function FirstCandidates(base: Path, isDirectory: bool, n: nat): (candidates: set<Path>)
    requires base != []
    ensures forall p :: p in candidates <==> exists i :: 1 <= i <= n && Candidate(base, isDirectory, i) == p
  {
    set i | 1 <= i <= n :: Candidate(base, isDirectory, i)
  }

  lemma OneMoreCandidate(base: Path, isDirectory: bool, n: nat)
    requires base != [] && n > 0
    ensures var last := Candidate(base, isDirectory, n);
            && FirstCandidates(base, isDirectory, n) == FirstCandidates(base, isDirectory, n - 1) + {last}
            && last !in FirstCandidates(base, isDirectory, n - 1)
  {
    hide Candidate;
    var last := Candidate(base, isDirectory, n);
    var few, more := FirstCandidates(base, isDirectory, n - 1), FirstCandidates(base, isDirectory, n);
    if last in few {
      var i :| 1 <= i <= n - 1 && Candidate(base, isDirectory, i) == last;
      CandidatesDiffer(base, isDirectory, i, n);
    }
    forall p ensures p in more <==> p in few + {last} {
      if p in more {
        var i :| 1 <= i <= n && Candidate(base, isDirectory, i) == p;
        assert i < n ==> p in few;
      }
      if p in few {
        var i :| 1 <= i <= n - 1 && Candidate(base, isDirectory, i) == p;
      }
    }
  }

  lemma {:induction false} CandidatesAreMany(base: Path, isDirectory: bool, n: nat)
    requires base != []
    ensures |FirstCandidates(base, isDirectory, n)| == n
  {
    hide Candidate, FirstCandidates;
    if n == 0 {
      assert FirstCandidates(base, isDirectory, 0) == {};
    } else {
      CandidatesAreMany(base, isDirectory, n - 1);
      OneMoreCandidate(base, isDirectory, n);
    }
  }

  /** As long as the folder has fewer than 9999 names taken, one is free. */
  lemma SomeNameIsFree(base: Path, isDirectory: bool, tree: Tree, reserved: set<Path>)
    requires base != [] && |Taken(tree, reserved, Parent(base))| < LAST_COUNTER
    ensures exists i :: 1 <= i <= LAST_COUNTER && Free(tree, reserved, Candidate(base, isDirectory, i))
  {
    hide Candidate;
    if forall i :: 1 <= i <= LAST_COUNTER ==> !Free(tree, reserved, Candidate(base, isDirectory, i)) {
      var candidates := FirstCandidates(base, isDirectory, LAST_COUNTER);
      forall p | p in candidates ensures p in Taken(tree, reserved, Parent(base)) {
        var i :| 1 <= i <= LAST_COUNTER && Candidate(base, isDirectory, i) == p;
        OnlyLinksAreBroken(tree, p);
      }
      CandidatesAreMany(base, isDirectory, LAST_COUNTER);
      SubsetSize(candidates, Taken(tree, reserved, Parent(base)));
    }
  }

  /** What a search for a free name comes to. */
  ghost predicate IsFirstFree(base: Path, isDirectory: bool, tree: Tree, reserved: set<Path>, target: Path)
    requires base != []
  {
    if exists i :: FirstFree(base, isDirectory, tree, reserved, i)
    then exists i :: FirstFree(base, isDirectory, tree, reserved, i) && target == Candidate(base, isDirectory, i)
    else target == base
  }

  /** The first free candidate; only when all of them are taken is the occupied
      base returned. */
  method UniqueDestination(base: Path, isDirectory: bool, tree: Tree, reserved: set<Path>) returns (target: Path)
    requires base != []
    ensures target != [] && Parent(target) == Parent(base)
    ensures Free(tree, reserved, target) <==>
              exists i :: 1 <= i <= LAST_COUNTER && Free(tree, reserved, Candidate(base, isDirectory, i))
    ensures Free(tree, reserved, target) ==>
              exists i :: FirstFree(base, isDirectory, tree, reserved, i) && target == Candidate(base, isDirectory, i)
    ensures !Free(tree, reserved, target) ==> target == base
    ensures IsFirstFree(base, isDirectory, tree, reserved, target)
    ensures |Taken(tree, reserved, Parent(base))| < LAST_COUNTER ==> Free(tree, reserved, target)
  {
    if |Taken(tree, reserved, Parent(base))| < LAST_COUNTER {
      SomeNameIsFree(base, isDirectory, tree, reserved);
    }
    assert Candidate(base, isDirectory, 1) == base;
    if Free(tree, reserved, base) {
      assert FirstFree(base, isDirectory, tree, reserved, 1);
      return base;
    }
    for index := 2 to LAST_COUNTER + 1
      invariant forall j :: 1 <= j < index ==> !Free(tree, reserved, Candidate(base, isDirectory, j))
    {
      var candidate := Candidate(base, isDirectory, index);
      if Free(tree, reserved, candidate) {
        assert FirstFree(base, isDirectory, tree, reserved, index);
        return candidate;
      }
    }
    target := base;
  }

  /** The name that each policy asks for. */
  ghost predicate HandedOut(
    base: Path, isDirectory: bool, policy: ConflictPolicy, tree: Tree, reserved: set<Path>, target: Path)
    requires base != []
  {
    if policy.KeepBoth? || (policy.Replace? && base in reserved)
    then IsFirstFree(base, isDirectory, tree, reserved, target)
    else target == base
  }

  /** A name is only handed out taken when every name is. */
  lemma TakenMeansAllTaken(
    base: Path, isDirectory: bool, policy: ConflictPolicy, tree: Tree, reserved: set<Path>, target: Path)
    requires base != [] && HandedOut(base, isDirectory, policy, tree, reserved, target)
    requires policy.Skip? ==> Free(tree, reserved, base)
    requires !Free(tree, reserved, target) && !(policy.Replace? && target !in reserved)
    ensures target == base
    ensures forall i :: 1 <= i <= LAST_COUNTER ==> !Free(tree, reserved, Candidate(base, isDirectory, i))
  {
    hide Free, Candidate;
    forall i | 1 <= i <= LAST_COUNTER ensures !Free(tree, reserved, Candidate(base, isDirectory, i)) {
      if Free(tree, reserved, Candidate(base, isDirectory, i)) {
        var first := LeastFree(base, isDirectory, tree, reserved, i);
      }
    }
  }

  lemma {:induction false} LeastFree(base: Path, isDirectory: bool, tree: Tree, reserved: set<Path>, i: nat)
    returns (first: nat)
    requires base != [] && 1 <= i <= LAST_COUNTER && Free(tree, reserved, Candidate(base, isDirectory, i))
    ensures FirstFree(base, isDirectory, tree, reserved, first)
  {
    hide Free, Candidate;
    if j: nat :| 1 <= j < i && Free(tree, reserved, Candidate(base, isDirectory, j)) {
      first := LeastFree(base, isDirectory, tree, reserved, j);
    } else {
      first := i;
    }
  }

  class ReservedTargets {
    var reserved: set<Path>

    /** Replacing asks for the plain name and searches only when another transfer
        holds it; skipping gives up when it is taken; keeping both always searches.
        What is handed out was not held by anyone, unless every name is taken. */
    method ReserveDestination(base: Path, isDirectory: bool, policy: ConflictPolicy, tree: Tree)
      returns (target: Option<Path>)
      requires base != []
      modifies this
      ensures target.None? <==> policy.Skip? && !Free(tree, old(reserved), base)
      ensures target.None? ==> reserved == old(reserved)
      ensures target.Some? ==> HandedOut(base, isDirectory, policy, tree, old(reserved), target.value)
      ensures target.Some? ==>
                && reserved == old(reserved) + {target.value}
                && target.value != [] && Parent(target.value) == Parent(base)
                && (target.value !in old(reserved) || target.value == base)
                && (policy.Replace? && base !in old(reserved) ==> target.value == base)
                && (policy.Skip? ==> target.value == base)
                && (policy.KeepBoth? || base in old(reserved) ==>
                      (Free(tree, old(reserved), target.value) || target.value == base) &&
                      (Free(tree, old(reserved), target.value) <==>
                       exists i :: 1 <= i <= LAST_COUNTER
                         && Free(tree, old(reserved), Candidate(base, isDirectory, i))))
    {
      match policy {
        case Replace =>
          if base in reserved {
            var unique := UniqueDestination(base, isDirectory, tree, reserved);
            target := Some(unique);
          } else {
            target := Some(base);
          }
        case Skip =>
          target := if Exists(tree, base) || base in reserved then None else Some(base);
        case KeepBoth =>
          var unique := UniqueDestination(base, isDirectory, tree, reserved);
          target := Some(unique);
      }
      if target.Some? {
        reserved := reserved + {target.value};
      }
    }

    method Release(paths: seq<Path>)
      modifies this
      ensures reserved == old(reserved) - Elements(paths)
    {
      for i := 0 to |paths|
        invariant reserved == old(reserved) - Elements(paths[..i])
      {
        reserved := reserved - {paths[i]};
        assert paths[..i + 1] == paths[..i] + [paths[i]];
      }
      assert paths[..|paths|] == paths;
    }
  }
}
