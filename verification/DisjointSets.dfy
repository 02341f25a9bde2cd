/** Union-find with path compression (`src/fs/duplicates.rs`, `DisjointSet`). */
module DisjointSets {

  /** The parent array leads every index to a fixed point: along a chain the rank
      rises up to `bound`, and `rootOf` names where the chain ends. */
  ghost predicate IsForest(parent: seq<nat>, rootOf: seq<nat>, rank: seq<nat>, bound: nat) {
    && |rootOf| == |rank| == |parent|
    && (forall i :: 0 <= i < |parent| ==> parent[i] < |parent| && rank[i] <= bound)
    && (forall i :: 0 <= i < |parent| && parent[i] != i ==> rank[i] < rank[parent[i]])
    && (forall i :: 0 <= i < |parent| ==>
          && rootOf[i] < |parent| && parent[rootOf[i]] == rootOf[i]
          && rootOf[i] == if parent[i] == i then i else rootOf[parent[i]])
  }

  /** The roots that a forest assigns are determined by the parents alone. */
  lemma {:induction false} RootsAreUnique(
    parent: seq<nat>, rootOf: seq<nat>, rank: seq<nat>, bound: nat,
    rootOf': seq<nat>, rank': seq<nat>, bound': nat, i: nat)
    requires IsForest(parent, rootOf, rank, bound) && IsForest(parent, rootOf', rank', bound') && i < |parent|
    ensures rootOf[i] == rootOf'[i]
    decreases bound - rank[i]
  {
    if parent[i] != i {
      RootsAreUnique(parent, rootOf, rank, bound, rootOf', rank', bound', parent[i]);
    }
  }

  /** Pointing an index straight at its root moves no root. */
  lemma CompressionKeepsRoots(parent: seq<nat>, rootOf: seq<nat>, rank: seq<nat>, bound: nat, i: nat)
    requires IsForest(parent, rootOf, rank, bound) && i < |parent| && parent[i] != i
    ensures IsForest(parent[i := rootOf[i]], rootOf, rank, bound)
  {
    RootRanksHigher(parent, rootOf, rank, bound, parent[i]);
  }

  lemma {:induction false} RootRanksHigher(parent: seq<nat>, rootOf: seq<nat>, rank: seq<nat>, bound: nat, i: nat)
    requires IsForest(parent, rootOf, rank, bound) && i < |parent|
    ensures rank[i] <= rank[rootOf[i]]
    decreases bound - rank[i]
  {
    if parent[i] != i {
      RootRanksHigher(parent, rootOf, rank, bound, parent[i]);
    }
  }

  ghost function Merged(rootOf: seq<nat>, left: nat, right: nat): (merged: seq<nat>)
    ensures |merged| == |rootOf|
    ensures forall i :: 0 <= i < |rootOf| ==> merged[i] == if rootOf[i] == right then left else rootOf[i]
  {
    seq(|rootOf|, i requires 0 <= i < |rootOf| => if rootOf[i] == right then left else rootOf[i])
  }

  lemma JoiningMergesRoots(
    parent: seq<nat>, rootOf: seq<nat>, rank: seq<nat>, bound: nat, left: nat, right: nat)
    requires IsForest(parent, rootOf, rank, bound) && left < |parent| && right < |parent| && left != right
    requires parent[left] == left && parent[right] == right
    ensures IsForest(parent[right := left], Merged(rootOf, left, right), rank[left := bound + 1], bound + 1)
  {
  }

  lemma RootsPointToThemselves(parent: seq<nat>, rootOf: seq<nat>, rank: seq<nat>, bound: nat, i: nat)
    requires IsForest(parent, rootOf, rank, bound) && i < |parent|
    ensures |rootOf| == |rank| == |parent| && rootOf[i] < |parent| && parent[rootOf[i]] == rootOf[i]
  {
  }

  class DisjointSet {
    const parent: array<nat>
    ghost var rootOf: seq<nat>
    ghost var rank: seq<nat>
    ghost var bound: nat

    ghost predicate Valid()
      reads this, parent
    {
      |rootOf| == parent.Length && IsForest(parent[..], rootOf, rank, bound)
    }

    constructor (length: nat)
      ensures Valid() && fresh(parent) && parent.Length == length == |rootOf|
      ensures forall i, j :: 0 <= i < length && 0 <= j < length ==> (rootOf[i] == rootOf[j] <==> i == j)
    {
      parent := new nat[length](i => i);
      rootOf := seq(length, i => i);
      rank := seq(length, _ => 0);
      bound := 0;
    }

    lemma ValidMeansForest()
      ensures Valid() <==> |rootOf| == parent.Length && IsForest(parent[..], rootOf, rank, bound)
    {
    }

    /** Terminates on every forest, and leaves every root where it is. */
    method Root(index: nat) returns (root: nat)
      requires Valid() && index < parent.Length
      modifies parent
      ensures Valid() && root == rootOf[index]
      decreases bound - rank[index]
    {
      var next := parent[index];
      if next == index {
        return index;
      }
      assert rootOf[index] != index;
      root := Root(next);
      ghost var was := parent[..];
      CompressionKeepsRoots(was, rootOf, rank, bound, index);
      parent[index] := root;
      assert parent[..] == was[index := root];
    }

    method Join(a: nat, b: nat)
      requires Valid() && a < parent.Length && b < parent.Length
      modifies this, parent
      ensures Valid() && |rootOf| == |old(rootOf)| == parent.Length
      ensures forall i, j :: 0 <= i < |rootOf| && 0 <= j < |rootOf| ==>
                (rootOf[i] == rootOf[j] <==>
                  || old(rootOf)[i] == old(rootOf)[j]
                  || (old(rootOf)[i] == old(rootOf)[a] && old(rootOf)[b] == old(rootOf)[j])
                  || (old(rootOf)[i] == old(rootOf)[b] && old(rootOf)[a] == old(rootOf)[j]))
    {
      hide IsForest, Valid;
      ValidMeansForest();
      RootsPointToThemselves(parent[..], rootOf, rank, bound, a);
      var left := Root(a);
      var right := Root(b);
      ValidMeansForest();
      if left != right {
        ghost var was := parent[..];
        RootsPointToThemselves(was, rootOf, rank, bound, a);
        RootsPointToThemselves(was, rootOf, rank, bound, b);
        JoiningMergesRoots(was, rootOf, rank, bound, left, right);
        parent[right] := left;
        assert parent[..] == was[right := left];
        rootOf, rank, bound := Merged(rootOf, left, right), rank[left := bound + 1], bound + 1;
        ValidMeansForest();
      }
    }
  }
}
