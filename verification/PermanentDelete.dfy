/** Permanent deletion (`src/fs/operations.rs`): an explicit stack of visits and
    directory removals instead of recursion, with progress and cancellation. */
module PermanentDelete {
  import opened FileTrees
  import opened FileSystems

  datatype Pending = Visit(path: Path) | RemoveEmptied(path: Path)

  /** `Failed` carries the result of the call that ended the operation. */
  datatype Outcome = Completed | Cancelled | Failed(reason: IoResult)

  class Progress {
    var completedItems: nat
    var totalItems: nat
  }

  // ----- What counting and deleting have to agree on -----

  function TotalSize(tree: Tree, roots: seq<Path>): (total: nat) {
    if roots == [] then 0 else TotalSize(tree, roots[..|roots| - 1]) + |Subtree(tree, roots[|roots| - 1])|
  }

  ghost function Reached(tree: Tree, roots: seq<Path>): (paths: set<Path>) {
    set p, i | 0 <= i < |roots| && p in Subtree(tree, roots[i]) :: p
  }

  /** No listed root that exists lies at or below another listed root. */
  ghost predicate NotNested(tree: Tree, roots: seq<Path>) {
    forall i, j :: 0 <= i < |roots| && 0 <= j < |roots| && i != j && roots[j] in tree ==> !(roots[i] <= roots[j])
  }

  lemma {:induction false} TotalOfConcat(tree: Tree, left: seq<Path>, right: seq<Path>)
    ensures TotalSize(tree, left + right) == TotalSize(tree, left) + TotalSize(tree, right)
  {
    if right == [] {
      assert left + right == left;
    } else {
      assert (left + right)[..|left + right| - 1] == left + right[..|right| - 1];
      TotalOfConcat(tree, left, right[..|right| - 1]);
    }
  }

  lemma ReachedOneMore(tree: Tree, roots: seq<Path>)
    requires roots != []
    ensures Reached(tree, roots) == Reached(tree, roots[..|roots| - 1]) + Subtree(tree, roots[|roots| - 1])
  {
    var front, last := roots[..|roots| - 1], roots[|roots| - 1];
    forall p | p in Reached(tree, roots)
      ensures p in Reached(tree, front) + Subtree(tree, last)
    {
      var i :| 0 <= i < |roots| && p in Subtree(tree, roots[i]);
      if i < |front| { assert p in Subtree(tree, front[i]); }
    }
    forall p | p in Reached(tree, front) ensures p in Reached(tree, roots) {
      var i :| 0 <= i < |front| && p in Subtree(tree, front[i]);
      assert p in Subtree(tree, roots[i]);
    }
    assert forall p :: p in Subtree(tree, last) ==> p in Subtree(tree, roots[|roots| - 1]);
  }

  lemma UnionSize(a: set<Path>, b: set<Path>)
    ensures |a + b| + |a * b| == |a| + |b|
  {
  }

  /** Counting visits every listed root, deleting every node once: the two totals
      agree exactly when no existing root lies inside another one. */
  lemma {:induction false} CountMatchesIffNotNested(tree: Tree, roots: seq<Path>)
    requires ParentClosed(tree)
    ensures |Reached(tree, roots)| <= TotalSize(tree, roots)
    ensures |Reached(tree, roots)| == TotalSize(tree, roots) <==> NotNested(tree, roots)
  {
    if roots != [] {
      var front, last := roots[..|roots| - 1], roots[|roots| - 1];
      CountMatchesIffNotNested(tree, front);
      ReachedOneMore(tree, roots);
      UnionSize(Reached(tree, front), Subtree(tree, last));
      OverlapMeansNested(tree, roots);
      NotNestedOneMore(tree, roots);
      assert Reached(tree, front) * Subtree(tree, last) == {} <==> |Reached(tree, front) * Subtree(tree, last)| == 0;
    } else {
      assert Reached(tree, roots) == {};
    }
  }

  ghost predicate Apart(tree: Tree, left: Path, right: Path) {
    && (right in tree ==> !(left <= right))
    && (left in tree ==> !(right <= left))
  }

  ghost predicate LastIsApart(tree: Tree, roots: seq<Path>)
    requires roots != []
  {
    var last := roots[|roots| - 1];
    forall i :: 0 <= i < |roots| - 1 ==> Apart(tree, roots[i], last)
  }

  lemma NotNestedOneMore(tree: Tree, roots: seq<Path>)
    requires roots != []
    ensures NotNested(tree, roots) <==> NotNested(tree, roots[..|roots| - 1]) && LastIsApart(tree, roots)
  {
    var front := roots[..|roots| - 1];
    assert forall i :: 0 <= i < |front| ==> front[i] == roots[i];
  }

  lemma SharedMeansNested(tree: Tree, a: Path, b: Path, p: Path)
    requires ParentClosed(tree) && p in Subtree(tree, a) && p in Subtree(tree, b)
    ensures !Apart(tree, a, b)
  {
    AncestorsExist(tree, p, a);
    AncestorsExist(tree, p, b);
    PrefixesAreComparable(a, b, p);
  }

  lemma OverlapMeansNested(tree: Tree, roots: seq<Path>)
    requires ParentClosed(tree) && roots != []
    ensures Reached(tree, roots[..|roots| - 1]) * Subtree(tree, roots[|roots| - 1]) == {}
            <==> LastIsApart(tree, roots)
  {
    hide ParentClosed;
    var front, last := roots[..|roots| - 1], roots[|roots| - 1];
    var overlap := Reached(tree, front) * Subtree(tree, last);
    if overlap != {} {
      var p :| p in overlap;
      var i :| 0 <= i < |front| && p in Subtree(tree, front[i]);
      assert front[i] == roots[i];
      SharedMeansNested(tree, roots[i], last, p);
    }
    if !LastIsApart(tree, roots) {
      var i :| 0 <= i < |roots| - 1 && !Apart(tree, roots[i], last);
      assert front[i] == roots[i];
      var shared := if last in tree && roots[i] <= last then last else roots[i];
      assert shared in Subtree(tree, front[i]);
      assert shared in overlap;
    }
  }

  /** A directory is one node more than its listed children together. */
  lemma SubtreeIsNodePlusChildren(tree: Tree, path: Path, listing: seq<Path>)
    requires ParentClosed(tree) && path in tree && IsListing(tree, path, listing)
    ensures |Subtree(tree, path)| == 1 + TotalSize(tree, listing)
  {
    hide Reached, IsListing, ParentClosed, NotNested;
    SiblingsAreNotNested(tree, path, listing);
    CountMatchesIffNotNested(tree, listing);
    forall p ensures p in Reached(tree, listing) <==> p in Subtree(tree, path) && p != path {
      ReachedThroughChildren(tree, path, listing, p);
    }
    assert Subtree(tree, path) == {path} + Reached(tree, listing);
  }

  lemma SiblingsAreNotNested(tree: Tree, path: Path, listing: seq<Path>)
    requires IsListing(tree, path, listing)
    ensures NotNested(tree, listing)
  {
    forall i, j | 0 <= i < |listing| && 0 <= j < |listing| && i != j
      ensures !(listing[i] <= listing[j])
    {
      assert listing[i] in listing && listing[j] in listing;
    }
  }

  lemma ReachedThroughChildren(tree: Tree, path: Path, listing: seq<Path>, p: Path)
    requires ParentClosed(tree) && path in tree && IsListing(tree, path, listing)
    ensures p in Reached(tree, listing) <==> p in Subtree(tree, path) && p != path
  {
    if p in Subtree(tree, path) && p != path {
      DescendantsGoThroughChildren(tree, path, p);
      var i :| 0 <= i < |listing| && listing[i] == Towards(path, p);
      assert p in Subtree(tree, listing[i]);
    }
    if p in Reached(tree, listing) {
      var i :| 0 <= i < |listing| && p in Subtree(tree, listing[i]);
      assert listing[i] in listing;
    }
  }

  /** The stack counter; a path that does not exist counts as nothing. */
  method CountDeleteEntries(fs: FileSystem, roots: seq<Path>, control: Control)
    returns (total: nat, outcome: Outcome)
    requires ParentClosed(fs.tree)
    modifies control, fs`faults
    ensures outcome.Completed? ==> total == TotalSize(fs.tree, roots)
    ensures roots == [] ==> outcome.Completed?
    ensures outcome.Cancelled? ==> control.raised
    ensures outcome.Failed? ==> outcome.reason.Fault? && fs.faults > old(fs.faults)
    ensures fs.faults >= old(fs.faults)
  {
    var pending := roots;
    total := 0;
    while pending != []
      invariant total + TotalSize(fs.tree, pending) == TotalSize(fs.tree, roots)
      invariant roots == [] ==> pending == []
      invariant fs.faults >= old(fs.faults)
      decreases TotalSize(fs.tree, pending), |pending|
    {
      var path := pending[|pending| - 1];
      pending := pending[..|pending| - 1];
      var cancelled := control.Poll();
      if cancelled {
        return total, Cancelled;
      }
      var looked := fs.Look();
      if !looked.Done? {
        return total, Failed(looked);
      }
      if path !in fs.tree {
        assert Subtree(fs.tree, path) == {} by {
          forall p | p in Subtree(fs.tree, path) ensures false { AncestorsExist(fs.tree, p, path); }
        }
        continue;
      }
      assert path in Subtree(fs.tree, path);
      total := total + 1;
      if fs.tree[path].Directory? {
        var listing, read := fs.ReadDirectory(path);
        if !read.Done? {
          return total, Failed(Fault);
        }
        SubtreeIsNodePlusChildren(fs.tree, path, listing);
        TotalOfConcat(fs.tree, pending, listing);
        pending := pending + listing;
      } else {
        assert Subtree(fs.tree, path) == {path} by {
          forall p | p in Subtree(fs.tree, path) && p != path ensures false {
            DescendantsGoThroughChildren(fs.tree, path, p);
          }
        }
      }
    }
    outcome := Completed;
  }

  // ----- Deleting with an explicit stack -----

  ghost predicate Covers(item: Pending, path: Path) {
    if item.Visit? then item.path <= path else item.path == path
  }

  ghost predicate CoveredFrom(pending: seq<Pending>, from: nat, path: Path) {
    exists j :: from <= j < |pending| && Covers(pending[j], path)
  }

  /** What is still on the stack is exactly what is still to be removed, and the
      descendants of a directory waiting to be removed are all above it. */
  ghost predicate StackMatches(tree: Tree, root: Path, pending: seq<Pending>) {
    && (forall k :: 0 <= k < |pending| ==> root <= pending[k].path)
    && (forall q :: q in tree && root <= q ==> CoveredFrom(pending, 0, q))
    && RemovalsWait(tree, pending)
    && (forall k :: 0 <= k < |pending| && pending[k].RemoveEmptied?
          ==> pending[k].path in tree && tree[pending[k].path].Directory?)
    && AllIndependent(pending)
  }

  ghost predicate RemovalsWait(tree: Tree, pending: seq<Pending>) {
    forall k, q :: 0 <= k < |pending| && pending[k].RemoveEmptied? && q in tree && pending[k].path < q
      ==> CoveredFrom(pending, k + 1, q)
  }

  ghost predicate AllIndependent(pending: seq<Pending>) {
    forall k, j :: 0 <= k < |pending| && 0 <= j < |pending| && k != j ==> Independent(pending[k], pending[j])
  }

  ghost predicate Independent(item: Pending, other: Pending) {
    item.path != other.path && (item.Visit? ==> !(item.path <= other.path))
  }

  lemma TopHasNoDescendants(tree: Tree, root: Path, pending: seq<Pending>)
    requires StackMatches(tree, root, pending) && pending != []
    requires pending[|pending| - 1].RemoveEmptied?
    ensures Children(tree, pending[|pending| - 1].path) == {}
  {
    var path := pending[|pending| - 1].path;
    assert forall q :: q in tree ==> !(path < q) by {
      assert forall q :: !CoveredFrom(pending, |pending|, q);
    }
  }

  /** Popping an item whose path is gone, or has just been removed, keeps the match. */
  lemma PopRemoved(tree: Tree, after: Tree, root: Path, pending: seq<Pending>)
    requires StackMatches(tree, root, pending) && pending != []
    requires after == tree - {pending[|pending| - 1].path}
    requires forall q :: q in after ==> !(pending[|pending| - 1].path < q)
    ensures StackMatches(after, root, pending[..|pending| - 1])
  {
    hide CoveredFrom, RemovalsWait, AllIndependent;
    PopIndependent(pending);
    RemovalsStillWait(tree, after, pending);
    forall q | q in after && root <= q ensures CoveredFrom(pending[..|pending| - 1], 0, q) {
      NotCoveredByLast(pending, 0, q);
    }
  }

  lemma PopIndependent(pending: seq<Pending>)
    requires AllIndependent(pending) && pending != []
    ensures AllIndependent(pending[..|pending| - 1])
    ensures forall k :: 0 <= k < |pending| - 1 && pending[k].RemoveEmptied? ==>
              pending[k].path != pending[|pending| - 1].path
  {
    forall k | 0 <= k < |pending| - 1 && pending[k].RemoveEmptied?
      ensures pending[k].path != pending[|pending| - 1].path
    {
      assert Independent(pending[k], pending[|pending| - 1]);
    }
    hide Independent;
  }

  lemma RemovalsStillWait(tree: Tree, after: Tree, pending: seq<Pending>)
    requires RemovalsWait(tree, pending) && pending != []
    requires after == tree - {pending[|pending| - 1].path}
    requires forall q :: q in after ==> !(pending[|pending| - 1].path < q)
    ensures RemovalsWait(after, pending[..|pending| - 1])
  {
    hide CoveredFrom;
    var front := pending[..|pending| - 1];
    forall k, q | 0 <= k < |front| && front[k].RemoveEmptied? && q in after && front[k].path < q
      ensures CoveredFrom(front, k + 1, q)
    {
      NotCoveredByLast(pending, k + 1, q);
    }
  }

  lemma NotCoveredByLast(pending: seq<Pending>, k: nat, q: Path)
    requires k < |pending| && CoveredFrom(pending, k, q)
    requires q != pending[|pending| - 1].path && !(pending[|pending| - 1].path < q)
    ensures CoveredFrom(pending[..|pending| - 1], k, q)
  {
    var j :| k <= j < |pending| && Covers(pending[j], q);
    assert !(pending[|pending| - 1].path <= q);
    assert Covers(pending[..|pending| - 1][j], q);
  }

  function Visits(listing: seq<Path>): (items: seq<Pending>)
    ensures |items| == |listing| && forall i :: 0 <= i < |items| ==> items[i] == Visit(listing[i])
  {
    seq(|listing|, i requires 0 <= i < |listing| => Visit(listing[i]))
  }

  ghost function Expand(pending: seq<Pending>, listing: seq<Path>): (next: seq<Pending>)
    requires pending != []
    ensures |next| == |pending| + |listing|
    ensures forall k :: 0 <= k < |pending| - 1 ==> next[k] == pending[k]
    ensures next[|pending| - 1] == RemoveEmptied(pending[|pending| - 1].path)
    ensures forall k :: |pending| <= k < |next| ==> next[k] == Visit(listing[k - |pending|])
  {
    pending[..|pending| - 1] + [RemoveEmptied(pending[|pending| - 1].path)] + Visits(listing)
  }

  lemma ExpandedItemsAreIndependent(tree: Tree, root: Path, pending: seq<Pending>, listing: seq<Path>, k: nat, j: nat)
    requires StackMatches(tree, root, pending) && pending != [] && pending[|pending| - 1].Visit?
    requires IsListing(tree, pending[|pending| - 1].path, listing)
    requires k < |pending| + |listing| && j < |pending| + |listing| && k != j
    ensures Independent(Expand(pending, listing)[k], Expand(pending, listing)[j])
  {
    hide CoveredFrom, RemovalsWait;
    var next, n, path := Expand(pending, listing), |pending|, pending[|pending| - 1].path;
    assert forall c :: c in listing ==> path < c && |c| == |path| + 1;
    if k < n - 1 {
      assert Independent(pending[k], pending[n - 1]) && Independent(pending[n - 1], pending[k]);
      if j < n - 1 {
        assert Independent(pending[k], pending[j]);
      } else if j >= n && pending[k].path <= next[j].path {
        assert next[j].path in listing;
        if |pending[k].path| <= |path| { assert pending[k].path == path[..|pending[k].path|]; }
      }
    } else if j < n - 1 {
      assert Independent(pending[n - 1], pending[j]) && Independent(pending[j], pending[n - 1]);
      if k >= n { assert next[k].path in listing; }
    } else {
      if k >= n { assert next[k].path in listing; }
      if j >= n { assert next[j].path in listing; }
    }
  }

  lemma ExpandKeepsCover(
    tree: Tree, root: Path, pending: seq<Pending>, listing: seq<Path>, from: nat, q: Path)
    requires ParentClosed(tree) && pending != [] && pending[|pending| - 1].Visit?
    requires IsListing(tree, pending[|pending| - 1].path, listing)
    requires q in tree && from <= |pending| && CoveredFrom(pending, from, q)
    ensures CoveredFrom(Expand(pending, listing), from, q)
    ensures pending[|pending| - 1].path < q ==> CoveredFrom(Expand(pending, listing), |pending|, q)
  {
    hide ParentClosed;
    var next, n, path := Expand(pending, listing), |pending|, pending[|pending| - 1].path;
    if path < q {
      DescendantsGoThroughChildren(tree, path, q);
      var i :| 0 <= i < |listing| && listing[i] == Towards(path, q);
      assert Covers(next[n + i], q);
    } else {
      var j :| from <= j < n && Covers(pending[j], q);
      assert Covers(next[j], q);
    }
  }

  lemma ExpandMatches(tree: Tree, root: Path, pending: seq<Pending>, listing: seq<Path>)
    requires ParentClosed(tree) && StackMatches(tree, root, pending)
    requires pending != [] && pending[|pending| - 1].Visit?
    requires pending[|pending| - 1].path in tree && tree[pending[|pending| - 1].path].Directory?
    requires IsListing(tree, pending[|pending| - 1].path, listing)
    ensures StackMatches(tree, root, Expand(pending, listing))
  {
    hide CoveredFrom, Independent, RemovalsWait, ParentClosed;
    var next, n := Expand(pending, listing), |pending|;
    forall k | 0 <= k < |next| ensures root <= next[k].path {
      if k >= n {
        ListedIsBelow(tree, pending[n - 1].path, listing, k - n);
      }
    }
    forall q | q in tree && root <= q ensures CoveredFrom(next, 0, q) {
      ExpandKeepsCover(tree, root, pending, listing, 0, q);
    }
    ExpandedRemovalsWait(tree, root, pending, listing);
    forall k, j | 0 <= k < |next| && 0 <= j < |next| && k != j ensures Independent(next[k], next[j]) {
      ExpandedItemsAreIndependent(tree, root, pending, listing, k, j);
    }
  }

  lemma ListedIsBelow(tree: Tree, path: Path, listing: seq<Path>, i: nat)
    requires IsListing(tree, path, listing) && i < |listing|
    ensures path < listing[i]
  {
    assert listing[i] in listing;
  }

  lemma ExpandedRemovalsWait(tree: Tree, root: Path, pending: seq<Pending>, listing: seq<Path>)
    requires ParentClosed(tree) && StackMatches(tree, root, pending)
    requires pending != [] && pending[|pending| - 1].Visit?
    requires IsListing(tree, pending[|pending| - 1].path, listing)
    ensures RemovalsWait(tree, Expand(pending, listing))
  {
    hide CoveredFrom, AllIndependent, ParentClosed, IsListing;
    var next, n := Expand(pending, listing), |pending|;
    forall k, q | 0 <= k < |next| && next[k].RemoveEmptied? && q in tree && next[k].path < q
      ensures CoveredFrom(next, k + 1, q)
    {
      if k == n - 1 {
        assert root <= pending[k].path && root <= q;
        ExpandKeepsCover(tree, root, pending, listing, 0, q);
      } else {
        assert k < n - 1 && next[k] == pending[k];
        ExpandKeepsCover(tree, root, pending, listing, k + 1, q);
      }
    }
  }

  lemma RemovingLeaf(before: Tree, tree: Tree, root: Path, leaf: Path)
    requires OnlyRemovedBelow(before, tree, root) && leaf in tree && root <= leaf
    requires tree[leaf].Directory? ==> Children(tree, leaf) == {}
    ensures OnlyRemovedBelow(before, tree - {leaf}, root)
    ensures |tree - {leaf}| == |tree| - 1
    ensures forall q :: q in tree ==> !(leaf < q)
  {
    var after := tree - {leaf};
    assert after.Keys == tree.Keys - {leaf};
    forall p | p in after && p != [] ensures Parent(p) in after && after[Parent(p)].Directory? {
      assert p !in Children(tree, leaf) || p in Children(tree, leaf);
    }
    forall q | q in tree && leaf < q ensures false {
      DescendantsGoThroughChildren(tree, leaf, q);
    }
  }

  /** The state of a deletion below `root` between two iterations. */
  ghost predicate Deleting(before: Tree, tree: Tree, root: Path, pending: seq<Pending>, expanded: set<Path>) {
    && OnlyRemovedBelow(before, tree, root)
    && StackMatches(tree, root, pending)
    && Unexpanded(pending, expanded)
    && RootAtBottom(before, tree, root, pending)
  }

  /** At the bottom of the stack lies the root, either still to be visited or
      waiting to be emptied. */
  ghost predicate RootAtBottom(before: Tree, tree: Tree, root: Path, pending: seq<Pending>) {
    pending == [] || (pending == [Visit(root)] && tree == before) || pending[0] == RemoveEmptied(root)
  }

  lemma BottomStays(before: Tree, tree: Tree, after: Tree, root: Path, pending: seq<Pending>, listing: seq<Path>)
    requires RootAtBottom(before, tree, root, pending) && pending != []
    ensures RootAtBottom(before, after, root, pending[..|pending| - 1])
    ensures pending[|pending| - 1].Visit? ==> RootAtBottom(before, after, root, Expand(pending, listing))
  {
  }

  lemma BottomIsThere(before: Tree, tree: Tree, root: Path, pending: seq<Pending>, expanded: set<Path>)
    requires Deleting(before, tree, root, pending, expanded) && pending != []
    ensures root in before ==> root in tree
  {
    hide OnlyRemovedBelow, Unexpanded, CoveredFrom;
  }

  lemma VisitGone(before: Tree, tree: Tree, root: Path, pending: seq<Pending>, expanded: set<Path>)
    requires Deleting(before, tree, root, pending, expanded) && pending != []
    requires pending[|pending| - 1].path !in tree
    ensures Deleting(before, tree, root, pending[..|pending| - 1], expanded)
  {
    hide StackMatches, ParentClosed, RootAtBottom;
    DeletingParts(before, tree, root, pending, expanded);
    BottomStays(before, tree, tree, root, pending, []);
    NothingBelowMissing(tree, pending[|pending| - 1].path);
    PopRemoved(tree, tree, root, pending);
  }

  lemma VisitDirectory(
    before: Tree, tree: Tree, root: Path, pending: seq<Pending>, expanded: set<Path>, listing: seq<Path>)
    requires Deleting(before, tree, root, pending, expanded) && pending != [] && pending[|pending| - 1].Visit?
    requires pending[|pending| - 1].path in tree && tree[pending[|pending| - 1].path].Directory?
    requires IsListing(tree, pending[|pending| - 1].path, listing)
    ensures var path := pending[|pending| - 1].path;
            && path in before.Keys - expanded
            && Deleting(before, tree, root, Expand(pending, listing), expanded + {path})
  {
    hide RootAtBottom;
    ExpandMatches(tree, root, pending, listing);
    BottomStays(before, tree, tree, root, pending, listing);
    ExpandedIsNew(pending, listing, tree, root, expanded);
  }

  lemma TopCanBeRemoved(before: Tree, tree: Tree, root: Path, pending: seq<Pending>, expanded: set<Path>)
    requires Deleting(before, tree, root, pending, expanded) && pending != []
    requires pending[|pending| - 1].path in tree
    requires pending[|pending| - 1].Visit? ==> !tree[pending[|pending| - 1].path].Directory?
    ensures var path := pending[|pending| - 1].path;
            && (pending[|pending| - 1].RemoveEmptied? <==> tree[path].Directory?)
            && Children(tree, path) == {}
            && |tree - {path}| == |tree| - 1
            && Deleting(before, tree - {path}, root, pending[..|pending| - 1], expanded)
  {
    var path := pending[|pending| - 1].path;
    if pending[|pending| - 1].RemoveEmptied? {
      TopHasNoDescendants(tree, root, pending);
    }
    BottomStays(before, tree, tree - {path}, root, pending, []);
    RemovingLeaf(before, tree, root, path);
    PopRemoved(tree, tree - {path}, root, pending);
  }

  lemma NothingPending(before: Tree, tree: Tree, root: Path, expanded: set<Path>)
    requires Deleting(before, tree, root, [], expanded)
    ensures tree == before - Subtree(before, root)
  {
    assert forall q :: !CoveredFrom([], 0, q);
    assert forall q :: q in before && root <= q ==> q !in tree;
  }

  lemma NothingDeletedYet(before: Tree, root: Path)
    requires ParentClosed(before)
    ensures Deleting(before, before, root, [Visit(root)], {})
  {
    var pending := [Visit(root)];
    assert OnlyRemovedBelow(before, before, root);
    hide ParentClosed, OnlyRemovedBelow;
    forall q | q in before && root <= q ensures CoveredFrom(pending, 0, q) {
      assert Covers(pending[0], q);
    }
  }

  lemma DeletingParts(before: Tree, tree: Tree, root: Path, pending: seq<Pending>, expanded: set<Path>)
    requires Deleting(before, tree, root, pending, expanded)
    ensures OnlyRemovedBelow(before, tree, root) && ParentClosed(tree)
    ensures pending != [] && pending[|pending| - 1].RemoveEmptied? ==> pending[|pending| - 1].path in tree
  {
  }

  lemma StackExpanded(stack: seq<Pending>, listing: seq<Path>)
    requires stack != []
    ensures stack[..|stack| - 1] + [RemoveEmptied(stack[|stack| - 1].path)] + Visits(listing) == Expand(stack, listing)
  {
  }

  /** The stack form of removing a whole subtree. At every exit the progress
      counter equals the number of nodes removed and the tree is parent-closed;
      a failure is always a fault of the system, never a directory found full. */
  method DeletePathWithProgress(fs: FileSystem, root: Path, control: Control, progress: Progress)
    returns (outcome: Outcome)
    requires ParentClosed(fs.tree)
    modifies fs, control, progress`completedItems
    ensures OnlyRemovedBelow(old(fs.tree), fs.tree, root)
    ensures progress.completedItems + |fs.tree| == old(progress.completedItems) + |old(fs.tree)|
    ensures outcome.Completed? ==> fs.tree == old(fs.tree) - Subtree(old(fs.tree), root)
    ensures !outcome.Completed? && root in old(fs.tree) ==> root in fs.tree
    ensures outcome.Failed? ==> outcome.reason.Fault? && fs.faults > old(fs.faults)
    ensures fs.faults >= old(fs.faults)
    ensures outcome.Cancelled? ==> control.raised
  {
    hide *;
    ghost var before := fs.tree;
    ghost var expanded: set<Path> := {};
    var pending := [Visit(root)];
    NothingDeletedYet(before, root);
    while pending != []
      invariant Deleting(before, fs.tree, root, pending, expanded)
      invariant progress.completedItems + |fs.tree| == old(progress.completedItems) + |before|
      invariant fs.faults >= old(fs.faults)
      decreases before.Keys - expanded, |pending|
    {
      DeletingParts(before, fs.tree, root, pending, expanded);
      BottomIsThere(before, fs.tree, root, pending, expanded);
      var cancelled := control.Poll();
      if cancelled {
        return Cancelled;
      }
      ghost var stack := pending;
      var item := pending[|pending| - 1];
      pending := pending[..|pending| - 1];
      if item.Visit? {
        var looked := fs.Look();
        if !looked.Done? {
          return Failed(looked);
        }
        if item.path !in fs.tree {
          VisitGone(before, fs.tree, root, stack, expanded);
          continue;
        }
        if fs.tree[item.path].Directory? {
          var listing, read := fs.ReadDirectory(item.path);
          if !read.Done? {
            return Failed(read);
          }
          pending := pending + [RemoveEmptied(item.path)] + Visits(listing);
          StackExpanded(stack, listing);
          VisitDirectory(before, fs.tree, root, stack, expanded, listing);
          expanded := expanded + {item.path};
          continue;
        }
      }
      TopCanBeRemoved(before, fs.tree, root, stack, expanded);
      var removed := RemoveItem(fs, item);
      if !removed.Done? {
        return Failed(removed);
      }
      progress.completedItems := progress.completedItems + 1;
    }
    DeletingParts(before, fs.tree, root, pending, expanded);
    NothingPending(before, fs.tree, root, expanded);
    outcome := Completed;
  }

  /** No visit on the stack reaches a directory that was already expanded. */
  ghost predicate Unexpanded(pending: seq<Pending>, expanded: set<Path>) {
    forall k, e :: 0 <= k < |pending| && pending[k].Visit? && e in expanded ==> !(pending[k].path <= e)
  }

  lemma ExpandedIsNew(pending: seq<Pending>, listing: seq<Path>, tree: Tree, root: Path, expanded: set<Path>)
    requires StackMatches(tree, root, pending) && pending != [] && pending[|pending| - 1].Visit?
    requires IsListing(tree, pending[|pending| - 1].path, listing)
    requires Unexpanded(pending, expanded)
    ensures pending[|pending| - 1].path !in expanded
    ensures Unexpanded(Expand(pending, listing), expanded + {pending[|pending| - 1].path})
  {
    var next, n, path := Expand(pending, listing), |pending|, pending[|pending| - 1].path;
    forall k, e | 0 <= k < |next| && next[k].Visit? && e in expanded + {path} ensures !(next[k].path <= e) {
      if k < n - 1 {
        assert Independent(pending[k], pending[n - 1]);
      } else {
        assert next[k].path in listing;
        assert pending[n - 1].Visit? && path < next[k].path;
      }
    }
  }

  /** Removes one leaf: a directory that has been emptied, or a file or link. On
      systems where a link to a directory needs it, the link is removed as one. */
  method RemoveItem(fs: FileSystem, item: Pending) returns (removed: IoResult)
    requires item.path in fs.tree
    requires item.RemoveEmptied? <==> fs.tree[item.path].Directory?
    requires Children(fs.tree, item.path) == {}
    modifies fs
    ensures removed.Done? ==> fs.tree == old(fs.tree) - {item.path}
    ensures !removed.Done? ==> removed.Fault? && fs.tree == old(fs.tree) && fs.faults > old(fs.faults)
    ensures fs.faults >= old(fs.faults)
  {
    if item.RemoveEmptied? {
      removed := fs.RemoveDirectory(item.path);
    } else {
      removed := fs.RemoveFile(item.path);
      if !removed.Done? && fs.tree[item.path].Symlink? {
        var asDirectory := fs.RemoveDirectory(item.path);
        removed := if asDirectory.Done? then Done else removed;
      }
    }
  }

  ghost predicate OnlyRemovedReached(before: Tree, after: Tree, roots: seq<Path>) {
    && after.Keys <= before.Keys
    && (forall p :: p in after ==> after[p] == before[p])
    && (forall p :: p in before && p !in Reached(before, roots) ==> p in after)
    && ParentClosed(after)
  }

  /** The first `done` roots are gone, the next one still stands if it stood when
      its turn came, and what lies below neither is untouched. */
  ghost predicate RootsDone(before: Tree, after: Tree, roots: seq<Path>, done: nat) {
    && done <= |roots|
    && (forall p :: p in Reached(before, roots[..done]) ==> p !in after)
    && (forall p :: p in before && p !in Reached(before, roots[..done]) && !(done < |roots| && roots[done] <= p) ==>
          p in after)
    && (done < |roots| && roots[done] in before && roots[done] !in Reached(before, roots[..done]) ==>
          roots[done] in after)
  }

  lemma RootsDoneBetween(before: Tree, roots: seq<Path>, done: nat)
    requires done <= |roots|
    ensures RootsDone(before, before - Reached(before, roots[..done]), roots, done)
  {
    hide Reached;
  }

  lemma RootsDoneWithin(before: Tree, tree: Tree, after: Tree, roots: seq<Path>, done: nat)
    requires done < |roots| && tree == before - Reached(before, roots[..done])
    requires OnlyRemovedBelow(tree, after, roots[done]) && (roots[done] in tree ==> roots[done] in after)
    ensures RootsDone(before, after, roots, done)
  {
    hide Reached, ParentClosed;
  }

  lemma NextRoot(before: Tree, tree: Tree, after: Tree, roots: seq<Path>, i: nat)
    requires ParentClosed(before) && i < |roots|
    requires tree == before - Reached(before, roots[..i]) && OnlyRemovedBelow(tree, after, roots[i])
    ensures OnlyRemovedReached(before, after, roots)
    ensures after == tree - Subtree(tree, roots[i]) ==> after == before - Reached(before, roots[..i + 1])
  {
    hide Reached, ParentClosed;
    assert roots[..i + 1][..i] == roots[..i];
    ReachedOneMore(before, roots[..i + 1]);
    EarlierIsReached(before, roots, i);
    assert Subtree(tree, roots[i]) == Subtree(before, roots[i]) - Reached(before, roots[..i]);
  }

  lemma EarlierIsReached(tree: Tree, roots: seq<Path>, i: nat)
    requires i < |roots|
    ensures Reached(tree, roots[..i]) <= Reached(tree, roots) && Subtree(tree, roots[i]) <= Reached(tree, roots)
  {
    forall p | p in Reached(tree, roots[..i]) ensures p in Reached(tree, roots) {
      var k :| 0 <= k < |roots[..i]| && p in Subtree(tree, roots[..i][k]);
      assert roots[..i][k] == roots[k];
    }
  }

  lemma CompletedIsTotal(before: Tree, roots: seq<Path>)
    requires ParentClosed(before)
    ensures |before - Reached(before, roots)| + TotalSize(before, roots) == |before| <==> NotNested(before, roots)
  {
    var after := before - Reached(before, roots);
    assert after.Keys == before.Keys - Reached(before, roots);
    assert |before.Keys| == |after.Keys| + |Reached(before, roots)|;
    CountMatchesIffNotNested(before, roots);
  }

  lemma NothingReached(before: Tree, roots: seq<Path>)
    requires ParentClosed(before)
    ensures before == before - Reached(before, roots[..0]) && OnlyRemovedReached(before, before, roots)
  {
    assert Reached(before, roots[..0]) == {};
  }

  lemma RemovedReachedParts(before: Tree, tree: Tree, roots: seq<Path>)
    requires OnlyRemovedReached(before, tree, roots)
    ensures ParentClosed(tree)
  {
  }

  /** Deletes the listed roots in order. A complete run removes exactly what the
      roots reach; its progress ends at the announced total exactly when no
      existing root lies inside another one. */
  method DeletePermanently(fs: FileSystem, roots: seq<Path>, control: Control, progress: Progress)
    returns (completedRoots: nat, outcome: Outcome)
    requires ParentClosed(fs.tree)
    modifies fs, control, progress
    ensures OnlyRemovedReached(old(fs.tree), fs.tree, roots)
    ensures progress.completedItems + |fs.tree| == |old(fs.tree)|
    ensures outcome.Completed? ==>
              && completedRoots == |roots|
              && fs.tree == old(fs.tree) - Reached(old(fs.tree), roots)
              && progress.totalItems == TotalSize(old(fs.tree), roots)
              && (progress.completedItems == progress.totalItems <==> NotNested(old(fs.tree), roots))
    ensures RootsDone(old(fs.tree), fs.tree, roots, completedRoots)
    ensures outcome.Completed? <==> completedRoots == |roots|
    ensures outcome.Failed? ==> outcome.reason.Fault? && fs.faults > old(fs.faults)
    ensures outcome.Cancelled? ==> control.raised
    ensures fs.faults >= old(fs.faults)
  {
    hide *;
    progress.completedItems, progress.totalItems := 0, 0;
    completedRoots := 0;
    ghost var before := fs.tree;
    NothingReached(before, roots);
    RootsDoneBetween(before, roots, 0);
    var total, counted := CountDeleteEntries(fs, roots, control);
    if !counted.Completed? {
      return 0, counted;
    }
    progress.totalItems := total;
    for i := 0 to |roots|
      invariant completedRoots == i && progress.totalItems == total
      invariant progress.completedItems + |fs.tree| == |before|
      invariant fs.tree == before - Reached(before, roots[..i])
      invariant OnlyRemovedReached(before, fs.tree, roots) && fs.faults >= old(fs.faults)
    {
      ghost var tree := fs.tree;
      RemovedReachedParts(before, tree, roots);
      RootsDoneBetween(before, roots, i);
      var cancelled := control.Poll();
      if cancelled {
        return completedRoots, Cancelled;
      }
      outcome := DeletePathWithProgress(fs, roots[i], control, progress);
      NextRoot(before, tree, fs.tree, roots, i);
      if !outcome.Completed? {
        RootsDoneWithin(before, tree, fs.tree, roots, i);
        return completedRoots, outcome;
      }
      completedRoots := completedRoots + 1;
    }
    assert roots[..|roots|] == roots;
    RootsDoneBetween(before, roots, |roots|);
    CompletedIsTotal(before, roots);
    outcome := Completed;
  }
}
