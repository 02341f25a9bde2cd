/** Copying one item (`src/fs/transfer_queue.rs`, `copy_path`): a recursive walk
    that records every target it creates and, for a move, every source entry it
    has copied, so that either side can later be removed entry by entry.

    Any call to the file system may fail and the cancel flag may be raised before
    any check; nothing else writes while the transfer runs. */
module TransferCopy {
  import opened FileTrees
  import opened FileSystems

  datatype Kind = Copy | Move

  datatype Result = Ok | Cancelled | Failed(reason: IoResult)

  datatype CompletedRoot = CompletedRoot(source: Path, target: Path)

  const COPY_BUFFER_SIZE: nat := 1024 * 1024

  function KeepOutside(paths: seq<Path>, root: Path): (kept: seq<Path>)
    ensures forall p :: p in kept <==> p in paths && !(root <= p)
  {
    if paths == [] then []
    else
      var front := KeepOutside(paths[..|paths| - 1], root);
      if root <= paths[|paths| - 1] then front else front + [paths[|paths| - 1]]
  }

  class Runtime {
    var created: seq<Path>
    var tracked: set<Path>
    var copiedSources: seq<Path>
    var completedRoots: seq<CompletedRoot>

    ghost predicate Valid()
      reads this
    {
      forall p :: p in tracked <==> p in created
    }

    constructor ()
      ensures Valid() && created == [] && copiedSources == [] && completedRoots == []
    {
      created, tracked, copiedSources, completedRoots := [], {}, [], [];
    }

    method TrackCreated(path: Path)
      requires Valid()
      modifies this`created, this`tracked
      ensures Valid()
      ensures created == if path in old(tracked) then old(created) else old(created) + [path]
    {
      if path !in tracked {
        tracked := tracked + {path};
        created := created + [path];
      }
    }

    /** Whatever lies at or below `target` is no longer this transfer's to remove. */
    method ProtectDestination(target: Path)
      requires Valid()
      modifies this`created, this`tracked
      ensures Valid() && created == KeepOutside(old(created), target)
      ensures NothingBelow(tracked, target)
    {
      created := KeepOutside(created, target);
      tracked := set p | p in tracked && !(target <= p);
    }

    method TrackCompletedRoot(source: Path, target: Path)
      requires Valid()
      modifies this`created, this`tracked, this`completedRoots
      ensures Valid() && created == KeepOutside(old(created), target)
      ensures NothingBelow(tracked, target)
      ensures completedRoots == old(completedRoots) + [CompletedRoot(source, target)]
    {
      ProtectDestination(target);
      completedRoots := completedRoots + [CompletedRoot(source, target)];
    }
  }

  // ----- What a copy may have done at any moment -----

  ghost predicate Unrelated(a: Path, b: Path) {
    !(a <= b) && !(b <= a)
  }

  ghost predicate CreatedInOrder(before: Tree, after: Tree, created: seq<Path>, from: nat, i: nat, root: Path)
    requires from <= i < |created|
  {
    && created[i] in after && created[i] !in before && created[i] != [] && root <= created[i]
    && (Parent(created[i]) in before || Parent(created[i]) in created[from..i])
    && created[i] !in created[from..i]
  }

  /** `after` is `before` plus new entries at or below `root`; each of them was
      recorded, behind its parent directory. */
  ghost predicate Grown(before: Tree, earlier: seq<Path>, after: Tree, created: seq<Path>, root: Path) {
    && (forall p :: p in before ==> p in after && after[p] == before[p])
    && earlier <= created
    && (forall p :: p in after ==> p in before || p in created[|earlier|..])
    && (forall i :: |earlier| <= i < |created| ==> CreatedInOrder(before, after, created, |earlier|, i, root))
  }

  lemma GrownTwice(
    t0: Tree, c0: seq<Path>, t1: Tree, c1: seq<Path>, t2: Tree, c2: seq<Path>, root: Path, inner: Path)
    requires Grown(t0, c0, t1, c1, root) && Grown(t1, c1, t2, c2, inner) && root <= inner
    ensures Grown(t0, c0, t2, c2, root)
  {
    hide CreatedInOrder;
    assert c1 == c2[..|c1|];
    forall p | p in t2 ensures p in t0 || p in c2[|c0|..] {
      if p in t1 && p !in t0 {
        InLongerTail(c1, c2, |c0|, p);
      } else if p !in t1 {
        InEarlierTail(c2, |c0|, |c1|, p);
      }
    }
    forall i | |c0| <= i < |c2| ensures CreatedInOrder(t0, t2, c2, |c0|, i, root) {
      if i < |c1| {
        assert CreatedInOrder(t0, t1, c1, |c0|, i, root);
        OlderInOrder(t0, t1, c1, t2, c2, |c0|, i, root);
      } else {
        NewerInOrder(t0, c0, t1, c1, t2, c2, root, inner, i);
      }
    }
  }

  lemma InLongerTail(shorter: seq<Path>, longer: seq<Path>, from: nat, p: Path)
    requires from <= |shorter| && shorter <= longer && p in shorter[from..]
    ensures p in longer[from..]
  {
    var i :| 0 <= i < |shorter[from..]| && shorter[from..][i] == p;
    assert longer[from..][i] == p;
  }

  lemma InEarlierTail(paths: seq<Path>, from: nat, later: nat, p: Path)
    requires from <= later <= |paths| && p in paths[later..]
    ensures p in paths[from..]
  {
    var i :| 0 <= i < |paths[later..]| && paths[later..][i] == p;
    assert paths[from..][i + later - from] == p;
  }

  lemma OlderInOrder(
    t0: Tree, t1: Tree, c1: seq<Path>, t2: Tree, c2: seq<Path>, from: nat, i: nat, root: Path)
    requires from <= i < |c1| && c1 <= c2 && CreatedInOrder(t0, t1, c1, from, i, root)
    requires forall p :: p in t1 ==> p in t2
    ensures CreatedInOrder(t0, t2, c2, from, i, root)
  {
    assert c1[from..i] == c2[from..i];
  }

  lemma NewerInOrder(
    t0: Tree, c0: seq<Path>, t1: Tree, c1: seq<Path>, t2: Tree, c2: seq<Path>, root: Path, inner: Path, i: nat)
    requires Grown(t0, c0, t1, c1, root) && Grown(t1, c1, t2, c2, inner) && root <= inner && |c1| <= i < |c2|
    ensures CreatedInOrder(t0, t2, c2, |c0|, i, root)
  {
    NewerIsDistinct(t0, c0, t1, c1, t2, c2, root, inner, i);
    assert CreatedInOrder(t1, t2, c2, |c1|, i, inner);
    ParentIsEarlier(t0, c0, t1, c1, c2, i);
  }

  lemma ParentIsEarlier(t0: Tree, c0: seq<Path>, t1: Tree, c1: seq<Path>, c2: seq<Path>, i: nat)
    requires c0 <= c1 <= c2 && |c1| <= i < |c2| && c2[i] != []
    requires forall p :: p in t1 ==> p in t0 || p in c1[|c0|..]
    requires Parent(c2[i]) in t1 || Parent(c2[i]) in c2[|c1|..i]
    ensures Parent(c2[i]) in t0 || Parent(c2[i]) in c2[|c0|..i]
  {
    var parent := Parent(c2[i]);
    if parent in c2[|c1|..i] {
      assert c2[|c1|..i] == c2[..i][|c1|..] && c2[|c0|..i] == c2[..i][|c0|..];
      InEarlierTail(c2[..i], |c0|, |c1|, parent);
    } else if parent !in t0 {
      assert c2[|c0|..i] == c2[..i][|c0|..];
      InLongerTail(c1, c2[..i], |c0|, parent);
    }
  }

  lemma NewerIsDistinct(
    t0: Tree, c0: seq<Path>, t1: Tree, c1: seq<Path>, t2: Tree, c2: seq<Path>, root: Path, inner: Path, i: nat)
    requires Grown(t0, c0, t1, c1, root) && Grown(t1, c1, t2, c2, inner) && |c1| <= i < |c2|
    ensures c2[i] !in c2[|c0|..i]
  {
    assert CreatedInOrder(t1, t2, c2, |c1|, i, inner);
    forall x | |c0| <= x < i ensures c2[x] != c2[i] {
      if x < |c1| {
        assert CreatedInOrder(t0, t1, c1, |c0|, x, root);
        assert c1[x] == c2[x];
      } else {
        assert c2[|c1|..i][x - |c1|] == c2[x];
      }
    }
  }

  /** The source entries recorded by one copy: each below `source`, each once,
      each behind its parent directory. */
  ghost predicate ListedInOrder(sources: seq<Path>, source: Path) {
    && (forall i :: 0 <= i < |sources| ==> BehindItsParent(sources, source, i))
    && (forall i, j :: 0 <= i < j < |sources| ==> sources[i] != sources[j])
  }

  ghost predicate BehindItsParent(sources: seq<Path>, source: Path, i: nat)
    requires i < |sources|
  {
    source <= sources[i] && (sources[i] == source || (source < sources[i] && Parent(sources[i]) in sources[..i]))
  }

  lemma ListedBelow(sources: seq<Path>, source: Path)
    requires ListedInOrder(sources, source)
    ensures forall i :: 0 <= i < |sources| ==> source <= sources[i]
  {
    forall i | 0 <= i < |sources| ensures source <= sources[i] {
      assert BehindItsParent(sources, source, i);
    }
  }

  /** The outcome of copying `source` to `target`, wherever it stopped. */
  ghost predicate CopyOutcome(
    kind: Kind, source: Path, target: Path,
    before: Tree, earlier: seq<Path>, after: Tree, created: seq<Path>, listed: seq<Path>, ok: bool)
  {
    && ParentClosed(after)
    && Grown(before, earlier, after, created, target)
    && ListedInOrder(listed, source)
    && (forall p :: p in listed ==> p in before)
    && (kind.Copy? ==> listed == [])
    && (ok ==> target !in before && IsCopy(before, source, after, target))
    && (ok && kind.Move? ==> forall p :: p in Subtree(before, source) ==> p in listed)
  }

  ghost predicate NothingBelow(paths: set<Path>, root: Path) {
    forall p :: p in paths ==> !(root <= p)
  }

  lemma LeafIsCopied(before: Tree, source: Path, after: Tree, target: Path)
    requires ParentClosed(before) && source in before && !before[source].Directory?
    requires target !in before && Unrelated(source, target)
    requires after == before[target := before[source]]
    ensures IsCopy(before, source, after, target)
    ensures Subtree(before, source) == {source}
  {
    forall p | source <= p
      ensures p in before <==> Image(source, target, p) in after
      ensures p in before ==> after[Image(source, target, p)] == before[p]
    {
      var q := Image(source, target, p);
      if p == source {
        assert q == target;
      } else {
        if p in before { DescendantsGoThroughChildren(before, source, p); }
        if q in before { AncestorsExist(before, q, target); }
        assert |q| > |target|;
      }
    }
    forall p | p in before && source <= p && p != source ensures false {
      DescendantsGoThroughChildren(before, source, p);
    }
  }

  lemma OneCreated(before: Tree, earlier: seq<Path>, target: Path, node: Node)
    requires ParentClosed(before) && CanCreate(before, target)
    ensures Grown(before, earlier, before[target := node], earlier + [target], target)
    ensures ParentClosed(before[target := node])
  {
    var created := earlier + [target];
    assert created[|earlier|..] == [target];
    assert earlier <= created;
  }

  /** The chunked copy of one file's contents into a file just created. */
  method CopyContent(fs: FileSystem, source: Path, target: Path, control: Control) returns (result: Result)
    requires source in fs.tree && fs.tree[source].File? && target in fs.tree && fs.tree[target] == File([])
    requires source != target
    modifies fs, control
    ensures target in fs.tree && fs.tree[target].File? && fs.tree == old(fs.tree)[target := fs.tree[target]]
    ensures result.Ok? ==> fs.tree[target] == old(fs.tree)[source]
    ensures result.Cancelled? ==> control.raised
    ensures old(control.raised) ==> control.raised
    ensures result.Failed? ==> result.reason.Fault? && fs.faults > old(fs.faults)
    ensures fs.faults >= old(fs.faults)
  {
    ghost var before := fs.tree;
    var position := 0;
    assert before[source].content[..0] == [];
    while true
      invariant target in fs.tree && fs.tree[target].File? && fs.tree == before[target := fs.tree[target]]
      invariant position <= |before[source].content|
      invariant fs.tree[target].content == before[source].content[..position]
      invariant old(control.raised) ==> control.raised
      invariant fs.faults == old(fs.faults)
      decreases |before[source].content| - position
    {
      var cancelled := control.Poll();
      if cancelled {
        return Cancelled;
      }
      var read := fs.Look();
      if !read.Done? {
        return Failed(read);
      }
      var content := fs.tree[source].content;
      if position == |content| {
        break;
      }
      assert 0 < 1 <= COPY_BUFFER_SIZE && position + 1 <= |content|;
      var size: nat :| 0 < size <= COPY_BUFFER_SIZE && position + size <= |content|;
      var written := fs.Append(target, content[position..position + size]);
      if !written.Done? {
        return Failed(written);
      }
      assert content[..position] + content[position..position + size] == content[..position + size];
      position := position + size;
    }
    assert before[source].content[..position] == before[source].content;
    var flushed := fs.Sync();
    if !flushed.Done? {
      return Failed(flushed);
    }
    // The look back at the source, or setting the times of the copy, may fail.
    var looked := fs.Look();
    if !looked.Done? {
      return Failed(looked);
    }
    result := Ok;
  }

  // ----- Directories: one child after the other -----

  ghost predicate SameAtImage(before: Tree, source: Path, after: Tree, target: Path, p: Path)
    requires source <= p
  {
    && (p in before <==> Image(source, target, p) in after)
    && (p in before ==> after[Image(source, target, p)] == before[p])
  }

  /** `p` lies at or below one of the children handled so far. */
  ghost predicate Handled(listing: seq<Path>, k: nat, source: Path, p: Path)
    requires k <= |listing|
  {
    source < p && Towards(source, p) in listing[..k]
  }

  ghost predicate CopyingChildren(
    kind: Kind, source: Path, target: Path,
    before: Tree, earlier: seq<Path>, after: Tree, created: seq<Path>, listed: seq<Path>,
    listing: seq<Path>, k: nat)
    requires k <= |listing|
  {
    && CopyOutcome(kind, source, target, before, earlier, after, created, listed, false)
    && target !in before && target in after && after[target].Directory?
    && (kind.Move? ==> source in listed)
    && (forall q :: q in after && target < q ==> Handled(listing, k, source, Image(target, source, q)))
    && (forall p :: Handled(listing, k, source, p) ==> SameAtImage(before, source, after, target, p))
    && (forall p :: p in before && kind.Move? && Handled(listing, k, source, p) ==> p in listed)
    && (forall p :: p in listed ==> p == source || Handled(listing, k, source, p))
  }

  lemma TowardsCommutesWithImage(source: Path, target: Path, p: Path)
    requires source < p
    ensures target < Image(source, target, p)
    ensures Towards(target, Image(source, target, p)) == Image(source, target, Towards(source, p))
  {
    var c := Towards(source, p);
    ImageComposes(source, target, c, p);
    assert Image(source, target, c) <= Image(source, target, p);
    ImageOfParent(source, target, c);
    assert Parent(Image(source, target, c)) == Image(source, target, source) == target;
    TowardsIsUnique(target, Image(source, target, p), Image(source, target, c));
  }

  lemma ChildIsApart(source: Path, target: Path, child: Path)
    requires Unrelated(source, target) && IsChild(child, source)
    ensures source < child
    ensures var childTarget := Image(source, target, child);
            Unrelated(child, childTarget) && IsChild(childTarget, target)
  {
    assert source == Parent(child);
    var childTarget := Image(source, target, child);
    ImageOfParent(source, target, child);
    assert Image(source, target, source) == target;
    if child <= childTarget { PrefixesAreComparable(source, target, childTarget); }
    if childTarget <= child { PrefixesAreComparable(source, target, child); }
  }

  lemma RecordedIsCreated(before: Tree, earlier: seq<Path>, after: Tree, created: seq<Path>, root: Path, p: Path)
    requires Grown(before, earlier, after, created, root) && p in created[|earlier|..]
    ensures p in after && p !in before && root <= p
  {
    var i :| 0 <= i < |created[|earlier|..]| && created[|earlier|..][i] == p;
    assert CreatedInOrder(before, after, created, |earlier|, i + |earlier|, root);
  }

  /** Nothing has been tracked yet where the next child will go. */
  lemma NextChildIsFresh(
    source: Path, target: Path,
    before: Tree, earlier: seq<Path>, after: Tree, created: seq<Path>,
    listing: seq<Path>, k: nat, tracked: set<Path>, trackedBefore: set<Path>)
    requires k < |listing| && IsChild(listing[k], source)
    requires Grown(before, earlier, after, created, target)
    requires forall q :: q in after && target < q ==> Handled(listing, k, source, Image(target, source, q))
    requires forall i, j :: 0 <= i < j < |listing| ==> listing[i] != listing[j]
    requires NothingBelow(trackedBefore, target)
    requires forall p :: p in tracked ==> p in trackedBefore || p in created[|earlier|..]
    ensures NothingBelow(tracked, Image(source, target, listing[k]))
  {
    var child, childTarget := listing[k], Image(source, target, listing[k]);
    ImageOfParent(source, target, child);
    assert Image(source, target, source) == target;
    assert child !in listing[..k];
    forall p | p in tracked ensures !(childTarget <= p) {
      if childTarget <= p {
        assert p in created[|earlier|..];
        RecordedIsCreated(before, earlier, after, created, target, p);
        TowardsIsUnique(target, p, childTarget);
        TowardsCommutesWithImage(target, source, p);
        ImageInverse(source, target, child);
      }
    }
  }

  /** The source side is not affected by what was created at the target. */
  lemma SourceUntouched(
    source: Path, target: Path, before: Tree, earlier: seq<Path>, after: Tree, created: seq<Path>, child: Path)
    requires Grown(before, earlier, after, created, target) && Unrelated(source, target) && source <= child
    ensures Subtree(after, child) == Subtree(before, child)
  {
    forall p | child <= p && p in after ensures p in before {
      if p !in before {
        RecordedIsCreated(before, earlier, after, created, target, p);
        PrefixesAreComparable(source, target, p);
      }
    }
  }

  lemma ListsConcatenate(source: Path, child: Path, listed: seq<Path>, more: seq<Path>)
    requires ListedInOrder(listed, source) && ListedInOrder(more, child)
    requires source < child && Parent(child) == source && (more != [] ==> source in listed)
    requires forall p :: p in listed ==> !(child <= p)
    ensures ListedInOrder(listed + more, source)
  {
    hide BehindItsParent;
    var all := listed + more;
    ListedBelow(more, child);
    forall i | 0 <= i < |all| ensures BehindItsParent(all, source, i) {
      if i < |listed| {
        assert BehindItsParent(listed, source, i);
        EarlierListedInOrder(source, listed, more, i);
      } else {
        assert BehindItsParent(more, child, i - |listed|);
        LaterListedInOrder(source, child, listed, more, i - |listed|);
      }
    }
    forall i, j | 0 <= i < j < |all| ensures all[i] != all[j] {
      ListedApart(child, listed, more, i, j);
    }
  }

  lemma EarlierListedInOrder(source: Path, listed: seq<Path>, more: seq<Path>, i: nat)
    requires i < |listed| && BehindItsParent(listed, source, i)
    ensures BehindItsParent(listed + more, source, i)
  {
    assert (listed + more)[..i] == listed[..i] && (listed + more)[i] == listed[i];
  }

  lemma LaterListedInOrder(source: Path, child: Path, listed: seq<Path>, more: seq<Path>, j: nat)
    requires j < |more| && BehindItsParent(more, child, j) && source in listed
    requires source < child && Parent(child) == source
    ensures BehindItsParent(listed + more, source, |listed| + j)
  {
    var all, i := listed + more, |listed| + j;
    assert all[i] == more[j];
    assert all[..i] == listed + more[..j];
  }

  lemma ListedApart(child: Path, listed: seq<Path>, more: seq<Path>, i: nat, j: nat)
    requires i < j < |listed| + |more| && forall p :: p in listed ==> !(child <= p)
    requires forall x, y :: 0 <= x < y < |listed| ==> listed[x] != listed[y]
    requires forall x, y :: 0 <= x < y < |more| ==> more[x] != more[y]
    requires forall x :: 0 <= x < |more| ==> child <= more[x]
    ensures (listed + more)[i] != (listed + more)[j]
  {
    var all := listed + more;
    if j < |listed| {
      assert all[i] == listed[i] && all[j] == listed[j];
    } else {
      assert all[j] == more[j - |listed|];
      if i < |listed| {
        assert all[i] == listed[i] && listed[i] in listed;
      } else {
        assert all[i] == more[i - |listed|];
      }
    }
  }

  lemma ChildListed(
    kind: Kind, source: Path, before: Tree, mid: Tree, listed: seq<Path>, listing: seq<Path>, k: nat, more: seq<Path>)
    requires k < |listing| && IsChild(listing[k], source) && source < listing[k]
    requires forall i, j :: 0 <= i < j < |listing| ==> listing[i] != listing[j]
    requires Subtree(mid, listing[k]) == Subtree(before, listing[k])
    requires ListedInOrder(listed, source) && ListedInOrder(more, listing[k])
    requires kind.Move? ==> source in listed
    requires kind.Copy? ==> more == []
    requires forall p :: p in listed ==> p == source || Handled(listing, k, source, p)
    requires forall p :: p in listed ==> p in before
    requires forall p :: p in more ==> p in mid
    ensures ListedInOrder(listed + more, source)
    ensures forall p :: p in listed + more ==> p in before && (p == source || Handled(listing, k + 1, source, p))
  {
    var child := listing[k];
    assert listing[..k + 1] == listing[..k] + [child];
    assert child !in listing[..k];
    forall p | p in listed ensures !(child <= p) {
      if child <= p {
        TowardsIsUnique(source, p, child);
      }
    }
    ListsConcatenate(source, child, listed, more);
    ListedBelow(more, child);
    forall p | p in more ensures p in before && Handled(listing, k + 1, source, p) {
      var i :| 0 <= i < |more| && more[i] == p;
      assert p in Subtree(mid, child);
      TowardsIsUnique(source, p, child);
    }
  }

  /** One more child, copied completely or not, keeps what holds of the walk. */
  lemma ChildDone(
    kind: Kind, source: Path, target: Path,
    before: Tree, earlier: seq<Path>, mid: Tree, midCreated: seq<Path>, listed: seq<Path>,
    listing: seq<Path>, k: nat, after: Tree, created: seq<Path>, more: seq<Path>, ok: bool)
    requires IsListing(before, source, listing) && k < |listing| && Unrelated(source, target)
    requires CopyingChildren(kind, source, target, before, earlier, mid, midCreated, listed, listing, k)
    requires IsChild(listing[k], source)
    requires CopyOutcome(kind, listing[k], Image(source, target, listing[k]), mid, midCreated, after, created, more, ok)
    ensures CopyOutcome(kind, source, target, before, earlier, after, created, listed + more, false)
    ensures ok ==> CopyingChildren(kind, source, target, before, earlier, after, created, listed + more, listing, k + 1)
  {
    var child := listing[k];
    SourceUntouched(source, target, before, earlier, mid, midCreated, child);
    GrownTwice(before, earlier, mid, midCreated, after, created, target, Image(source, target, child));
    ChildListed(kind, source, before, mid, listed, listing, k, more);
    if ok {
      ChildHandled(kind, source, target, before, mid, midCreated, listed, listing, k, after, created, more);
    }
  }

  lemma ChildHandled(
    kind: Kind, source: Path, target: Path,
    before: Tree, mid: Tree, midCreated: seq<Path>, listed: seq<Path>,
    listing: seq<Path>, k: nat, after: Tree, created: seq<Path>, more: seq<Path>)
    requires k < |listing| && IsListing(before, source, listing)
    requires IsChild(listing[k], source) && source < listing[k]
    requires Subtree(mid, listing[k]) == Subtree(before, listing[k])
    requires forall p :: p in before ==> p in mid && mid[p] == before[p]
    requires forall q :: q in mid && target < q ==> Handled(listing, k, source, Image(target, source, q))
    requires forall p :: Handled(listing, k, source, p) ==> SameAtImage(before, source, mid, target, p)
    requires forall p :: p in before && kind.Move? && Handled(listing, k, source, p) ==> p in listed
    requires Grown(mid, midCreated, after, created, Image(source, target, listing[k]))
    requires IsCopy(mid, listing[k], after, Image(source, target, listing[k]))
    requires forall p :: kind.Move? && p in Subtree(mid, listing[k]) ==> p in more
    ensures forall q :: q in after && target < q ==> Handled(listing, k + 1, source, Image(target, source, q))
    ensures forall p :: Handled(listing, k + 1, source, p) ==> SameAtImage(before, source, after, target, p)
    ensures forall p :: p in before && kind.Move? && Handled(listing, k + 1, source, p) ==> p in listed + more
  {
    hide IsCopy, Grown;
    var child := listing[k];
    assert listing[..k + 1] == listing[..k] + [child];
    forall q | q in after && target < q ensures Handled(listing, k + 1, source, Image(target, source, q)) {
      if q in mid {
        assert Handled(listing, k, source, Image(target, source, q));
      } else {
        BelowChildIsHandled(source, target, mid, midCreated, after, created, listing, k, q);
      }
    }
    forall p | Handled(listing, k + 1, source, p) ensures SameAtImage(before, source, after, target, p) {
      ChildImages(source, target, before, mid, after, listing, k, p, midCreated, created);
    }
    forall p | p in before && kind.Move? && Handled(listing, k + 1, source, p) ensures p in listed + more {
      if !Handled(listing, k, source, p) {
        assert p in Subtree(mid, child);
      }
    }
  }

  lemma BelowChildIsHandled(
    source: Path, target: Path, mid: Tree, midCreated: seq<Path>, after: Tree, created: seq<Path>,
    listing: seq<Path>, k: nat, q: Path)
    requires k < |listing| && source < listing[k] && Parent(listing[k]) == source
    requires Grown(mid, midCreated, after, created, Image(source, target, listing[k]))
    requires q in after && q !in mid
    ensures target < q && Handled(listing, k + 1, source, Image(target, source, q))
  {
    var child, childTarget := listing[k], Image(source, target, listing[k]);
    var i :| 0 <= i < |created[|midCreated|..]| && created[|midCreated|..][i] == q;
    assert CreatedInOrder(mid, after, created, |midCreated|, i + |midCreated|, childTarget);
    ImageOfParent(source, target, child);
    assert Parent(childTarget) == target;
    TowardsIsUnique(target, q, childTarget);
    TowardsCommutesWithImage(target, source, q);
    ImageInverse(source, target, child);
    assert listing[..k + 1][k] == child;
  }

  lemma ChildImages(
    source: Path, target: Path, before: Tree, mid: Tree, after: Tree, listing: seq<Path>, k: nat, p: Path,
    midCreated: seq<Path>, created: seq<Path>)
    requires k < |listing| && source < listing[k] && Parent(listing[k]) == source
    requires forall i, j :: 0 <= i < j < |listing| ==> listing[i] != listing[j]
    requires Grown(mid, midCreated, after, created, Image(source, target, listing[k]))
    requires forall q :: Handled(listing, k, source, q) ==> SameAtImage(before, source, mid, target, q)
    requires Subtree(mid, listing[k]) == Subtree(before, listing[k])
    requires forall q :: q in before ==> q in mid && mid[q] == before[q]
    requires IsCopy(mid, listing[k], after, Image(source, target, listing[k]))
    requires Handled(listing, k + 1, source, p)
    ensures SameAtImage(before, source, after, target, p)
  {
    var child, childTarget := listing[k], Image(source, target, listing[k]);
    var q := Image(source, target, p);
    if Towards(source, p) == child {
      ImageComposes(source, target, child, p);
      assert p in before <==> p in Subtree(before, child);
      assert p in mid <==> p in Subtree(mid, child);
    } else {
      var j :| 0 <= j < k + 1 && listing[..k + 1][j] == Towards(source, p);
      assert listing[..k][j] == Towards(source, p);
      assert Handled(listing, k, source, p);
      if q in after && q !in mid {
        var i :| 0 <= i < |created[|midCreated|..]| && created[|midCreated|..][i] == q;
        assert CreatedInOrder(mid, after, created, |midCreated|, i + |midCreated|, childTarget);
        ImageOfParent(source, target, child);
        TowardsIsUnique(target, q, childTarget);
        TowardsCommutesWithImage(source, target, p);
        ImageInverse(source, target, child);
        ImageInverse(source, target, Towards(source, p));
      }
    }
  }

  lemma AllChildrenCopied(source: Path, target: Path, before: Tree, after: Tree, listing: seq<Path>)
    requires ParentClosed(before) && source in before && before[source].Directory?
    requires IsListing(before, source, listing)
    requires target in after && after[target].Directory?
    requires forall q :: q in after && target < q ==> Handled(listing, |listing|, source, Image(target, source, q))
    requires forall q :: Handled(listing, |listing|, source, q) ==> SameAtImage(before, source, after, target, q)
    ensures IsCopy(before, source, after, target)
  {
    forall p | source <= p
      ensures p in before <==> Image(source, target, p) in after
      ensures p in before ==> after[Image(source, target, p)] == before[p]
    {
      ImageOfAnything(source, target, before, after, listing, p);
    }
  }

  lemma AllChildrenListed(source: Path, before: Tree, listed: seq<Path>, listing: seq<Path>)
    requires ParentClosed(before) && IsListing(before, source, listing) && source in listed
    requires forall p :: p in before && Handled(listing, |listing|, source, p) ==> p in listed
    ensures forall p :: p in Subtree(before, source) ==> p in listed
  {
    assert listing[..|listing|] == listing;
    forall p | p in Subtree(before, source) && p != source ensures p in listed {
      DescendantsGoThroughChildren(before, source, p);
      assert Handled(listing, |listing|, source, p);
    }
  }

  lemma ImageOfAnything(source: Path, target: Path, before: Tree, after: Tree, listing: seq<Path>, p: Path)
    requires ParentClosed(before) && source in before && before[source].Directory?
    requires IsListing(before, source, listing) && source <= p
    requires target in after && after[target].Directory?
    requires forall q :: q in after && target < q ==> Handled(listing, |listing|, source, Image(target, source, q))
    requires forall q :: Handled(listing, |listing|, source, q) ==> SameAtImage(before, source, after, target, q)
    ensures SameAtImage(before, source, after, target, p)
  {
    var q := Image(source, target, p);
    if p == source {
      assert q == target;
    } else {
      assert listing[..|listing|] == listing;
      if p in before {
        DescendantsGoThroughChildren(before, source, p);
        assert Handled(listing, |listing|, source, p);
      }
      ImageInverse(source, target, p);
      assert target < q;
    }
  }

  // ----- The recursive copy -----

  /** A copy may start: the two items are apart, the target's directory exists
      and nothing at or below the target is being tracked. */
  ghost predicate Ready(tree: Tree, tracked: set<Path>, source: Path, target: Path) {
    && ParentClosed(tree) && Unrelated(source, target) && NothingBelow(tracked, target)
    && target != [] && Parent(target) in tree && tree[Parent(target)].Directory?
  }

  lemma NothingDone(kind: Kind, source: Path, target: Path, before: Tree, earlier: seq<Path>)
    requires ParentClosed(before)
    ensures CopyOutcome(kind, source, target, before, earlier, before, earlier, [], false)
  {
  }

  lemma LeafDone(
    kind: Kind, source: Path, target: Path, before: Tree, earlier: seq<Path>, node: Node, listed: seq<Path>, ok: bool)
    requires ParentClosed(before) && Unrelated(source, target) && CanCreate(before, target) && !node.Directory?
    requires source in before && !before[source].Directory?
    requires listed == if ok && kind.Move? then [source] else []
    requires ok ==> node == before[source]
    ensures CopyOutcome(kind, source, target, before, earlier, before[target := node], earlier + [target], listed, ok)
  {
    hide Grown, IsCopy, ParentClosed;
    OneCreated(before, earlier, target, node);
    if ok {
      LeafIsCopied(before, source, before[target := node], target);
      assert forall p :: p in Subtree(before, source) ==> p == source;
    }
  }

  /** A link is recreated, a file is copied in chunks; the node stays recorded
      even when its contents could not be finished. */
  method CopyLeaf(kind: Kind, source: Path, target: Path, fs: FileSystem, control: Control, runtime: Runtime)
    returns (result: Result)
    requires Ready(fs.tree, runtime.tracked, source, target) && runtime.Valid()
    requires source in fs.tree && !fs.tree[source].Directory?
    modifies fs, control, runtime`created, runtime`tracked, runtime`copiedSources
    ensures runtime.Valid() && old(runtime.copiedSources) <= runtime.copiedSources
    ensures CopyOutcome(kind, source, target, old(fs.tree), old(runtime.created), fs.tree, runtime.created,
                        runtime.copiedSources[|old(runtime.copiedSources)|..], result.Ok?)
    ensures result.Cancelled? ==> control.raised
    ensures old(control.raised) ==> control.raised
    ensures fs.faults >= old(fs.faults)
    ensures result.Failed? ==> fs.faults > old(fs.faults) || target in old(fs.tree)
  {
    hide CopyOutcome;
    ghost var before, earlier := fs.tree, runtime.created;
    NothingDone(kind, source, target, before, earlier);
    assert runtime.copiedSources[|old(runtime.copiedSources)|..] == [];
    var node := fs.tree[source];
    var made := fs.CreateNew(target, if node.File? then File([]) else node);
    if !made.Done? {
      return Failed(made);
    }
    assert target !in runtime.tracked;
    runtime.TrackCreated(target);
    if node.File? {
      result := CopyContent(fs, source, target, control);
    } else {
      result := Ok;
    }
    assert fs.tree == before[target := fs.tree[target]];
    if result.Ok? && kind.Move? {
      runtime.copiedSources := runtime.copiedSources + [source];
    }
    LeafDone(kind, source, target, before, earlier, fs.tree[target],
             runtime.copiedSources[|old(runtime.copiedSources)|..], result.Ok?);
  }

  lemma DirectoryStarted(
    kind: Kind, source: Path, target: Path, before: Tree, earlier: seq<Path>, listed: seq<Path>, listing: seq<Path>)
    requires ParentClosed(before) && Unrelated(source, target) && CanCreate(before, target)
    requires source in before && before[source].Directory?
    requires listed == if kind.Move? then [source] else []
    ensures CopyingChildren(kind, source, target, before, earlier, before[target := Directory],
                            earlier + [target], listed, listing, 0)
  {
    hide Grown, ListedInOrder, ParentClosed, IsCopy;
    OneCreated(before, earlier, target, Directory);
    NothingBelowMissing(before, target);
    FirstListed(kind, source, listed);
    NoneHandled(listing, source);
  }

  lemma NoneHandled(listing: seq<Path>, source: Path)
    ensures forall p :: !Handled(listing, 0, source, p)
  {
  }

  lemma FirstListed(kind: Kind, source: Path, listed: seq<Path>)
    requires listed == if kind.Move? then [source] else []
    ensures ListedInOrder(listed, source)
  {
  }

  /** Creates the directory and copies its children one after the other. */
  method CopyDirectory(kind: Kind, source: Path, target: Path, fs: FileSystem, control: Control, runtime: Runtime)
    returns (result: Result)
    requires Ready(fs.tree, runtime.tracked, source, target) && runtime.Valid()
    requires source in fs.tree && fs.tree[source].Directory?
    modifies fs, control, runtime`created, runtime`tracked, runtime`copiedSources
    ensures runtime.Valid() && old(runtime.copiedSources) <= runtime.copiedSources
    ensures CopyOutcome(kind, source, target, old(fs.tree), old(runtime.created), fs.tree, runtime.created,
                        runtime.copiedSources[|old(runtime.copiedSources)|..], result.Ok?)
    ensures result.Cancelled? ==> control.raised
    ensures old(control.raised) ==> control.raised
    ensures fs.faults >= old(fs.faults)
    ensures result.Failed? ==> fs.faults > old(fs.faults) || target in old(fs.tree)
    decreases Subtree(fs.tree, source), 0
  {
    hide CopyOutcome, CopyingChildren, Grown, IsListing, IsCopy, Handled, SameAtImage, ParentClosed, Children;
    ghost var before, earlier, tracked, start := fs.tree, runtime.created, runtime.tracked, |runtime.copiedSources|;
    NothingDone(kind, source, target, before, earlier);
    assert runtime.copiedSources[start..] == [];
    var made := fs.CreateNew(target, Directory);
    if !made.Done? {
      return Failed(made);
    }
    assert target !in runtime.tracked;
    runtime.TrackCreated(target);
    if kind.Move? {
      runtime.copiedSources := runtime.copiedSources + [source];
    }
    DirectoryStarted(kind, source, target, before, earlier, runtime.copiedSources[start..], []);
    ChildrenOutcome(kind, source, target, before, earlier, fs.tree, runtime.created,
                    runtime.copiedSources[start..], [], 0);
    SourceUntouched(source, target, before, earlier, fs.tree, runtime.created, source);
    var listing, read := fs.ReadDirectory(source);
    if !read.Done? {
      return Failed(read);
    }
    ChildrenUntouched(before, fs.tree, source, listing);
    DirectoryStarted(kind, source, target, before, earlier, runtime.copiedSources[start..], listing);
    for k := 0 to |listing|
      invariant runtime.Valid() && old(runtime.copiedSources) <= runtime.copiedSources
      invariant old(control.raised) ==> control.raised
      invariant fs.faults >= old(fs.faults)
      invariant CopyingChildren(kind, source, target, before, earlier, fs.tree, runtime.created,
                                runtime.copiedSources[start..], listing, k)
    {
      result := CopyChild(kind, source, target, listing, k, before, earlier, tracked, start, fs, control, runtime);
      if !result.Ok? {
        return;
      }
    }
    DirectoryDone(kind, source, target, before, earlier, fs.tree, runtime.created,
                  runtime.copiedSources[start..], listing);
    result := Ok;
  }

  lemma ChildrenOutcome(
    kind: Kind, source: Path, target: Path, before: Tree, earlier: seq<Path>,
    after: Tree, created: seq<Path>, listed: seq<Path>, listing: seq<Path>, k: nat)
    requires k <= |listing|
    requires CopyingChildren(kind, source, target, before, earlier, after, created, listed, listing, k)
    ensures CopyOutcome(kind, source, target, before, earlier, after, created, listed, false)
    ensures Grown(before, earlier, after, created, target)
  {
    hide Grown, Handled;
  }

  lemma DirectoryDone(
    kind: Kind, source: Path, target: Path, before: Tree, earlier: seq<Path>,
    after: Tree, created: seq<Path>, listed: seq<Path>, listing: seq<Path>)
    requires ParentClosed(before) && source in before && before[source].Directory? && IsListing(before, source, listing)
    requires CopyingChildren(kind, source, target, before, earlier, after, created, listed, listing, |listing|)
    ensures CopyOutcome(kind, source, target, before, earlier, after, created, listed, true)
  {
    hide Grown, ListedInOrder, SameAtImage, IsCopy, IsListing, ParentClosed;
    AllChildrenCopied(source, target, before, after, listing);
    if kind.Move? {
      AllChildrenListed(source, before, listed, listing);
    }
  }

  lemma ChildrenUntouched(before: Tree, after: Tree, source: Path, listing: seq<Path>)
    requires Subtree(after, source) == Subtree(before, source) && IsListing(after, source, listing)
    ensures IsListing(before, source, listing)
  {
    assert forall p :: IsChild(p, source) ==> source <= p;
    assert forall p :: p in Children(after, source) <==> p in Subtree(after, source) && IsChild(p, source);
    assert forall p :: p in Children(before, source) <==> p in Subtree(before, source) && IsChild(p, source);
  }

  lemma ChildTargetIsFree(source: Path, target: Path, before: Tree, mid: Tree, listing: seq<Path>, k: nat)
    requires IsListing(before, source, listing) && k < |listing| && IsChild(listing[k], source)
    requires forall q :: q in mid && target < q ==> Handled(listing, k, source, Image(target, source, q))
    ensures Image(source, target, listing[k]) !in mid
  {
    var child, childTarget := listing[k], Image(source, target, listing[k]);
    ImageOfParent(source, target, child);
    ImageInverse(source, target, child);
    TowardsIsUnique(source, child, child);
    assert child !in listing[..k];
    assert !Handled(listing, k, source, child);
  }

  lemma ChildIsReady(
    kind: Kind, source: Path, target: Path,
    before: Tree, earlier: seq<Path>, mid: Tree, midCreated: seq<Path>, listed: seq<Path>,
    listing: seq<Path>, k: nat, trackedBefore: set<Path>, tracked: set<Path>)
    requires Ready(before, trackedBefore, source, target) && source in before && IsListing(before, source, listing)
    requires k < |listing|
    requires forall p :: p in trackedBefore <==> p in earlier
    requires forall p :: p in tracked <==> p in midCreated
    requires CopyingChildren(kind, source, target, before, earlier, mid, midCreated, listed, listing, k)
    ensures IsChild(listing[k], source) && source < listing[k]
    ensures Ready(mid, tracked, listing[k], Image(source, target, listing[k]))
    ensures Subtree(mid, listing[k]) < Subtree(before, source)
    ensures listing[k] in mid && Image(source, target, listing[k]) !in mid
  {
    var child := listing[k];
    assert child in listing;
    ChildTargetIsFree(source, target, before, mid, listing, k);
    ChildIsApart(source, target, child);
    SourceUntouched(source, target, before, earlier, mid, midCreated, child);
    assert forall p :: p in midCreated ==> p in earlier || p in midCreated[|earlier|..];
    NextChildIsFresh(source, target, before, earlier, mid, midCreated, listing, k, tracked, trackedBefore);
    assert source in Subtree(before, source) && source !in Subtree(mid, child);
  }

  method CopyChild(
    kind: Kind, source: Path, target: Path, listing: seq<Path>, k: nat,
    ghost before: Tree, ghost earlier: seq<Path>, ghost tracked: set<Path>, ghost start: nat,
    fs: FileSystem, control: Control, runtime: Runtime)
    returns (result: Result)
    requires k < |listing| && start <= |runtime.copiedSources| && runtime.Valid()
    requires Ready(before, tracked, source, target) && source in before && IsListing(before, source, listing)
    requires forall p :: p in tracked <==> p in earlier
    requires CopyingChildren(kind, source, target, before, earlier, fs.tree, runtime.created,
                             runtime.copiedSources[start..], listing, k)
    modifies fs, control, runtime`created, runtime`tracked, runtime`copiedSources
    ensures runtime.Valid() && old(runtime.copiedSources) <= runtime.copiedSources
    ensures CopyOutcome(kind, source, target, before, earlier, fs.tree, runtime.created,
                        runtime.copiedSources[start..], false)
    ensures result.Ok? ==>
              CopyingChildren(kind, source, target, before, earlier, fs.tree, runtime.created,
                              runtime.copiedSources[start..], listing, k + 1)
    ensures result.Cancelled? ==> control.raised
    ensures old(control.raised) ==> control.raised
    ensures fs.faults >= old(fs.faults)
    ensures result.Failed? ==> fs.faults > old(fs.faults)
    decreases Subtree(before, source), 0, 0
  {
    hide CopyOutcome, CopyingChildren;
    ghost var mid, midCreated, midListed := fs.tree, runtime.created, runtime.copiedSources;
    var child := listing[k];
    ChildIsReady(kind, source, target, before, earlier, mid, midCreated, midListed[start..], listing, k,
                 tracked, runtime.tracked);
    result := CopyPath(kind, child, Image(source, target, child), fs, control, runtime);
    ghost var more := runtime.copiedSources[|midListed|..];
    ChildDone(kind, source, target, before, earlier, mid, midCreated, midListed[start..], listing, k,
              fs.tree, runtime.created, more, result.Ok?);
    assert runtime.copiedSources[start..] == midListed[start..] + more;
  }

  /** Copies one item. Wherever it stops, nothing that existed has changed, and
      every new entry was recorded behind its parent; when it completes, the
      target holds exactly what the source held. */
  method CopyPath(kind: Kind, source: Path, target: Path, fs: FileSystem, control: Control, runtime: Runtime)
    returns (result: Result)
    requires Ready(fs.tree, runtime.tracked, source, target) && runtime.Valid()
    modifies fs, control, runtime`created, runtime`tracked, runtime`copiedSources
    ensures runtime.Valid() && old(runtime.copiedSources) <= runtime.copiedSources
    ensures CopyOutcome(kind, source, target, old(fs.tree), old(runtime.created), fs.tree, runtime.created,
                        runtime.copiedSources[|old(runtime.copiedSources)|..], result.Ok?)
    ensures result.Cancelled? ==> control.raised
    ensures old(control.raised) ==> control.raised
    ensures fs.faults >= old(fs.faults)
    ensures result.Failed? ==> fs.faults > old(fs.faults) || source !in old(fs.tree) || target in old(fs.tree)
    decreases Subtree(fs.tree, source), 1
  {
    NothingDone(kind, source, target, fs.tree, runtime.created);
    var cancelled := control.Poll();
    if cancelled {
      return Cancelled;
    }
    if source !in fs.tree {
      return Failed(Refused);
    }
    if fs.tree[source].Directory? {
      result := CopyDirectory(kind, source, target, fs, control, runtime);
    } else {
      result := CopyLeaf(kind, source, target, fs, control, runtime);
    }
  }
}
