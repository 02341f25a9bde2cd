/** Counting a portable device folder (`src/fs/portable.rs`,
    `collect_object_totals`): a stack and a visited set over whatever object
    graph the device reports, cyclic or not. */
module PortableTotals {
  import opened Prelude
  import opened FileSystems

  datatype ObjectInfo = ObjectInfo(id: string, name: string, isFolder: bool, size: Option<nat>)

  /** What the device lists below each object; an absent id cannot be listed. */
  type Listing = map<string, seq<ObjectInfo>>

  /** An object as the traversal meets it: the id it was asked for, and its data. */
  datatype Item = Item(id: string, info: ObjectInfo)

  /** A way down from the root: which child to take at each level. */
  type Way = seq<nat>

  const U64_MAX: nat := 0xFFFF_FFFF_FFFF_FFFF
  const USIZE_MAX: nat := U64_MAX

  datatype Totals = Counted(bytes: nat, files: nat) | Repeated | Unlisted | Cancelled

  function SaturatingAdd(a: nat, b: nat, limit: nat): (sum: nat)
    ensures sum <= limit && sum <= a + b && (sum < limit ==> sum == a + b)
  {
    if a + b <= limit then a + b else limit
  }

  function Saturated(n: nat, limit: nat): (most: nat)
    ensures most <= limit && most <= n && (most < limit ==> most == n)
  {
    if n <= limit then n else limit
  }

  // ----- What can be reached -----

  ghost function ItemAt(listing: Listing, root: Item, way: Way): Option<Item> {
    if way == [] then Some(root)
    else
      var parent := ItemAt(listing, root, way[..|way| - 1]);
      if parent.Some? && parent.value.info.isFolder && parent.value.id in listing
         && way[|way| - 1] < |listing[parent.value.id]|
      then
        var child := listing[parent.value.id][way[|way| - 1]];
        Some(Item(child.id, child))
      else None
  }

  ghost predicate Reached(listing: Listing, root: Item, way: Way) {
    ItemAt(listing, root, way).Some?
  }

  /** Two different ways lead to one id; a cycle has infinitely many of them. */
  ghost predicate SomeIdRepeats(listing: Listing, root: Item) {
    exists v, w :: v != w && Reached(listing, root, v) && Reached(listing, root, w)
                   && ItemAt(listing, root, v).value.id == ItemAt(listing, root, w).value.id
  }

  ghost predicate SomeFolderUnlisted(listing: Listing, root: Item) {
    exists w :: Reached(listing, root, w) && ItemAt(listing, root, w).value.info.isFolder
                && ItemAt(listing, root, w).value.id !in listing
  }

  lemma {:induction false} PrefixesAreReached(listing: Listing, root: Item, way: Way, prefix: Way)
    requires Reached(listing, root, way) && prefix <= way
    ensures Reached(listing, root, prefix)
    ensures prefix != way ==>
              && ItemAt(listing, root, prefix).value.info.isFolder
              && ItemAt(listing, root, prefix).value.id in listing
              && way[|prefix|] < |listing[ItemAt(listing, root, prefix).value.id]|
    decreases |way|
  {
    if prefix != way {
      var up := way[..|way| - 1];
      if prefix == up {
        assert way[|prefix|] == way[|way| - 1];
      } else {
        assert prefix <= up && up[|prefix|] == way[|prefix|];
        PrefixesAreReached(listing, root, up, prefix);
      }
    } else {
      assert prefix == way;
    }
  }

  // ----- Sums over the ways -----

  ghost function SizeAt(listing: Listing, root: Item, way: Way): nat {
    var item := ItemAt(listing, root, way);
    if item.Some? && !item.value.info.isFolder && item.value.info.size.Some? then item.value.info.size.value else 0
  }

  ghost function TotalSize(listing: Listing, root: Item, ways: set<Way>): nat
  {
    if ways == {} then 0
    else
      var way :| way in ways;
      SizeAt(listing, root, way) + TotalSize(listing, root, ways - {way})
  }

  lemma {:induction false} OneMoreWay(listing: Listing, root: Item, ways: set<Way>, way: Way)
    requires way !in ways
    ensures TotalSize(listing, root, ways + {way}) == TotalSize(listing, root, ways) + SizeAt(listing, root, way)
  {
    var all := ways + {way};
    var first :| first in all
      && TotalSize(listing, root, all) == SizeAt(listing, root, first) + TotalSize(listing, root, all - {first});
    if first == way {
      assert all - {way} == ways;
    } else {
      OneMoreWay(listing, root, ways - {first}, way);
      assert all - {first} == (ways - {first}) + {way};
      assert ways == (ways - {first}) + {first};
      OneMoreWay(listing, root, ways - {first}, first);
    }
  }

  ghost function FileWays(listing: Listing, root: Item, ways: set<Way>): (files: set<Way>)
    ensures forall w :: w in files <==> w in ways && Reached(listing, root, w)
                                        && !ItemAt(listing, root, w).value.info.isFolder
  {
    set w | w in ways && Reached(listing, root, w) && !ItemAt(listing, root, w).value.info.isFolder
  }

  // ----- The traversal -----

  /** `seen` are the ways already visited, `open` those still on the stack. */
  ghost predicate Traversing(
    listing: Listing, root: Item, seen: set<Way>, open: seq<Way>, visited: set<string>)
  {
    && (forall w :: w in seen ==> Reached(listing, root, w) && ItemAt(listing, root, w).value.id in visited)
    && (forall id :: id in visited ==> exists w :: w in seen && ItemAt(listing, root, w).value.id == id)
    && (forall v, w :: v in seen && w in seen && ItemAt(listing, root, v).value.id == ItemAt(listing, root, w).value.id
          ==> v == w)
    && (forall k :: 0 <= k < |open| ==> Reached(listing, root, open[k]))
    && (forall k, w :: 0 <= k < |open| && w in seen ==> !(open[k] <= w))
    && (forall k, l :: 0 <= k < |open| && 0 <= l < |open| && k != l ==> !(open[k] <= open[l]))
    && (forall w :: Reached(listing, root, w) ==> w in seen || LeadsOn(open, w))
  }

  ghost predicate LeadsOn(open: seq<Way>, way: Way) {
    exists k :: 0 <= k < |open| && open[k] <= way
  }

  lemma TopNotSeen(listing: Listing, root: Item, seen: set<Way>, open: seq<Way>, visited: set<string>)
    requires Traversing(listing, root, seen, open, visited) && open != []
    ensures open[|open| - 1] !in seen
  {
    hide ItemAt;
    assert open[|open| - 1] <= open[|open| - 1];
  }

  lemma TraversalStarts(listing: Listing, root: Item)
    ensures Traversing(listing, root, {}, [[]], {})
  {
    var open: seq<Way> := [[]];
    forall w | Reached(listing, root, w) ensures LeadsOn(open, w) {
      assert open[0] <= w;
    }
  }

  lemma RepeatFound(listing: Listing, root: Item, seen: set<Way>, open: seq<Way>, visited: set<string>)
    requires Traversing(listing, root, seen, open, visited) && open != []
    requires ItemAt(listing, root, open[|open| - 1]).value.id in visited
    ensures SomeIdRepeats(listing, root)
  {
    hide ItemAt;
    var top := open[|open| - 1];
    var w :| w in seen && ItemAt(listing, root, w).value.id == ItemAt(listing, root, top).value.id;
    assert !(top <= w) && top != w;
  }

  lemma FileVisited(listing: Listing, root: Item, seen: set<Way>, open: seq<Way>, visited: set<string>)
    requires Traversing(listing, root, seen, open, visited) && open != []
    requires var item := ItemAt(listing, root, open[|open| - 1]).value; item.id !in visited && !item.info.isFolder
    ensures var top := open[|open| - 1];
            && top !in seen
            && Traversing(
                 listing, root, seen + {top}, open[..|open| - 1], visited + {ItemAt(listing, root, top).value.id})
  {
    hide ItemAt;
    var top, front := open[|open| - 1], open[..|open| - 1];
    assert top <= top;
    forall w | Reached(listing, root, w) ensures w in seen + {top} || LeadsOn(front, w) {
      if w !in seen && w != top {
        FileLeadsNowhere(listing, root, open, w);
      }
    }
  }

  lemma FileLeadsNowhere(listing: Listing, root: Item, open: seq<Way>, w: Way)
    requires open != [] && Reached(listing, root, w) && LeadsOn(open, w) && w != open[|open| - 1]
    requires Reached(listing, root, open[|open| - 1])
    requires !ItemAt(listing, root, open[|open| - 1]).value.info.isFolder
    ensures LeadsOn(open[..|open| - 1], w)
  {
    hide ItemAt, Reached;
    var top, front := open[|open| - 1], open[..|open| - 1];
    var k :| 0 <= k < |open| && open[k] <= w;
    if k == |front| {
      PrefixesAreReached(listing, root, w, top);
    } else {
      assert front[k] <= w;
    }
  }

  ghost function ChildWays(way: Way, count: nat): (ways: seq<Way>)
    ensures |ways| == count && forall i :: 0 <= i < count ==> ways[i] == way + [i]
  {
    seq(count, i => way + [i])
  }

  lemma ChildIsReached(listing: Listing, root: Item, way: Way, i: nat)
    requires Reached(listing, root, way)
    requires var item := ItemAt(listing, root, way).value;
             item.info.isFolder && item.id in listing && i < |listing[item.id]|
    ensures var child := listing[ItemAt(listing, root, way).value.id][i];
            ItemAt(listing, root, way + [i]) == Some(Item(child.id, child))
  {
    assert (way + [i])[..|way + [i]| - 1] == way;
  }

  lemma ChildApart(way: Way, i: nat, other: Way)
    requires !(way <= other) && !(other <= way)
    ensures !(way + [i] <= other) && !(other <= way + [i])
  {
    assert way <= way + [i];
  }

  lemma ChildBehind(way: Way, i: nat, other: Way)
    requires !(way <= other)
    ensures !(way + [i] <= other)
  {
    assert way <= way + [i];
  }

  lemma FolderWaysApart(open: seq<Way>, count: nat)
    requires open != []
    requires forall k, l :: 0 <= k < |open| && 0 <= l < |open| && k != l ==> !(open[k] <= open[l])
    ensures var now := open[..|open| - 1] + ChildWays(open[|open| - 1], count);
            forall k, l :: 0 <= k < |now| && 0 <= l < |now| && k != l ==> !(now[k] <= now[l])
  {
    var top, n := open[|open| - 1], |open| - 1;
    var now := open[..n] + ChildWays(top, count);
    forall k, l | 0 <= k < |now| && 0 <= l < |now| && k != l ensures !(now[k] <= now[l]) {
      if k < n && l < n {
        assert now[k] == open[k] && now[l] == open[l];
      } else if k < n {
        ChildApart(top, l - n, open[k]);
      } else if l < n {
        ChildApart(top, k - n, open[l]);
      } else {
        assert now[k][|top|] == k - n && now[l][|top|] == l - n;
      }
    }
  }

  lemma FolderLeadsOn(listing: Listing, root: Item, open: seq<Way>, w: Way)
    requires open != [] && Reached(listing, root, open[|open| - 1]) && Reached(listing, root, w) && LeadsOn(open, w)
    requires var item := ItemAt(listing, root, open[|open| - 1]).value; item.info.isFolder && item.id in listing
    requires w != open[|open| - 1]
    ensures var top := open[|open| - 1];
            LeadsOn(open[..|open| - 1] + ChildWays(top, |listing[ItemAt(listing, root, top).value.id]|), w)
  {
    hide ItemAt;
    var top, n := open[|open| - 1], |open| - 1;
    var now := open[..n] + ChildWays(top, |listing[ItemAt(listing, root, top).value.id]|);
    var k :| 0 <= k < |open| && open[k] <= w;
    if k < n {
      assert now[k] <= w;
    } else {
      PrefixesAreReached(listing, root, w, top);
      assert top + [w[|top|]] <= w;
      assert now[n + w[|top|]] <= w;
    }
  }

  lemma FolderVisited(listing: Listing, root: Item, seen: set<Way>, open: seq<Way>, visited: set<string>)
    requires Traversing(listing, root, seen, open, visited) && open != []
    requires var item := ItemAt(listing, root, open[|open| - 1]).value;
             item.id !in visited && item.info.isFolder && item.id in listing
    ensures var top := open[|open| - 1];
            var id := ItemAt(listing, root, top).value.id;
            && top !in seen
            && Traversing(
                 listing, root, seen + {top}, open[..|open| - 1] + ChildWays(top, |listing[id]|), visited + {id})
  {
    hide ItemAt;
    var top, n := open[|open| - 1], |open| - 1;
    var count := |listing[ItemAt(listing, root, top).value.id]|;
    var now := open[..n] + ChildWays(top, count);
    assert top <= top;
    FolderWaysApart(open, count);
    forall k | 0 <= k < |now| ensures Reached(listing, root, now[k]) && !(now[k] <= top) {
      if k >= n {
        ChildIsReached(listing, root, top, k - n);
      }
    }
    forall k, w | 0 <= k < |now| && w in seen ensures !(now[k] <= w) {
      if k >= n {
        ChildBehind(top, k - n, w);
      }
    }
    forall w | Reached(listing, root, w) ensures w in seen + {top} || LeadsOn(now, w) {
      if w !in seen && w != top {
        FolderLeadsOn(listing, root, open, w);
      }
    }
  }

  lemma AllSeen(listing: Listing, root: Item, seen: set<Way>, visited: set<string>)
    requires Traversing(listing, root, seen, [], visited)
    ensures forall w :: w in seen <==> Reached(listing, root, w)
    ensures !SomeIdRepeats(listing, root)
  {
    assert forall w :: !LeadsOn([], w);
  }

  ghost function Known(listing: Listing, root: Item): (ids: set<string>)
    ensures root.id in ids
    ensures forall id, i :: id in listing && 0 <= i < |listing[id]| ==> listing[id][i].id in ids
  {
    {root.id} + set id, i | id in listing && 0 <= i < |listing[id]| :: listing[id][i].id
  }

  lemma ItemsAreKnown(listing: Listing, root: Item, way: Way)
    requires Reached(listing, root, way)
    ensures ItemAt(listing, root, way).value.id in Known(listing, root)
  {
  }

  function Items(children: seq<ObjectInfo>): (items: seq<Item>)
    ensures |items| == |children| && forall i :: 0 <= i < |items| ==> items[i] == Item(children[i].id, children[i])
  {
    seq(|children|, i requires 0 <= i < |children| => Item(children[i].id, children[i]))
  }

  /** The stack holds the items at the open ways. */
  ghost predicate OnStack(listing: Listing, root: Item, pending: seq<Item>, open: seq<Way>) {
    |pending| == |open| && forall k :: 0 <= k < |open| ==> ItemAt(listing, root, open[k]) == Some(pending[k])
  }

  /** The listed folders are the folders among the visited ways, each once. */
  ghost predicate IsFolderList(listing: Listing, root: Item, ways: set<Way>, listed: seq<string>) {
    && (forall i, j :: 0 <= i < j < |listed| ==> listed[i] != listed[j])
    && (forall id :: id in listed ==> id in listing && FolderReached(listing, root, ways, id))
    && (forall w :: w in ways && Reached(listing, root, w) && ItemAt(listing, root, w).value.info.isFolder ==>
          ItemAt(listing, root, w).value.id in listed)
  }

  ghost predicate FolderReached(listing: Listing, root: Item, ways: set<Way>, id: string) {
    exists w :: w in ways && Reached(listing, root, w) && ItemAt(listing, root, w).value.info.isFolder
                && ItemAt(listing, root, w).value.id == id
  }

  lemma NothingCounted(listing: Listing, root: Item)
    ensures OnStack(listing, root, [root], [[]])
    ensures TotalSize(listing, root, {}) == 0 && FileWays(listing, root, {}) == {}
    ensures Saturated(0, U64_MAX) == 0 && Saturated(0, USIZE_MAX) == 0
    ensures IsFolderList(listing, root, {}, [])
  {
  }

  lemma TopOfStack(listing: Listing, root: Item, pending: seq<Item>, open: seq<Way>)
    requires OnStack(listing, root, pending, open) && pending != []
    ensures |open| == |pending|
    ensures Reached(listing, root, open[|open| - 1])
    ensures ItemAt(listing, root, open[|open| - 1]) == Some(pending[|pending| - 1])
    ensures OnStack(listing, root, pending[..|pending| - 1], open[..|open| - 1])
  {
  }

  lemma EmptyStack(listing: Listing, root: Item, pending: seq<Item>, open: seq<Way>)
    requires OnStack(listing, root, pending, open) && pending == []
    ensures open == []
  {
  }

  lemma FolderIsUnlisted(listing: Listing, root: Item, way: Way)
    requires Reached(listing, root, way)
    requires var item := ItemAt(listing, root, way).value; item.info.isFolder && item.id !in listing
    ensures SomeFolderUnlisted(listing, root)
  {
  }

  lemma ItemOf(children: seq<ObjectInfo>, i: nat)
    requires i < |children|
    ensures Items(children)[..i] + [Item(children[i].id, children[i])] == Items(children)[..i + 1]
  {
  }

  lemma ItemsLength(children: seq<ObjectInfo>)
    ensures |Items(children)| == |children|
  {
  }

  lemma StackGrows(listing: Listing, root: Item, front: seq<Item>, item: Item, open: seq<Way>)
    requires open != [] && OnStack(listing, root, front, open[..|open| - 1])
    requires ItemAt(listing, root, open[|open| - 1]) == Some(item) && item.info.isFolder && item.id in listing
    ensures OnStack(listing, root, front + Items(listing[item.id]),
                    open[..|open| - 1] + ChildWays(open[|open| - 1], |listing[item.id]|))
  {
    hide ItemAt;
    var top := open[|open| - 1];
    forall i | 0 <= i < |listing[item.id]|
      ensures ItemAt(listing, root, top + [i]) == Some(Items(listing[item.id])[i])
    {
      ChildIsReached(listing, root, top, i);
    }
  }

  lemma FileCounted(listing: Listing, root: Item, ways: set<Way>, way: Way)
    requires way !in ways && Reached(listing, root, way) && !ItemAt(listing, root, way).value.info.isFolder
    ensures TotalSize(listing, root, ways + {way}) ==
              TotalSize(listing, root, ways)
              + var size := ItemAt(listing, root, way).value.info.size; if size.Some? then size.value else 0
    ensures |FileWays(listing, root, ways + {way})| == |FileWays(listing, root, ways)| + 1
    ensures forall listed :: IsFolderList(listing, root, ways, listed) ==>
              IsFolderList(listing, root, ways + {way}, listed)
  {
    hide ItemAt;
    OneMoreWay(listing, root, ways, way);
    assert FileWays(listing, root, ways + {way}) == FileWays(listing, root, ways) + {way};
    assert SizeAt(listing, root, way) ==
           var size := ItemAt(listing, root, way).value.info.size; if size.Some? then size.value else 0;
    forall listed | IsFolderList(listing, root, ways, listed)
      ensures IsFolderList(listing, root, ways + {way}, listed)
    {
      FolderListWidens(listing, root, ways, way, listed);
    }
  }

  lemma FolderListWidens(listing: Listing, root: Item, ways: set<Way>, way: Way, listed: seq<string>)
    requires IsFolderList(listing, root, ways, listed) && Reached(listing, root, way)
    requires !ItemAt(listing, root, way).value.info.isFolder
    ensures IsFolderList(listing, root, ways + {way}, listed)
  {
    hide ItemAt;
    forall id | id in listed ensures FolderReached(listing, root, ways + {way}, id) {
      var w :| w in ways && Reached(listing, root, w) && ItemAt(listing, root, w).value.info.isFolder
               && ItemAt(listing, root, w).value.id == id;
      assert w in ways + {way};
    }
  }

  lemma ListedIsVisited(
    listing: Listing, root: Item, ways: set<Way>, listed: seq<string>, open: seq<Way>, visited: set<string>, id: string)
    requires Traversing(listing, root, ways, open, visited) && IsFolderList(listing, root, ways, listed)
    requires id in listed
    ensures id in visited
  {
    hide ItemAt, Reached;
    assert FolderReached(listing, root, ways, id);
  }

  lemma FolderAdded(listing: Listing, root: Item, ways: set<Way>, way: Way, listed: seq<string>)
    requires IsFolderList(listing, root, ways, listed) && Reached(listing, root, way)
    requires ItemAt(listing, root, way).value.info.isFolder && ItemAt(listing, root, way).value.id in listing
    requires ItemAt(listing, root, way).value.id !in listed
    ensures IsFolderList(listing, root, ways + {way}, listed + [ItemAt(listing, root, way).value.id])
  {
    hide ItemAt, FolderReached;
    var id := ItemAt(listing, root, way).value.id;
    var now := listed + [id];
    forall other | other in now ensures other in listing && FolderReached(listing, root, ways + {way}, other) {
      if other in listed {
        StillReached(listing, root, ways, way, other);
      } else {
        NewlyReached(listing, root, ways, way);
      }
    }
  }

  lemma StillReached(listing: Listing, root: Item, ways: set<Way>, way: Way, id: string)
    requires FolderReached(listing, root, ways, id)
    ensures FolderReached(listing, root, ways + {way}, id)
  {
    hide ItemAt;
    var w :| w in ways && Reached(listing, root, w) && ItemAt(listing, root, w).value.info.isFolder
             && ItemAt(listing, root, w).value.id == id;
    assert w in ways + {way};
  }

  lemma NewlyReached(listing: Listing, root: Item, ways: set<Way>, way: Way)
    requires Reached(listing, root, way) && ItemAt(listing, root, way).value.info.isFolder
    ensures FolderReached(listing, root, ways + {way}, ItemAt(listing, root, way).value.id)
  {
    hide ItemAt;
    assert way in ways + {way};
  }

  lemma FolderCounted(
    listing: Listing, root: Item, ways: set<Way>, way: Way, listed: seq<string>, open: seq<Way>, visited: set<string>)
    requires Traversing(listing, root, ways, open, visited) && IsFolderList(listing, root, ways, listed)
    requires way !in ways && Reached(listing, root, way) && ItemAt(listing, root, way).value.info.isFolder
    requires ItemAt(listing, root, way).value.id in listing && ItemAt(listing, root, way).value.id !in visited
    ensures TotalSize(listing, root, ways + {way}) == TotalSize(listing, root, ways)
    ensures FileWays(listing, root, ways + {way}) == FileWays(listing, root, ways)
    ensures IsFolderList(listing, root, ways + {way}, listed + [ItemAt(listing, root, way).value.id])
  {
    hide ItemAt, IsFolderList, Traversing;
    OneMoreWay(listing, root, ways, way);
    assert SizeAt(listing, root, way) == 0;
    var id := ItemAt(listing, root, way).value.id;
    if id in listed {
      ListedIsVisited(listing, root, ways, listed, open, visited, id);
    }
    FolderAdded(listing, root, ways, way, listed);
  }

  lemma NoneUnlisted(listing: Listing, root: Item, ways: set<Way>, listed: seq<string>)
    requires IsFolderList(listing, root, ways, listed) && forall w :: w in ways <==> Reached(listing, root, w)
    ensures !SomeFolderUnlisted(listing, root)
  {
    hide ItemAt;
  }

  /** Saturating once at the end is the same as saturating at every step. */
  lemma SaturatesOnce(a: nat, b: nat, limit: nat)
    ensures SaturatingAdd(Saturated(a, limit), b, limit) == Saturated(a + b, limit)
  {
  }

  /** Counts every object once, in whatever order they are popped: the answer is
      a number exactly when every id has one way to it and every folder can be
      listed, and it depends on the set of reached objects only. */
  method CollectObjectTotals(rootId: string, rootInfo: ObjectInfo, listing: Listing, control: Control)
    returns (totals: Totals, ghost listed: seq<string>, ghost reached: set<Way>)
    modifies control
    ensures totals.Counted? ==>
              && !SomeIdRepeats(listing, Item(rootId, rootInfo)) && !SomeFolderUnlisted(listing, Item(rootId, rootInfo))
              && (forall w :: w in reached <==> Reached(listing, Item(rootId, rootInfo), w))
              && totals.bytes == Saturated(TotalSize(listing, Item(rootId, rootInfo), reached), U64_MAX)
              && totals.files == Saturated(|FileWays(listing, Item(rootId, rootInfo), reached)|, USIZE_MAX)
              && IsFolderList(listing, Item(rootId, rootInfo), reached, listed)
    ensures totals.Repeated? ==> SomeIdRepeats(listing, Item(rootId, rootInfo))
    ensures totals.Unlisted? ==> SomeFolderUnlisted(listing, Item(rootId, rootInfo))
    ensures totals.Cancelled? ==> control.raised
  {
    hide *;
    var root := Item(rootId, rootInfo);
    var pending := [root];
    var visited: set<string> := {};
    ghost var open: seq<Way> := [[]];
    var bytes, files := 0, 0;
    listed, reached := [], {};
    TraversalStarts(listing, root);
    NothingCounted(listing, root);
    while pending != []
      invariant OnStack(listing, root, pending, open) && |pending| == |open|
      invariant Traversing(listing, root, reached, open, visited)
      invariant visited <= Known(listing, root)
      invariant bytes == Saturated(TotalSize(listing, root, reached), U64_MAX)
      invariant files == Saturated(|FileWays(listing, root, reached)|, USIZE_MAX)
      invariant IsFolderList(listing, root, reached, listed)
      decreases Known(listing, root) - visited
    {
      ghost var top := open[|open| - 1];
      var item := pending[|pending| - 1];
      TopOfStack(listing, root, pending, open);
      pending := pending[..|pending| - 1];
      var cancelled := control.Poll();
      if cancelled {
        return Cancelled, listed, reached;
      }
      if item.id in visited {
        RepeatFound(listing, root, reached, open, visited);
        return Repeated, listed, reached;
      }
      ItemsAreKnown(listing, root, top);
      ghost var before := visited;
      visited := visited + {item.id};
      if item.info.isFolder {
        if item.id !in listing {
          FolderIsUnlisted(listing, root, top);
          return Unlisted, listed, reached;
        }
        TopNotSeen(listing, root, reached, open, before);
        FolderCounted(listing, root, reached, top, listed, open, before);
        FolderVisited(listing, root, reached, open, before);
        listed := listed + [item.id];
        var children := listing[item.id];
        ghost var front := pending;
        for i := 0 to |children|
          invariant pending == front + Items(children)[..i]
        {
          cancelled := control.Poll();
          if cancelled {
            return Cancelled, listed, reached;
          }
          ItemOf(children, i);
          pending := pending + [Item(children[i].id, children[i])];
        }
        StackGrows(listing, root, front, item, open);
        assert Items(children)[..|children|] == Items(children) by { ItemsLength(children); }
        open := open[..|open| - 1] + ChildWays(top, |listing[item.id]|);
      } else {
        FileVisited(listing, root, reached, open, before);
        FileCounted(listing, root, reached, top);
        SaturatesOnce(TotalSize(listing, root, reached),
                      if item.info.size.Some? then item.info.size.value else 0, U64_MAX);
        SaturatesOnce(|FileWays(listing, root, reached)|, 1, USIZE_MAX);
        bytes := SaturatingAdd(bytes, if item.info.size.Some? then item.info.size.value else 0, U64_MAX);
        files := SaturatingAdd(files, 1, USIZE_MAX);
        open := open[..|open| - 1];
      }
      reached := reached + {top};
    }
    EmptyStack(listing, root, pending, open);
    AllSeen(listing, root, reached, visited);
    NoneUnlisted(listing, root, reached, listed);
    totals := Counted(bytes, files);
  }
}
