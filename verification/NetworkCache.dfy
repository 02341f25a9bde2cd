/** The cache behind the network view (`src/fs/explorer.rs`,
    `prune_network_root_cache` and `merge_network_root_cache`). */
module NetworkCaches {
  import opened FileTrees
  import opened Orderings
  import opened NetworkMerge

  const NETWORK_ENTRY_MAX_AGE: nat := 30 * 60
  const MAX_NETWORK_CACHED_DEVICES: nat := 4096

  /** Seen within the last half hour; a clock may be a minute ahead. */
  predicate SeenIsFresh(lastSeen: nat, now: nat) {
    lastSeen <= now + 60 && (lastSeen >= now || now - lastSeen < NETWORK_ENTRY_MAX_AGE)
  }

  predicate IsFresh(entry: Entry, lastSeen: map<Path, nat>, now: nat, identity: Identity) {
    identity(entry.path) in lastSeen && SeenIsFresh(lastSeen[identity(entry.path)], now)
  }

  function SeenAt(entry: Entry, lastSeen: map<Path, nat>, identity: Identity): nat {
    if identity(entry.path) in lastSeen then lastSeen[identity(entry.path)] else 0
  }

  function FreshOnly(entries: seq<Entry>, lastSeen: map<Path, nat>, now: nat, identity: Identity): (young: seq<Entry>)
    ensures forall e :: e in young <==> e in entries && IsFresh(e, lastSeen, now, identity)
    ensures |young| <= |entries|
  {
    if entries == [] then []
    else
      var front := FreshOnly(entries[..|entries| - 1], lastSeen, now, identity);
      var last := entries[|entries| - 1];
      if IsFresh(last, lastSeen, now, identity) then front + [last] else front
  }

  /** Seen less than half an hour ago, and not more than a minute ahead. */
  ghost predicate IsRecent(entry: Entry, lastSeen: map<Path, nat>, now: nat, identity: Identity) {
    var id := identity(entry.path);
    id in lastSeen && -60 <= now - lastSeen[id] < 1800
  }

  lemma FreshAreRecent(entries: seq<Entry>, lastSeen: map<Path, nat>, now: nat, identity: Identity)
    ensures forall e :: e in FreshOnly(entries, lastSeen, now, identity) <==>
                          e in entries && IsRecent(e, lastSeen, now, identity)
  {
  }

  lemma {:induction false} FreshStayUnique(entries: seq<Entry>, lastSeen: map<Path, nat>, now: nat, identity: Identity)
    requires Unique(entries, identity)
    ensures Unique(FreshOnly(entries, lastSeen, now, identity), identity)
  {
    if entries != [] {
      var front := FreshOnly(entries[..|entries| - 1], lastSeen, now, identity);
      FreshStayUnique(entries[..|entries| - 1], lastSeen, now, identity);
      assert forall i :: 0 <= i < |front| ==> front[i] in front && front[i] in entries[..|entries| - 1];
    }
  }

  lemma {:induction false} AllFreshStay(entries: seq<Entry>, lastSeen: map<Path, nat>, now: nat, identity: Identity)
    requires forall e :: e in entries ==> IsFresh(e, lastSeen, now, identity)
    ensures FreshOnly(entries, lastSeen, now, identity) == entries
  {
    hide IsFresh, FreshOnly;
    if entries == [] {
      NothingFresh(lastSeen, now, identity);
    } else {
      var front, last := entries[..|entries| - 1], entries[|entries| - 1];
      assert last in entries && forall e :: e in front ==> e in entries;
      AllFreshStay(front, lastSeen, now, identity);
      LastStays(entries, lastSeen, now, identity);
      assert entries == front + [last];
    }
  }

  lemma NothingFresh(lastSeen: map<Path, nat>, now: nat, identity: Identity)
    ensures FreshOnly([], lastSeen, now, identity) == []
  {
  }

  lemma LastStays(entries: seq<Entry>, lastSeen: map<Path, nat>, now: nat, identity: Identity)
    requires entries != [] && IsFresh(entries[|entries| - 1], lastSeen, now, identity)
    ensures FreshOnly(entries, lastSeen, now, identity) ==
              FreshOnly(entries[..|entries| - 1], lastSeen, now, identity) + [entries[|entries| - 1]]
  {
    hide IsFresh;
  }

  lemma {:induction false} UniqueOccurOnce(entries: seq<Entry>, identity: Identity, e: Entry)
    requires Unique(entries, identity)
    ensures multiset(entries)[e] <= 1
  {
    if entries != [] {
      var n := |entries| - 1;
      UniqueOccurOnce(entries[..n], identity, e);
      assert entries == entries[..n] + [entries[n]];
      assert entries[n] !in entries[..n];
      assert entries[n] !in multiset(entries[..n]);
    }
  }

  lemma PermutationStaysUnique(a: seq<Entry>, b: seq<Entry>, identity: Identity)
    requires Unique(a, identity) && multiset(a) == multiset(b)
    ensures Unique(b, identity)
  {
    forall i, j | 0 <= i < j < |b| ensures identity(b[i].path) != identity(b[j].path) {
      assert b[i] in multiset(b) && b[j] in multiset(b);
      assert b[i] in a && b[j] in a;
      var x :| 0 <= x < |a| && a[x] == b[i];
      var y :| 0 <= y < |a| && a[y] == b[j];
      UniqueOccurOnce(a, identity, b[i]);
      OnceMeansDistinct(b, i, j);
    }
  }

  lemma PrefixStaysUnique(entries: seq<Entry>, n: nat, identity: Identity)
    requires Unique(entries, identity) && n <= |entries|
    ensures Unique(entries[..n], identity)
  {
  }

  function MoreRecent(lastSeen: map<Path, nat>, identity: Identity): (Entry, Entry) -> bool {
    (a: Entry, b: Entry) => SeenAt(a, lastSeen, identity) >= SeenAt(b, lastSeen, identity)
  }

  function ByName(): (Entry, Entry) -> bool {
    (a: Entry, b: Entry) => LexAtMost(a.name, b.name)
  }

  lemma RecencyIsOrder(entries: seq<Entry>, lastSeen: map<Path, nat>, identity: Identity)
    ensures IsOrder(entries, MoreRecent(lastSeen, identity))
  {
  }

  lemma NamesAreOrder(entries: seq<Entry>)
    ensures IsOrder(entries, ByName())
  {
    forall x, y | x in entries && y in entries ensures ByName()(x, y) || ByName()(y, x) {
      LexIsTotal(x.name, y.name);
    }
    forall x, y, z | x in entries && y in entries && z in entries && ByName()(x, y) && ByName()(y, z)
      ensures ByName()(x, z)
    {
      LexIsTransitive(x.name, y.name, z.name);
    }
  }

  ghost function Identities(entries: seq<Entry>, identity: Identity): (ids: set<Path>)
    ensures forall id :: id in ids <==> exists i :: 0 <= i < |entries| && identity(entries[i].path) == id
  {
    set i | 0 <= i < |entries| :: identity(entries[i].path)
  }

  /** The latest seen are kept, in some order. */
  ghost predicate LatestKept(young: seq<Entry>, kept: seq<Entry>, lastSeen: map<Path, nat>, identity: Identity) {
    && (forall e :: e in kept ==> e in young)
    && (|young| <= MAX_NETWORK_CACHED_DEVICES ==> kept == young)
    && (|young| > MAX_NETWORK_CACHED_DEVICES ==> |kept| == MAX_NETWORK_CACHED_DEVICES)
    && forall k, d :: k in kept && d in young && d !in kept ==>
         SeenAt(k, lastSeen, identity) >= SeenAt(d, lastSeen, identity)
  }

  /** The same for a list whose order does not matter. */
  ghost predicate LatestRemain(young: seq<Entry>, kept: seq<Entry>, lastSeen: map<Path, nat>, identity: Identity) {
    && (forall e :: e in kept ==> e in young)
    && (|young| <= MAX_NETWORK_CACHED_DEVICES ==> multiset(kept) == multiset(young))
    && (|young| > MAX_NETWORK_CACHED_DEVICES ==> |kept| == MAX_NETWORK_CACHED_DEVICES)
    && forall k, d :: k in kept && d in young && d !in kept ==>
         SeenAt(k, lastSeen, identity) >= SeenAt(d, lastSeen, identity)
  }

  /** Cuts a list that is too long down to the devices seen last, sorted by name. */
  method LatestByName(young: seq<Entry>, lastSeen: map<Path, nat>, identity: Identity) returns (kept: seq<Entry>)
    requires Unique(young, identity) && |young| > MAX_NETWORK_CACHED_DEVICES
    ensures Unique(kept, identity) && LatestKept(young, kept, lastSeen, identity)
    ensures |kept| == MAX_NETWORK_CACHED_DEVICES
  {
    hide LexAtMost, IsOrder, InOrder, Unique;
    RecencyIsOrder(young, lastSeen, identity);
    var sorted := SortBy(young, MoreRecent(lastSeen, identity));
    Truncated(young, sorted, lastSeen, identity);
    var latest := sorted[..MAX_NETWORK_CACHED_DEVICES];
    NamesAreOrder(latest);
    kept := SortBy(latest, ByName());
    Reordered(young, latest, kept, lastSeen, identity);
  }

  lemma SizeOfKept(young: seq<Entry>, kept: seq<Entry>, lastSeen: map<Path, nat>, identity: Identity)
    requires LatestKept(young, kept, lastSeen, identity)
    ensures |kept| <= MAX_NETWORK_CACHED_DEVICES
  {
  }

  lemma KeptAreYoung(young: seq<Entry>, kept: seq<Entry>, lastSeen: map<Path, nat>, identity: Identity)
    requires LatestKept(young, kept, lastSeen, identity)
    ensures forall e :: e in kept ==> e in young
    ensures |young| <= 4096 ==> kept == young
  {
  }

  /** Only the times of the entries that were kept remain. */
  method TimesOf(ghost young: seq<Entry>, kept: seq<Entry>, lastSeen: map<Path, nat>, now: nat, identity: Identity)
    returns (times: map<Path, nat>)
    requires LatestKept(young, kept, lastSeen, identity)
    requires forall e :: e in young ==> IsFresh(e, lastSeen, now, identity)
    ensures times.Keys == Identities(kept, identity)
    ensures forall id :: id in times ==>
              id in lastSeen && times[id] == lastSeen[id] && SeenIsFresh(times[id], now)
  {
    hide SeenIsFresh, SeenAt;
    var present := set i | 0 <= i < |kept| :: identity(kept[i].path);
    times := map id | id in lastSeen && id in present && SeenIsFresh(lastSeen[id], now) :: lastSeen[id];
    forall id | id in present ensures id in times {
      var i :| 0 <= i < |kept| && identity(kept[i].path) == id;
      assert kept[i] in kept && kept[i] in young;
    }
  }

  class NetworkRootCache {
    const identity: Identity
    var entries: seq<Entry>
    var lastSeen: map<Path, nat>
    var revision: nat

    ghost predicate Valid()
      reads this
    {
      Unique(entries, identity)
    }

    /** What holds after every pruning. */
    ghost predicate Pruned(now: nat)
      reads this
    {
      && Valid() && |entries| <= MAX_NETWORK_CACHED_DEVICES
      && lastSeen.Keys == Identities(entries, identity)
      && forall id :: id in lastSeen ==> SeenIsFresh(lastSeen[id], now)
    }

    constructor (identity: Identity)
      ensures Valid() && this.identity == identity && entries == [] && lastSeen == map[]
    {
      this.identity := identity;
      entries, lastSeen, revision := [], map[], 0;
    }

    method Prune(now: nat)
      requires Valid()
      modifies this
      ensures Pruned(now)
      ensures LatestKept(FreshOnly(old(entries), old(lastSeen), now, identity), entries, old(lastSeen), identity)
      ensures forall id :: id in lastSeen ==> id in old(lastSeen) && lastSeen[id] == old(lastSeen)[id]
      ensures forall e :: e in entries ==> e in old(entries) && IsRecent(e, old(lastSeen), now, identity)
      ensures |old(entries)| <= 4096 ==>
                forall e :: e in entries <==> e in old(entries) && IsRecent(e, old(lastSeen), now, identity)
      ensures revision == old(revision) + if |entries| != |old(entries)| then 1 else 0
    {
      hide FreshOnly, LexAtMost, SeenIsFresh, IsFresh, IsOrder, InOrder, Unique, LatestKept, Identities;
      hide IsRecent;
      ghost var young := FreshOnly(entries, lastSeen, now, identity);
      var previous := |entries|;
      FreshAreRecent(entries, lastSeen, now, identity);
      FreshStayUnique(entries, lastSeen, now, identity);
      entries := FreshOnly(entries, lastSeen, now, identity);
      if |entries| > MAX_NETWORK_CACHED_DEVICES {
        entries := LatestByName(entries, lastSeen, identity);
      } else {
        AllKept(young, lastSeen, identity);
      }
      SizeOfKept(young, entries, lastSeen, identity);
      KeptAreYoung(young, entries, lastSeen, identity);
      lastSeen := TimesOf(young, entries, lastSeen, now, identity);
      if previous != |entries| {
        revision := revision + 1;
      }
    }

    /** Whatever was found counts as seen now. */
    method NoteSeen(found: seq<Entry>, now: nat)
      modifies this`lastSeen
      ensures lastSeen == WithSeen(old(lastSeen), found, now, identity)
    {
      for i := 0 to |found|
        invariant lastSeen == WithSeen(old(lastSeen), found[..i], now, identity)
      {
        assert found[..i + 1][..i] == found[..i];
        lastSeen := lastSeen[identity(found[i].path) := now];
      }
      assert found[..|found|] == found;
    }

    /** Merges one batch of discovered hosts into what pruning left. As long as
        there is room the cache then holds exactly the merged list, and otherwise
        the devices of it that were seen last. */
    method Merge(found: seq<Entry>, now: nat) returns (ghost pruned: seq<Entry>)
      requires Valid()
      modifies this
      ensures Pruned(now)
      ensures LatestKept(FreshOnly(old(entries), old(lastSeen), now, identity), pruned, old(lastSeen), identity)
      ensures |MergeAll(pruned, found, identity).0| <= MAX_NETWORK_CACHED_DEVICES ==>
                && multiset(entries) == multiset(MergeAll(pruned, found, identity).0)
                && forall id :: id in Identities(found, identity) ==> id in lastSeen && lastSeen[id] == now
      ensures LatestRemain(
                MergeAll(pruned, found, identity).0, entries, WithSeen(old(lastSeen), found, now, identity), identity)
      ensures forall id :: id in lastSeen ==>
                && id in WithSeen(old(lastSeen), found, now, identity)
                && lastSeen[id] == WithSeen(old(lastSeen), found, now, identity)[id]
      ensures MergeAll(pruned, found, identity).1 ==> revision > old(revision)
    {
      hide FreshOnly, LexAtMost, SeenIsFresh, IsFresh, IsOrder, InOrder, MergeAll, Unique, LatestKept, LatestRemain,
        Identities, WithSeen;
      Prune(now);
      pruned := entries;
      ghost var seenPruned := lastSeen;
      NoteSeen(found, now);
      var changed;
      entries, changed := MergeEntriesChanged(entries, found, identity);
      ghost var merged, seen := entries, lastSeen;
      MergedAreFresh(pruned, found, seenPruned, now, identity);
      AllFreshStay(merged, seen, now, identity);
      TimesAgree(pruned, found, seenPruned, old(lastSeen), now, identity);
      Prune(now);
      RoomForAll(merged, entries, seen, identity);
      KeptIdentities(merged, entries, seen, identity);
      SeenNow(pruned, found, seenPruned, now, identity);
      NamesAreOrder(entries);
      ghost var unsorted := entries;
      entries := SortBy(entries, ByName());
      PermutationStaysUnique(unsorted, entries, identity);
      LatestInAnyOrder(merged, unsorted, entries, seen, WithSeen(old(lastSeen), found, now, identity), identity);
      SameIdentities(unsorted, entries, identity);
      if changed {
        revision := revision + 1;
      }
    }
  }

  function WithSeen(lastSeen: map<Path, nat>, found: seq<Entry>, now: nat, identity: Identity): map<Path, nat> {
    if found == [] then lastSeen
    else WithSeen(lastSeen, found[..|found| - 1], now, identity)[identity(found[|found| - 1].path) := now]
  }

  lemma {:induction false} SeenAfter(lastSeen: map<Path, nat>, found: seq<Entry>, now: nat, identity: Identity)
    ensures var after := WithSeen(lastSeen, found, now, identity);
            && (forall id :: id in Identities(found, identity) ==> id in after && after[id] == now)
            && (forall id :: id in lastSeen ==> id in after && (after[id] == now || after[id] == lastSeen[id]))
            && (forall id :: id !in Identities(found, identity) ==>
                  (id in after <==> id in lastSeen) && (id in after ==> after[id] == lastSeen[id]))
  {
    if found != [] {
      var front := found[..|found| - 1];
      SeenAfter(lastSeen, front, now, identity);
      IdentitiesOneMore(found, identity);
    }
  }

  lemma IdentitiesOneMore(entries: seq<Entry>, identity: Identity)
    requires entries != []
    ensures Identities(entries, identity) ==
              Identities(entries[..|entries| - 1], identity) + {identity(entries[|entries| - 1].path)}
  {
    var front := entries[..|entries| - 1];
    forall id ensures id in Identities(entries, identity) <==>
                        id in Identities(front, identity) + {identity(entries[|entries| - 1].path)}
    {
      if id in Identities(front, identity) {
        var i :| 0 <= i < |front| && identity(front[i].path) == id;
        assert identity(entries[i].path) == id;
      }
      if id in Identities(entries, identity) {
        var i :| 0 <= i < |entries| && identity(entries[i].path) == id;
        assert i < |front| ==> identity(front[i].path) == id;
      }
      assert identity(entries[|entries| - 1].path) in Identities(entries, identity);
    }
  }

  lemma MergeOneIdentities(target: seq<Entry>, entry: Entry, identity: Identity)
    ensures Identities(MergeOne(target, entry, identity).0, identity) ==
              Identities(target, identity) + {identity(entry.path)}
  {
    hide Adjusted, Wins, Differs;
    var after := MergeOne(target, entry, identity).0;
    var at := Find(target, identity(entry.path), identity);
    if at.Some? {
      MergedKeepsPath(target[at.value], entry);
      assert forall i :: 0 <= i < |target| ==> after[i].path == target[i].path;
    } else {
      IdentitiesOneMore(after, identity);
      assert after[..|after| - 1] == target;
    }
  }

  lemma MergedKeepsPath(existing: Entry, entry: Entry)
    ensures Merged(existing, entry).path == existing.path
  {
  }

  lemma {:induction false} MergeIdentities(target: seq<Entry>, found: seq<Entry>, identity: Identity)
    ensures Identities(MergeAll(target, found, identity).0, identity) ==
              Identities(target, identity) + Identities(found, identity)
  {
    if found != [] {
      hide MergeOne;
      var front := found[..|found| - 1];
      MergeIdentities(target, front, identity);
      MergeOneIdentities(MergeAll(target, front, identity).0, found[|found| - 1], identity);
      IdentitiesOneMore(found, identity);
    }
  }

  lemma NowIsFresh(now: nat)
    ensures SeenIsFresh(now, now)
  {
  }

  lemma MergedAreFresh(
    pruned: seq<Entry>, found: seq<Entry>, lastSeen: map<Path, nat>, now: nat, identity: Identity)
    requires lastSeen.Keys == Identities(pruned, identity)
    requires forall id :: id in lastSeen ==> SeenIsFresh(lastSeen[id], now)
    ensures forall e :: e in MergeAll(pruned, found, identity).0 ==>
              IsFresh(e, WithSeen(lastSeen, found, now, identity), now, identity)
  {
    hide SeenIsFresh, MergeAll;
    NowIsFresh(now);
    SeenAfter(lastSeen, found, now, identity);
    MergeIdentities(pruned, found, identity);
    var merged := MergeAll(pruned, found, identity).0;
    forall e | e in merged ensures IsFresh(e, WithSeen(lastSeen, found, now, identity), now, identity) {
      var i :| 0 <= i < |merged| && merged[i] == e;
      assert identity(merged[i].path) in Identities(merged, identity);
    }
  }

  /** For the merged devices it makes no difference that pruning dropped times. */
  lemma TimesAgree(
    pruned: seq<Entry>, found: seq<Entry>, times: map<Path, nat>, before: map<Path, nat>, now: nat, identity: Identity)
    requires times.Keys == Identities(pruned, identity)
    requires forall id :: id in times ==> id in before && times[id] == before[id]
    ensures var seen, earlier := WithSeen(times, found, now, identity), WithSeen(before, found, now, identity);
            forall id :: id in Identities(MergeAll(pruned, found, identity).0, identity) ==>
              id in seen && id in earlier && seen[id] == earlier[id]
  {
    hide MergeAll;
    SeenAfter(times, found, now, identity);
    SeenAfter(before, found, now, identity);
    MergeIdentities(pruned, found, identity);
  }

  lemma KeptIdentities(merged: seq<Entry>, kept: seq<Entry>, lastSeen: map<Path, nat>, identity: Identity)
    requires LatestKept(merged, kept, lastSeen, identity)
    ensures Identities(kept, identity) <= Identities(merged, identity)
  {
    forall id | id in Identities(kept, identity) ensures id in Identities(merged, identity) {
      var i :| 0 <= i < |kept| && identity(kept[i].path) == id;
      assert kept[i] in kept && kept[i] in merged;
      var j :| 0 <= j < |merged| && merged[j] == kept[i];
      assert identity(merged[j].path) == id;
    }
  }

  lemma LatestInAnyOrder(
    merged: seq<Entry>, unsorted: seq<Entry>, kept: seq<Entry>, seen: map<Path, nat>, earlier: map<Path, nat>,
    identity: Identity)
    requires LatestKept(merged, unsorted, seen, identity) && multiset(kept) == multiset(unsorted)
    requires forall id :: id in Identities(merged, identity) ==> id in seen && id in earlier && seen[id] == earlier[id]
    ensures LatestRemain(merged, kept, earlier, identity)
  {
    assert |multiset(kept)| == |kept| && |multiset(unsorted)| == |unsorted|;
    forall e ensures e in kept <==> e in unsorted {
      assert e in multiset(kept) <==> e in multiset(unsorted);
    }
    forall e | e in merged ensures SeenAt(e, seen, identity) == SeenAt(e, earlier, identity) {
      var i :| 0 <= i < |merged| && merged[i] == e;
      assert identity(merged[i].path) in Identities(merged, identity);
    }
  }

  lemma RoomForAll(merged: seq<Entry>, kept: seq<Entry>, lastSeen: map<Path, nat>, identity: Identity)
    requires LatestKept(merged, kept, lastSeen, identity)
    ensures |merged| <= MAX_NETWORK_CACHED_DEVICES ==> kept == merged
  {
  }

  lemma SeenNow(pruned: seq<Entry>, found: seq<Entry>, lastSeen: map<Path, nat>, now: nat, identity: Identity)
    ensures forall id :: id in Identities(found, identity) ==>
              && id in WithSeen(lastSeen, found, now, identity) && WithSeen(lastSeen, found, now, identity)[id] == now
              && id in Identities(MergeAll(pruned, found, identity).0, identity)
  {
    SeenAfter(lastSeen, found, now, identity);
    MergeIdentities(pruned, found, identity);
  }

  lemma SameIdentities(a: seq<Entry>, b: seq<Entry>, identity: Identity)
    requires multiset(a) == multiset(b)
    ensures Identities(a, identity) == Identities(b, identity) && |a| == |b|
  {
    assert |multiset(a)| == |a| && |multiset(b)| == |b|;
    forall id ensures id in Identities(a, identity) <==> id in Identities(b, identity) {
      if id in Identities(a, identity) {
        var i :| 0 <= i < |a| && identity(a[i].path) == id;
        assert a[i] in multiset(b);
        var j :| 0 <= j < |b| && b[j] == a[i];
        assert identity(b[j].path) == id;
      }
      if id in Identities(b, identity) {
        var i :| 0 <= i < |b| && identity(b[i].path) == id;
        assert b[i] in multiset(a);
        var j :| 0 <= j < |a| && a[j] == b[i];
        assert identity(a[j].path) == id;
      }
    }
  }

  lemma AllKept(young: seq<Entry>, lastSeen: map<Path, nat>, identity: Identity)
    requires |young| <= MAX_NETWORK_CACHED_DEVICES
    ensures LatestKept(young, young, lastSeen, identity)
  {
  }

  lemma Truncated(young: seq<Entry>, sorted: seq<Entry>, lastSeen: map<Path, nat>, identity: Identity)
    requires Unique(young, identity) && multiset(sorted) == multiset(young) && |young| > MAX_NETWORK_CACHED_DEVICES
    requires InOrder(sorted, MoreRecent(lastSeen, identity))
    ensures |sorted| == |young| && Unique(sorted[..MAX_NETWORK_CACHED_DEVICES], identity)
    ensures LatestKept(young, sorted[..MAX_NETWORK_CACHED_DEVICES], lastSeen, identity)
  {
    assert |multiset(sorted)| == |sorted| && |multiset(young)| == |young|;
    PermutationStaysUnique(young, sorted, identity);
    PrefixStaysUnique(sorted, MAX_NETWORK_CACHED_DEVICES, identity);
    var latest := sorted[..MAX_NETWORK_CACHED_DEVICES];
    forall e | e in latest ensures e in young {
      assert e in multiset(sorted);
    }
    forall k, d | k in latest && d in young && d !in latest
      ensures SeenAt(k, lastSeen, identity) >= SeenAt(d, lastSeen, identity)
    {
      assert d in multiset(young) && d in sorted;
      EarlierIsLater(sorted, MAX_NETWORK_CACHED_DEVICES, lastSeen, identity, k, d);
    }
  }

  lemma EarlierIsLater(sorted: seq<Entry>, n: nat, lastSeen: map<Path, nat>, identity: Identity, k: Entry, d: Entry)
    requires n <= |sorted| && InOrder(sorted, MoreRecent(lastSeen, identity))
    requires k in sorted[..n] && d in sorted && d !in sorted[..n]
    ensures SeenAt(k, lastSeen, identity) >= SeenAt(d, lastSeen, identity)
  {
    var x :| 0 <= x < n && sorted[..n][x] == k;
    var y :| 0 <= y < |sorted| && sorted[y] == d;
    assert forall z :: 0 <= z < n ==> sorted[..n][z] == sorted[z];
    assert MoreRecent(lastSeen, identity)(sorted[x], sorted[y]);
  }

  lemma Reordered(
    young: seq<Entry>, latest: seq<Entry>, kept: seq<Entry>, lastSeen: map<Path, nat>, identity: Identity)
    requires Unique(latest, identity) && LatestKept(young, latest, lastSeen, identity)
    requires |young| > MAX_NETWORK_CACHED_DEVICES && multiset(kept) == multiset(latest)
    ensures Unique(kept, identity) && LatestKept(young, kept, lastSeen, identity)
  {
    assert |multiset(kept)| == |kept| && |multiset(latest)| == |latest|;
    PermutationStaysUnique(latest, kept, identity);
    forall e ensures e in kept <==> e in latest {
      assert e in kept <==> e in multiset(kept);
      assert e in latest <==> e in multiset(latest);
    }
  }
}
