/** The candidate list (`src/fs/duplicates.rs`, the last part of
    `classify_name_candidates_cancellable`): one oldest Original in every group. */
module DuplicateCandidates {
  import opened Orderings
  import opened DuplicateNames
  import opened DuplicateGroups

  function GroupEntries(sorted: seq<nat>): (entries: seq<Entry>)
    ensures |entries| == |sorted|
    ensures forall i :: 0 <= i < |sorted| ==>
              entries[i] == Entry(sorted[i], if sorted[i] == sorted[0] then Original else Possible)
  {
    seq(|sorted|, i requires 0 <= i < |sorted| =>
      Entry(sorted[i], if sorted[i] == sorted[0] then Original else Possible))
  }

  ghost predicate OldestOfRoot(files: seq<ScannedFile>, roots: seq<nat>, a: nat) {
    |roots| == |files| && a < |files|
    && forall b :: 0 <= b < |files| && roots[b] == roots[a] ==> AgeAtMost(files[a], files[b])
  }

  ghost predicate RootShared(roots: seq<nat>, a: nat)
    requires a < |roots|
  {
    exists b :: 0 <= b < |roots| && b != a && roots[b] == roots[a]
  }

  /** The groups whose roots are in `done` have been written out. */
  ghost predicate GroupsListed(files: seq<ScannedFile>, roots: seq<nat>, done: set<nat>, entries: seq<Entry>) {
    && |roots| == |files| && ListedOnce(entries)
    && (forall x :: 0 <= x < |entries| ==> entries[x].index < |files| && roots[entries[x].index] in done)
    && (forall a :: 0 <= a < |files| && roots[a] in done ==> (Listed(entries, a) <==> RootShared(roots, a)))
    && (forall x :: 0 <= x < |entries| ==>
          entries[x].kind == if OldestOfRoot(files, roots, entries[x].index) then Original else Possible)
  }

  lemma {:induction false} PositionsOccurOnce(keys: seq<nat>, key: nat, x: nat)
    ensures multiset(Positions(keys, key))[x] <= 1
  {
    if keys != [] {
      var front := keys[..|keys| - 1];
      PositionsOccurOnce(front, key, x);
      assert multiset(Positions(front, key))[|keys| - 1] == 0 by {
        assert |keys| - 1 !in Positions(front, key);
      }
    }
  }

  lemma SortedGroup(files: seq<ScannedFile>, roots: seq<nat>, root: nat, sorted: seq<nat>)
    requires |roots| == |files| && DistinctPaths(files)
    requires InOrder(sorted, ByAge(files)) && multiset(sorted) == multiset(Positions(roots, root))
    ensures forall a :: a in sorted <==> 0 <= a < |files| && roots[a] == root
    ensures forall i, j :: 0 <= i < j < |sorted| ==> sorted[i] != sorted[j]
    ensures forall i :: 0 <= i < |sorted| ==> (OldestOfRoot(files, roots, sorted[i]) <==> i == 0)
  {
    var group := Positions(roots, root);
    assert forall a :: a in sorted <==> a in multiset(sorted);
    assert forall a :: a in group <==> a in multiset(group);
    forall i, j | 0 <= i < j < |sorted| ensures sorted[i] != sorted[j] {
      PositionsOccurOnce(roots, root, sorted[i]);
      OnceMeansDistinct(sorted, i, j);
    }
    forall i | 0 <= i < |sorted| ensures OldestOfRoot(files, roots, sorted[i]) <==> i == 0 {
      FirstIsOldest(files, roots, root, sorted, i);
    }
  }

  lemma FirstIsOldest(files: seq<ScannedFile>, roots: seq<nat>, root: nat, sorted: seq<nat>, i: nat)
    requires |roots| == |files| && DistinctPaths(files) && i < |sorted|
    requires InOrder(sorted, ByAge(files))
    requires forall a :: a in sorted <==> 0 <= a < |files| && roots[a] == root
    requires forall i, j :: 0 <= i < j < |sorted| ==> sorted[i] != sorted[j]
    ensures OldestOfRoot(files, roots, sorted[i]) <==> i == 0
  {
    hide AgeAtMost, LexAtMost;
    assert sorted[i] in sorted && sorted[0] in sorted;
    if i == 0 {
      forall b | 0 <= b < |files| && roots[b] == roots[sorted[0]] ensures AgeAtMost(files[sorted[0]], files[b]) {
        assert b in sorted;
        var j :| 0 <= j < |sorted| && sorted[j] == b;
        if j > 0 {
          assert ByAge(files)(sorted[0], sorted[j]);
        } else {
          AgeIsTotal(files[b], files[b]);
        }
      }
    } else {
      assert ByAge(files)(sorted[0], sorted[i]);
      AgeIsTotal(files[sorted[0]], files[sorted[i]]);
      assert files[sorted[0]].path != files[sorted[i]].path;
    }
  }

  lemma GroupWritten(
    files: seq<ScannedFile>, roots: seq<nat>, done: set<nat>, entries: seq<Entry>, root: nat, sorted: seq<nat>)
    requires GroupsListed(files, roots, done, entries) && root !in done && |sorted| > 1
    requires forall a :: a in sorted <==> 0 <= a < |files| && roots[a] == root
    requires forall i, j :: 0 <= i < j < |sorted| ==> sorted[i] != sorted[j]
    requires forall i :: 0 <= i < |sorted| ==> (OldestOfRoot(files, roots, sorted[i]) <==> i == 0)
    ensures GroupsListed(files, roots, done + {root}, entries + GroupEntries(sorted))
  {
    hide OldestOfRoot, Listed, ListedOnce, RootShared;
    var more := GroupEntries(sorted);
    var now := entries + more;
    GroupMarked(files, roots, root, sorted);
    ListedTogether(entries, more);
    EntriesStayOnce(entries, sorted, roots, root);
    forall a | 0 <= a < |files| && roots[a] in done + {root} ensures Listed(now, a) <==> RootShared(roots, a) {
      if roots[a] == root {
        MemberIsListed(files, roots, root, sorted, a);
      } else {
        StrangerIsUnlisted(roots, root, sorted, a);
      }
    }
    forall x | 0 <= x < |now|
      ensures now[x].index < |files| && roots[now[x].index] in done + {root}
      ensures now[x].kind == if OldestOfRoot(files, roots, now[x].index) then Original else Possible
    {
      assert now[x] == if x < |entries| then entries[x] else more[x - |entries|];
    }
  }

  lemma GroupMarked(files: seq<ScannedFile>, roots: seq<nat>, root: nat, sorted: seq<nat>)
    requires |roots| == |files| && |sorted| > 0
    requires forall a :: a in sorted <==> 0 <= a < |files| && roots[a] == root
    requires forall i, j :: 0 <= i < j < |sorted| ==> sorted[i] != sorted[j]
    requires forall i :: 0 <= i < |sorted| ==> (OldestOfRoot(files, roots, sorted[i]) <==> i == 0)
    ensures var more := GroupEntries(sorted);
            forall x :: 0 <= x < |more| ==>
              && more[x].index < |files| && roots[more[x].index] == root
              && more[x].kind == if OldestOfRoot(files, roots, more[x].index) then Original else Possible
  {
    hide OldestOfRoot;
    forall x | 0 <= x < |sorted| ensures sorted[x] < |files| && roots[sorted[x]] == root {
      assert sorted[x] in sorted;
    }
  }

  lemma EntriesStayOnce(entries: seq<Entry>, sorted: seq<nat>, roots: seq<nat>, root: nat)
    requires ListedOnce(entries) && forall i, j :: 0 <= i < j < |sorted| ==> sorted[i] != sorted[j]
    requires forall x :: 0 <= x < |entries| ==> entries[x].index < |roots| && roots[entries[x].index] != root
    requires forall i :: 0 <= i < |sorted| ==> sorted[i] < |roots| && roots[sorted[i]] == root
    ensures ListedOnce(entries + GroupEntries(sorted))
  {
    var more := GroupEntries(sorted);
    var now := entries + more;
    forall x, y | 0 <= x < y < |now| ensures now[x].index != now[y].index {
      assert now[x] == if x < |entries| then entries[x] else more[x - |entries|];
      assert now[y] == if y < |entries| then entries[y] else more[y - |entries|];
    }
  }

  lemma StrangerIsUnlisted(roots: seq<nat>, root: nat, sorted: seq<nat>, a: nat)
    requires a < |roots| && roots[a] != root
    requires forall b :: b in sorted ==> 0 <= b < |roots| && roots[b] == root
    ensures !Listed(GroupEntries(sorted), a)
  {
    assert forall x :: 0 <= x < |sorted| ==> sorted[x] in sorted;
  }

  lemma ListedTogether(entries: seq<Entry>, more: seq<Entry>)
    ensures forall a :: Listed(entries + more, a) <==> Listed(entries, a) || Listed(more, a)
  {
    var now := entries + more;
    forall a ensures Listed(now, a) <==> Listed(entries, a) || Listed(more, a) {
      if Listed(entries, a) {
        var x :| 0 <= x < |entries| && entries[x].index == a;
        assert now[x].index == a;
      }
      if Listed(more, a) {
        var x :| 0 <= x < |more| && more[x].index == a;
        assert now[|entries| + x].index == a;
      }
      if Listed(now, a) {
        var x :| 0 <= x < |now| && now[x].index == a;
        assert if x < |entries| then entries[x].index == a else more[x - |entries|].index == a;
      }
    }
  }

  lemma MemberIsListed(files: seq<ScannedFile>, roots: seq<nat>, root: nat, sorted: seq<nat>, a: nat)
    requires |roots| == |files| && |sorted| > 1 && a < |files| && roots[a] == root
    requires forall b :: b in sorted <==> 0 <= b < |files| && roots[b] == root
    requires forall i, j :: 0 <= i < j < |sorted| ==> sorted[i] != sorted[j]
    ensures Listed(GroupEntries(sorted), a) && RootShared(roots, a)
  {
    assert a in sorted;
    var i :| 0 <= i < |sorted| && sorted[i] == a;
    assert GroupEntries(sorted)[i].index == a;
    var other := if i == 0 then sorted[1] else sorted[0];
    assert other in sorted && other != a;
  }

  lemma GroupAlone(
    files: seq<ScannedFile>, roots: seq<nat>, done: set<nat>, entries: seq<Entry>, root: nat)
    requires GroupsListed(files, roots, done, entries) && root !in done && |Positions(roots, root)| <= 1
    ensures GroupsListed(files, roots, done + {root}, entries)
  {
    hide OldestOfRoot;
    var group := Positions(roots, root);
    forall a | 0 <= a < |files| && roots[a] == root ensures !Listed(entries, a) && !RootShared(roots, a) {
      assert a in group;
      assert forall b :: 0 <= b < |roots| && roots[b] == root ==> b in group;
    }
  }

  lemma AllGroupsListed(files: seq<ScannedFile>, roots: seq<nat>, done: set<nat>, entries: seq<Entry>)
    requires GroupsListed(files, roots, done, entries) && RootsAreClosure(files, roots)
    requires forall a :: 0 <= a < |files| ==> roots[a] in done
    ensures NameGroups(files, entries)
  {
    hide Connected, AgeAtMost;
    forall a | 0 <= a < |files| ensures RootShared(roots, a) <==> HasPartner(files, a) {
      if HasPartner(files, a) {
        var b :| 0 <= b < |files| && b != a && Connected(files, a, b);
        assert roots[b] == roots[a];
      }
      if RootShared(roots, a) {
        var b :| 0 <= b < |roots| && b != a && roots[b] == roots[a];
        assert Connected(files, a, b);
      }
    }
    forall a | 0 <= a < |files| ensures OldestOfRoot(files, roots, a) <==> OldestConnected(files, a) {
      assert forall b :: 0 <= b < |files| ==> (roots[a] == roots[b] <==> Connected(files, a, b));
    }
  }

  /** Of two files of one group the original was created first; without that date the
      one written first, and a file with neither date is never put first. */
  lemma OriginalIsOldest(files: seq<ScannedFile>, entries: seq<Entry>, x: nat, b: nat)
    requires NameGroups(files, entries) && x < |entries| && entries[x].kind.Original? && b < |files|
    requires Connected(files, entries[x].index, b)
    ensures var a := files[entries[x].index];
            && (a.created.Some? && files[b].created.Some? ==> a.created.value <= files[b].created.value)
            && (a.created.None? && files[b].created.None? && a.modified.Some? && files[b].modified.Some? ==>
                  a.modified.value <= files[b].modified.value)
            && (files[b].created.Some? || files[b].modified.Some? ==> a.created.Some? || a.modified.Some?)
  {
    hide Connected, LexAtMost;
    assert OldestConnected(files, entries[x].index);
  }

  lemma TooFewFiles(files: seq<ScannedFile>)
    requires |files| < 2
    ensures NameGroups(files, [])
  {
  }

  method NameCandidates(files: seq<ScannedFile>) returns (entries: seq<Entry>)
    requires DistinctPaths(files)
    ensures NameGroups(files, entries)
  {
    hide *;
    entries := [];
    if |files| < 2 {
      TooFewFiles(files);
      return;
    }
    var roots := FindGroups(files);
    var groups := GroupBy(roots);
    var rest := groups.Keys;
    NoGroupListed(files, roots);
    assert groups.Keys - rest == {};
    while rest != {}
      invariant rest <= groups.Keys
      invariant GroupsListed(files, roots, groups.Keys - rest, entries)
    {
      var root :| root in rest;
      if |groups[root]| > 1 {
        GroupInRange(files, roots, root);
        AgeOrder(files, groups[root]);
        var sorted := SortBy(groups[root], ByAge(files));
        SameSize(sorted, groups[root]);
        SortedGroup(files, roots, root, sorted);
        GroupWritten(files, roots, groups.Keys - rest, entries, root, sorted);
        entries := entries + GroupEntries(sorted);
      } else {
        GroupAlone(files, roots, groups.Keys - rest, entries, root);
      }
      assert groups.Keys - rest + {root} == groups.Keys - (rest - {root});
      rest := rest - {root};
    }
    RootsInRange(files, roots);
    assert forall a :: 0 <= a < |files| ==> roots[a] in roots && roots[a] in groups.Keys - rest;
    AllGroupsListed(files, roots, groups.Keys - rest, entries);
  }

  lemma NoGroupListed(files: seq<ScannedFile>, roots: seq<nat>)
    requires RootsAreClosure(files, roots)
    ensures GroupsListed(files, roots, {}, [])
  {
  }

  lemma RootsInRange(files: seq<ScannedFile>, roots: seq<nat>)
    requires RootsAreClosure(files, roots)
    ensures |roots| == |files|
  {
  }

  lemma GroupInRange(files: seq<ScannedFile>, roots: seq<nat>, root: nat)
    requires RootsAreClosure(files, roots)
    ensures |roots| == |files|
    ensures var group := Positions(roots, root); forall p :: 0 <= p < |group| ==> group[p] < |files|
  {
    var group := Positions(roots, root);
    assert forall p :: 0 <= p < |group| ==> group[p] in group;
  }

  lemma SameSize(a: seq<nat>, b: seq<nat>)
    requires multiset(a) == multiset(b)
    ensures |a| == |b|
  {
    assert |multiset(a)| == |a| && |multiset(b)| == |b|;
  }
}
