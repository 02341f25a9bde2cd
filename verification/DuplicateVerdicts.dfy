/** Which files are exact copies (`src/fs/duplicates.rs`,
    `classify_verified_duplicates`): the verdicts of one bucket of candidates. */
module DuplicateVerdicts {
  import opened Orderings
  import opened DuplicateNames
  import opened DuplicateGroups
  import opened DuplicateContents

  /** `o` is an older file with the bytes of `a` in a different inode. */
  ghost predicate IsKept(files: seq<ScannedFile>, disk: Disk, o: nat, a: nat) {
    SameContent(files, disk, o, a) && !SameInode(files, disk, o, a) && AgeAtMost(files[o], files[a])
  }

  /** No older name of the same inode was scanned. */
  ghost predicate FirstName(files: seq<ScannedFile>, disk: Disk, a: nat) {
    && Current(files, disk, a)
    && forall b :: 0 <= b < |files| && Current(files, disk, b) && b != a && SameInode(files, disk, a, b) ==>
         AgeAtMost(files[a], files[b])
  }

  ghost predicate IsExactCopy(files: seq<ScannedFile>, disk: Disk, a: nat) {
    FirstName(files, disk, a) && exists o :: 0 <= o < |files| && IsKept(files, disk, o, a)
  }

  // ----- What the classes of one bucket say -----

  ghost predicate FollowsIn(members: seq<Candidate>, a: nat) {
    exists i :: 0 < i < |members| && members[i].index == a
  }

  ghost predicate IsFollower(classes: seq<seq<Candidate>>, a: nat) {
    exists k :: 0 <= k < |classes| && FollowsIn(classes[k], a)
  }

  /** The bucket `sorted` by age, its first names, and the classes they fall into. */
  ghost predicate IsSplit(
    files: seq<ScannedFile>, disk: Disk, sorted: seq<Candidate>, retained: seq<Candidate>, classes: seq<seq<Candidate>>)
  {
    && SortedByAge(files, sorted) && AreCandidates(files, disk, sorted)
    && SortedByAge(files, retained) && DistinctIdentities(retained) && AreCandidates(files, disk, retained)
    && (forall c :: c in retained ==> c in sorted)
    && (forall i :: 0 <= i < |sorted| ==> FirstNameRetained(files, sorted, retained, i))
    && AreClasses(files, disk, retained, |retained|, classes)
  }

  lemma FollowerIsKept(
    files: seq<ScannedFile>, disk: Disk, members: seq<Candidate>, i: nat)
    requires IsClass(files, disk, members) && 0 < i < |members|
    ensures IsKept(files, disk, members[0].index, members[i].index)
  {
    hide AgeAtMost;
    assert OlderCandidate(files)(members[0], members[i]);
    assert IsCandidate(files, disk, members[0]) && IsCandidate(files, disk, members[i]);
  }

  /** Every scanned file that can matter for this key is in the bucket. */
  ghost predicate BucketHasAll(files: seq<ScannedFile>, disk: Disk, key: (nat, nat), bucket: seq<Candidate>) {
    forall a :: 0 <= a < |files| && Current(files, disk, a) && SizeShared(files, a)
                && BucketKey(StampOf(disk, files[a].path)) == key ==>
      Candidate(a, StampOf(disk, files[a].path)) in bucket
  }

  lemma SameContentShares(files: seq<ScannedFile>, disk: Disk, a: nat, b: nat)
    requires SameContent(files, disk, a, b) && a != b
    ensures SizeShared(files, a) && SizeShared(files, b)
    ensures BucketKey(StampOf(disk, files[a].path)) == BucketKey(StampOf(disk, files[b].path))
  {
  }

  lemma SameInodeSameContent(files: seq<ScannedFile>, disk: Disk, a: nat, b: nat)
    requires Current(files, disk, a) && Current(files, disk, b) && SameInode(files, disk, a, b)
    ensures SameContent(files, disk, a, b)
  {
  }

  lemma OneAge(files: seq<ScannedFile>, a: nat, b: nat)
    requires DistinctPaths(files) && a < |files| && b < |files|
    requires AgeAtMost(files[a], files[b]) && AgeAtMost(files[b], files[a])
    ensures a == b
  {
    AgeIsTotal(files[a], files[b]);
  }

  /** The retained candidate that stands for `b`: `b` itself or an older name. */
  lemma RetainedFor(
    files: seq<ScannedFile>, disk: Disk, sorted: seq<Candidate>, retained: seq<Candidate>,
    classes: seq<seq<Candidate>>, b: nat)
    returns (r: Candidate)
    requires IsSplit(files, disk, sorted, retained, classes) && Current(files, disk, b)
    requires Candidate(b, StampOf(disk, files[b].path)) in sorted
    ensures r in retained && IsCandidate(files, disk, r)
    ensures r.stamp.identity == disk.names[files[b].path]
    ensures AgeAtMost(files[r.index], files[b])
  {
    hide AgeAtMost, AreClasses;
    var c := Candidate(b, StampOf(disk, files[b].path));
    var i :| 0 <= i < |sorted| && sorted[i] == c;
    assert FirstNameRetained(files, sorted, retained, i);
    if c in retained {
      r := c;
      AgeIsTotal(files[b], files[b]);
    } else {
      r :| r in retained && r.stamp.identity == c.stamp.identity && OlderCandidate(files)(r, c);
    }
    var j :| 0 <= j < |retained| && retained[j] == r;
    assert IsCandidate(files, disk, retained[j]);
  }

  lemma SameIdentityIsSame(files: seq<ScannedFile>, disk: Disk, retained: seq<Candidate>, c: Candidate, d: Candidate)
    requires DistinctIdentities(retained) && c in retained && d in retained && c.stamp.identity == d.stamp.identity
    ensures c == d
  {
    var i :| 0 <= i < |retained| && retained[i] == c;
    var j :| 0 <= j < |retained| && retained[j] == d;
  }

  lemma FollowerIsExact(
    files: seq<ScannedFile>, disk: Disk, key: (nat, nat), sorted: seq<Candidate>, retained: seq<Candidate>,
    classes: seq<seq<Candidate>>, k: nat, i: nat)
    requires IsSplit(files, disk, sorted, retained, classes) && BucketHasAll(files, disk, key, sorted)
    requires forall c :: c in sorted ==> BucketKey(c.stamp) == key
    requires k < |classes| && 0 < i < |classes[k]|
    ensures IsExactCopy(files, disk, classes[k][i].index)
  {
    hide AgeAtMost, Current, SizeShared, StampOf, OlderCandidate, FirstNameRetained, FirstName;
    assert IsClass(files, disk, classes[k]);
    MemberIsFirst(files, disk, key, sorted, retained, classes, k, i);
    FollowerIsKept(files, disk, classes[k], i);
    assert classes[k][0].index < |files| by { IndexInRange(files, disk, classes[k][0].index); }
  }

  /** Each member of a class is the first name of its inode. */
  lemma MemberIsFirst(
    files: seq<ScannedFile>, disk: Disk, key: (nat, nat), sorted: seq<Candidate>, retained: seq<Candidate>,
    classes: seq<seq<Candidate>>, k: nat, i: nat)
    requires IsSplit(files, disk, sorted, retained, classes) && BucketHasAll(files, disk, key, sorted)
    requires forall c :: c in sorted ==> BucketKey(c.stamp) == key
    requires k < |classes| && i < |classes[k]|
    ensures FirstName(files, disk, classes[k][i].index)
  {
    hide AgeAtMost, Current, SizeShared, StampOf, OlderCandidate, FirstNameRetained;
    var c := classes[k][i];
    assert retained[..|retained|] == retained;
    assert IsClass(files, disk, classes[k]) && c in classes[k] && c in retained && c in sorted;
    assert IsCandidate(files, disk, c);
    IndexInRange(files, disk, c.index);
    forall b | 0 <= b < |files| && Current(files, disk, b) && b != c.index && SameInode(files, disk, c.index, b)
      ensures AgeAtMost(files[c.index], files[b])
    {
      NameIsYounger(files, disk, key, sorted, retained, classes, c, b);
    }
  }

  lemma IndexInRange(files: seq<ScannedFile>, disk: Disk, a: nat)
    ensures Current(files, disk, a) ==> a < |files|
  {
  }

  lemma NameIsYounger(
    files: seq<ScannedFile>, disk: Disk, key: (nat, nat), sorted: seq<Candidate>, retained: seq<Candidate>,
    classes: seq<seq<Candidate>>, c: Candidate, b: nat)
    requires IsSplit(files, disk, sorted, retained, classes) && BucketHasAll(files, disk, key, sorted)
    requires c in retained && IsCandidate(files, disk, c) && BucketKey(c.stamp) == key
    requires Current(files, disk, b) && b != c.index && SameInode(files, disk, c.index, b)
    ensures AgeAtMost(files[c.index], files[b])
  {
    hide AgeAtMost, SizeShared, OlderCandidate, FirstNameRetained, AreClasses, SortedByAge;
    SameInodeSameContent(files, disk, c.index, b);
    SameContentShares(files, disk, c.index, b);
    var r := RetainedFor(files, disk, sorted, retained, classes, b);
    SameIdentityIsSame(files, disk, retained, c, r);
  }

  lemma ExactIsFollower(
    files: seq<ScannedFile>, disk: Disk, key: (nat, nat), sorted: seq<Candidate>, retained: seq<Candidate>,
    classes: seq<seq<Candidate>>, a: nat)
    requires IsSplit(files, disk, sorted, retained, classes) && BucketHasAll(files, disk, key, sorted)
    requires HeadsDiffer(files, disk, classes) && DistinctPaths(files)
    requires IsExactCopy(files, disk, a) && BucketKey(StampOf(disk, files[a].path)) == key
    ensures IsFollower(classes, a)
  {
    hide AgeAtMost, SizeShared, OlderCandidate, FirstNameRetained, SortedByAge, DistinctIdentities, AreCandidates,
      AreClasses, HeadsDiffer;
    var o :| 0 <= o < |files| && IsKept(files, disk, o, a);
    SameContentShares(files, disk, o, a);
    var own := RetainedFor(files, disk, sorted, retained, classes, a);
    assert own.index == a by {
      if own.index != a {
        assert SameInode(files, disk, a, own.index);
        OneAge(files, a, own.index);
      }
    }
    var other := RetainedFor(files, disk, sorted, retained, classes, o);
    AgeIsTransitive(files[other.index], files[o], files[a]);
    SameInodeSameContent(files, disk, other.index, o);
    InOneClass(files, disk, retained, classes, own, other);
  }

  lemma InOneClass(
    files: seq<ScannedFile>, disk: Disk, retained: seq<Candidate>, classes: seq<seq<Candidate>>,
    own: Candidate, other: Candidate)
    requires AreClasses(files, disk, retained, |retained|, classes) && HeadsDiffer(files, disk, classes)
    requires own in retained && other in retained && own.index != other.index && DistinctPaths(files)
    requires SameContent(files, disk, other.index, own.index) && AgeAtMost(files[other.index], files[own.index])
    ensures IsFollower(classes, own.index)
  {
    hide AgeAtMost, IsCandidate;
    var x :| 0 <= x < |retained| && retained[x] == own;
    var y :| 0 <= y < |retained| && retained[y] == other;
    assert InSomeClass(classes, retained[x]) && InSomeClass(classes, retained[y]);
    var k :| 0 <= k < |classes| && own in classes[k];
    var l :| 0 <= l < |classes| && other in classes[l];
    assert IsClass(files, disk, classes[k]) && IsClass(files, disk, classes[l]);
    var i :| 0 <= i < |classes[k]| && classes[k][i] == own;
    var j :| 0 <= j < |classes[l]| && classes[l][j] == other;
    assert SameContent(files, disk, classes[k][0].index, classes[k][i].index);
    assert SameContent(files, disk, classes[l][0].index, classes[l][j].index);
    assert SameContent(files, disk, classes[k][0].index, classes[l][0].index);
    assert SameContent(files, disk, classes[l][0].index, classes[k][0].index);
    assert k == l;
    if i == 0 {
      assert j > 0 && OlderCandidate(files)(classes[k][0], classes[k][j]);
      OneAge(files, own.index, other.index);
    }
    assert FollowsIn(classes[k], own.index);
  }

  // ----- Writing the verdicts into the entry list -----

  /** `positions` says where the entry of each listed file is. */
  ghost predicate Indexed(entries: seq<Entry>, positions: map<nat, nat>) {
    && (forall a :: a in positions ==> positions[a] < |entries| && entries[positions[a]].index == a)
    && (forall x :: 0 <= x < |entries| ==> entries[x].index in positions && positions[entries[x].index] == x)
  }

  ghost function View(entries: seq<Entry>, positions: map<nat, nat>): (view: map<nat, DuplicateKind>)
    requires Indexed(entries, positions)
    ensures view.Keys == positions.Keys
  {
    map a | a in positions :: entries[positions[a]].kind
  }

  method IndexEntries(entries: seq<Entry>) returns (positions: map<nat, nat>)
    requires ListedOnce(entries)
    ensures Indexed(entries, positions)
  {
    positions := map[];
    for n := 0 to |entries|
      invariant forall a :: a in positions ==> positions[a] < n && entries[positions[a]].index == a
      invariant forall x :: 0 <= x < n ==> entries[x].index in positions && positions[entries[x].index] == x
    {
      positions := positions[entries[n].index := n];
    }
  }

  method SetKind(entries: seq<Entry>, positions: map<nat, nat>, index: nat, kind: DuplicateKind)
    returns (newEntries: seq<Entry>, newPositions: map<nat, nat>)
    requires Indexed(entries, positions)
    ensures Indexed(newEntries, newPositions)
    ensures View(newEntries, newPositions) == View(entries, positions)[index := kind]
  {
    if index in positions {
      newEntries := entries[positions[index] := Entry(index, kind)];
      newPositions := positions;
    } else {
      newPositions := positions[index := |entries|];
      newEntries := entries + [Entry(index, kind)];
    }
  }

  function KindAt(i: nat): DuplicateKind {
    if i == 0 then Original else Exact
  }

  /** `after` differs from `before` by the first `n` members' verdicts. */
  ghost predicate ClassWritten(
    before: map<nat, DuplicateKind>, after: map<nat, DuplicateKind>, members: seq<Candidate>, n: nat)
    requires n <= |members|
  {
    && (forall i :: 0 <= i < n ==> members[i].index in after && after[members[i].index] == KindAt(i))
    && (forall a :: a in before ==> a in after)
    && (forall a :: a in after && (forall i :: 0 <= i < n ==> members[i].index != a) ==>
          a in before && after[a] == before[a])
  }

  lemma NoneWritten(before: map<nat, DuplicateKind>, members: seq<Candidate>)
    ensures ClassWritten(before, before, members, 0)
  {
  }

  lemma OneWritten(
    before: map<nat, DuplicateKind>, now: map<nat, DuplicateKind>, members: seq<Candidate>, n: nat)
    requires n < |members| && ClassWritten(before, now, members, n)
    requires forall i, j :: 0 <= i < j < |members| ==> members[i].index != members[j].index
    ensures ClassWritten(before, now[members[n].index := KindAt(n)], members, n + 1)
  {
    var after := now[members[n].index := KindAt(n)];
    forall a | a in after && (forall i :: 0 <= i < n + 1 ==> members[i].index != a)
      ensures a in before && after[a] == before[a]
    {
      assert members[n].index != a && a in now;
      assert forall i :: 0 <= i < n ==> members[i].index != a;
    }
  }

  method ApplyClass(files: seq<ScannedFile>, disk: Disk, members: seq<Candidate>,
    entries: seq<Entry>, positions: map<nat, nat>)
    returns (newEntries: seq<Entry>, newPositions: map<nat, nat>)
    requires Indexed(entries, positions) && AreCandidates(files, disk, members)
    ensures Indexed(newEntries, newPositions)
    ensures ClassWritten(View(entries, positions), View(newEntries, newPositions), members, |members|)
  {
    hide Indexed, View, IsCandidate, ClassWritten;
    newEntries, newPositions := entries, positions;
    NoneWritten(View(entries, positions), members);
    for i := 0 to |members|
      invariant Indexed(newEntries, newPositions)
      invariant ClassWritten(View(entries, positions), View(newEntries, newPositions), members, i)
    {
      OneWritten(View(entries, positions), View(newEntries, newPositions), members, i);
      newEntries, newPositions := SetKind(newEntries, newPositions, members[i].index, KindAt(i));
    }
  }

  // ----- The whole classification -----

  /** What the buckets handled so far have established. */
  ghost predicate Judged(
    files: seq<ScannedFile>, disk: Disk, names: map<nat, DuplicateKind>, view: map<nat, DuplicateKind>,
    decided: set<nat>, done: set<(nat, nat)>)
  {
    && view.Keys == names.Keys + decided
    && (forall a :: a in view && a !in decided ==> view[a] == names[a])
    && (forall a :: a in decided ==> JudgedFile(files, disk, view, decided, done, a))
  }

  ghost predicate JudgedFile(
    files: seq<ScannedFile>, disk: Disk, view: map<nat, DuplicateKind>,
    decided: set<nat>, done: set<(nat, nat)>, a: nat)
  {
    && a in view && !view[a].Possible?
    && Current(files, disk, a) && BucketKey(StampOf(disk, files[a].path)) in done
    && (view[a].Exact? ==> HasOriginal(files, disk, view, decided, a))
    && (view[a].Original? ==> HasFollower(files, disk, view, decided, a))
  }

  ghost predicate HasOriginal(
    files: seq<ScannedFile>, disk: Disk, view: map<nat, DuplicateKind>, decided: set<nat>, a: nat)
  {
    exists o :: o in decided && o in view && view[o].Original? && IsKept(files, disk, o, a)
  }

  ghost predicate HasFollower(
    files: seq<ScannedFile>, disk: Disk, view: map<nat, DuplicateKind>, decided: set<nat>, a: nat)
  {
    exists e :: e in decided && e in view && view[e].Exact? && IsKept(files, disk, a, e)
  }

  /** Without faults: the exact copies are known, and only first names are judged. */
  ghost predicate ExactComplete(
    files: seq<ScannedFile>, disk: Disk, view: map<nat, DuplicateKind>, decided: set<nat>, done: set<(nat, nat)>)
  {
    forall a :: 0 <= a < |files| && Current(files, disk, a) && BucketKey(StampOf(disk, files[a].path)) in done ==>
      && (IsExactCopy(files, disk, a) <==> a in decided && a in view && view[a].Exact?)
      && (a in decided ==> FirstName(files, disk, a))
  }

  ghost function Indexes(members: seq<Candidate>): (indexes: set<nat>)
    ensures forall a :: a in indexes <==> exists i :: 0 <= i < |members| && members[i].index == a
  {
    set i | 0 <= i < |members| :: members[i].index
  }

  /** Verdicts for a fresh class leave the older ones alone. */
  lemma ClassJudged(
    files: seq<ScannedFile>, disk: Disk, names: map<nat, DuplicateKind>, view: map<nat, DuplicateKind>,
    decided: set<nat>, done: set<(nat, nat)>, members: seq<Candidate>, after: map<nat, DuplicateKind>)
    requires Judged(files, disk, names, view, decided, done) && IsClass(files, disk, members)
    requires |members| > 1
    requires forall i :: 0 <= i < |members| ==>
               members[i].index !in decided && BucketKey(members[i].stamp) in done
    requires ClassWritten(view, after, members, |members|)
    ensures Judged(files, disk, names, after, decided + Indexes(members), done)
  {
    WrittenParts(view, after, members);
    hide *;
    var now := decided + Indexes(members);
    forall a | a in now ensures JudgedFile(files, disk, after, now, done, a) {
      if a in decided {
        OlderVerdictStands(files, disk, names, view, decided, done, members, after, a);
      } else {
        var i := MemberOf(members, a);
        NewVerdictStands(files, disk, decided, done, members, after, i);
      }
    }
    JudgedTogether(files, disk, names, view, decided, done, members, after);
  }

  lemma WrittenParts(view: map<nat, DuplicateKind>, after: map<nat, DuplicateKind>, members: seq<Candidate>)
    requires ClassWritten(view, after, members, |members|)
    ensures forall j :: 0 <= j < |members| ==> members[j].index in after && after[members[j].index] == KindAt(j)
  {
  }

  lemma MemberOf(members: seq<Candidate>, a: nat) returns (i: nat)
    requires a in Indexes(members)
    ensures i < |members| && members[i].index == a
  {
    i :| 0 <= i < |members| && members[i].index == a;
  }

  lemma OlderVerdictStands(
    files: seq<ScannedFile>, disk: Disk, names: map<nat, DuplicateKind>, view: map<nat, DuplicateKind>,
    decided: set<nat>, done: set<(nat, nat)>, members: seq<Candidate>, after: map<nat, DuplicateKind>, a: nat)
    requires Judged(files, disk, names, view, decided, done) && a in decided
    requires forall i :: 0 <= i < |members| ==> members[i].index !in decided
    requires ClassWritten(view, after, members, |members|)
    ensures JudgedFile(files, disk, after, decided + Indexes(members), done, a)
  {
    hide IsKept, Current, StampOf, ClassWritten;
    OlderVerdictsStay(view, decided, members, after);
    assert JudgedFile(files, disk, view, decided, done, a);
    if view[a].Exact? {
      var o :| o in decided && o in view && view[o].Original? && IsKept(files, disk, o, a);
      assert o in after && after[o].Original?;
    }
    if view[a].Original? {
      var e :| e in decided && e in view && view[e].Exact? && IsKept(files, disk, a, e);
      assert e in after && after[e].Exact?;
    }
  }

  lemma OlderVerdictsStay(
    view: map<nat, DuplicateKind>, decided: set<nat>, members: seq<Candidate>, after: map<nat, DuplicateKind>)
    requires ClassWritten(view, after, members, |members|)
    requires forall i :: 0 <= i < |members| ==> members[i].index !in decided
    ensures forall b :: b in decided && b in view ==> b in after && after[b] == view[b]
  {
    assert forall b :: b in decided ==> forall i :: 0 <= i < |members| ==> members[i].index != b;
  }

  lemma NewVerdictStands(
    files: seq<ScannedFile>, disk: Disk, decided: set<nat>, done: set<(nat, nat)>,
    members: seq<Candidate>, after: map<nat, DuplicateKind>, i: nat)
    requires IsClass(files, disk, members) && i < |members| && BucketKey(members[i].stamp) in done && |members| > 1
    requires forall j :: 0 <= j < |members| ==> members[j].index in after && after[members[j].index] == KindAt(j)
    ensures JudgedFile(files, disk, after, decided + Indexes(members), done, members[i].index)
  {
    hide IsKept, Current, StampOf, SameContent, SortedByAge, DistinctIdentities;
    assert IsCandidate(files, disk, members[i]);
    if i > 0 {
      FollowerIsKept(files, disk, members, i);
      assert members[0].index in Indexes(members) && after[members[0].index].Original?;
    } else {
      FollowerIsKept(files, disk, members, 1);
      assert members[1].index in Indexes(members) && after[members[1].index].Exact?;
    }
  }

  lemma JudgedTogether(
    files: seq<ScannedFile>, disk: Disk, names: map<nat, DuplicateKind>, view: map<nat, DuplicateKind>,
    decided: set<nat>, done: set<(nat, nat)>, members: seq<Candidate>, after: map<nat, DuplicateKind>)
    requires Judged(files, disk, names, view, decided, done) && ClassWritten(view, after, members, |members|)
    requires forall a :: a in decided + Indexes(members) ==>
               JudgedFile(files, disk, after, decided + Indexes(members), done, a)
    ensures Judged(files, disk, names, after, decided + Indexes(members), done)
  {
    hide JudgedFile;
    forall a | a in after ensures a in names.Keys + (decided + Indexes(members)) {
      if a !in Indexes(members) {
        assert a in view;
      }
    }
  }

  ghost predicate InOneOf(classes: seq<seq<Candidate>>, k: nat, a: nat)
    requires k <= |classes|
  {
    exists j :: 0 <= j < k && |classes[j]| > 1 && a in Indexes(classes[j])
  }

  ghost predicate ClassInView(view: map<nat, DuplicateKind>, now: set<nat>, members: seq<Candidate>) {
    forall i :: 0 <= i < |members| ==>
      members[i].index in now && members[i].index in view && view[members[i].index] == KindAt(i)
  }

  /** The verdicts of the first `k` classes are in the list. */
  ghost predicate Applied(
    before: map<nat, DuplicateKind>, view: map<nat, DuplicateKind>, classes: seq<seq<Candidate>>, k: nat,
    decided: set<nat>, now: set<nat>)
    requires k <= |classes|
  {
    && (forall j :: 0 <= j < k && |classes[j]| > 1 ==> ClassInView(view, now, classes[j]))
    && decided <= now
    && (forall a :: a in now && a !in decided ==> InOneOf(classes, k, a))
    && (forall a :: a in view && (a in decided || a !in now) ==> a in before && view[a] == before[a])
  }

  /** No file is in two classes, and none was decided in an earlier bucket. */
  ghost predicate ClassesAreNew(classes: seq<seq<Candidate>>, decided: set<nat>) {
    && (forall j, a :: 0 <= j < |classes| && a in Indexes(classes[j]) ==> a !in decided)
    && (forall j, l, a :: 0 <= j < |classes| && 0 <= l < |classes|
                          && a in Indexes(classes[j]) && a in Indexes(classes[l]) ==>
          j == l)
  }

  lemma ClassApplied(
    before: map<nat, DuplicateKind>, view: map<nat, DuplicateKind>, classes: seq<seq<Candidate>>, k: nat,
    decided: set<nat>, now: set<nat>, after: map<nat, DuplicateKind>)
    requires k < |classes| && Applied(before, view, classes, k, decided, now) && ClassesAreNew(classes, decided)
    requires |classes[k]| > 1 && ClassWritten(view, after, classes[k], |classes[k]|)
    ensures Applied(before, after, classes, k + 1, decided, now + Indexes(classes[k]))
    ensures forall i :: 0 <= i < |classes[k]| ==> classes[k][i].index !in now
  {
    var members, later := classes[k], now + Indexes(classes[k]);
    NotDecidedYet(before, view, classes, k, decided, now);
    forall j | 0 <= j < k + 1 && |classes[j]| > 1 ensures ClassInView(after, later, classes[j]) {
      if j < k {
        VerdictsStay(view, after, now, classes[j], members);
      }
    }
    forall a | a in later && a !in decided ensures InOneOf(classes, k + 1, a) {
      OneOfMore(classes, k, a);
    }
    OthersStay(before, view, after, members, decided, now);
  }

  lemma NotDecidedYet(
    before: map<nat, DuplicateKind>, view: map<nat, DuplicateKind>, classes: seq<seq<Candidate>>, k: nat,
    decided: set<nat>, now: set<nat>)
    requires k < |classes| && Applied(before, view, classes, k, decided, now) && ClassesAreNew(classes, decided)
    ensures forall a :: a in Indexes(classes[k]) ==> a !in now
  {
    hide ClassInView;
    forall a | a in Indexes(classes[k]) ensures a !in now {
      assert !InOneOf(classes, k, a) && a !in decided;
    }
  }

  lemma VerdictsStay(
    view: map<nat, DuplicateKind>, after: map<nat, DuplicateKind>, now: set<nat>,
    earlier: seq<Candidate>, members: seq<Candidate>)
    requires ClassInView(view, now, earlier) && ClassWritten(view, after, members, |members|)
    requires forall a :: a in Indexes(members) ==> a !in now
    ensures ClassInView(after, now + Indexes(members), earlier)
  {
    forall i | 0 <= i < |earlier| ensures earlier[i].index in after && after[earlier[i].index] == KindAt(i) {
      assert earlier[i].index !in Indexes(members);
    }
  }

  lemma OthersStay(
    before: map<nat, DuplicateKind>, view: map<nat, DuplicateKind>, after: map<nat, DuplicateKind>,
    members: seq<Candidate>, decided: set<nat>, now: set<nat>)
    requires ClassWritten(view, after, members, |members|) && decided <= now
    requires forall a :: a in Indexes(members) ==> a !in now
    requires forall a :: a in view && (a in decided || a !in now) ==> a in before && view[a] == before[a]
    ensures forall a :: a in after && (a in decided || a !in now + Indexes(members)) ==>
              a in before && after[a] == before[a]
  {
    forall a | a in after && (a in decided || a !in now + Indexes(members))
      ensures a in before && after[a] == before[a]
    {
      assert a !in Indexes(members);
    }
  }

  lemma OneOfMore(classes: seq<seq<Candidate>>, k: nat, a: nat)
    requires k < |classes| && (InOneOf(classes, k, a) || (|classes[k]| > 1 && a in Indexes(classes[k])))
    ensures InOneOf(classes, k + 1, a)
  {
    if InOneOf(classes, k, a) {
      var j :| 0 <= j < k && |classes[j]| > 1 && a in Indexes(classes[j]);
      assert 0 <= j < k + 1 && |classes[j]| > 1 && a in Indexes(classes[j]);
    }
  }

  lemma ClassSkipped(
    before: map<nat, DuplicateKind>, view: map<nat, DuplicateKind>, classes: seq<seq<Candidate>>, k: nat,
    decided: set<nat>, now: set<nat>)
    requires k < |classes| && Applied(before, view, classes, k, decided, now) && |classes[k]| <= 1
    ensures Applied(before, view, classes, k + 1, decided, now)
  {
    hide InOneOf, ClassInView;
    forall a | a in now && a !in decided ensures InOneOf(classes, k + 1, a) {
      OneOfMore(classes, k, a);
    }
  }

  ghost predicate InKey(classes: seq<seq<Candidate>>, done: set<(nat, nat)>) {
    forall j, i :: 0 <= j < |classes| && 0 <= i < |classes[j]| ==> BucketKey(classes[j][i].stamp) in done
  }

  lemma MoreDone(
    files: seq<ScannedFile>, disk: Disk, names: map<nat, DuplicateKind>, view: map<nat, DuplicateKind>,
    decided: set<nat>, done: set<(nat, nat)>, key: (nat, nat))
    requires Judged(files, disk, names, view, decided, done)
    ensures Judged(files, disk, names, view, decided, done + {key})
  {
    hide HasOriginal, HasFollower, Current, StampOf;
    forall a | a in decided ensures JudgedFile(files, disk, view, decided, done + {key}, a) {
      assert JudgedFile(files, disk, view, decided, done, a);
    }
  }

  method ApplyClasses(
    files: seq<ScannedFile>, disk: Disk, classes: seq<seq<Candidate>>, entries: seq<Entry>, positions: map<nat, nat>,
    ghost names: map<nat, DuplicateKind>, ghost decided: set<nat>, ghost done: set<(nat, nat)>)
    returns (newEntries: seq<Entry>, newPositions: map<nat, nat>, ghost now: set<nat>)
    requires Indexed(entries, positions) && Judged(files, disk, names, View(entries, positions), decided, done)
    requires forall k :: 0 <= k < |classes| ==> IsClass(files, disk, classes[k])
    requires ClassesAreNew(classes, decided) && InKey(classes, done)
    ensures Indexed(newEntries, newPositions)
    ensures Judged(files, disk, names, View(newEntries, newPositions), now, done)
    ensures Applied(View(entries, positions), View(newEntries, newPositions), classes, |classes|, decided, now)
  {
    hide *;
    newEntries, newPositions, now := entries, positions, decided;
    ghost var before := View(entries, positions);
    NothingApplied(before, classes, decided);
    for k := 0 to |classes|
      invariant Indexed(newEntries, newPositions)
      invariant Judged(files, disk, names, View(newEntries, newPositions), now, done)
      invariant Applied(before, View(newEntries, newPositions), classes, k, decided, now)
    {
      ghost var view := View(newEntries, newPositions);
      if |classes[k]| > 1 {
        ClassParts(files, disk, classes[k]);
        newEntries, newPositions := ApplyClass(files, disk, classes[k], newEntries, newPositions);
        ghost var after := View(newEntries, newPositions);
        ClassApplied(before, view, classes, k, decided, now, after);
        KeysOfClass(classes, done, k);
        ClassJudged(files, disk, names, view, now, done, classes[k], after);
        now := now + Indexes(classes[k]);
      } else {
        ClassSkipped(before, view, classes, k, decided, now);
      }
    }
  }

  lemma NothingApplied(before: map<nat, DuplicateKind>, classes: seq<seq<Candidate>>, decided: set<nat>)
    ensures Applied(before, before, classes, 0, decided, decided)
  {
  }

  lemma ClassParts(files: seq<ScannedFile>, disk: Disk, members: seq<Candidate>)
    requires IsClass(files, disk, members)
    ensures AreCandidates(files, disk, members)
  {
  }

  lemma KeysOfClass(classes: seq<seq<Candidate>>, done: set<(nat, nat)>, k: nat)
    requires InKey(classes, done) && k < |classes|
    ensures forall i :: 0 <= i < |classes[k]| ==> BucketKey(classes[k][i].stamp) in done
  {
  }

  /** After a bucket the exact copies of its key are exactly the followers. */
  lemma BucketIsComplete(
    files: seq<ScannedFile>, disk: Disk, names: map<nat, DuplicateKind>, before: map<nat, DuplicateKind>,
    view: map<nat, DuplicateKind>, decided: set<nat>, now: set<nat>, done: set<(nat, nat)>, key: (nat, nat),
    sorted: seq<Candidate>, retained: seq<Candidate>, classes: seq<seq<Candidate>>)
    requires Judged(files, disk, names, before, decided, done) && ExactComplete(files, disk, before, decided, done)
    requires Applied(before, view, classes, |classes|, decided, now) && key !in done && DistinctPaths(files)
    requires view.Keys == names.Keys + now
    requires IsSplit(files, disk, sorted, retained, classes) && HeadsDiffer(files, disk, classes)
    requires BucketHasAll(files, disk, key, sorted) && forall c :: c in sorted ==> BucketKey(c.stamp) == key
    ensures ExactComplete(files, disk, view, now, done + {key})
  {
    hide IsExactCopy, AgeAtMost, FirstNameRetained, SizeShared, FirstName;
    forall a | 0 <= a < |files| && Current(files, disk, a) && BucketKey(StampOf(disk, files[a].path)) in done + {key}
      ensures IsExactCopy(files, disk, a) <==> a in now && a in view && view[a].Exact?
      ensures a in now ==> FirstName(files, disk, a)
    {
      if BucketKey(StampOf(disk, files[a].path)) == key {
        OfThisKey(files, disk, names, before, view, decided, now, done, key, sorted, retained, classes, a);
      } else {
        OfOtherKey(files, disk, before, view, decided, now, key, sorted, retained, classes, a);
      }
    }
  }

  lemma MembersAreSorted(
    files: seq<ScannedFile>, disk: Disk, sorted: seq<Candidate>, retained: seq<Candidate>, classes: seq<seq<Candidate>>,
    j: nat, i: nat)
    requires IsSplit(files, disk, sorted, retained, classes) && j < |classes| && i < |classes[j]|
    ensures classes[j][i] in retained && classes[j][i] in sorted && IsCandidate(files, disk, classes[j][i])
  {
    hide FirstNameRetained, IsCandidate, SameContent, OlderCandidate;
    assert retained[..|retained|] == retained;
    assert IsClass(files, disk, classes[j]) && classes[j][i] in classes[j];
  }

  lemma OfThisKey(
    files: seq<ScannedFile>, disk: Disk, names: map<nat, DuplicateKind>, before: map<nat, DuplicateKind>,
    view: map<nat, DuplicateKind>, decided: set<nat>, now: set<nat>, done: set<(nat, nat)>, key: (nat, nat),
    sorted: seq<Candidate>, retained: seq<Candidate>, classes: seq<seq<Candidate>>, a: nat)
    requires Judged(files, disk, names, before, decided, done) && key !in done && DistinctPaths(files)
    requires Applied(before, view, classes, |classes|, decided, now)
    requires IsSplit(files, disk, sorted, retained, classes) && HeadsDiffer(files, disk, classes)
    requires BucketHasAll(files, disk, key, sorted) && forall c :: c in sorted ==> BucketKey(c.stamp) == key
    requires Current(files, disk, a) && BucketKey(StampOf(disk, files[a].path)) == key
    ensures IsExactCopy(files, disk, a) <==> a in now && a in view && view[a].Exact?
    ensures a in now ==> FirstName(files, disk, a)
  {
    hide IsExactCopy, AgeAtMost, IsSplit, SizeShared, HeadsDiffer, BucketHasAll, HasOriginal, HasFollower, Current,
      FirstName;
    if IsExactCopy(files, disk, a) {
      ExactIsFollower(files, disk, key, sorted, retained, classes, a);
      var k :| 0 <= k < |classes| && FollowsIn(classes[k], a);
      var i :| 0 < i < |classes[k]| && classes[k][i].index == a;
      assert ClassInView(view, now, classes[k]);
    }
    if a in now {
      assert a !in decided by { assert a in decided ==> JudgedFile(files, disk, before, decided, done, a); }
      assert InOneOf(classes, |classes|, a);
      var k :| 0 <= k < |classes| && |classes[k]| > 1 && a in Indexes(classes[k]);
      var i :| 0 <= i < |classes[k]| && classes[k][i].index == a;
      MemberIsFirst(files, disk, key, sorted, retained, classes, k, i);
      assert ClassInView(view, now, classes[k]);
      if view[a].Exact? {
        FollowerIsExact(files, disk, key, sorted, retained, classes, k, i);
      }
    }
  }

  lemma OfOtherKey(
    files: seq<ScannedFile>, disk: Disk, before: map<nat, DuplicateKind>, view: map<nat, DuplicateKind>,
    decided: set<nat>, now: set<nat>, key: (nat, nat),
    sorted: seq<Candidate>, retained: seq<Candidate>, classes: seq<seq<Candidate>>, a: nat)
    requires Applied(before, view, classes, |classes|, decided, now)
    requires IsSplit(files, disk, sorted, retained, classes) && forall c :: c in sorted ==> BucketKey(c.stamp) == key
    requires Current(files, disk, a) && BucketKey(StampOf(disk, files[a].path)) != key
    requires decided <= before.Keys && now <= view.Keys
    ensures a in now <==> a in decided
    ensures a in decided ==> view[a] == before[a]
  {
    hide IsSplit, Current;
    if a in now && a !in decided {
      assert InOneOf(classes, |classes|, a);
      var k :| 0 <= k < |classes| && |classes[k]| > 1 && a in Indexes(classes[k]);
      var i :| 0 <= i < |classes[k]| && classes[k][i].index == a;
      MembersAreSorted(files, disk, sorted, retained, classes, k, i);
    }
  }

  method JudgeBucket(
    files: seq<ScannedFile>, disk: Disk, key: (nat, nat), bucket: seq<Candidate>,
    entries: seq<Entry>, positions: map<nat, nat>, reader: Reader,
    ghost names: map<nat, DuplicateKind>, ghost decided: set<nat>, ghost done: set<(nat, nat)>)
    returns (newEntries: seq<Entry>, newPositions: map<nat, nat>, ghost now: set<nat>)
    requires DistinctPaths(files) && AreCandidates(files, disk, bucket) && key !in done
    requires forall i :: 0 <= i < |bucket| ==> BucketKey(bucket[i].stamp) == key
    requires Indexed(entries, positions) && Judged(files, disk, names, View(entries, positions), decided, done)
    modifies reader
    ensures reader.faults >= old(reader.faults) && Indexed(newEntries, newPositions)
    ensures Judged(files, disk, names, View(newEntries, newPositions), now, done + {key})
    ensures reader.faults == old(reader.faults) && BucketHasAll(files, disk, key, bucket)
            && ExactComplete(files, disk, View(entries, positions), decided, done) ==>
              ExactComplete(files, disk, View(newEntries, newPositions), now, done + {key})
  {
    hide *;
    CandidatesHaveAge(files, disk, bucket);
    var sorted := SortBy(bucket, OlderCandidate(files));
    SortedBucket(files, disk, key, bucket, sorted);
    var retained := FirstNames(files, sorted);
    RetainedCanBeSplit(files, disk, sorted, retained);
    var classes := SplitClasses(files, disk, retained, reader);
    SplitFound(files, disk, sorted, retained, classes);
    ghost var before := View(entries, positions);
    MoreDone(files, disk, names, before, decided, done, key);
    NewClasses(files, disk, names, before, decided, done, key, sorted, retained, classes);
    newEntries, newPositions, now :=
      ApplyClasses(files, disk, classes, entries, positions, names, decided, done + {key});
    if reader.faults == old(reader.faults) && BucketHasAll(files, disk, key, bucket)
       && ExactComplete(files, disk, before, decided, done)
    {
      ghost var view := View(newEntries, newPositions);
      JudgedKeys(files, disk, names, view, now, done + {key});
      BucketIsComplete(files, disk, names, before, view, decided, now, done, key, sorted, retained, classes);
    }
  }

  lemma SortedBucket(
    files: seq<ScannedFile>, disk: Disk, key: (nat, nat), bucket: seq<Candidate>, sorted: seq<Candidate>)
    requires AreCandidates(files, disk, bucket) && forall i :: 0 <= i < |bucket| ==> BucketKey(bucket[i].stamp) == key
    requires InOrder(sorted, OlderCandidate(files)) && multiset(sorted) == multiset(bucket)
    ensures SortedByAge(files, sorted) && AreCandidates(files, disk, sorted)
    ensures forall c :: c in sorted ==> BucketKey(c.stamp) == key
    ensures BucketHasAll(files, disk, key, bucket) ==> BucketHasAll(files, disk, key, sorted)
  {
    hide IsCandidate, Current, StampOf, SizeShared;
    forall c | c in sorted ensures c in bucket {
      assert c in multiset(sorted);
    }
    forall c | c in bucket ensures c in sorted {
      assert c in multiset(bucket);
    }
    forall i, j | 0 <= i < j < |sorted| ensures sorted[i].index != sorted[j].index {
      assert sorted[i] in sorted && sorted[j] in sorted;
      CandidatesOccurOnce(files, disk, bucket, sorted[i]);
      OnceMeansDistinct(sorted, i, j);
      if sorted[i].index == sorted[j].index {
        OneCandidatePerIndex(files, disk, bucket, sorted[i], sorted[j]);
      }
    }
    forall i | 0 <= i < |sorted| ensures IsCandidate(files, disk, sorted[i]) {
      assert sorted[i] in sorted && sorted[i] in bucket;
    }
  }

  lemma OneCandidatePerIndex(
    files: seq<ScannedFile>, disk: Disk, bucket: seq<Candidate>, c: Candidate, d: Candidate)
    requires AreCandidates(files, disk, bucket) && c in bucket && d in bucket && c.index == d.index
    ensures c == d
  {
    hide IsCandidate;
    var i :| 0 <= i < |bucket| && bucket[i] == c;
    var j :| 0 <= j < |bucket| && bucket[j] == d;
  }

  lemma {:induction false} CandidatesOccurOnce(
    files: seq<ScannedFile>, disk: Disk, bucket: seq<Candidate>, c: Candidate)
    requires AreCandidates(files, disk, bucket)
    ensures multiset(bucket)[c] <= 1
  {
    hide IsCandidate;
    if bucket != [] {
      var n := |bucket| - 1;
      assert bucket == bucket[..n] + [bucket[n]];
      CandidatesOccurOnce(files, disk, bucket[..n], c);
      assert bucket[n] !in bucket[..n];
      assert bucket[n] !in multiset(bucket[..n]);
    }
  }

  lemma RetainedCanBeSplit(
    files: seq<ScannedFile>, disk: Disk, sorted: seq<Candidate>, retained: seq<Candidate>)
    requires AreCandidates(files, disk, sorted) && SortedByAge(files, retained) && DistinctIdentities(retained)
    requires forall c :: c in retained ==> c in sorted
    ensures CanBeSplit(files, disk, retained)
  {
    hide IsCandidate, SortedByAge;
    forall i | 0 <= i < |retained| ensures IsCandidate(files, disk, retained[i]) {
      assert retained[i] in retained && retained[i] in sorted;
    }
    forall i, j | 0 <= i < j < |retained| ensures retained[i].index != retained[j].index {
      assert retained[i] in sorted && retained[j] in sorted;
      if retained[i].index == retained[j].index {
        OneCandidatePerIndex(files, disk, sorted, retained[i], retained[j]);
      }
    }
  }

  lemma SplitFound(
    files: seq<ScannedFile>, disk: Disk, sorted: seq<Candidate>, retained: seq<Candidate>, classes: seq<seq<Candidate>>)
    requires SortedByAge(files, sorted) && AreCandidates(files, disk, sorted) && CanBeSplit(files, disk, retained)
    requires forall c :: c in retained ==> c in sorted
    requires forall i :: 0 <= i < |sorted| ==> FirstNameRetained(files, sorted, retained, i)
    requires AreClasses(files, disk, retained, |retained|, classes)
    ensures IsSplit(files, disk, sorted, retained, classes)
    ensures forall k :: 0 <= k < |classes| ==> IsClass(files, disk, classes[k])
  {
    hide IsClass, FirstNameRetained, AreCandidates, SortedByAge, DistinctIdentities;
  }

  lemma JudgedKeys(
    files: seq<ScannedFile>, disk: Disk, names: map<nat, DuplicateKind>, view: map<nat, DuplicateKind>,
    decided: set<nat>, done: set<(nat, nat)>)
    requires Judged(files, disk, names, view, decided, done)
    ensures view.Keys == names.Keys + decided
    ensures forall a :: a in decided ==> Current(files, disk, a) && BucketKey(StampOf(disk, files[a].path)) in done
    ensures forall a :: a in view && a !in decided ==> view[a] == names[a]
  {
    hide Current, HasOriginal, HasFollower, StampOf;
    assert forall a :: a in decided ==> JudgedFile(files, disk, view, decided, done, a);
  }

  lemma NewClasses(
    files: seq<ScannedFile>, disk: Disk, names: map<nat, DuplicateKind>, view: map<nat, DuplicateKind>,
    decided: set<nat>, done: set<(nat, nat)>, key: (nat, nat),
    sorted: seq<Candidate>, retained: seq<Candidate>, classes: seq<seq<Candidate>>)
    requires Judged(files, disk, names, view, decided, done) && key !in done
    requires IsSplit(files, disk, sorted, retained, classes) && forall c :: c in sorted ==> BucketKey(c.stamp) == key
    ensures ClassesAreNew(classes, decided) && InKey(classes, done + {key})
  {
    hide IsSplit, Judged, StampOf, Current;
    JudgedKeys(files, disk, names, view, decided, done);
    forall j, i | 0 <= j < |classes| && 0 <= i < |classes[j]|
      ensures BucketKey(classes[j][i].stamp) == key && classes[j][i].index !in decided
    {
      MembersAreSorted(files, disk, sorted, retained, classes, j, i);
      CandidateParts(files, disk, classes[j][i]);
    }
    forall j, l, a | 0 <= j < |classes| && 0 <= l < |classes| && a in Indexes(classes[j]) && a in Indexes(classes[l])
      ensures j == l
    {
      var x :| 0 <= x < |classes[j]| && classes[j][x].index == a;
      var y :| 0 <= y < |classes[l]| && classes[l][y].index == a;
      OneClassPerFile(files, disk, sorted, retained, classes, j, x, l, y);
    }
  }

  lemma CandidateParts(files: seq<ScannedFile>, disk: Disk, c: Candidate)
    requires IsCandidate(files, disk, c)
    ensures Current(files, disk, c.index) && c.stamp == StampOf(disk, files[c.index].path)
  {
  }

  lemma OneClassPerFile(
    files: seq<ScannedFile>, disk: Disk, sorted: seq<Candidate>, retained: seq<Candidate>, classes: seq<seq<Candidate>>,
    j: nat, x: nat, l: nat, y: nat)
    requires IsSplit(files, disk, sorted, retained, classes)
    requires j < |classes| && x < |classes[j]| && l < |classes| && y < |classes[l]|
    requires classes[j][x].index == classes[l][y].index
    ensures j == l
  {
    hide IsCandidate, IsClass, SortedByAge, FirstNameRetained;
    MembersAreSorted(files, disk, sorted, retained, classes, j, x);
    MembersAreSorted(files, disk, sorted, retained, classes, l, y);
    OneCandidatePerIndex(files, disk, retained, classes[j][x], classes[l][y]);
  }
}
