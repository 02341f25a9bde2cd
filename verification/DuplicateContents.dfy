/** Comparing contents (`src/fs/duplicates.rs`, `classify_verified_duplicates`
    and `verify_delete_selection`) on a disk that holds still meanwhile. */
module DuplicateContents {
  import opened Prelude
  import opened Orderings
  import opened DuplicateNames
  import opened DuplicateGroups

  type Content = seq<bv8>

  /** Several names may belong to one inode; the digest depends on the content only. */
  datatype Inode = Inode(content: Content, modified: Option<nat>)
  datatype Disk = Disk(names: map<string, nat>, inodes: map<nat, Inode>, digest: Content -> nat)

  datatype Stamp = Stamp(size: nat, modified: Option<nat>, identity: nat, digest: nat)

  datatype Candidate = Candidate(index: nat, stamp: Stamp)

  predicate OnDisk(disk: Disk, path: string) {
    path in disk.names && disk.names[path] in disk.inodes
  }

  function ContentAt(disk: Disk, path: string): Content
    requires OnDisk(disk, path)
  {
    disk.inodes[disk.names[path]].content
  }

  function StampOf(disk: Disk, path: string): Stamp
    requires OnDisk(disk, path)
  {
    var inode := disk.inodes[disk.names[path]];
    Stamp(|inode.content|, inode.modified, disk.names[path], disk.digest(inode.content))
  }

  /** Reading may fail at any time; what failed is counted. */
  class Reader {
    var faults: nat

    constructor ()
      ensures faults == 0
    {
      faults := 0;
    }

    method Fails() returns (fault: bool)
      modifies this
      ensures faults == old(faults) + if fault then 1 else 0
    {
      fault := *;
      if fault {
        faults := faults + 1;
      }
    }

    method Fingerprint(disk: Disk, path: string) returns (stamp: Option<Stamp>)
      modifies this
      ensures faults >= old(faults)
      ensures stamp.Some? ==> OnDisk(disk, path) && stamp.value == StampOf(disk, path) && faults == old(faults)
      ensures stamp.None? && faults == old(faults) ==> !OnDisk(disk, path)
    {
      var fault := Fails();
      stamp := if OnDisk(disk, path) && !fault then Some(StampOf(disk, path)) else None;
    }

    method Equal(disk: Disk, a: string, b: string) returns (equal: bool)
      modifies this
      ensures faults >= old(faults)
      ensures equal ==> OnDisk(disk, a) && OnDisk(disk, b) && ContentAt(disk, a) == ContentAt(disk, b)
      ensures !equal && faults == old(faults) ==>
                !OnDisk(disk, a) || !OnDisk(disk, b) || ContentAt(disk, a) != ContentAt(disk, b)
    {
      var fault := Fails();
      equal := OnDisk(disk, a) && OnDisk(disk, b) && !fault && ContentAt(disk, a) == ContentAt(disk, b);
    }
  }

  /** The file is still what the scan saw. */
  predicate Current(files: seq<ScannedFile>, disk: Disk, a: nat) {
    && a < |files| && OnDisk(disk, files[a].path)
    && StampOf(disk, files[a].path).size == files[a].size
    && StampOf(disk, files[a].path).modified == files[a].modified
  }

  ghost predicate SameContent(files: seq<ScannedFile>, disk: Disk, a: nat, b: nat) {
    && Current(files, disk, a) && Current(files, disk, b)
    && ContentAt(disk, files[a].path) == ContentAt(disk, files[b].path)
  }

  ghost predicate SameInode(files: seq<ScannedFile>, disk: Disk, a: nat, b: nat)
    requires Current(files, disk, a) && Current(files, disk, b)
  {
    disk.names[files[a].path] == disk.names[files[b].path]
  }

  ghost predicate IsCandidate(files: seq<ScannedFile>, disk: Disk, c: Candidate) {
    Current(files, disk, c.index) && c.stamp == StampOf(disk, files[c.index].path)
  }

  ghost predicate AreCandidates(files: seq<ScannedFile>, disk: Disk, bucket: seq<Candidate>) {
    && (forall i :: 0 <= i < |bucket| ==> IsCandidate(files, disk, bucket[i]))
    && (forall i, j :: 0 <= i < j < |bucket| ==> bucket[i].index != bucket[j].index)
  }

  // ----- Buckets of equal size and digest -----

  function BucketKey(stamp: Stamp): (nat, nat) {
    (stamp.size, stamp.digest)
  }

  function Sizes(files: seq<ScannedFile>): (sizes: seq<nat>)
    ensures |sizes| == |files| && forall i :: 0 <= i < |files| ==> sizes[i] == files[i].size
  {
    seq(|files|, i requires 0 <= i < |files| => files[i].size)
  }

  ghost predicate SizeShared(files: seq<ScannedFile>, a: nat)
    requires a < |files|
  {
    exists b :: 0 <= b < |files| && b != a && files[b].size == files[a].size
  }

  ghost predicate InBucket(buckets: map<(nat, nat), seq<Candidate>>, c: Candidate) {
    BucketKey(c.stamp) in buckets && c in buckets[BucketKey(c.stamp)]
  }

  ghost predicate BucketsSound(files: seq<ScannedFile>, disk: Disk, n: nat, buckets: map<(nat, nat), seq<Candidate>>) {
    forall k :: k in buckets ==>
      && AreCandidates(files, disk, buckets[k])
      && forall i :: 0 <= i < |buckets[k]| ==> BucketKey(buckets[k][i].stamp) == k && buckets[k][i].index < n
  }

  ghost predicate BucketsComplete(
    files: seq<ScannedFile>, disk: Disk, n: nat, buckets: map<(nat, nat), seq<Candidate>>)
  {
    forall a :: 0 <= a < n <= |files| && Current(files, disk, a) && SizeShared(files, a) ==>
      InBucket(buckets, Candidate(a, StampOf(disk, files[a].path)))
  }

  function WithCandidate(buckets: map<(nat, nat), seq<Candidate>>, c: Candidate): map<(nat, nat), seq<Candidate>> {
    var key := BucketKey(c.stamp);
    buckets[key := (if key in buckets then buckets[key] else []) + [c]]
  }

  lemma CandidateAdded(
    files: seq<ScannedFile>, disk: Disk, n: nat, buckets: map<(nat, nat), seq<Candidate>>, c: Candidate)
    requires BucketsSound(files, disk, n, buckets) && IsCandidate(files, disk, c) && c.index == n
    ensures BucketsSound(files, disk, n + 1, WithCandidate(buckets, c))
    ensures InBucket(WithCandidate(buckets, c), c)
    ensures BucketsComplete(files, disk, n, buckets) ==> BucketsComplete(files, disk, n + 1, WithCandidate(buckets, c))
  {
    hide Current, SizeShared;
    var after := WithCandidate(buckets, c);
    assert InBucket(after, c) by {
      assert after[BucketKey(c.stamp)][|after[BucketKey(c.stamp)]| - 1] == c;
    }
    forall d | InBucket(buckets, d) ensures InBucket(after, d) {
    }
  }

  /** The stamp of a file that is still what the scan saw. */
  method TryCandidate(files: seq<ScannedFile>, disk: Disk, index: nat, reader: Reader)
    returns (candidate: Option<Candidate>)
    requires index < |files|
    modifies reader
    ensures reader.faults >= old(reader.faults)
    ensures candidate.Some? ==> IsCandidate(files, disk, candidate.value) && candidate.value.index == index
    ensures candidate.None? && reader.faults == old(reader.faults) ==> !Current(files, disk, index)
  {
    var stamp := reader.Fingerprint(disk, files[index].path);
    if stamp.Some? && stamp.value.size == files[index].size && stamp.value.modified == files[index].modified {
      candidate := Some(Candidate(index, stamp.value));
    } else {
      candidate := None;
    }
  }

  method FillBuckets(files: seq<ScannedFile>, disk: Disk, reader: Reader)
    returns (buckets: map<(nat, nat), seq<Candidate>>)
    modifies reader
    ensures reader.faults >= old(reader.faults)
    ensures BucketsSound(files, disk, |files|, buckets)
    ensures reader.faults == old(reader.faults) ==> BucketsComplete(files, disk, |files|, buckets)
  {
    hide SizeShared, Current, InBucket, IsCandidate;
    var bySize := GroupBy(Sizes(files));
    buckets := map[];
    for index := 0 to |files|
      invariant BucketsSound(files, disk, index, buckets)
      invariant reader.faults >= old(reader.faults)
      invariant reader.faults == old(reader.faults) ==> BucketsComplete(files, disk, index, buckets)
    {
      assert files[index].size in bySize by { assert Sizes(files)[index] == files[index].size; }
      AloneInSize(files, index);
      if |bySize[files[index].size]| >= 2 {
        var candidate := TryCandidate(files, disk, index, reader);
        if candidate.Some? {
          CandidateAdded(files, disk, index, buckets, candidate.value);
          buckets := WithCandidate(buckets, candidate.value);
        }
      }
    }
  }

  lemma AloneInSize(files: seq<ScannedFile>, a: nat)
    requires a < |files|
    ensures SizeShared(files, a) ==> |Positions(Sizes(files), files[a].size)| >= 2
  {
    var positions := Positions(Sizes(files), files[a].size);
    if SizeShared(files, a) {
      var b :| 0 <= b < |files| && b != a && files[b].size == files[a].size;
      assert a in positions && b in positions;
    }
  }

  // ----- One bucket: oldest names of distinct inodes, split by content -----

  function OlderCandidate(files: seq<ScannedFile>): (Candidate, Candidate) -> bool {
    (a: Candidate, b: Candidate) =>
      a.index < |files| && b.index < |files| && AgeAtMost(files[a.index], files[b.index])
  }

  ghost predicate SortedByAge(files: seq<ScannedFile>, candidates: seq<Candidate>) {
    InOrder(candidates, OlderCandidate(files))
  }

  lemma CandidatesHaveAge(files: seq<ScannedFile>, disk: Disk, bucket: seq<Candidate>)
    requires AreCandidates(files, disk, bucket)
    ensures IsOrder(bucket, OlderCandidate(files))
  {
    hide AgeAtMost, StampOf;
    forall x, y | x in bucket && y in bucket ensures OlderCandidate(files)(x, y) || OlderCandidate(files)(y, x) {
      AgeIsTotal(files[x.index], files[y.index]);
    }
    forall x, y, z | x in bucket && y in bucket && z in bucket
                     && OlderCandidate(files)(x, y) && OlderCandidate(files)(y, z)
      ensures OlderCandidate(files)(x, z)
    {
      AgeIsTransitive(files[x.index], files[y.index], files[z.index]);
    }
  }

  ghost predicate HasIdentity(candidates: seq<Candidate>, identity: nat) {
    exists i :: 0 <= i < |candidates| && candidates[i].stamp.identity == identity
  }

  ghost predicate DistinctIdentities(candidates: seq<Candidate>) {
    forall i, j :: 0 <= i < j < |candidates| ==> candidates[i].stamp.identity != candidates[j].stamp.identity
  }

  /** The first candidate of every identity, in the same order. */
  method FirstNames(files: seq<ScannedFile>, sorted: seq<Candidate>) returns (retained: seq<Candidate>)
    requires SortedByAge(files, sorted)
    ensures SortedByAge(files, retained) && DistinctIdentities(retained)
    ensures forall c :: c in retained ==> c in sorted
    ensures forall i :: 0 <= i < |sorted| ==> FirstNameRetained(files, sorted, retained, i)
  {
    var seen: set<nat> := {};
    retained := [];
    for n := 0 to |sorted|
      invariant SortedByAge(files, retained) && DistinctIdentities(retained)
      invariant forall c :: c in retained ==> c in sorted[..n]
      invariant forall id :: id in seen <==> HasIdentity(retained, id)
      invariant forall i :: 0 <= i < n ==> FirstNameRetained(files, sorted, retained, i)
    {
      var next := sorted[n];
      if next.stamp.identity !in seen {
        ghost var before := retained;
        RetainsOne(files, sorted, before, n);
        retained := retained + [next];
        seen := seen + {next.stamp.identity};
      } else {
        RepeatsOne(files, sorted, retained, n);
      }
      assert sorted[..n + 1] == sorted[..n] + [next];
    }
  }

  /** `sorted[i]` or an older candidate of its identity is retained. */
  ghost predicate FirstNameRetained(
    files: seq<ScannedFile>, sorted: seq<Candidate>, retained: seq<Candidate>, i: nat)
    requires i < |sorted|
  {
    sorted[i] in retained
    || exists r :: r in retained && r.stamp.identity == sorted[i].stamp.identity && OlderCandidate(files)(r, sorted[i])
  }

  lemma RetainsOne(files: seq<ScannedFile>, sorted: seq<Candidate>, retained: seq<Candidate>, n: nat)
    requires SortedByAge(files, sorted) && n < |sorted| && SortedByAge(files, retained)
    requires forall c :: c in retained ==> c in sorted[..n]
    requires DistinctIdentities(retained) && !HasIdentity(retained, sorted[n].stamp.identity)
    ensures var now := retained + [sorted[n]];
            && SortedByAge(files, now) && DistinctIdentities(now)
            && (forall id :: HasIdentity(now, id) <==> id == sorted[n].stamp.identity || HasIdentity(retained, id))
            && (forall i :: 0 <= i < |sorted| && FirstNameRetained(files, sorted, retained, i)
                  ==> FirstNameRetained(files, sorted, now, i))
            && FirstNameRetained(files, sorted, now, n)
  {
    hide OlderCandidate;
    var now := retained + [sorted[n]];
    forall i | 0 <= i < |retained| ensures OlderCandidate(files)(retained[i], sorted[n]) {
      assert retained[i] in sorted[..n];
    }
    forall id ensures HasIdentity(now, id) <==> id == sorted[n].stamp.identity || HasIdentity(retained, id) {
      if HasIdentity(retained, id) {
        var i :| 0 <= i < |retained| && retained[i].stamp.identity == id;
        assert now[i].stamp.identity == id;
      }
      assert now[|retained|].stamp.identity == sorted[n].stamp.identity;
    }
    assert now[|retained|] in now;
  }

  lemma RepeatsOne(files: seq<ScannedFile>, sorted: seq<Candidate>, retained: seq<Candidate>, n: nat)
    requires SortedByAge(files, sorted) && n < |sorted|
    requires forall c :: c in retained ==> c in sorted[..n]
    requires HasIdentity(retained, sorted[n].stamp.identity)
    ensures FirstNameRetained(files, sorted, retained, n)
  {
    hide OlderCandidate;
    var i :| 0 <= i < |retained| && retained[i].stamp.identity == sorted[n].stamp.identity;
    assert retained[i] in retained && retained[i] in sorted[..n];
  }

  ghost predicate IsClass(files: seq<ScannedFile>, disk: Disk, members: seq<Candidate>) {
    && members != [] && SortedByAge(files, members) && DistinctIdentities(members)
    && AreCandidates(files, disk, members)
    && forall i :: 0 <= i < |members| ==> SameContent(files, disk, members[0].index, members[i].index)
  }

  /** The classes hold exactly the first `n` retained candidates, each once. */
  ghost predicate AreClasses(
    files: seq<ScannedFile>, disk: Disk, retained: seq<Candidate>, n: nat, classes: seq<seq<Candidate>>)
    requires n <= |retained|
  {
    && (forall k :: 0 <= k < |classes| ==> IsClass(files, disk, classes[k]))
    && (forall k, c :: 0 <= k < |classes| && c in classes[k] ==> c in retained[..n])
    && (forall i :: 0 <= i < n ==> InSomeClass(classes, retained[i]))
    && (forall k, l, c :: 0 <= k < |classes| && 0 <= l < |classes| && c in classes[k] && c in classes[l] ==> k == l)
  }

  ghost predicate InSomeClass(classes: seq<seq<Candidate>>, c: Candidate) {
    exists k :: 0 <= k < |classes| && c in classes[k]
  }

  ghost predicate HeadsDiffer(files: seq<ScannedFile>, disk: Disk, classes: seq<seq<Candidate>>) {
    && (forall k :: 0 <= k < |classes| ==> classes[k] != [])
    && (forall k, l :: 0 <= k < l < |classes| ==> !SameContent(files, disk, classes[k][0].index, classes[l][0].index))
  }

  ghost predicate CanBeSplit(files: seq<ScannedFile>, disk: Disk, retained: seq<Candidate>) {
    SortedByAge(files, retained) && DistinctIdentities(retained) && AreCandidates(files, disk, retained)
  }

  lemma ClassExtended(
    files: seq<ScannedFile>, disk: Disk, retained: seq<Candidate>, n: nat, members: seq<Candidate>)
    requires CanBeSplit(files, disk, retained) && n < |retained| && IsClass(files, disk, members)
    requires forall c :: c in members ==> c in retained[..n]
    requires SameContent(files, disk, members[0].index, retained[n].index)
    ensures IsClass(files, disk, members + [retained[n]])
  {
    hide OlderCandidate, SameContent, IsCandidate;
    var now := members + [retained[n]];
    forall i | 0 <= i < |members|
      ensures OlderCandidate(files)(members[i], retained[n])
      ensures members[i].index != retained[n].index && members[i].stamp.identity != retained[n].stamp.identity
    {
      assert members[i] in retained[..n];
    }
  }

  lemma ClassStarted(files: seq<ScannedFile>, disk: Disk, retained: seq<Candidate>, n: nat)
    requires CanBeSplit(files, disk, retained) && n < |retained|
    ensures IsClass(files, disk, [retained[n]])
  {
  }

  lemma NotPlacedYet(retained: seq<Candidate>, n: nat, files: seq<ScannedFile>, disk: Disk)
    requires AreCandidates(files, disk, retained) && n < |retained|
    ensures retained[n] !in retained[..n]
  {
  }

  lemma PlacedInClass(
    files: seq<ScannedFile>, disk: Disk, retained: seq<Candidate>, n: nat, classes: seq<seq<Candidate>>, k: nat)
    requires CanBeSplit(files, disk, retained) && n < |retained| && AreClasses(files, disk, retained, n, classes)
    requires k < |classes| && classes[k] != []
    requires SameContent(files, disk, classes[k][0].index, retained[n].index)
    ensures AreClasses(files, disk, retained, n + 1, classes[k := classes[k] + [retained[n]]])
    ensures HeadsDiffer(files, disk, classes) ==> HeadsDiffer(files, disk, classes[k := classes[k] + [retained[n]]])
  {
    hide SameContent, IsClass, AreCandidates, CanBeSplit;
    ClassExtended(files, disk, retained, n, classes[k]);
    SplitParts(files, disk, retained);
    NotPlacedYet(retained, n, files, disk);
    var now := classes[k := classes[k] + [retained[n]]];
    assert retained[..n + 1] == retained[..n] + [retained[n]];
    forall i | 0 <= i < n + 1 ensures InSomeClass(now, retained[i]) {
      if i < n {
        var l :| 0 <= l < |classes| && retained[i] in classes[l];
        assert retained[i] in now[l];
      } else {
        assert retained[n] in now[k];
      }
    }
  }

  lemma PlacedAlone(
    files: seq<ScannedFile>, disk: Disk, retained: seq<Candidate>, n: nat, classes: seq<seq<Candidate>>)
    requires CanBeSplit(files, disk, retained) && n < |retained| && AreClasses(files, disk, retained, n, classes)
    ensures AreClasses(files, disk, retained, n + 1, classes + [[retained[n]]])
    ensures HeadsDiffer(files, disk, classes)
            && (forall k :: 0 <= k < |classes| ==> !SameContent(files, disk, classes[k][0].index, retained[n].index))
            ==> HeadsDiffer(files, disk, classes + [[retained[n]]])
  {
    hide SameContent, IsClass, AreCandidates, CanBeSplit;
    ClassStarted(files, disk, retained, n);
    SplitParts(files, disk, retained);
    NotPlacedYet(retained, n, files, disk);
    var now := classes + [[retained[n]]];
    assert retained[..n + 1] == retained[..n] + [retained[n]];
    forall i | 0 <= i < n + 1 ensures InSomeClass(now, retained[i]) {
      if i < n {
        var l :| 0 <= l < |classes| && retained[i] in classes[l];
        assert retained[i] in now[l];
      } else {
        assert retained[n] in now[|classes|];
      }
    }
  }

  lemma SplitParts(files: seq<ScannedFile>, disk: Disk, retained: seq<Candidate>)
    requires CanBeSplit(files, disk, retained)
    ensures SortedByAge(files, retained) && DistinctIdentities(retained) && AreCandidates(files, disk, retained)
  {
  }

  /** The first class whose oldest member has the same bytes. */
  method FindClass(
    files: seq<ScannedFile>, disk: Disk, classes: seq<seq<Candidate>>, candidate: Candidate, reader: Reader)
    returns (found: Option<nat>)
    requires IsCandidate(files, disk, candidate)
    requires forall k :: 0 <= k < |classes| ==>
               classes[k] != [] && IsCandidate(files, disk, classes[k][0])
               && classes[k][0].stamp.identity != candidate.stamp.identity
    modifies reader
    ensures reader.faults >= old(reader.faults)
    ensures found.Some? ==>
              found.value < |classes| && SameContent(files, disk, classes[found.value][0].index, candidate.index)
    ensures reader.faults == old(reader.faults) && found.None? ==>
              forall k :: 0 <= k < |classes| ==> !SameContent(files, disk, classes[k][0].index, candidate.index)
  {
    found := None;
    for k := 0 to |classes|
      invariant reader.faults >= old(reader.faults)
      invariant reader.faults == old(reader.faults) ==>
                  forall j :: 0 <= j < k ==> !SameContent(files, disk, classes[j][0].index, candidate.index)
    {
      var representative := classes[k][0];
      if candidate.stamp.identity != representative.stamp.identity {
        var equal := reader.Equal(disk, files[candidate.index].path, files[representative.index].path);
        if equal {
          return Some(k);
        }
      }
    }
  }

  method SplitClasses(files: seq<ScannedFile>, disk: Disk, retained: seq<Candidate>, reader: Reader)
    returns (classes: seq<seq<Candidate>>)
    requires CanBeSplit(files, disk, retained)
    modifies reader
    ensures reader.faults >= old(reader.faults)
    ensures AreClasses(files, disk, retained, |retained|, classes)
    ensures reader.faults == old(reader.faults) ==> HeadsDiffer(files, disk, classes)
  {
    hide CanBeSplit, IsClass, SameContent, AreClasses, HeadsDiffer, IsCandidate;
    classes := [];
    NoClasses(files, disk, retained);
    for n := 0 to |retained|
      invariant AreClasses(files, disk, retained, n, classes)
      invariant reader.faults >= old(reader.faults)
      invariant reader.faults == old(reader.faults) ==> HeadsDiffer(files, disk, classes)
    {
      HeadsAreOthers(files, disk, retained, n, classes);
      var found := FindClass(files, disk, classes, retained[n], reader);
      match found {
        case Some(k) =>
          PlacedInClass(files, disk, retained, n, classes, k);
          classes := classes[k := classes[k] + [retained[n]]];
        case None =>
          PlacedAlone(files, disk, retained, n, classes);
          classes := classes + [[retained[n]]];
      }
    }
  }

  lemma NoClasses(files: seq<ScannedFile>, disk: Disk, retained: seq<Candidate>)
    ensures AreClasses(files, disk, retained, 0, []) && HeadsDiffer(files, disk, [])
  {
  }

  lemma HeadsAreOthers(
    files: seq<ScannedFile>, disk: Disk, retained: seq<Candidate>, n: nat, classes: seq<seq<Candidate>>)
    requires CanBeSplit(files, disk, retained) && n < |retained| && AreClasses(files, disk, retained, n, classes)
    ensures IsCandidate(files, disk, retained[n])
    ensures forall k :: 0 <= k < |classes| ==>
              classes[k] != [] && IsCandidate(files, disk, classes[k][0])
              && classes[k][0].stamp.identity != retained[n].stamp.identity
  {
    hide SameContent, IsCandidate;
    forall k | 0 <= k < |classes|
      ensures classes[k] != [] && IsCandidate(files, disk, classes[k][0])
              && classes[k][0].stamp.identity != retained[n].stamp.identity
    {
      assert IsClass(files, disk, classes[k]);
      assert classes[k][0] in classes[k] && classes[k][0] in retained[..n];
    }
  }
}
