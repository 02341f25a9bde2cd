/** The verified list of duplicates and the check before deleting from it
    (`src/fs/duplicates.rs`): a copy always stays behind. */
module DuplicateDeletion {
  import opened Prelude
  import opened Orderings
  import opened DuplicateNames
  import opened DuplicateGroups
  import opened DuplicateCandidates
  import opened DuplicateContents
  import opened DuplicateVerdicts

  ghost predicate OriginalListed(files: seq<ScannedFile>, disk: Disk, entries: seq<Entry>, a: nat) {
    exists y :: 0 <= y < |entries| && entries[y].kind.Original? && IsKept(files, disk, entries[y].index, a)
  }

  /** Every exact copy is listed beside an older Original with the same bytes. */
  ghost predicate CopiesHaveOriginals(files: seq<ScannedFile>, disk: Disk, entries: seq<Entry>) {
    && ListedOnce(entries)
    && (forall x :: 0 <= x < |entries| ==> entries[x].index < |files|)
    && (forall x :: 0 <= x < |entries| && entries[x].kind.Exact? ==>
          Current(files, disk, entries[x].index) && OriginalListed(files, disk, entries, entries[x].index))
  }

  /** The oldest file of its content, with a copy in another inode. */
  ghost predicate LeadsCopies(files: seq<ScannedFile>, disk: Disk, a: nat) {
    && FirstName(files, disk, a) && !IsExactCopy(files, disk, a)
    && exists e :: 0 <= e < |files| && IsKept(files, disk, a, e)
  }

  /** How a file is listed, if at all: content decides before names do. */
  ghost function VerdictOn(files: seq<ScannedFile>, disk: Disk, a: nat): Option<DuplicateKind>
    requires a < |files|
  {
    if IsExactCopy(files, disk, a) then Some(Exact)
    else if LeadsCopies(files, disk, a) then Some(Original)
    else if !HasPartner(files, a) then None
    else Some(if OldestConnected(files, a) then Original else Possible)
  }

  ghost predicate ExactListed(files: seq<ScannedFile>, disk: Disk, entries: seq<Entry>, o: nat) {
    exists y :: 0 <= y < |entries| && entries[y].kind.Exact? && IsKept(files, disk, o, entries[y].index)
  }

  /** Whoever is called Original is the oldest of its group or has an exact copy listed. */
  ghost predicate OriginalsAreJustified(files: seq<ScannedFile>, disk: Disk, entries: seq<Entry>) {
    forall x :: 0 <= x < |entries| && entries[x].kind.Original? && entries[x].index < |files| ==>
      || (HasPartner(files, entries[x].index) && OldestConnected(files, entries[x].index))
      || ExactListed(files, disk, entries, entries[x].index)
  }

  /** The file holds what the scan saw: same length, same time of writing. */
  ghost predicate AsScanned(file: ScannedFile, disk: Disk) {
    && file.path in disk.names && disk.names[file.path] in disk.inodes
    && var inode := disk.inodes[disk.names[file.path]];
       |inode.content| == file.size && inode.modified == file.modified
  }

  /** One sequence of bytes in two inodes. */
  ghost predicate AreCopies(a: ScannedFile, b: ScannedFile, disk: Disk) {
    && AsScanned(a, disk) && AsScanned(b, disk) && disk.names[a.path] != disk.names[b.path]
    && disk.inodes[disk.names[a.path]].content == disk.inodes[disk.names[b.path]].content
  }

  /** What an exact copy is, in words: some original, written down and not created
      later, has its bytes in another inode, and neither changed since the scan. */
  lemma ExactMeans(files: seq<ScannedFile>, disk: Disk, entries: seq<Entry>, x: nat)
    requires CopiesHaveOriginals(files, disk, entries) && x < |entries| && entries[x].kind.Exact?
    ensures exists y :: 0 <= y < |entries| && entries[y].kind.Original?
              && AreCopies(files[entries[x].index], files[entries[y].index], disk)
              && !CreatedBefore(files[entries[x].index], files[entries[y].index])
  {
    hide LexAtMost;
    assert OriginalListed(files, disk, entries, entries[x].index);
    var y :| 0 <= y < |entries| && entries[y].kind.Original? && IsKept(files, disk, entries[y].index, entries[x].index);
    assert AreCopies(files[entries[x].index], files[entries[y].index], disk);
  }

  ghost predicate CreatedBefore(a: ScannedFile, b: ScannedFile) {
    a.created.Some? && b.created.Some? && a.created.value < b.created.value
  }

  /** And every copy is found: the younger of two copies is one, if it is the only
      scanned name of its inode. */
  lemma CopyIsExact(files: seq<ScannedFile>, disk: Disk, a: nat, b: nat)
    requires a < |files| && b < |files| && AreCopies(files[a], files[b], disk) && CreatedBefore(files[a], files[b])
    requires forall c :: 0 <= c < |files| && c != b && files[c].path in disk.names ==>
               disk.names[files[c].path] != disk.names[files[b].path]
    ensures VerdictOn(files, disk, b) == Some(Exact)
  {
    hide LexAtMost;
    assert IsKept(files, disk, a, b);
    assert FirstName(files, disk, b);
  }

  /** Without faults the verdict on every file is fixed. */
  method VerifiedDuplicates(files: seq<ScannedFile>, disk: Disk, reader: Reader) returns (entries: seq<Entry>)
    requires DistinctPaths(files)
    modifies reader
    ensures CopiesHaveOriginals(files, disk, entries)
    ensures forall a :: 0 <= a < |files| && HasPartner(files, a) ==> Listed(entries, a)
    ensures forall x :: 0 <= x < |entries| && entries[x].kind.Possible? ==>
              HasPartner(files, entries[x].index) && !OldestConnected(files, entries[x].index)
    ensures OriginalsAreJustified(files, disk, entries)
    ensures reader.faults >= old(reader.faults)
    ensures reader.faults == old(reader.faults) ==>
              forall a, kind :: 0 <= a < |files| ==>
                (Entry(a, kind) in entries <==> VerdictOn(files, disk, a) == Some(kind))
  {
    hide *;
    var named := NameCandidates(files);
    NamesAreOnce(files, named);
    var buckets := FillBuckets(files, disk, reader);
    var positions := IndexEntries(named);
    entries := named;
    ghost var first := positions;
    ghost var names := View(named, first);
    ghost var decided: set<nat> := {};
    ghost var filled := reader.faults - old(reader.faults);
    var rest := buckets.Keys;
    assert buckets.Keys - rest == {};
    NothingJudged(files, disk, names);
    while rest != {}
      invariant rest <= buckets.Keys && reader.faults >= old(reader.faults) + filled
      invariant Indexed(entries, positions)
      invariant Judged(files, disk, names, View(entries, positions), decided, buckets.Keys - rest)
      invariant reader.faults == old(reader.faults) ==>
                  ExactComplete(files, disk, View(entries, positions), decided, buckets.Keys - rest)
    {
      var key :| key in rest;
      BucketParts(files, disk, buckets, key, filled);
      entries, positions, decided :=
        JudgeBucket(files, disk, key, buckets[key], entries, positions, reader, names, decided, buckets.Keys - rest);
      assert buckets.Keys - rest + {key} == buckets.Keys - (rest - {key});
      rest := rest - {key};
    }
    assert buckets.Keys - rest == buckets.Keys;
    AllJudged(files, disk, named, first, entries, positions, decided, buckets.Keys);
    if reader.faults == old(reader.faults) {
      AllVerdicts(files, disk, named, first, entries, positions, decided, buckets);
    }
  }

  lemma NamesAreOnce(files: seq<ScannedFile>, named: seq<Entry>)
    requires NameGroups(files, named)
    ensures ListedOnce(named)
  {
  }

  lemma NothingJudged(files: seq<ScannedFile>, disk: Disk, names: map<nat, DuplicateKind>)
    ensures Judged(files, disk, names, names, {}, {}) && ExactComplete(files, disk, names, {}, {})
  {
  }

  lemma BucketParts(
    files: seq<ScannedFile>, disk: Disk, buckets: map<(nat, nat), seq<Candidate>>, key: (nat, nat), faults: nat)
    requires BucketsSound(files, disk, |files|, buckets) && key in buckets
    requires faults == 0 ==> BucketsComplete(files, disk, |files|, buckets)
    ensures AreCandidates(files, disk, buckets[key])
    ensures forall i :: 0 <= i < |buckets[key]| ==> BucketKey(buckets[key][i].stamp) == key
    ensures faults == 0 ==> BucketHasAll(files, disk, key, buckets[key])
  {
    hide Current, SizeShared, StampOf, IsCandidate;
  }

  lemma KindInView(entries: seq<Entry>, positions: map<nat, nat>)
    requires Indexed(entries, positions)
    ensures ListedOnce(entries)
    ensures forall x :: 0 <= x < |entries| ==>
              && entries[x].index in View(entries, positions)
              && View(entries, positions)[entries[x].index] == entries[x].kind
    ensures forall a :: a in View(entries, positions) ==>
              positions[a] < |entries| && entries[positions[a]] == Entry(a, View(entries, positions)[a])
  {
  }

  lemma NameKinds(files: seq<ScannedFile>, named: seq<Entry>, first: map<nat, nat>, a: nat)
    requires NameGroups(files, named) && Indexed(named, first) && a in first
    ensures a < |files| && HasPartner(files, a) && !View(named, first)[a].Exact?
    ensures View(named, first)[a] == if OldestConnected(files, a) then Original else Possible
  {
    hide HasPartner, OldestConnected;
    KindInView(named, first);
    assert named[first[a]].index == a;
    assert Listed(named, a);
  }

  lemma VerdictOf(
    files: seq<ScannedFile>, disk: Disk, named: seq<Entry>, first: map<nat, nat>,
    entries: seq<Entry>, positions: map<nat, nat>, decided: set<nat>, done: set<(nat, nat)>, x: nat)
    requires NameGroups(files, named) && Indexed(named, first) && Indexed(entries, positions) && x < |entries|
    requires Judged(files, disk, View(named, first), View(entries, positions), decided, done)
    ensures entries[x].index < |files|
    ensures entries[x].kind.Exact? ==>
              && Current(files, disk, entries[x].index) && entries[x].index in decided
              && OriginalListed(files, disk, entries, entries[x].index)
    ensures entries[x].kind.Possible? ==>
              HasPartner(files, entries[x].index) && !OldestConnected(files, entries[x].index)
    ensures entries[x].kind.Original? ==>
              || (HasPartner(files, entries[x].index) && OldestConnected(files, entries[x].index))
              || ExactListed(files, disk, entries, entries[x].index)
  {
    hide IsKept, Current, HasPartner, OldestConnected, StampOf, NameGroups, View;
    var a := entries[x].index;
    var view := View(entries, positions);
    KindInView(entries, positions);
    if a in decided {
      assert JudgedFile(files, disk, view, decided, done, a);
      CurrentInRange(files, disk, a);
      if view[a].Exact? {
        var o :| o in decided && o in view && view[o].Original? && IsKept(files, disk, o, a);
        assert entries[positions[o]] == Entry(o, Original);
      } else {
        var e :| e in decided && e in view && view[e].Exact? && IsKept(files, disk, a, e);
        assert entries[positions[e]] == Entry(e, Exact);
      }
    } else {
      NameKinds(files, named, first, a);
    }
  }

  lemma CurrentInRange(files: seq<ScannedFile>, disk: Disk, a: nat)
    requires Current(files, disk, a)
    ensures a < |files|
  {
  }

  lemma AllJudged(
    files: seq<ScannedFile>, disk: Disk, named: seq<Entry>, first: map<nat, nat>,
    entries: seq<Entry>, positions: map<nat, nat>, decided: set<nat>, done: set<(nat, nat)>)
    requires NameGroups(files, named) && Indexed(named, first) && Indexed(entries, positions)
    requires Judged(files, disk, View(named, first), View(entries, positions), decided, done)
    ensures CopiesHaveOriginals(files, disk, entries)
    ensures forall a :: 0 <= a < |files| && HasPartner(files, a) ==> Listed(entries, a)
    ensures forall x :: 0 <= x < |entries| ==> entries[x].index < |files|
    ensures forall x :: 0 <= x < |entries| && entries[x].kind.Possible? ==>
              HasPartner(files, entries[x].index) && !OldestConnected(files, entries[x].index)
    ensures OriginalsAreJustified(files, disk, entries)
  {
    hide HasPartner, OldestConnected, OriginalListed, ExactListed, Current, NameGroups, JudgedFile, View, Indexed,
      StampOf;
    KindInView(entries, positions);
    forall x | 0 <= x < |entries|
      ensures entries[x].index < |files|
      ensures entries[x].kind.Exact? ==>
                Current(files, disk, entries[x].index) && OriginalListed(files, disk, entries, entries[x].index)
      ensures entries[x].kind.Possible? ==>
                HasPartner(files, entries[x].index) && !OldestConnected(files, entries[x].index)
      ensures entries[x].kind.Original? ==>
                || (HasPartner(files, entries[x].index) && OldestConnected(files, entries[x].index))
                || ExactListed(files, disk, entries, entries[x].index)
    {
      VerdictOf(files, disk, named, first, entries, positions, decided, done, x);
    }
    forall a | 0 <= a < |files| && HasPartner(files, a) ensures Listed(entries, a) {
      NameIsInView(files, named, first, a);
      assert entries[positions[a]].index == a;
    }
  }

  lemma NameIsInView(files: seq<ScannedFile>, named: seq<Entry>, first: map<nat, nat>, a: nat)
    requires NameGroups(files, named) && Indexed(named, first) && a < |files| && HasPartner(files, a)
    ensures a in View(named, first)
  {
    hide HasPartner, OldestConnected;
    assert Listed(named, a);
    var x :| 0 <= x < |named| && named[x].index == a;
  }

  lemma AllVerdicts(
    files: seq<ScannedFile>, disk: Disk, named: seq<Entry>, first: map<nat, nat>,
    entries: seq<Entry>, positions: map<nat, nat>, decided: set<nat>, buckets: map<(nat, nat), seq<Candidate>>)
    requires DistinctPaths(files)
    requires NameGroups(files, named) && Indexed(named, first) && Indexed(entries, positions)
    requires Judged(files, disk, View(named, first), View(entries, positions), decided, buckets.Keys)
    requires ExactComplete(files, disk, View(entries, positions), decided, buckets.Keys)
    requires BucketsComplete(files, disk, |files|, buckets)
    ensures forall a, kind :: 0 <= a < |files| ==>
              (Entry(a, kind) in entries <==> VerdictOn(files, disk, a) == Some(kind))
  {
    hide *;
    var view := View(entries, positions);
    forall a, kind | 0 <= a < |files| ensures Entry(a, kind) in entries <==> VerdictOn(files, disk, a) == Some(kind) {
      ListedInView(entries, positions, a, kind);
      VerdictInView(files, disk, named, first, view, decided, buckets, a);
    }
  }

  lemma ListedInView(entries: seq<Entry>, positions: map<nat, nat>, a: nat, kind: DuplicateKind)
    requires Indexed(entries, positions)
    ensures Entry(a, kind) in entries <==> a in View(entries, positions) && View(entries, positions)[a] == kind
  {
    hide Indexed, View;
    KindInView(entries, positions);
    if Entry(a, kind) in entries {
      var x :| 0 <= x < |entries| && entries[x] == Entry(a, kind);
    }
  }

  lemma VerdictInView(
    files: seq<ScannedFile>, disk: Disk, named: seq<Entry>, first: map<nat, nat>, view: map<nat, DuplicateKind>,
    decided: set<nat>, buckets: map<(nat, nat), seq<Candidate>>, a: nat)
    requires DistinctPaths(files) && a < |files| && NameGroups(files, named) && Indexed(named, first)
    requires Judged(files, disk, View(named, first), view, decided, buckets.Keys)
    requires ExactComplete(files, disk, view, decided, buckets.Keys)
    requires BucketsComplete(files, disk, |files|, buckets)
    ensures VerdictOn(files, disk, a) == if a in view then Some(view[a]) else None
  {
    hide *;
    JudgedKeys(files, disk, View(named, first), view, decided, buckets.Keys);
    VerdictMeans(files, disk, a);
    if IsExactCopy(files, disk, a) {
      ExactIsInBucket(files, disk, buckets, a);
      ExactIff(files, disk, view, decided, buckets.Keys, a);
    } else if a in decided {
      ExactIff(files, disk, view, decided, buckets.Keys, a);
      DecidedLeads(files, disk, View(named, first), view, decided, buckets.Keys, a);
    } else {
      if LeadsCopies(files, disk, a) {
        LeaderIsDecided(files, disk, View(named, first), view, decided, buckets, a);
      }
      NamesInView(files, named, first, a);
      if HasPartner(files, a) {
        NameIsInView(files, named, first, a);
      }
      if a in view {
        NameKinds(files, named, first, a);
      }
    }
  }

  lemma VerdictMeans(files: seq<ScannedFile>, disk: Disk, a: nat)
    requires a < |files|
    ensures VerdictOn(files, disk, a) ==
              if IsExactCopy(files, disk, a) then Some(Exact)
              else if LeadsCopies(files, disk, a) then Some(Original)
              else if !HasPartner(files, a) then None
              else Some(if OldestConnected(files, a) then Original else Possible)
    ensures LeadsCopies(files, disk, a) ==> !IsExactCopy(files, disk, a)
  {
    hide IsExactCopy, HasPartner, OldestConnected, FirstName, IsKept;
  }

  lemma NamesInView(files: seq<ScannedFile>, named: seq<Entry>, first: map<nat, nat>, a: nat)
    requires Indexed(named, first)
    ensures a in View(named, first) <==> a in first
  {
  }

  /** A file judged without being an exact copy leads copies. */
  lemma DecidedLeads(
    files: seq<ScannedFile>, disk: Disk, names: map<nat, DuplicateKind>, view: map<nat, DuplicateKind>,
    decided: set<nat>, done: set<(nat, nat)>, a: nat)
    requires Judged(files, disk, names, view, decided, done) && ExactComplete(files, disk, view, decided, done)
    requires a < |files| && a in decided && !IsExactCopy(files, disk, a)
    ensures LeadsCopies(files, disk, a) && a in view && view[a].Original?
  {
    hide IsExactCopy, FirstName, IsKept, Current, StampOf, HasOriginal;
    assert JudgedFile(files, disk, view, decided, done, a);
    var e :| e in decided && e in view && view[e].Exact? && IsKept(files, disk, a, e);
    assert JudgedFile(files, disk, view, decided, done, e);
    CurrentInRange(files, disk, e);
  }

  lemma LeaderIsDecided(
    files: seq<ScannedFile>, disk: Disk, names: map<nat, DuplicateKind>, view: map<nat, DuplicateKind>,
    decided: set<nat>, buckets: map<(nat, nat), seq<Candidate>>, a: nat)
    requires DistinctPaths(files) && Judged(files, disk, names, view, decided, buckets.Keys)
    requires ExactComplete(files, disk, view, decided, buckets.Keys) && BucketsComplete(files, disk, |files|, buckets)
    requires a < |files| && LeadsCopies(files, disk, a)
    ensures a in decided
  {
    hide IsExactCopy, FirstName, IsKept, Current, StampOf, HasFollower, BucketsComplete;
    var e := ExactOfLeader(files, disk, a);
    ExactIsInBucket(files, disk, buckets, e);
    ExactIff(files, disk, view, decided, buckets.Keys, e);
    assert JudgedFile(files, disk, view, decided, buckets.Keys, e);
    var o :| o in decided && o in view && view[o].Original? && IsKept(files, disk, o, e);
    assert JudgedFile(files, disk, view, decided, buckets.Keys, o);
    CurrentInRange(files, disk, o);
    assert FirstName(files, disk, o) && !IsExactCopy(files, disk, o);
    OneLeader(files, disk, a, o, e);
  }

  /** The first name of a copy's inode is an exact copy. */
  lemma ExactOfLeader(files: seq<ScannedFile>, disk: Disk, a: nat) returns (e: nat)
    requires DistinctPaths(files) && LeadsCopies(files, disk, a)
    ensures e < |files| && IsExactCopy(files, disk, e) && IsKept(files, disk, a, e)
  {
    hide AgeAtMost, StampOf;
    CurrentInRange(files, disk, a);
    var copy :| 0 <= copy < |files| && IsKept(files, disk, a, copy);
    e := FirstNameOf(files, disk, copy, |files|);
    SameInodeSameContent(files, disk, copy, e);
    AgeIsTotal(files[a], files[e]);
    if !AgeAtMost(files[a], files[e]) {
      OlderMakesExact(files, disk, e, a);
    }
    OlderMakesExact(files, disk, a, e);
  }

  lemma OlderMakesExact(files: seq<ScannedFile>, disk: Disk, o: nat, a: nat)
    requires FirstName(files, disk, a) && SameContent(files, disk, o, a) && !SameInode(files, disk, o, a)
    requires AgeAtMost(files[o], files[a])
    ensures IsExactCopy(files, disk, a) && IsKept(files, disk, o, a)
  {
    hide AgeAtMost, StampOf;
    CurrentInRange(files, disk, o);
    assert IsKept(files, disk, o, a);
  }

  /** The oldest current name, among the first `n` files and the file itself. */
  lemma {:induction false} FirstNameOf(files: seq<ScannedFile>, disk: Disk, a: nat, n: nat) returns (first: nat)
    requires n <= |files| && Current(files, disk, a)
    ensures first < |files| && Current(files, disk, first) && SameInode(files, disk, first, a)
    ensures forall b :: 0 <= b < n && Current(files, disk, b) && SameInode(files, disk, first, b) ==>
              AgeAtMost(files[first], files[b])
  {
    hide AgeAtMost, StampOf;
    CurrentInRange(files, disk, a);
    if n == 0 {
      first := a;
    } else {
      first := FirstNameOf(files, disk, a, n - 1);
      if Current(files, disk, n - 1) && SameInode(files, disk, n - 1, a) {
        AgeIsTotal(files[first], files[n - 1]);
        if !AgeAtMost(files[first], files[n - 1]) {
          var older := first;
          first := n - 1;
          AgeIsTotal(files[first], files[first]);
          forall b | 0 <= b < n && Current(files, disk, b) && SameInode(files, disk, first, b)
            ensures AgeAtMost(files[first], files[b])
          {
            if b < n - 1 {
              AgeIsTransitive(files[first], files[older], files[b]);
            }
          }
        }
      }
    }
  }

  /** Two first names that are no exact copies do not lead the same file. */
  lemma OneLeader(files: seq<ScannedFile>, disk: Disk, a: nat, o: nat, e: nat)
    requires DistinctPaths(files) && a < |files| && o < |files|
    requires FirstName(files, disk, a) && !IsExactCopy(files, disk, a) && IsKept(files, disk, a, e)
    requires FirstName(files, disk, o) && !IsExactCopy(files, disk, o) && IsKept(files, disk, o, e)
    ensures a == o
  {
    hide AgeAtMost, StampOf;
    AgeIsTotal(files[a], files[o]);
    if a != o {
      if SameInode(files, disk, a, o) {
        OneAge(files, a, o);
      } else if AgeAtMost(files[a], files[o]) {
        OlderMakesExact(files, disk, a, o);
      } else {
        OlderMakesExact(files, disk, o, a);
      }
    }
  }

  lemma ExactIff(
    files: seq<ScannedFile>, disk: Disk, view: map<nat, DuplicateKind>, decided: set<nat>, done: set<(nat, nat)>,
    a: nat)
    requires ExactComplete(files, disk, view, decided, done) && a < |files|
    requires Current(files, disk, a) && BucketKey(StampOf(disk, files[a].path)) in done
    ensures IsExactCopy(files, disk, a) <==> a in decided && a in view && view[a].Exact?
    ensures a in decided ==> FirstName(files, disk, a)
  {
    hide IsExactCopy, FirstName;
  }

  lemma ExactIsInBucket(files: seq<ScannedFile>, disk: Disk, buckets: map<(nat, nat), seq<Candidate>>, a: nat)
    requires BucketsComplete(files, disk, |files|, buckets) && a < |files| && IsExactCopy(files, disk, a)
    ensures Current(files, disk, a) && BucketKey(StampOf(disk, files[a].path)) in buckets
  {
    hide AgeAtMost;
    var o :| 0 <= o < |files| && IsKept(files, disk, o, a);
    SameContentShares(files, disk, o, a);
  }

  // ----- Deleting -----

  ghost predicate Keeps(
    files: seq<ScannedFile>, disk: Disk, entries: seq<Entry>, selected: seq<string>, path: string, y: nat)
    requires y < |entries|
  {
    && entries[y].index < |files| && OnDisk(disk, path)
    && var keeper := files[entries[y].index];
       && keeper.path !in selected && OnDisk(disk, keeper.path)
       && keeper.size == |ContentAt(disk, path)|
       && ContentAt(disk, keeper.path) == ContentAt(disk, path)
       && disk.names[keeper.path] != disk.names[path]
  }

  ghost predicate HasKeeper(
    files: seq<ScannedFile>, disk: Disk, entries: seq<Entry>, selected: seq<string>, path: string)
  {
    exists y :: 0 <= y < |entries| && Keeps(files, disk, entries, selected, path, y)
  }

  ghost predicate EntryAt(files: seq<ScannedFile>, entries: seq<Entry>, x: nat, path: string) {
    x < |entries| && entries[x].index < |files| && files[entries[x].index].path == path
  }

  /** A selected path is listed, and an exact copy has a keeper. */
  ghost predicate MayBeDeleted(
    files: seq<ScannedFile>, disk: Disk, entries: seq<Entry>, selected: seq<string>, path: string)
  {
    exists x: nat :: EntryAt(files, entries, x, path)
                && (entries[x].kind.Exact? ==> HasKeeper(files, disk, entries, selected, path))
  }

  method FindEntry(files: seq<ScannedFile>, entries: seq<Entry>, path: string) returns (found: Option<nat>)
    requires forall x :: 0 <= x < |entries| ==> entries[x].index < |files|
    ensures found.Some? ==> EntryAt(files, entries, found.value, path)
    ensures found.None? ==> forall x: nat :: !EntryAt(files, entries, x, path)
  {
    for x := 0 to |entries|
      invariant forall y :: 0 <= y < x ==> !EntryAt(files, entries, y, path)
    {
      if files[entries[x].index].path == path {
        return Some(x);
      }
    }
    found := None;
  }

  /** Stamps of keepers are taken once; a failed reading is remembered as such. */
  ghost predicate StampsHold(disk: Disk, stamps: map<string, Option<Stamp>>, quiet: bool) {
    forall p :: p in stamps ==>
      && (stamps[p].Some? ==> OnDisk(disk, p) && stamps[p].value == StampOf(disk, p))
      && (stamps[p].None? && quiet ==> !OnDisk(disk, p))
  }

  method FindKeeper(
    files: seq<ScannedFile>, disk: Disk, entries: seq<Entry>, selected: seq<string>, path: string, stamp: Stamp,
    known: map<string, Option<Stamp>>, reader: Reader, ghost quiet: bool)
    returns (retained: bool, stamps: map<string, Option<Stamp>>)
    requires forall x :: 0 <= x < |entries| ==> entries[x].index < |files|
    requires OnDisk(disk, path) && stamp == StampOf(disk, path) && StampsHold(disk, known, quiet)
    modifies reader
    ensures reader.faults >= old(reader.faults)
    ensures StampsHold(disk, stamps, quiet && reader.faults == old(reader.faults))
    ensures retained ==> HasKeeper(files, disk, entries, selected, path)
    ensures !retained && quiet && reader.faults == old(reader.faults) ==>
              !HasKeeper(files, disk, entries, selected, path)
  {
    stamps := known;
    for y := 0 to |entries|
      invariant reader.faults >= old(reader.faults)
      invariant StampsHold(disk, stamps, quiet && reader.faults == old(reader.faults))
      invariant quiet && reader.faults == old(reader.faults) ==>
                  forall z :: 0 <= z < y ==> !Keeps(files, disk, entries, selected, path, z)
    {
      var keeper := files[entries[y].index];
      if keeper.path !in selected && keeper.size == stamp.size {
        if keeper.path !in stamps {
          var reading := reader.Fingerprint(disk, keeper.path);
          stamps := stamps[keeper.path := reading];
        }
        var other := stamps[keeper.path];
        if other.Some? && other.value.digest == stamp.digest && other.value.identity != stamp.identity {
          var equal := reader.Equal(disk, path, keeper.path);
          if equal {
            assert Keeps(files, disk, entries, selected, path, y);
            return true, stamps;
          }
        }
      }
    }
    retained := false;
  }

  /** The check before anything is deleted. A positive answer is safe whatever
      fails; when nothing fails the answer is exact. */
  method VerifyDeleteSelection(
    files: seq<ScannedFile>, disk: Disk, entries: seq<Entry>, selected: seq<string>, reader: Reader)
    returns (ok: bool)
    requires DistinctPaths(files) && ListedOnce(entries)
    requires forall x :: 0 <= x < |entries| ==> entries[x].index < |files|
    modifies reader
    ensures reader.faults >= old(reader.faults)
    ensures ok ==> forall p :: p in selected ==> MayBeDeleted(files, disk, entries, selected, p)
    ensures reader.faults == old(reader.faults) ==>
              (ok <==> forall p :: p in selected ==> MayBeDeleted(files, disk, entries, selected, p))
  {
    hide HasKeeper, OnDisk, StampsHold, StampOf;
    var stamps: map<string, Option<Stamp>> := map[];
    NoStamps(disk);
    for n := 0 to |selected|
      invariant forall m :: 0 <= m < n ==> MayBeDeleted(files, disk, entries, selected, selected[m])
      invariant reader.faults >= old(reader.faults)
      invariant StampsHold(disk, stamps, reader.faults == old(reader.faults))
    {
      var path := selected[n];
      assert path in selected;
      var found := FindEntry(files, entries, path);
      if found.None? {
        assert !MayBeDeleted(files, disk, entries, selected, path);
        return false;
      }
      var x := found.value;
      if entries[x].kind.Exact? {
        OneEntryPerPath(files, entries, x, path);
        ghost var before := reader.faults;
        ghost var quiet := before == old(reader.faults);
        var stamp := reader.Fingerprint(disk, path);
        if stamp.None? {
          KeeperNeedsFile(files, disk, entries, selected, path);
          assert reader.faults == before ==> !MayBeDeleted(files, disk, entries, selected, path);
          return false;
        }
        var retained;
        retained, stamps := FindKeeper(files, disk, entries, selected, path, stamp.value, stamps, reader, quiet);
        if !retained {
          assert reader.faults == old(reader.faults) ==> !MayBeDeleted(files, disk, entries, selected, path);
          return false;
        }
      }
      assert MayBeDeleted(files, disk, entries, selected, path);
    }
    ok := true;
    forall p | p in selected ensures MayBeDeleted(files, disk, entries, selected, p) {
      var m :| 0 <= m < |selected| && selected[m] == p;
    }
  }

  lemma NoStamps(disk: Disk)
    ensures StampsHold(disk, map[], true)
  {
  }

  lemma KeeperNeedsFile(
    files: seq<ScannedFile>, disk: Disk, entries: seq<Entry>, selected: seq<string>, path: string)
    ensures HasKeeper(files, disk, entries, selected, path) ==> OnDisk(disk, path)
  {
  }

  lemma OneEntryPerPath(files: seq<ScannedFile>, entries: seq<Entry>, x: nat, path: string)
    requires DistinctPaths(files) && ListedOnce(entries) && EntryAt(files, entries, x, path)
    ensures forall y: nat :: EntryAt(files, entries, y, path) ==> y == x
  {
  }

  /** The disk once the selected names are gone. */
  function Deleted(disk: Disk, selected: seq<string>): Disk {
    disk.(names := map p | p in disk.names && p !in selected :: disk.names[p])
  }

  /** An accepted deletion leaves, for every exact copy it takes away, another
      file with the same bytes in another inode. */
  lemma DeletionLeavesACopy(
    files: seq<ScannedFile>, disk: Disk, entries: seq<Entry>, selected: seq<string>, x: nat)
    requires DistinctPaths(files) && ListedOnce(entries)
    requires forall p :: p in selected ==> MayBeDeleted(files, disk, entries, selected, p)
    requires x < |entries| && entries[x].index < |files| && entries[x].kind.Exact?
    requires files[entries[x].index].path in selected
    ensures var path := files[entries[x].index].path;
            && OnDisk(disk, path) && !OnDisk(Deleted(disk, selected), path)
            && exists p :: OnDisk(Deleted(disk, selected), p)
                 && ContentAt(Deleted(disk, selected), p) == ContentAt(disk, path)
                 && disk.names[p] != disk.names[path]
  {
    var path := files[entries[x].index].path;
    assert MayBeDeleted(files, disk, entries, selected, path);
    assert EntryAt(files, entries, x, path);
    OneEntryPerPath(files, entries, x, path);
    var y :| 0 <= y < |entries| && Keeps(files, disk, entries, selected, path, y);
    assert OnDisk(Deleted(disk, selected), files[entries[y].index].path);
  }

  /** On an unchanged disk any selection of exact copies passes: the Original of
      each class is never among them. */
  lemma ExactCopiesMayGo(files: seq<ScannedFile>, disk: Disk, entries: seq<Entry>, selected: seq<string>, path: string)
    requires DistinctPaths(files) && CopiesHaveOriginals(files, disk, entries)
    requires forall p :: p in selected ==> exists x: nat :: EntryAt(files, entries, x, p) && entries[x].kind.Exact?
    requires path in selected
    ensures MayBeDeleted(files, disk, entries, selected, path)
  {
    hide AgeAtMost;
    var x: nat :| EntryAt(files, entries, x, path) && entries[x].kind.Exact?;
    assert OriginalListed(files, disk, entries, entries[x].index);
    var y :| 0 <= y < |entries| && entries[y].kind.Original? && IsKept(files, disk, entries[y].index, entries[x].index);
    var keeper := files[entries[y].index].path;
    if keeper in selected {
      var z: nat :| EntryAt(files, entries, z, keeper) && entries[z].kind.Exact?;
      assert EntryAt(files, entries, y, keeper);
      OneEntryPerPath(files, entries, y, keeper);
    }
    assert Keeps(files, disk, entries, selected, path, y);
  }
}
