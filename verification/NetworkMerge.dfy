/** Merging what network discovery finds (`src/fs/explorer.rs`,
    `merge_network_entries_changed`): one entry for each host, with the most
    telling kind. */
module NetworkMerge {
  import opened Prelude
  import opened FileTrees

  datatype DriveKind =
    | System | Local | External | Usb | DiskImage
    | Network | NetworkComputer | NetworkPrinter | NetworkScanner | NetworkMultifunction | NetworkDevice
    | Portable | Optical | RamDisk | Unknown

  type Kind = Option<DriveKind>

  datatype Entry = Entry(path: Path, name: string, kind: Kind, fileSystem: string)

  const MULTIFUNCTION_LABEL := "Network Multifunction Device"

  function Priority(kind: Kind): nat {
    match kind
    case None => 10
    case Some(k) =>
      match k
      case NetworkMultifunction => 70
      case NetworkPrinter => 65
      case NetworkScanner => 65
      case NetworkComputer => 60
      case NetworkDevice => 40
      case Network => 30
      case _ => 20
  }

  predicate PrinterMeetsScanner(a: Kind, b: Kind) {
    (a == Some(NetworkPrinter) && b == Some(NetworkScanner)) || (a == Some(NetworkScanner) && b == Some(NetworkPrinter))
  }

  /** The incoming entry as it is compared with the existing one. */
  function Adjusted(existing: Entry, entry: Entry): Entry {
    if PrinterMeetsScanner(existing.kind, entry.kind)
    then entry.(kind := Some(NetworkMultifunction), fileSystem := MULTIFUNCTION_LABEL)
    else entry
  }

  predicate Wins(existing: Entry, entry: Entry) {
    Priority(Adjusted(existing, entry).kind) >= Priority(existing.kind)
  }

  function Merged(existing: Entry, entry: Entry): Entry {
    if Wins(existing, entry) then Adjusted(existing, entry).(path := existing.path) else existing
  }

  predicate Differs(existing: Entry, entry: Entry) {
    existing.name != entry.name || existing.kind != entry.kind || existing.fileSystem != entry.fileSystem
  }

  // ----- Merging lists -----

  /** What identifies a host; on some systems letter case does not count. */
  type Identity = Path -> Path

  ghost predicate Unique(entries: seq<Entry>, identity: Identity) {
    forall i, j :: 0 <= i < j < |entries| ==> identity(entries[i].path) != identity(entries[j].path)
  }

  function Find(entries: seq<Entry>, id: Path, identity: Identity): (at: Option<nat>)
    ensures at.Some? ==> at.value < |entries| && identity(entries[at.value].path) == id
    ensures at.None? ==> forall i :: 0 <= i < |entries| ==> identity(entries[i].path) != id
  {
    if entries == [] then None
    else if identity(entries[|entries| - 1].path) == id then Some(|entries| - 1)
    else Find(entries[..|entries| - 1], id, identity)
  }

  function MergeOne(target: seq<Entry>, entry: Entry, identity: Identity): (seq<Entry>, bool) {
    var at := Find(target, identity(entry.path), identity);
    if at.None? then (target + [entry], true)
    else
      var existing := target[at.value];
      (target[at.value := Merged(existing, entry)],
       Wins(existing, entry) && Differs(existing, Adjusted(existing, entry)))
  }

  function MergeAll(target: seq<Entry>, entries: seq<Entry>, identity: Identity): (seq<Entry>, bool) {
    if entries == [] then (target, false)
    else
      var before := MergeAll(target, entries[..|entries| - 1], identity);
      var after := MergeOne(before.0, entries[|entries| - 1], identity);
      (after.0, before.1 || after.1)
  }

  lemma FoundAt(entries: seq<Entry>, i: nat, identity: Identity)
    requires Unique(entries, identity) && i < |entries|
    ensures Find(entries, identity(entries[i].path), identity) == Some(i)
  {
  }

  lemma OneKeepsUnique(target: seq<Entry>, entry: Entry, identity: Identity)
    requires Unique(target, identity)
    ensures Unique(MergeOne(target, entry, identity).0, identity)
  {
  }

  /** One more word about a host that is already listed: the entry keeps its place and
      path, every other entry is left alone, and it either takes over what was heard
      or stays as it is. A change is reported exactly if the entry changes. */
  lemma OneMeans(target: seq<Entry>, entry: Entry, i: nat, identity: Identity)
    requires Unique(target, identity) && i < |target| && identity(target[i].path) == identity(entry.path)
    ensures var after, was := MergeOne(target, entry, identity).0, target[i];
            && |after| == |target| && (forall k :: 0 <= k < |target| && k != i ==> after[k] == target[k])
            && after[i].path == was.path
            && (MergeOne(target, entry, identity).1 <==> after[i] != was)
            && (after[i] == was || after[i].name == entry.name)
            && (entry.kind == was.kind ==> after[i] == entry.(path := was.path))
            && (was.kind.Some? && entry.kind.None? ==> after[i] == was)
            && ({was.kind, entry.kind} == {Some(NetworkPrinter), Some(NetworkScanner)} ==>
                  after[i] == Entry(was.path, entry.name, Some(NetworkMultifunction), "Network Multifunction Device"))
            && (after[i] != was && {was.kind, entry.kind} != {Some(NetworkPrinter), Some(NetworkScanner)} ==>
                  after[i] == entry.(path := was.path))
  {
    FoundAt(target, i, identity);
    var kinds := {Some(NetworkPrinter), Some(NetworkScanner)};
    assert PrinterMeetsScanner(target[i].kind, entry.kind) <==> {target[i].kind, entry.kind} == kinds by {
      assert target[i].kind in {target[i].kind, entry.kind} && entry.kind in {target[i].kind, entry.kind};
      assert Some(NetworkPrinter) in kinds && Some(NetworkScanner) in kinds;
    }
  }

  /** A host that was not listed is added at the end. */
  lemma NewMeans(target: seq<Entry>, entry: Entry, identity: Identity)
    requires forall k :: 0 <= k < |target| ==> identity(target[k].path) != identity(entry.path)
    ensures MergeOne(target, entry, identity) == (target + [entry], true)
  {
    hide Find;
  }

  lemma {:induction false} MergeKeepsUnique(target: seq<Entry>, entries: seq<Entry>, identity: Identity)
    requires Unique(target, identity)
    ensures Unique(MergeAll(target, entries, identity).0, identity)
  {
    if entries != [] {
      MergeKeepsUnique(target, entries[..|entries| - 1], identity);
      OneKeepsUnique(MergeAll(target, entries[..|entries| - 1], identity).0, entries[|entries| - 1], identity);
    }
  }

  /** Batches do not matter. */
  lemma {:induction false} BatchesCompose(target: seq<Entry>, a: seq<Entry>, b: seq<Entry>, identity: Identity)
    ensures MergeAll(target, a + b, identity).0 == MergeAll(MergeAll(target, a, identity).0, b, identity).0
    ensures MergeAll(target, a + b, identity).1 <==>
              MergeAll(target, a, identity).1 || MergeAll(MergeAll(target, a, identity).0, b, identity).1
  {
    hide MergeOne;
    if b == [] {
      assert a + b == a;
    } else {
      BatchesCompose(target, a, b[..|b| - 1], identity);
      assert (a + b)[..|a + b| - 1] == a + b[..|b| - 1];
    }
  }

  /** Merging what the list itself holds changes nothing and says so. */
  lemma {:induction false} ReMergeIsQuiet(target: seq<Entry>, entries: seq<Entry>, identity: Identity)
    requires Unique(target, identity) && forall e :: e in entries ==> e in target
    ensures MergeAll(target, entries, identity) == (target, false)
  {
    if entries != [] {
      var last := entries[|entries| - 1];
      ReMergeIsQuiet(target, entries[..|entries| - 1], identity);
      assert last in entries;
      var i :| 0 <= i < |target| && target[i] == last;
      FoundAt(target, i, identity);
      assert Merged(last, last) == last;
      assert target[i := last] == target;
    }
  }

  /** Without a reported change nobody can see one. */
  lemma {:induction false} QuietMeansSame(target: seq<Entry>, entries: seq<Entry>, identity: Identity)
    requires !MergeAll(target, entries, identity).1
    ensures MergeAll(target, entries, identity).0 == target
  {
    if entries != [] {
      QuietMeansSame(target, entries[..|entries| - 1], identity);
      var last := entries[|entries| - 1];
      var at := Find(target, identity(last.path), identity);
      if at.Some? {
        assert Merged(target[at.value], last) == target[at.value];
        assert target[at.value := target[at.value]] == target;
      }
    }
  }

  method MergeEntriesChanged(target: seq<Entry>, entries: seq<Entry>, identity: Identity)
    returns (merged: seq<Entry>, changed: bool)
    requires Unique(target, identity)
    ensures (merged, changed) == MergeAll(target, entries, identity)
    ensures Unique(merged, identity)
  {
    hide *;
    merged, changed := target, false;
    var indices: map<Path, nat> := map[];
    NothingIndexed(target, identity);
    for i := 0 to |target|
      invariant Indexed(indices, target, i, identity)
    {
      IndexGrows(indices, target, i, identity);
      indices := indices[identity(target[i].path) := i];
    }
    NothingMerged(target, entries, identity);
    for n := 0 to |entries|
      invariant (merged, changed) == MergeAll(target, entries[..n], identity) && Unique(merged, identity)
      invariant Indexed(indices, merged, |merged|, identity)
    {
      var entry := entries[n];
      ghost var before := merged;
      OneMoreEntry(target, entries, n, identity);
      OneKeepsUnique(before, entry, identity);
      IndexMeans(indices, merged, identity, identity(entry.path));
      if identity(entry.path) in indices {
        var index := indices[identity(entry.path)];
        FoundAt(merged, index, identity);
        FoundEntry(merged, index, entry, identity);
        var existing := merged[index];
        var adjusted := Adjusted(existing, entry);
        if Wins(existing, entry) {
          IndexStays(indices, merged, index, adjusted.(path := existing.path), identity);
          changed := changed || Differs(existing, adjusted);
          merged := merged[index := adjusted.(path := existing.path)];
        }
      } else {
        NewMeans(merged, entry, identity);
        IndexReaches(indices, merged, entry, identity);
        indices := indices[identity(entry.path) := |merged|];
        merged := merged + [entry];
        changed := true;
      }
    }
    assert entries[..|entries|] == entries;
  }

  /** The index map finds every one of the first `n` entries by its identity. */
  ghost predicate Indexed(indices: map<Path, nat>, entries: seq<Entry>, n: nat, identity: Identity) {
    && n <= |entries|
    && (forall id :: id in indices ==> indices[id] < n && identity(entries[indices[id]].path) == id)
    && (forall k :: 0 <= k < n ==> identity(entries[k].path) in indices)
  }

  lemma NothingIndexed(entries: seq<Entry>, identity: Identity)
    ensures Indexed(map[], entries, 0, identity)
  {
  }

  lemma IndexGrows(indices: map<Path, nat>, entries: seq<Entry>, i: nat, identity: Identity)
    requires i < |entries| && Indexed(indices, entries, i, identity)
    ensures Indexed(indices[identity(entries[i].path) := i], entries, i + 1, identity)
  {
  }

  lemma IndexStays(indices: map<Path, nat>, entries: seq<Entry>, i: nat, entry: Entry, identity: Identity)
    requires i < |entries| && Indexed(indices, entries, |entries|, identity) && entry.path == entries[i].path
    ensures Indexed(indices, entries[i := entry], |entries|, identity)
  {
  }

  lemma IndexReaches(indices: map<Path, nat>, entries: seq<Entry>, entry: Entry, identity: Identity)
    requires Indexed(indices, entries, |entries|, identity)
    ensures Indexed(indices[identity(entry.path) := |entries|], entries + [entry], |entries| + 1, identity)
  {
    var now := entries + [entry];
    assert forall k :: 0 <= k < |entries| ==> now[k] == entries[k];
  }

  lemma IndexMeans(indices: map<Path, nat>, entries: seq<Entry>, identity: Identity, id: Path)
    requires Indexed(indices, entries, |entries|, identity)
    ensures id in indices ==> indices[id] < |entries| && identity(entries[indices[id]].path) == id
    ensures id !in indices ==> forall k :: 0 <= k < |entries| ==> identity(entries[k].path) != id
  {
  }

  lemma NothingMerged(target: seq<Entry>, entries: seq<Entry>, identity: Identity)
    ensures MergeAll(target, entries[..0], identity) == (target, false)
  {
  }

  lemma OneMoreEntry(target: seq<Entry>, entries: seq<Entry>, n: nat, identity: Identity)
    requires n < |entries|
    ensures var before := MergeAll(target, entries[..n], identity);
            var after := MergeOne(before.0, entries[n], identity);
            MergeAll(target, entries[..n + 1], identity) == (after.0, before.1 || after.1)
  {
    assert entries[..n + 1][..n] == entries[..n];
  }

  lemma FoundEntry(target: seq<Entry>, i: nat, entry: Entry, identity: Identity)
    requires i < |target| && Find(target, identity(entry.path), identity) == Some(i)
    ensures var existing := target[i];
            MergeOne(target, entry, identity) ==
              (if Wins(existing, entry)
               then (target[i := Adjusted(existing, entry).(path := existing.path)],
                 Differs(existing, Adjusted(existing, entry)))
               else (target, false))
  {
    assert target[i := target[i]] == target;
  }

  // ----- The kind of a host -----

  function MergeKind(existing: Kind, kind: Kind): Kind {
    var adjusted := if PrinterMeetsScanner(existing, kind) then Some(NetworkMultifunction) else kind;
    if Priority(adjusted) >= Priority(existing) then adjusted else existing
  }

  /** The kind after hearing of the host again and again. */
  function Fold(kinds: seq<Kind>): Kind
    requires kinds != []
  {
    if |kinds| == 1 then kinds[0] else MergeKind(Fold(kinds[..|kinds| - 1]), kinds[|kinds| - 1])
  }

  function KindsFor(entries: seq<Entry>, id: Path, identity: Identity): seq<Kind> {
    if entries == [] then []
    else
      var front := KindsFor(entries[..|entries| - 1], id, identity);
      if identity(entries[|entries| - 1].path) == id then front + [entries[|entries| - 1].kind] else front
  }

  function KindAt(entries: seq<Entry>, id: Path, identity: Identity): Option<Kind> {
    var at := Find(entries, id, identity);
    if at.None? then None else Some(entries[at.value].kind)
  }

  lemma KindOfOne(target: seq<Entry>, entry: Entry, id: Path, identity: Identity)
    requires Unique(target, identity)
    ensures var before := KindAt(target, id, identity);
            var after := KindAt(MergeOne(target, entry, identity).0, id, identity);
            if identity(entry.path) != id then after == before
            else after == Some(if before.None? then entry.kind else MergeKind(before.value, entry.kind))
  {
    var after := MergeOne(target, entry, identity).0;
    OneKeepsUnique(target, entry, identity);
    var at := Find(target, id, identity);
    if at.Some? {
      assert identity(after[at.value].path) == id;
      FoundAt(after, at.value, identity);
      FoundAt(target, at.value, identity);
    } else if identity(entry.path) == id {
      FoundAt(after, |target|, identity);
    }
  }

  /** What a host is stored as is the fold of everything heard of it. */
  lemma {:induction false} StoredKindIsFold(entries: seq<Entry>, id: Path, identity: Identity)
    ensures var kinds := KindsFor(entries, id, identity);
            KindAt(MergeAll([], entries, identity).0, id, identity) == if kinds == [] then None else Some(Fold(kinds))
  {
    if entries != [] {
      var front := entries[..|entries| - 1];
      var last := entries[|entries| - 1];
      hide MergeOne, MergeKind;
      StoredKindIsFold(front, id, identity);
      MergeKeepsUnique([], front, identity);
      KindOfOne(MergeAll([], front, identity).0, last, id, identity);
      var before := KindsFor(front, id, identity);
      if identity(last.path) == id {
        assert (before + [last.kind])[..|before|] == before;
      }
    }
  }

  predicate IsNetworkKind(kind: Kind) {
    Priority(kind) >= 30
  }

  predicate IsOtherKind(kind: Kind) {
    Priority(kind) == 20
  }

  /** No network kind, but two different kinds of the catch-all class. */
  ghost predicate Ambiguous(kinds: set<Kind>) {
    && (forall k :: k in kinds ==> !IsNetworkKind(k))
    && exists a, b :: a in kinds && b in kinds && IsOtherKind(a) && IsOtherKind(b) && a != b
  }

  /** The join of a set of kinds: a printer and a scanner make a multifunction
      device, otherwise the highest kind counts. */
  ghost predicate IsJoin(kinds: set<Kind>, join: Kind) {
    if Some(NetworkMultifunction) in kinds || (Some(NetworkPrinter) in kinds && Some(NetworkScanner) in kinds)
    then join == Some(NetworkMultifunction)
    else join in kinds && forall k :: k in kinds ==> Priority(k) <= Priority(join)
  }

  ghost function KindSet(kinds: seq<Kind>): (members: set<Kind>)
    ensures forall k :: k in members <==> k in kinds
  {
    set k | k in kinds
  }

  lemma {:induction false} FoldIsJoin(kinds: seq<Kind>)
    requires kinds != []
    ensures IsJoin(KindSet(kinds), Fold(kinds))
  {
    var last := kinds[|kinds| - 1];
    assert last in kinds;
    if |kinds| > 1 {
      var front := kinds[..|kinds| - 1];
      FoldIsJoin(front);
      assert forall k :: k in kinds <==> k in front || k == last;
      JoinOneMore(KindSet(front), Fold(front), last);
      assert KindSet(kinds) == KindSet(front) + {last};
    }
  }

  lemma JoinOneMore(kinds: set<Kind>, join: Kind, last: Kind)
    requires IsJoin(kinds, join)
    ensures IsJoin(kinds + {last}, MergeKind(join, last))
  {
  }

  /** A set has one join, unless it is ambiguous. */
  lemma JoinsAgree(kinds: set<Kind>, a: Kind, b: Kind)
    requires IsJoin(kinds, a) && IsJoin(kinds, b) && !Ambiguous(kinds)
    ensures a == b
  {
  }

  /** The stored kind depends only on which kinds were heard: not on their order,
      their number, or how they were batched. */
  lemma OrderDoesNotMatter(a: seq<Entry>, b: seq<Entry>, id: Path, identity: Identity)
    requires KindSet(KindsFor(a, id, identity)) == KindSet(KindsFor(b, id, identity))
    requires !Ambiguous(KindSet(KindsFor(a, id, identity)))
    ensures KindAt(MergeAll([], a, identity).0, id, identity) == KindAt(MergeAll([], b, identity).0, id, identity)
  {
    hide IsJoin, Ambiguous;
    var x, y := KindsFor(a, id, identity), KindsFor(b, id, identity);
    StoredKindIsFold(a, id, identity);
    StoredKindIsFold(b, id, identity);
    NoKinds(x);
    NoKinds(y);
    if x != [] {
      FoldIsJoin(x);
      FoldIsJoin(y);
      JoinsAgree(KindSet(x), Fold(x), Fold(y));
    }
  }

  /** Which kind a host ends up with, in words: a multifunction device if it was ever
      called one, or both a printer and a scanner; otherwise a printer or a scanner
      before a computer, a computer before a plain device, any of these before a
      plain network entry, and a known kind before none. */
  lemma StoredKindMeans(entries: seq<Entry>, id: Path, identity: Identity)
    ensures var kinds := KindsFor(entries, id, identity);
            var stored := KindAt(MergeAll([], entries, identity).0, id, identity);
            && (kinds == [] <==> stored.None?)
            && (stored.Some? ==>
                  if || Some(NetworkMultifunction) in kinds
                     || (Some(NetworkPrinter) in kinds && Some(NetworkScanner) in kinds)
                  then stored.value == Some(NetworkMultifunction)
                  else if Some(NetworkPrinter) in kinds then stored.value == Some(NetworkPrinter)
                  else if Some(NetworkScanner) in kinds then stored.value == Some(NetworkScanner)
                  else if Some(NetworkComputer) in kinds then stored.value == Some(NetworkComputer)
                  else if Some(NetworkDevice) in kinds then stored.value == Some(NetworkDevice)
                  else if Some(Network) in kinds then stored.value == Some(Network)
                  else stored.value in kinds && (stored.value.None? ==> forall k :: k in kinds ==> k.None?))
  {
    hide KindsFor, KindAt, MergeAll, Fold;
    StoredKindIsFold(entries, id, identity);
    var kinds := KindsFor(entries, id, identity);
    if kinds != [] {
      FoldIsJoin(kinds);
    }
  }

  lemma NoKinds(kinds: seq<Kind>)
    ensures KindSet(kinds) == {} <==> kinds == []
  {
    if kinds != [] {
      assert kinds[0] in KindSet(kinds);
    }
  }

  lemma {:induction false} LastOtherCounts(kinds: seq<Kind>)
    requires kinds != [] && IsOtherKind(kinds[|kinds| - 1])
    requires forall k :: k in kinds ==> !IsNetworkKind(k)
    ensures Fold(kinds) == kinds[|kinds| - 1]
  {
    if |kinds| > 1 {
      var front := kinds[..|kinds| - 1];
      FoldIsJoin(front);
      assert forall k :: k in front ==> k in kinds;
    }
  }

  /** And in the ambiguous case the order does matter: whichever comes last wins. */
  lemma AmbiguousDependsOnOrder(kinds: seq<Kind>) returns (other: seq<Kind>)
    requires kinds != [] && Ambiguous(KindSet(kinds))
    ensures multiset(other) == multiset(kinds) && other != [] && Fold(other) != Fold(kinds)
  {
    hide Fold, Priority, KindSet;
    var a, b :| a in KindSet(kinds) && b in KindSet(kinds) && IsOtherKind(a) && IsOtherKind(b) && a != b;
    var last := if Fold(kinds) == a then b else a;
    var i :| 0 <= i < |kinds| && kinds[i] == last;
    other := PutLast(kinds, i);
    forall k | k in other ensures !IsNetworkKind(k) {
      assert k in kinds && k in KindSet(kinds);
    }
    LastOtherCounts(other);
  }

  lemma PutLast(kinds: seq<Kind>, i: nat) returns (other: seq<Kind>)
    requires i < |kinds|
    ensures multiset(other) == multiset(kinds) && other != [] && other[|other| - 1] == kinds[i]
    ensures forall k :: k in other ==> k in kinds
  {
    var front, back := kinds[..i], kinds[i + 1..];
    other := front + back + [kinds[i]];
    assert kinds == front + [kinds[i]] + back;
    forall k | k in other ensures k in kinds {
      assert k in front || k in back || k == kinds[i];
    }
  }

  // ----- What discovery reports -----

  /** Discovery tells computers, printers, scanners, multifunction devices and other
      devices apart. */
  ghost predicate IsDiscovered(entries: seq<Entry>) {
    forall e :: e in entries ==>
      e.kind in {Some(NetworkComputer), Some(NetworkPrinter), Some(NetworkScanner), Some(NetworkMultifunction),
                 Some(NetworkDevice)}
  }

  lemma {:induction false} KindsAreNetworkKinds(entries: seq<Entry>, id: Path, identity: Identity)
    requires forall e :: e in entries ==> IsNetworkKind(e.kind)
    ensures forall k :: k in KindsFor(entries, id, identity) ==> IsNetworkKind(k)
  {
    if entries != [] {
      assert entries[|entries| - 1] in entries;
      assert forall e :: e in entries[..|entries| - 1] ==> e in entries;
      KindsAreNetworkKinds(entries[..|entries| - 1], id, identity);
    }
  }

  /** Nothing that discovery reports is ambiguous: only a cache file that was
      edited by hand can make the order of arrival count. */
  lemma DiscoveryOrderDoesNotMatter(a: seq<Entry>, b: seq<Entry>, id: Path, identity: Identity)
    requires IsDiscovered(a)
    requires KindSet(KindsFor(a, id, identity)) == KindSet(KindsFor(b, id, identity))
    ensures KindAt(MergeAll([], a, identity).0, id, identity) == KindAt(MergeAll([], b, identity).0, id, identity)
  {
    hide KindsFor, MergeAll, KindAt;
    KindsAreNetworkKinds(a, id, identity);
    OrderDoesNotMatter(a, b, id, identity);
  }
}
