/** Grouping scanned files by name (`src/fs/duplicates.rs`,
    `classify_name_candidates_cancellable`): union-find over three families of
    links, then one oldest Original in every group of two or more. */
module DuplicateGroups {
  import opened Prelude
  import opened Orderings
  import opened DisjointSets
  import opened DuplicateNames

  datatype DuplicateKind = Original | Exact | Possible

  /** The entry for one scanned file; the file's data are those at `index`. */
  datatype Entry = Entry(index: nat, kind: DuplicateKind)

  // ----- What joining keeps -----

  ghost predicate Sound(files: seq<ScannedFile>, rootOf: seq<nat>) {
    && |rootOf| == |files|
    && forall i, j :: 0 <= i < |files| && 0 <= j < |files| && rootOf[i] == rootOf[j] ==> Connected(files, i, j)
  }

  ghost predicate Coarser(before: seq<nat>, after: seq<nat>) {
    && |before| == |after|
    && forall i, j :: 0 <= i < |before| && 0 <= j < |before| && before[i] == before[j] ==> after[i] == after[j]
  }

  lemma JoinIsSound(files: seq<ScannedFile>, before: seq<nat>, after: seq<nat>, a: nat, b: nat)
    requires Sound(files, before) && |after| == |before| && a < |files| && b < |files| && Linked(files, a, b)
    requires forall i, j :: 0 <= i < |after| && 0 <= j < |after| ==>
               (after[i] == after[j] <==>
                 || before[i] == before[j]
                 || (before[i] == before[a] && before[b] == before[j])
                 || (before[i] == before[b] && before[a] == before[j]))
    ensures Sound(files, after) && Coarser(before, after) && after[a] == after[b]
  {
    hide Connected, Linked;
    LinkedAreConnected(files, a, b);
    forall i, j | 0 <= i < |files| && 0 <= j < |files| && after[i] == after[j] ensures Connected(files, i, j) {
      if before[i] == before[a] && before[b] == before[j] {
        ChainsJoin(files, i, a, b);
        ChainsJoin(files, i, b, j);
      } else if before[i] == before[b] && before[a] == before[j] {
        ChainsJoin(files, i, b, a);
        ChainsJoin(files, i, a, j);
      }
    }
  }

  method JoinLinked(files: seq<ScannedFile>, union: DisjointSet, a: nat, b: nat)
    requires union.Valid() && Sound(files, union.rootOf) && a < |files| && b < |files| && Linked(files, a, b)
    modifies union, union.parent
    ensures union.Valid() && Sound(files, union.rootOf) && Coarser(old(union.rootOf), union.rootOf)
    ensures union.rootOf[a] == union.rootOf[b]
  {
    hide Linked, Connected;
    union.Join(a, b);
    JoinIsSound(files, old(union.rootOf), union.rootOf, a, b);
  }

  // ----- Equal name, extension and size -----

  function KeyOf(file: ScannedFile): (string, string, nat) {
    (file.name, file.extension, file.size)
  }

  method JoinKeys(files: seq<ScannedFile>, union: DisjointSet)
    requires union.Valid() && Sound(files, union.rootOf)
    modifies union, union.parent
    ensures union.Valid() && Sound(files, union.rootOf)
    ensures forall a, b :: 0 <= a < |files| && 0 <= b < |files| && SameKey(files[a], files[b]) ==>
              union.rootOf[a] == union.rootOf[b]
  {
    hide Connected, SameFamily, SameBase, union.Valid;
    var exact: map<(string, string, nat), nat> := map[];
    for i := 0 to |files|
      invariant union.Valid() && Sound(files, union.rootOf)
      invariant forall k :: k in exact ==> exact[k] < i && KeyOf(files[exact[k]]) == k
      invariant forall a :: 0 <= a < i ==>
                  KeyOf(files[a]) in exact && union.rootOf[a] == union.rootOf[exact[KeyOf(files[a])]]
    {
      var key := KeyOf(files[i]);
      if key in exact {
        assert SameKey(files[exact[key]], files[i]);
        JoinLinked(files, union, exact[key], i);
      } else {
        exact := exact[key := i];
      }
    }
  }

  // ----- One copy family -----

  method JoinFamilies(files: seq<ScannedFile>, union: DisjointSet, extension: string, indexes: seq<nat>)
    requires union.Valid() && Sound(files, union.rootOf)
    requires forall p :: 0 <= p < |indexes| ==> indexes[p] < |files| && files[indexes[p]].extension == extension
    modifies union, union.parent
    ensures union.Valid() && Sound(files, union.rootOf) && Coarser(old(union.rootOf), union.rootOf)
    ensures FamilyJoined(files, indexes, union.rootOf)
  {
    hide Connected, SameKey, SameBase, CopyFamilyStem, union.Valid;
    var families: map<string, nat> := map[];
    for k := 0 to |indexes|
      invariant union.Valid() && Sound(files, union.rootOf) && Coarser(old(union.rootOf), union.rootOf)
      invariant forall f :: f in families ==>
                  && families[f] < |files| && files[families[f]].extension == extension
                  && CopyFamilyStem(files[families[f]].stem) == f
      invariant forall p :: 0 <= p < k && |CopyFamilyStem(files[indexes[p]].stem)| >= MINIMUM_PREFIX_LENGTH ==>
                  && CopyFamilyStem(files[indexes[p]].stem) in families
                  && union.rootOf[indexes[p]] == union.rootOf[families[CopyFamilyStem(files[indexes[p]].stem)]]
    {
      var index := indexes[k];
      var family := CopyFamilyStem(files[index].stem);
      if |family| >= MINIMUM_PREFIX_LENGTH {
        if family in families {
          assert SameFamily(files[families[family]], files[index]);
          JoinLinked(files, union, families[family], index);
        }
        families := families[family := index];
      }
    }
  }

  // ----- One base in stem order -----

  /** The first `k` files have been read; the base in force is the one at `at`. */
  ghost predicate BaseScan(files: seq<ScannedFile>, order: seq<nat>, rootOf: seq<nat>, k: nat, at: nat)
    requires |rootOf| == |files| && k <= |order|
    requires forall p :: 0 <= p < |order| ==> order[p] < |files|
  {
    var stems := Stems(files, order);
    && (k > 0 ==> at < k && BaseAt(stems, at) == stems[at] && BaseAt(stems, k - 1) == stems[at])
    && (forall p :: 0 <= p < k ==>
          (BaseAt(stems, p) == stems[at] && |stems[p]| >= MINIMUM_PREFIX_LENGTH && |stems[at]| >= MINIMUM_PREFIX_LENGTH
           ==> rootOf[order[p]] == rootOf[order[at]]))
    && (forall p, q :: 0 <= p < k && 0 <= q < k && BaseShared(stems, p, q) ==> rootOf[order[p]] == rootOf[order[q]])
  }

  predicate Continues(base: string, stem: string) {
    |stem| >= MINIMUM_PREFIX_LENGTH && SharesCandidatePrefix(base, stem) && |base| >= MINIMUM_PREFIX_LENGTH
  }

  lemma BaseContinues(
    files: seq<ScannedFile>, order: seq<nat>, before: seq<nat>, after: seq<nat>, k: nat, at: nat)
    requires |before| == |files| && k < |order|
    requires forall p :: 0 <= p < |order| ==> order[p] < |files|
    requires BaseScan(files, order, before, k, at) && Coarser(before, after) && k > 0
    requires after[order[at]] == after[order[k]]
    requires Continues(files[order[at]].stem, files[order[k]].stem)
    ensures BaseScan(files, order, after, k + 1, at)
  {
    hide BaseAt, SharesCandidatePrefix;
    BaseStep(Stems(files, order), k);
  }

  lemma BaseMoves(files: seq<ScannedFile>, order: seq<nat>, rootOf: seq<nat>, k: nat, at: nat)
    requires |rootOf| == |files| && k < |order|
    requires forall p :: 0 <= p < |order| ==> order[p] < |files|
    requires LexSorted(Stems(files, order)) && BaseScan(files, order, rootOf, k, at)
    requires k > 0 ==> !Continues(files[order[at]].stem, files[order[k]].stem)
    ensures BaseScan(files, order, rootOf, k + 1, k)
  {
    hide BaseAt, SharesCandidatePrefix;
    var stems := Stems(files, order);
    BaseStep(stems, k);
    if k > 0 && |stems[k]| >= MINIMUM_PREFIX_LENGTH {
      NewBaseIsNew(stems, k);
    }
  }

  lemma BaseLinks(files: seq<ScannedFile>, extension: string, order: seq<nat>, rootOf: seq<nat>, k: nat, at: nat)
    requires IsStemOrder(files, extension, order) && |rootOf| == |files| && 0 < k < |order|
    requires BaseScan(files, order, rootOf, k, at)
    requires Continues(files[order[at]].stem, files[order[k]].stem)
    ensures Linked(files, order[at], order[k])
  {
    hide SameKey, SameFamily;
    var stems := Stems(files, order);
    BaseStep(stems, k);
    assert BaseShared(stems, at, k);
    assert SameBaseIn(stems, stems[at], stems[k]);
  }

  method JoinBases(files: seq<ScannedFile>, union: DisjointSet, extension: string, order: seq<nat>)
    requires union.Valid() && Sound(files, union.rootOf) && IsStemOrder(files, extension, order)
    modifies union, union.parent
    ensures union.Valid() && Sound(files, union.rootOf) && Coarser(old(union.rootOf), union.rootOf)
    ensures BasesJoined(files, order, union.rootOf)
  {
    hide Connected, Linked, Continues, BaseAt, BaseShared, BaseScan, union.Valid;
    var base: Option<nat> := None;
    ghost var at := 0;
    assert BaseScan(files, order, union.rootOf, 0, 0) by { NothingScanned(files, order, union.rootOf); }
    for k := 0 to |order|
      invariant union.Valid() && Sound(files, union.rootOf) && Coarser(old(union.rootOf), union.rootOf)
      invariant base.Some? <==> k > 0
      invariant 0 <= at && (base.Some? ==> at < k && base.value == order[at])
      invariant BaseScan(files, order, union.rootOf, k, at)
    {
      var index := order[k];
      if base.Some? && Continues(files[base.value].stem, files[index].stem) {
        BaseLinks(files, extension, order, union.rootOf, k, at);
        ghost var before := union.rootOf;
        JoinLinked(files, union, base.value, index);
        BaseContinues(files, order, before, union.rootOf, k, at);
      } else {
        BaseMoves(files, order, union.rootOf, k, at);
        base := Some(index);
        at := k;
      }
    }
    ScanFinished(files, order, union.rootOf, at);
  }

  lemma NothingScanned(files: seq<ScannedFile>, order: seq<nat>, rootOf: seq<nat>)
    requires |rootOf| == |files| && forall p :: 0 <= p < |order| ==> order[p] < |files|
    ensures BaseScan(files, order, rootOf, 0, 0)
  {
  }

  lemma ScanFinished(files: seq<ScannedFile>, order: seq<nat>, rootOf: seq<nat>, at: nat)
    requires |rootOf| == |files| && forall p :: 0 <= p < |order| ==> order[p] < |files|
    requires BaseScan(files, order, rootOf, |order|, at)
    ensures BasesJoined(files, order, rootOf)
  {
  }

  lemma NewBaseIsNew(stems: seq<string>, k: nat)
    requires LexSorted(stems) && 0 < k < |stems| && |stems[k]| >= MINIMUM_PREFIX_LENGTH
    requires var base := BaseAt(stems, k - 1);
             !(|base| >= MINIMUM_PREFIX_LENGTH && SharesCandidatePrefix(base, stems[k]))
    ensures forall p :: 0 <= p < k ==> BaseAt(stems, p) != stems[k]
  {
    forall p | 0 <= p < k ensures BaseAt(stems, p) != stems[k] {
      if BaseAt(stems, p) == stems[k] {
        BaseDoesNotReturn(stems, p, k);
      }
    }
  }

  // ----- All extensions -----

  ghost predicate FamiliesJoined(files: seq<ScannedFile>, rootOf: seq<nat>, extension: string)
    requires |rootOf| == |files|
  {
    forall a, b :: 0 <= a < |files| && 0 <= b < |files| && files[a].extension == extension ==>
      (SameFamily(files[a], files[b]) || SameBase(files, a, b) ==> rootOf[a] == rootOf[b])
  }

  /** The positions of every key. */
  method GroupBy<K(==,!new)>(keys: seq<K>) returns (groups: map<K, seq<nat>>)
    ensures forall k :: k in groups <==> k in keys
    ensures forall k :: k in groups ==> groups[k] == Positions(keys, k)
  {
    hide Grouped;
    groups := map[];
    NothingGrouped(keys);
    for i := 0 to |keys|
      invariant Grouped(keys[..i], groups)
    {
      var key := keys[i];
      OneGrouped(keys, i, groups);
      groups := groups[key := (if key in groups then groups[key] else []) + [i]];
    }
    AllGrouped(keys, groups);
  }

  /** The map holds the positions of every key. */
  ghost predicate Grouped<K(!new)>(keys: seq<K>, groups: map<K, seq<nat>>) {
    && (forall k :: k in groups <==> k in keys)
    && (forall k :: k in groups ==> groups[k] == Positions(keys, k))
  }

  lemma NothingGrouped<K(!new)>(keys: seq<K>)
    ensures Grouped(keys[..0], map[])
  {
  }

  lemma AllGrouped<K(!new)>(keys: seq<K>, groups: map<K, seq<nat>>)
    requires Grouped(keys[..|keys|], groups)
    ensures forall k :: k in groups <==> k in keys
    ensures forall k :: k in groups ==> groups[k] == Positions(keys, k)
  {
    assert keys[..|keys|] == keys;
  }

  lemma OneGrouped<K(!new)>(keys: seq<K>, i: nat, groups: map<K, seq<nat>>)
    requires i < |keys| && Grouped(keys[..i], groups)
    ensures Grouped(keys[..i + 1], groups[keys[i] := (if keys[i] in groups then groups[keys[i]] else []) + [i]])
  {
    hide Positions;
    var key, front, now := keys[i], keys[..i], keys[..i + 1];
    assert now == front + [key];
    forall k ensures Positions(now, k) == Positions(front, k) + if k == key then [i] else [] {
      OneMorePosition(front, key, k);
    }
    if key !in groups {
      NoPositions(front, key);
    }
  }

  lemma OneMorePosition<K>(front: seq<K>, last: K, k: K)
    ensures Positions(front + [last], k) == Positions(front, k) + if k == last then [|front|] else []
  {
    assert (front + [last])[..|front|] == front;
  }

  lemma {:induction false} NoPositions<K>(keys: seq<K>, key: K)
    requires key !in keys
    ensures Positions(keys, key) == []
  {
    if keys != [] {
      NoPositions(keys[..|keys| - 1], key);
    }
  }

  method JoinExtensions(files: seq<ScannedFile>, union: DisjointSet)
    requires union.Valid() && Sound(files, union.rootOf)
    modifies union, union.parent
    ensures union.Valid() && Sound(files, union.rootOf) && Coarser(old(union.rootOf), union.rootOf)
    ensures forall a :: 0 <= a < |files| ==> FamiliesJoined(files, union.rootOf, files[a].extension)
  {
    hide *;
    var byExtension := GroupBy(Extensions(files));
    var rest := byExtension.Keys;
    CoarserThanItself(union.rootOf);
    SoundLength(files, union.rootOf);
    while rest != {}
      invariant rest <= byExtension.Keys
      invariant union.Valid() && Sound(files, union.rootOf) && Coarser(old(union.rootOf), union.rootOf)
      invariant |union.rootOf| == |files|
      invariant forall e :: e in byExtension.Keys - rest ==> FamiliesJoined(files, union.rootOf, e)
    {
      var extension :| extension in rest;
      var indexes := byExtension[extension];
      ghost var before := union.rootOf;
      IndexesHaveExtension(files, extension);
      SoundLength(files, union.rootOf);
      JoinFamilies(files, union, extension, indexes);
      ghost var middle := union.rootOf;
      SoundLength(files, middle);
      StemOrderIsTotal(files, indexes);
      var order := SortBy(indexes, StemAtMost(files));
      SortedIsStemOrder(files, extension, order);
      JoinBases(files, union, extension, order);
      SoundLength(files, union.rootOf);
      ExtensionJoined(files, extension, order, middle, union.rootOf);
      CoarserComposes(before, middle, union.rootOf);
      CoarserComposes(old(union.rootOf), before, union.rootOf);
      forall e | e in byExtension.Keys - rest ensures FamiliesJoined(files, union.rootOf, e) {
        JoinedStaysJoined(files, before, union.rootOf, e);
      }
      rest := rest - {extension};
    }
    forall a | 0 <= a < |files| ensures FamiliesJoined(files, union.rootOf, files[a].extension) {
      assert Extensions(files)[a] == files[a].extension;
      assert files[a].extension in byExtension.Keys - rest;
    }
  }

  function StemAtMost(files: seq<ScannedFile>): (nat, nat) -> bool {
    (a: nat, b: nat) => a < |files| && b < |files| && LexAtMost(files[a].stem, files[b].stem)
  }

  lemma CoarserThanItself(rootOf: seq<nat>)
    ensures Coarser(rootOf, rootOf)
  {
  }

  lemma CoarserComposes(a: seq<nat>, b: seq<nat>, c: seq<nat>)
    requires Coarser(a, b) && Coarser(b, c)
    ensures Coarser(a, c)
  {
  }

  lemma SoundLength(files: seq<ScannedFile>, rootOf: seq<nat>)
    requires Sound(files, rootOf)
    ensures |rootOf| == |files|
  {
  }

  lemma JoinedStaysJoined(files: seq<ScannedFile>, before: seq<nat>, after: seq<nat>, extension: string)
    requires |before| == |files| && Coarser(before, after) && FamiliesJoined(files, before, extension)
    ensures |after| == |files| && FamiliesJoined(files, after, extension)
  {
    hide SameFamily, SameBase;
  }

  lemma IndexesHaveExtension(files: seq<ScannedFile>, extension: string)
    ensures var indexes := Positions(Extensions(files), extension);
            && (forall p :: 0 <= p < |indexes| ==> indexes[p] < |files| && files[indexes[p]].extension == extension)
            && (forall a :: 0 <= a < |files| && files[a].extension == extension ==> a in indexes)
  {
    var indexes := Positions(Extensions(files), extension);
    assert forall p :: 0 <= p < |indexes| ==> indexes[p] in indexes;
  }

  lemma StemOrderIsTotal(files: seq<ScannedFile>, indexes: seq<nat>)
    requires forall p :: 0 <= p < |indexes| ==> indexes[p] < |files|
    ensures IsOrder(indexes, StemAtMost(files))
  {
    forall x, y | x in indexes && y in indexes ensures StemAtMost(files)(x, y) || StemAtMost(files)(y, x) {
      LexIsTotal(files[x].stem, files[y].stem);
    }
    forall x, y, z | x in indexes && y in indexes && z in indexes && StemAtMost(files)(x, y) && StemAtMost(files)(y, z)
      ensures StemAtMost(files)(x, z)
    {
      LexIsTransitive(files[x].stem, files[y].stem, files[z].stem);
    }
  }

  lemma SortedIsStemOrder(files: seq<ScannedFile>, extension: string, order: seq<nat>)
    requires InOrder(order, StemAtMost(files))
    requires multiset(order) == multiset(Positions(Extensions(files), extension))
    ensures IsStemOrder(files, extension, order)
  {
    var indexes := Positions(Extensions(files), extension);
    forall k | 0 <= k < |order| ensures order[k] < |files| && files[order[k]].extension == extension {
      assert order[k] in multiset(indexes);
      assert order[k] in indexes;
    }
    var stems := Stems(files, order);
    forall i, j | 0 <= i < j < |stems| ensures LexAtMost(stems[i], stems[j]) {
      assert StemAtMost(files)(order[i], order[j]);
    }
  }

  ghost predicate FamilyJoined(files: seq<ScannedFile>, indexes: seq<nat>, rootOf: seq<nat>)
    requires |rootOf| == |files| && forall p :: 0 <= p < |indexes| ==> indexes[p] < |files|
  {
    forall p, q :: 0 <= p < |indexes| && 0 <= q < |indexes| ==>
      (SameFamily(files[indexes[p]], files[indexes[q]]) ==> rootOf[indexes[p]] == rootOf[indexes[q]])
  }

  ghost predicate BasesJoined(files: seq<ScannedFile>, order: seq<nat>, rootOf: seq<nat>)
    requires |rootOf| == |files| && forall p :: 0 <= p < |order| ==> order[p] < |files|
  {
    forall p, q :: 0 <= p < |order| && 0 <= q < |order| && BaseShared(Stems(files, order), p, q) ==>
      rootOf[order[p]] == rootOf[order[q]]
  }

  /** With one extension done, its two families are. */
  lemma ExtensionJoined(
    files: seq<ScannedFile>, extension: string, order: seq<nat>, middle: seq<nat>, after: seq<nat>)
    requires |middle| == |after| == |files| && Coarser(middle, after) && IsStemOrder(files, extension, order)
    requires forall p :: 0 <= p < |order| ==> order[p] < |files|
    requires var indexes := Positions(Extensions(files), extension);
             && (forall p :: 0 <= p < |indexes| ==> indexes[p] < |files|)
             && FamilyJoined(files, indexes, middle)
    requires BasesJoined(files, order, after)
    ensures FamiliesJoined(files, after, extension)
  {
    hide SameFamily, SameBase, FamilyJoined, BasesJoined, IsStemOrder, Coarser;
    forall a, b | 0 <= a < |files| && 0 <= b < |files| && files[a].extension == extension
                  && (SameFamily(files[a], files[b]) || SameBase(files, a, b))
      ensures after[a] == after[b]
    {
      if SameFamily(files[a], files[b]) {
        FamilyPair(files, extension, middle, after, a, b);
      } else {
        BasePair(files, extension, order, after, a, b);
      }
    }
  }

  lemma FamilyPair(files: seq<ScannedFile>, extension: string, middle: seq<nat>, after: seq<nat>, a: nat, b: nat)
    requires |middle| == |after| == |files| && Coarser(middle, after) && a < |files| && b < |files|
    requires var indexes := Positions(Extensions(files), extension);
             && (forall p :: 0 <= p < |indexes| ==> indexes[p] < |files|)
             && FamilyJoined(files, indexes, middle)
    requires files[a].extension == extension && SameFamily(files[a], files[b])
    ensures after[a] == after[b]
  {
    hide CopyFamilyStem;
    var indexes := Positions(Extensions(files), extension);
    assert a in indexes && b in indexes;
    var p :| 0 <= p < |indexes| && indexes[p] == a;
    var q :| 0 <= q < |indexes| && indexes[q] == b;
    assert middle[a] == middle[b];
  }

  lemma BasePair(files: seq<ScannedFile>, extension: string, order: seq<nat>, after: seq<nat>, a: nat, b: nat)
    requires |after| == |files| && IsStemOrder(files, extension, order) && a < |files| && b < |files|
    requires forall p :: 0 <= p < |order| ==> order[p] < |files|
    requires BasesJoined(files, order, after)
    requires files[a].extension == extension && SameBase(files, a, b)
    ensures after[a] == after[b]
  {
    hide SameBase, BaseShared, IsStemOrder;
    var p, q := PlacesOfBase(files, extension, order, a, b);
  }

  /** A shared base shows at the places two files have in any order. */
  lemma PlacesOfBase(files: seq<ScannedFile>, extension: string, order: seq<nat>, a: nat, b: nat)
    returns (p: nat, q: nat)
    requires IsStemOrder(files, extension, order) && a < |files| && b < |files|
    requires files[a].extension == extension && SameBase(files, a, b)
    ensures p < |order| && q < |order| && order[p] == a && order[q] == b && BaseShared(Stems(files, order), p, q)
  {
    hide BaseAt, LexSorted, Positions, Extensions;
    BaseInAnyOrder(files, extension, order, a, b);
    var stems := Stems(files, order);
    var p', q' :| 0 <= p' < |stems| && 0 <= q' < |stems|
                  && stems[p'] == files[a].stem && stems[q'] == files[b].stem && BaseShared(stems, p', q');
    p := PlaceInOrder(files, extension, order, a);
    q := PlaceInOrder(files, extension, order, b);
    SameStemSameBase(stems, p, p');
    SameStemSameBase(stems, q, q');
  }

  lemma BaseInAnyOrder(files: seq<ScannedFile>, extension: string, order: seq<nat>, a: nat, b: nat)
    requires IsStemOrder(files, extension, order) && a < |files| && b < |files|
    requires files[a].extension == extension && SameBase(files, a, b)
    ensures files[b].extension == extension && SameBaseIn(Stems(files, order), files[a].stem, files[b].stem)
  {
    hide SameBaseIn, LexSorted;
    var other :| IsStemOrder(files, extension, other)
                 && SameBaseIn(Stems(files, other), files[a].stem, files[b].stem);
    StemOrdersAgree(files, extension, order, other);
  }

  lemma PlaceInOrder(files: seq<ScannedFile>, extension: string, order: seq<nat>, a: nat) returns (p: nat)
    requires IsStemOrder(files, extension, order) && a < |files| && files[a].extension == extension
    ensures p < |order| && order[p] == a
  {
    assert a in Positions(Extensions(files), extension);
    assert a in multiset(order);
    p :| 0 <= p < |order| && order[p] == a;
  }

  lemma SameStemSameBase(stems: seq<string>, p: nat, q: nat)
    requires LexSorted(stems) && p < |stems| && q < |stems| && stems[p] == stems[q]
    requires |stems[p]| >= MINIMUM_PREFIX_LENGTH
    ensures BaseAt(stems, p) == BaseAt(stems, q)
  {
    if p <= q {
      OneBasePerStem(stems, p, q);
    } else {
      OneBasePerStem(stems, q, p);
    }
  }

  // ----- Groups -----

  /** Two files end up with one root exactly when a chain of links connects them. */
  ghost predicate RootsAreClosure(files: seq<ScannedFile>, rootOf: seq<nat>) {
    && |rootOf| == |files|
    && forall a, b :: 0 <= a < |files| && 0 <= b < |files| ==> (rootOf[a] == rootOf[b] <==> Connected(files, a, b))
  }

  lemma {:induction false} ChainHasOneRoot(files: seq<ScannedFile>, rootOf: seq<nat>, chain: seq<nat>)
    requires IsChain(files, chain) && |rootOf| == |files|
    requires forall a, b :: 0 <= a < |files| && 0 <= b < |files| && Linked(files, a, b) ==> rootOf[a] == rootOf[b]
    ensures rootOf[chain[0]] == rootOf[chain[|chain| - 1]]
  {
    hide Linked;
    if |chain| > 1 {
      ChainHasOneRoot(files, rootOf, chain[..|chain| - 1]);
    }
  }

  lemma ClosureReached(files: seq<ScannedFile>, rootOf: seq<nat>)
    requires Sound(files, rootOf)
    requires forall a, b :: 0 <= a < |files| && 0 <= b < |files| ==>
               (SameKey(files[a], files[b]) ==> rootOf[a] == rootOf[b])
    requires forall a :: 0 <= a < |files| ==> FamiliesJoined(files, rootOf, files[a].extension)
    ensures RootsAreClosure(files, rootOf)
  {
    hide SameKey, SameFamily, SameBase;
    forall a, b | 0 <= a < |files| && 0 <= b < |files| && Linked(files, a, b) ensures rootOf[a] == rootOf[b] {
      assert FamiliesJoined(files, rootOf, files[a].extension);
    }
    hide Linked;
    forall a, b | 0 <= a < |files| && 0 <= b < |files| && Connected(files, a, b) ensures rootOf[a] == rootOf[b] {
      var chain :| IsChain(files, chain) && chain[0] == a && chain[|chain| - 1] == b;
      ChainHasOneRoot(files, rootOf, chain);
    }
  }

  /** Joins all three families and reads off the roots. */
  method FindGroups(files: seq<ScannedFile>) returns (roots: seq<nat>)
    ensures RootsAreClosure(files, roots)
  {
    hide *;
    var union := new DisjointSet(|files|);
    SinglesAreSound(files, union.rootOf);
    JoinKeys(files, union);
    SoundLength(files, union.rootOf);
    ghost var keyed := union.rootOf;
    JoinExtensions(files, union);
    SoundLength(files, union.rootOf);
    KeysStayJoined(files, keyed, union.rootOf);
    ClosureReached(files, union.rootOf);
    roots := [];
    union.ValidMeansForest();
    ghost var rootOf := union.rootOf;
    for index := 0 to |files|
      invariant union.Valid() && union.parent.Length == |files| && union.rootOf == rootOf && |rootOf| == |files|
      invariant roots == rootOf[..index]
    {
      var root := union.Root(index);
      assert rootOf[..index + 1] == rootOf[..index] + [rootOf[index]];
      roots := roots + [root];
    }
    assert rootOf[..|files|] == rootOf;
  }

  lemma SinglesAreSound(files: seq<ScannedFile>, rootOf: seq<nat>)
    requires |rootOf| == |files|
    requires forall i, j :: 0 <= i < |rootOf| && 0 <= j < |rootOf| ==> (rootOf[i] == rootOf[j] <==> i == j)
    ensures Sound(files, rootOf)
  {
    hide Connected;
    forall i | 0 <= i < |files| ensures Connected(files, i, i) {
      ConnectedToItself(files, i);
    }
  }

  lemma KeysStayJoined(files: seq<ScannedFile>, before: seq<nat>, after: seq<nat>)
    requires |before| == |files| && Coarser(before, after)
    requires forall a, b :: 0 <= a < |files| && 0 <= b < |files| ==>
               (SameKey(files[a], files[b]) ==> before[a] == before[b])
    ensures |after| == |files|
    ensures forall a, b :: 0 <= a < |files| && 0 <= b < |files| ==>
              (SameKey(files[a], files[b]) ==> after[a] == after[b])
  {
  }

  // ----- The oldest of a group -----

  function TimeOf(file: ScannedFile): Option<nat> {
    if file.created.Some? then file.created else file.modified
  }

  /** Known times first, earlier ones before later ones, then by path. */
  predicate AgeAtMost(a: ScannedFile, b: ScannedFile) {
    var ta, tb := TimeOf(a), TimeOf(b);
    if ta == tb then LexAtMost(a.path, b.path)
    else ta.Some? && (tb.None? || ta.value < tb.value)
  }

  lemma AgeIsTotal(a: ScannedFile, b: ScannedFile)
    ensures AgeAtMost(a, b) || AgeAtMost(b, a)
    ensures AgeAtMost(a, b) && AgeAtMost(b, a) ==> a.path == b.path
  {
    LexIsTotal(a.path, b.path);
  }

  lemma AgeIsTransitive(a: ScannedFile, b: ScannedFile, c: ScannedFile)
    requires AgeAtMost(a, b) && AgeAtMost(b, c)
    ensures AgeAtMost(a, c)
  {
    if TimeOf(a) == TimeOf(b) == TimeOf(c) {
      LexIsTransitive(a.path, b.path, c.path);
    }
  }

  function ByAge(files: seq<ScannedFile>): (nat, nat) -> bool {
    (a: nat, b: nat) => a < |files| && b < |files| && AgeAtMost(files[a], files[b])
  }

  lemma AgeOrder(files: seq<ScannedFile>, indexes: seq<nat>)
    requires forall p :: 0 <= p < |indexes| ==> indexes[p] < |files|
    ensures IsOrder(indexes, ByAge(files))
  {
    hide AgeAtMost;
    forall x, y | x in indexes && y in indexes ensures ByAge(files)(x, y) || ByAge(files)(y, x) {
      AgeIsTotal(files[x], files[y]);
    }
    forall x, y, z | x in indexes && y in indexes && z in indexes && ByAge(files)(x, y) && ByAge(files)(y, z)
      ensures ByAge(files)(x, z)
    {
      AgeIsTransitive(files[x], files[y], files[z]);
    }
  }

  ghost predicate DistinctPaths(files: seq<ScannedFile>) {
    forall i, j :: 0 <= i < |files| && 0 <= j < |files| && files[i].path == files[j].path ==> i == j
  }

  ghost predicate Listed(entries: seq<Entry>, index: nat) {
    exists x :: 0 <= x < |entries| && entries[x].index == index
  }

  ghost predicate ListedOnce(entries: seq<Entry>) {
    forall x, y :: 0 <= x < |entries| && 0 <= y < |entries| && entries[x].index == entries[y].index ==> x == y
  }

  /** In every group of two or more each member is listed once, the oldest as the
      Original and the others as Possible; a file on its own is not listed. */
  ghost predicate NameGroups(files: seq<ScannedFile>, entries: seq<Entry>) {
    && ListedOnce(entries)
    && (forall x :: 0 <= x < |entries| ==> entries[x].index < |files|)
    && (forall a :: 0 <= a < |files| ==> (Listed(entries, a) <==> HasPartner(files, a)))
    && (forall x :: 0 <= x < |entries| ==>
          entries[x].kind == if OldestConnected(files, entries[x].index) then Original else Possible)
  }

  ghost predicate HasPartner(files: seq<ScannedFile>, a: nat)
    requires a < |files|
  {
    exists b :: 0 <= b < |files| && b != a && Connected(files, a, b)
  }

  ghost predicate OldestConnected(files: seq<ScannedFile>, a: nat) {
    a < |files| && forall b :: 0 <= b < |files| && Connected(files, a, b) ==> AgeAtMost(files[a], files[b])
  }
}
