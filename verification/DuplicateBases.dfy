/** Which stems one base joins (`src/fs/duplicates.rs`, the scan in stem order and
    `names_share_candidate_prefix`), and what no link ever joins. */
module DuplicateBases {
  import opened Prelude
  import opened Texts
  import opened Orderings
  import opened DuplicateNames
  import opened DuplicateGroups
  import opened DuplicateFamilies

  // ----- A stem and what begins with it -----

  lemma {:induction false} PrefixBetween(a: string, x: string, b: string)
    requires a <= b && LexAtMost(a, x) && LexAtMost(x, b)
    ensures a <= x
  {
    if a == [] {
    } else {
      assert x[0] == a[0] == b[0];
      PrefixBetween(a[1..], x[1..], b[1..]);
      assert a == [a[0]] + a[1..] && x == [x[0]] + x[1..];
    }
  }

  /** No stem from `p` to `q` goes on with a dot. */
  ghost predicate NoDotBetween(stems: seq<string>, p: nat, q: nat)
    requires p <= q < |stems|
  {
    forall k :: p < k <= q ==> !(stems[p] + "." <= stems[k])
  }

  lemma DotNext(a: string, s: string)
    requires a <= s && |a| < |s|
    ensures s[|a|] == '.' <==> a + "." <= s
  {
    assert s[..|a| + 1] == a + [s[|a|]];
  }

  lemma {:induction false} BaseStays(stems: seq<string>, p: nat, q: nat)
    requires LexSorted(stems) && p <= q < |stems| && |stems[p]| >= 3 && stems[p] <= stems[q]
    requires BaseAt(stems, p) != stems[p] || NoDotBetween(stems, p, q)
    ensures BaseAt(stems, q) == BaseAt(stems, p)
    decreases q - p
  {
    hide LexAtMost, BaseAt;
    if p < q {
      var a, base := stems[p], BaseAt(stems, p);
      if p < q - 1 {
        PrefixBetween(a, stems[q - 1], stems[q]);
      }
      BaseStays(stems, p, q - 1);
      BaseSharesPrefix(stems, p);
      BaseStep(stems, q);
      assert base <= stems[q];
      if |base| < |a| {
        assert stems[q][|base|] == a[|base|];
      } else if |base| < |stems[q]| {
        DotNext(a, stems[q]);
      }
    }
  }

  lemma {:induction false} BaseIsLost(stems: seq<string>, p: nat, k: nat, q: nat)
    requires LexSorted(stems) && p < k <= q < |stems| && |stems[p]| >= 3 && stems[p] + "." <= stems[k]
    ensures BaseAt(stems, q) != stems[p]
    decreases q - k
  {
    hide LexAtMost, BaseAt;
    var a := stems[p];
    BaseStep(stems, q);
    if k < q {
      BaseIsLost(stems, p, k, q - 1);
      if stems[q] == a {
        LexIsTotal(a, stems[k]);
      }
    } else {
      assert stems[k][|a|] == (a + ".")[|a|];
    }
  }

  /** A stem is compared with the base in force where it stands. What begins with it
      has the same base exactly if that base is shorter than the stem, or no stem in
      between adds a dot-separated suffix. */
  lemma PrefixSharesBaseIff(stems: seq<string>, p: nat, q: nat)
    requires LexSorted(stems) && p <= q < |stems| && |stems[p]| >= 3 && stems[p] <= stems[q]
    ensures BaseAt(stems, p) == BaseAt(stems, q) <==> BaseAt(stems, p) != stems[p] || NoDotBetween(stems, p, q)
  {
    hide LexAtMost, BaseAt;
    if BaseAt(stems, p) != stems[p] || NoDotBetween(stems, p, q) {
      BaseStays(stems, p, q);
    } else {
      var k :| p < k <= q && stems[p] + "." <= stems[k];
      BaseIsLost(stems, p, k, q);
    }
  }

  // ----- On scanned files -----

  /** The files can be sorted, whatever they are called. */
  lemma {:induction false} SomeStemOrder(files: seq<ScannedFile>, indexes: seq<nat>) returns (sorted: seq<nat>)
    requires forall p :: 0 <= p < |indexes| ==> indexes[p] < |files|
    ensures InOrder(sorted, StemAtMost(files)) && multiset(sorted) == multiset(indexes)
  {
    hide IsOrder, InOrder, LexAtMost;
    if indexes == [] {
      sorted := [];
      NothingToOrder(StemAtMost(files));
    } else {
      var n := |indexes| - 1;
      var front := SomeStemOrder(files, indexes[..n]);
      StemOrderIsTotal(files, indexes);
      var k := |front|;
      while k > 0 && !StemAtMost(files)(front[k - 1], indexes[n])
        invariant 0 <= k <= |front|
        invariant forall i :: k <= i < |front| ==> !StemAtMost(files)(front[i], indexes[n])
      {
        k := k - 1;
      }
      Inserted(indexes, n, front, k, StemAtMost(files));
      sorted := front[..k] + [indexes[n]] + front[k..];
      assert indexes[..n + 1] == indexes;
    }
  }

  lemma NothingToOrder<T(!new)>(atMost: (T, T) -> bool)
    ensures InOrder([], atMost)
  {
  }

  /** What begins with the stem of another file is in one group with it, if no scanned
      file of that extension goes on from that stem with a dot. */
  lemma PrefixesAreConnected(files: seq<ScannedFile>, a: nat, b: nat)
    requires a < |files| && b < |files| && files[a].extension == files[b].extension
    requires |files[a].stem| >= 3 && files[a].stem <= files[b].stem
    requires forall x :: 0 <= x < |files| && files[x].extension == files[a].extension ==>
               !(files[a].stem + "." <= files[x].stem)
    ensures SameBase(files, a, b) && Connected(files, a, b)
  {
    hide LexAtMost, BaseAt, Positions, Extensions, LexSorted, Connected, SameKey, SameFamily;
    var extension := files[a].extension;
    IndexesHaveExtension(files, extension);
    var order := SomeStemOrder(files, Positions(Extensions(files), extension));
    SortedIsStemOrder(files, extension, order);
    var p := PlaceInOrder(files, extension, order, a);
    var q := PlaceInOrder(files, extension, order, b);
    var stems := Stems(files, order);
    if p <= q {
      BaseStays(stems, p, q);
    } else {
      EqualInOrder(stems, q, p);
      SameStemSameBase(stems, q, p);
    }
    BaseSharesPrefix(stems, p);
    assert BaseShared(stems, p, q);
    assert SameBaseIn(stems, files[a].stem, files[b].stem);
    LinkedAreConnected(files, a, b);
  }

  /** What sorts before its own beginning is equal to it. */
  lemma EqualInOrder(stems: seq<string>, q: nat, p: nat)
    requires LexSorted(stems) && q < p < |stems| && stems[p] <= stems[q]
    ensures stems[p] == stems[q]
  {
    PrefixSortsFirst(stems[p], stems[q]);
    LexIsTotal(stems[p], stems[q]);
  }

  // ----- What stays out -----

  /** Nothing to do with each other but the first three characters. */
  predicate ShareBeginning(a: string, b: string) {
    a == b || (|a| >= 3 && |b| >= 3 && a[..3] == b[..3])
  }

  lemma {:induction false} MarkerShortens(name: string, markers: seq<string>)
    ensures StripCopyMarker(name, markers).Some? ==> StripCopyMarker(name, markers).value <= name
  {
    if markers != [] && StripSuffix(name, markers[0]).None? {
      MarkerShortens(name, markers[1..]);
    }
  }

  lemma FamilyIsPrefix(stem: string)
    ensures CopyFamilyStem(stem) <= Trim(stem)
  {
    var original := Trim(stem);
    var counted := StripCopyCounter(original);
    var withoutCounter := if counted.Some? then counted.value else original;
    assert withoutCounter <= original;
    MarkerShortens(withoutCounter, COPY_MARKERS);
  }

  lemma LinkedShareBeginning(files: seq<ScannedFile>, a: nat, b: nat)
    requires a < |files| && b < |files| && Linked(files, a, b)
    requires files[a].name == files[b].name ==> files[a].stem == files[b].stem
    requires Trim(files[a].stem) == files[a].stem && Trim(files[b].stem) == files[b].stem
    ensures files[a].extension == files[b].extension && ShareBeginning(files[a].stem, files[b].stem)
  {
    hide SameFamily, SameBase, ShareBeginning, Trim;
    if SameFamily(files[a], files[b]) {
      FamilySharesBeginning(files[a], files[b]);
    } else if SameBase(files, a, b) {
      BaseSharesBeginning(files, a, b);
    } else {
      EqualShareBeginning(files[a].stem);
    }
  }

  lemma EqualShareBeginning(stem: string)
    ensures ShareBeginning(stem, stem)
  {
  }

  lemma FamilySharesBeginning(a: ScannedFile, b: ScannedFile)
    requires SameFamily(a, b) && Trim(a.stem) == a.stem && Trim(b.stem) == b.stem
    ensures a.extension == b.extension && ShareBeginning(a.stem, b.stem)
  {
    hide CopyFamilyStem, Trim;
    FamilyIsPrefix(a.stem);
    FamilyIsPrefix(b.stem);
    BeginningsAgree(CopyFamilyStem(a.stem), a.stem, b.stem);
  }

  lemma BaseSharesBeginning(files: seq<ScannedFile>, a: nat, b: nat)
    requires a < |files| && b < |files| && SameBase(files, a, b)
    ensures files[a].extension == files[b].extension && ShareBeginning(files[a].stem, files[b].stem)
  {
    hide SameBaseIn, LexSorted, Positions, Extensions;
    var order :| IsStemOrder(files, files[a].extension, order)
                 && SameBaseIn(Stems(files, order), files[a].stem, files[b].stem);
    StemsShareBeginning(Stems(files, order), files[a].stem, files[b].stem);
  }

  lemma StemsShareBeginning(stems: seq<string>, a: string, b: string)
    requires SameBaseIn(stems, a, b)
    ensures ShareBeginning(a, b)
  {
    hide BaseAt;
    var p, q :| 0 <= p < |stems| && 0 <= q < |stems| && stems[p] == a && stems[q] == b && BaseShared(stems, p, q);
    BaseSharesPrefix(stems, p);
    BaseSharesPrefix(stems, q);
    BeginningsAgree(BaseAt(stems, p), a, b);
  }

  lemma BeginningsAgree(common: string, a: string, b: string)
    requires |common| >= 3 && common <= a && common <= b
    ensures ShareBeginning(a, b)
  {
    assert a[..3] == common[..3] == b[..3];
  }

  /** However many links lie between them, files of one group have one extension and
      begin alike. */
  lemma {:induction false} ChainSharesBeginning(files: seq<ScannedFile>, chain: seq<nat>)
    requires IsChain(files, chain)
    requires forall x, y :: 0 <= x < |files| && 0 <= y < |files| && files[x].name == files[y].name ==>
               files[x].stem == files[y].stem
    requires forall x :: 0 <= x < |files| ==> Trim(files[x].stem) == files[x].stem
    ensures var a, b := files[chain[0]], files[chain[|chain| - 1]];
            a.extension == b.extension && ShareBeginning(a.stem, b.stem)
  {
    hide Linked, Trim;
    var n := |chain| - 1;
    if n > 0 {
      ChainSharesBeginning(files, chain[..n]);
      if Linked(files, chain[n - 1], chain[n]) {
        LinkedShareBeginning(files, chain[n - 1], chain[n]);
      } else {
        LinkedShareBeginning(files, chain[n], chain[n - 1]);
      }
    }
  }

  lemma ConnectedShareBeginning(files: seq<ScannedFile>, a: nat, b: nat)
    requires a < |files| && b < |files| && Connected(files, a, b)
    requires forall x, y :: 0 <= x < |files| && 0 <= y < |files| && files[x].name == files[y].name ==>
               files[x].stem == files[y].stem
    requires forall x :: 0 <= x < |files| ==> Trim(files[x].stem) == files[x].stem
    ensures files[a].extension == files[b].extension && ShareBeginning(files[a].stem, files[b].stem)
  {
    hide Linked, Trim;
    var chain :| IsChain(files, chain) && chain[0] == a && chain[|chain| - 1] == b;
    ChainSharesBeginning(files, chain);
  }

  /** Files with very short stems are only linked by name, extension and size. */
  lemma ShortStemsNeedEqualKeys(files: seq<ScannedFile>, a: nat, b: nat)
    requires a < |files| && b < |files| && |files[a].stem| < 3
    ensures Linked(files, a, b) <==>
              files[a].name == files[b].name && files[a].extension == files[b].extension
              && files[a].size == files[b].size
  {
    hide BaseAt, CopyFamilyStem, LexSorted, LexAtMost;
    FamilyIsPrefix(files[a].stem);
  }

  /** A dot-separated suffix is another extension, not a renamed copy. */
  lemma DotSuffixStaysOut(files: seq<ScannedFile>, entries: seq<Entry>, suffix: string)
    requires |files| == 2 && NameGroups(files, entries) && files[0].name != files[1].name
    requires files[1].stem == files[0].stem + "." + suffix
    requires forall i :: 0 <= i < 2 ==>
               IsTrimmed(files[i].stem) && !EndsInCounter(files[i].stem) && !EndsInMarker(files[i].stem)
    ensures entries == []
  {
    hide BaseAt, CopyFamilyStem, LexAtMost, IsTrimmed, EndsInCounter, EndsInMarker, Linked;
    DotSuffixIsUnlinked(files, 0, 1);
    DotSuffixIsUnlinked(files, 1, 0);
    forall a, b | 0 <= a < 2 && 0 <= b < 2 && Connected(files, a, b) ensures a == b {
      var chain :| IsChain(files, chain) && chain[0] == a && chain[|chain| - 1] == b;
      ChainHasOneRoot(files, [0, 1], chain);
    }
    if entries != [] {
      FirstIsListed(entries);
    }
  }

  lemma FirstIsListed(entries: seq<Entry>)
    requires entries != []
    ensures Listed(entries, entries[0].index)
  {
  }

  lemma BaseWasRead(stems: seq<string>, p: nat)
    requires p < |stems|
    ensures BaseAt(stems, p) in stems[..p + 1]
  {
  }

  lemma PlainFamily(s: string)
    requires IsTrimmed(s) && !EndsInCounter(s) && !EndsInMarker(s)
    ensures CopyFamilyStem(s) == s
  {
    hide CopyFamilyStem, EndsInCounter, EndsInMarker, Trim;
    var plain := Copy([], [], [], [], [], []);
    assert Named(s, plain) == s;
    FamilyOfCopy(s, plain);
    TrimmedStays(s);
  }

  lemma DotSuffixIsUnlinked(files: seq<ScannedFile>, a: nat, b: nat)
    requires |files| == 2 && a < 2 && b < 2 && a != b && files[0].name != files[1].name
    requires files[0].stem + "." <= files[1].stem
    requires forall i :: 0 <= i < 2 ==>
               IsTrimmed(files[i].stem) && !EndsInCounter(files[i].stem) && !EndsInMarker(files[i].stem)
    ensures !Linked(files, a, b)
  {
    hide SameBase, CopyFamilyStem, IsTrimmed, EndsInCounter, EndsInMarker;
    PlainFamily(files[0].stem);
    PlainFamily(files[1].stem);
    DotSuffixHasOtherBase(files, a, b);
  }

  lemma DotSuffixHasOtherBase(files: seq<ScannedFile>, a: nat, b: nat)
    requires |files| == 2 && a < 2 && b < 2 && a != b && files[0].stem + "." <= files[1].stem
    ensures !SameBase(files, a, b)
  {
    hide SameBaseIn, LexSorted, Positions, Extensions, Stems;
    forall order | IsStemOrder(files, files[a].extension, order)
      ensures !SameBaseIn(Stems(files, order), files[a].stem, files[b].stem)
    {
      StemsOfTwo(files, order);
      NoBaseWithDot(Stems(files, order), files[0].stem, files[1].stem);
    }
  }

  lemma StemsOfTwo(files: seq<ScannedFile>, order: seq<nat>)
    requires |files| == 2 && forall k :: 0 <= k < |order| ==> order[k] < |files|
    ensures var stems := Stems(files, order);
            forall k :: 0 <= k < |stems| ==> stems[k] == files[0].stem || stems[k] == files[1].stem
  {
  }

  lemma NoBaseWithDot(stems: seq<string>, short: string, long: string)
    requires LexSorted(stems) && short + "." <= long
    requires forall k :: 0 <= k < |stems| ==> stems[k] == short || stems[k] == long
    ensures !SameBaseIn(stems, short, long) && !SameBaseIn(stems, long, short)
  {
    hide BaseAt, LexAtMost;
    forall p, q | 0 <= p < |stems| && 0 <= q < |stems| && stems[p] == short && stems[q] == long && |short| >= 3
      ensures BaseAt(stems, p) != BaseAt(stems, q)
    {
      BaseSharesPrefix(stems, p);
      BaseWasRead(stems, p);
      if q < p {
        PrefixSortsFirst(short, long);
        LexIsTotal(short, long);
      } else {
        BaseIsLost(stems, p, q, q);
      }
    }
  }
}
