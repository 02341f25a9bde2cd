/** What makes two scanned files candidate copies of each other
    (`src/fs/duplicates.rs`): equal keys, one copy family, one sorted base. */
module DuplicateNames {
  import opened Prelude
  import opened Orderings
  import opened Texts

  /** Names, stems and extensions as the scan prepares them (lower-cased, trimmed). */
  datatype ScannedFile = ScannedFile(
    path: string, name: string, stem: string, extension: string,
    size: nat, created: Option<nat>, modified: Option<nat>)

  const MINIMUM_PREFIX_LENGTH: nat := 3

  // ----- Copy families -----

  function StripSuffix(s: string, suffix: string): (rest: Option<string>)
    ensures rest.Some? ==> s == rest.value + suffix
  {
    if |suffix| <= |s| && s[|s| - |suffix|..] == suffix then Some(s[..|s| - |suffix|]) else None
  }

  function LastIndexOf(s: string, c: char): (at: Option<nat>)
    ensures at.Some? ==> at.value < |s| && s[at.value] == c
  {
    if s == [] then None else if s[|s| - 1] == c then Some(|s| - 1) else LastIndexOf(s[..|s| - 1], c)
  }

  predicate IsDigit(c: char) {
    '0' as int <= c as int <= '9' as int
  }

  function NumberOf(digits: string): nat
    requires forall i :: 0 <= i < |digits| ==> IsDigit(digits[i])
  {
    if digits == [] then 0
    else
      assert IsDigit(digits[|digits| - 1]);
      10 * NumberOf(digits[..|digits| - 1]) + (digits[|digits| - 1] as int - '0' as int)
  }

  /** A trailing "(n)" with 0 < n that fits 64 bits is a counter. */
  function StripCopyCounter(value: string): Option<string> {
    var body := StripSuffix(TrimEnd(value), ")");
    if body.None? then None
    else
      var open := LastIndexOf(body.value, '(');
      if open.None? then None
      else
        var number := body.value[open.value + 1..];
        if number == [] || exists i :: 0 <= i < |number| && !IsDigit(number[i]) then None
        else if 0 < NumberOf(number) < 0x1_0000_0000_0000_0000 then Some(TrimEnd(body.value[..open.value]))
        else None
  }

  const COPY_MARKERS: seq<string> := [" - copia", "-copia", " copia", " - copy", "-copy", " copy"]

  function StripCopyMarker(name: string, markers: seq<string>): Option<string> {
    if markers == [] then None
    else
      var rest := StripSuffix(name, markers[0]);
      if rest.Some? then Some(TrimEnd(rest.value)) else StripCopyMarker(name, markers[1..])
  }

  function CopyFamilyStem(stem: string): string {
    var original := Trim(stem);
    var counted := StripCopyCounter(original);
    var withoutCounter := if counted.Some? then counted.value else original;
    var marked := StripCopyMarker(withoutCounter, COPY_MARKERS);
    var family := if marked.Some? then marked.value else withoutCounter;
    if |family| >= MINIMUM_PREFIX_LENGTH then family else original
  }

  // ----- Bases in a sorted list of stems -----

  /** A new dot-separated suffix is another extension, not a renamed copy. */
  predicate SharesCandidatePrefix(shorter: string, longer: string) {
    shorter <= longer && (|shorter| < |longer| ==> longer[|shorter|] != '.')
  }

  /** The stem that later ones are compared with once `stems` have been read. */
  function BaseAfter(stems: seq<string>): (base: string)
    requires stems != []
    ensures base in stems
    decreases |stems|
  {
    var last := stems[|stems| - 1];
    if |stems| == 1 then last
    else
      var base := BaseAfter(stems[..|stems| - 1]);
      if |last| >= MINIMUM_PREFIX_LENGTH && |base| >= MINIMUM_PREFIX_LENGTH && SharesCandidatePrefix(base, last)
      then base else last
  }

  /** The base in force once `stems[k]` has been read. */
  ghost function BaseAt(stems: seq<string>, k: nat): string
    requires k < |stems|
  {
    BaseAfter(stems[..k + 1])
  }

  lemma BaseStep(stems: seq<string>, k: nat)
    requires k < |stems|
    ensures k == 0 ==> BaseAt(stems, k) == stems[k]
    ensures k > 0 ==>
              var base, last := BaseAt(stems, k - 1), stems[k];
              BaseAt(stems, k) ==
                if |last| >= MINIMUM_PREFIX_LENGTH && |base| >= MINIMUM_PREFIX_LENGTH
                  && SharesCandidatePrefix(base, last)
                then base else last
  {
    if k > 0 {
      assert stems[..k + 1][..k] == stems[..k];
    }
  }

  /** While the base itself is read again it stays the base. */
  lemma {:induction false} EqualStemsKeepBase(stems: seq<string>, p: nat, k: nat)
    requires p <= k < |stems| && |BaseAt(stems, p)| >= MINIMUM_PREFIX_LENGTH
    requires forall i :: p < i <= k ==> stems[i] == BaseAt(stems, p)
    ensures BaseAt(stems, k) == BaseAt(stems, p)
    decreases k - p
  {
    if p < k {
      EqualStemsKeepBase(stems, p, k - 1);
      BaseStep(stems, k);
    }
  }

  /** In sorted order a base that was given up does not come back. */
  lemma BaseDoesNotReturn(stems: seq<string>, p: nat, k: nat)
    requires LexSorted(stems) && p < k < |stems| && |stems[k]| >= MINIMUM_PREFIX_LENGTH
    requires BaseAt(stems, p) == stems[k]
    ensures BaseAt(stems, k - 1) == stems[k]
  {
    var base := stems[k];
    var r :| 0 <= r < |stems[..p + 1]| && stems[..p + 1][r] == base;
    forall i | r <= i <= k ensures stems[i] == base {
      LexIsTotal(base, stems[i]);
      LexIsTotal(base, base);
    }
    EqualStemsKeepBase(stems, p, k - 1);
  }

  /** All occurrences of one stem have one base. */
  lemma {:induction false} OneBasePerStem(stems: seq<string>, p: nat, q: nat)
    requires LexSorted(stems) && p <= q < |stems| && stems[p] == stems[q] && |stems[p]| >= MINIMUM_PREFIX_LENGTH
    ensures BaseAt(stems, p) == BaseAt(stems, q)
    decreases q - p
  {
    if p < q {
      LexIsTotal(stems[p], stems[q - 1]);
      LexIsTotal(stems[p], stems[p]);
      assert q - 1 > p ==> LexAtMost(stems[p], stems[q - 1]) && LexAtMost(stems[q - 1], stems[q]);
      OneBasePerStem(stems, p, q - 1);
      BaseStep(stems, q);
      BaseSharesPrefix(stems, q - 1);
    }
  }

  lemma BaseSharesPrefix(stems: seq<string>, k: nat)
    requires k < |stems| && |stems[k]| >= MINIMUM_PREFIX_LENGTH
    ensures |BaseAt(stems, k)| >= MINIMUM_PREFIX_LENGTH
    ensures SharesCandidatePrefix(BaseAt(stems, k), stems[k])
  {
    if k > 0 {
      BaseStep(stems, k);
    }
  }

  // ----- The three families -----

  function Positions<K(==)>(keys: seq<K>, key: K): (positions: seq<nat>)
    ensures forall i :: i in positions <==> 0 <= i < |keys| && keys[i] == key
    ensures forall x, y :: 0 <= x < y < |positions| ==> positions[x] < positions[y]
  {
    if keys == [] then []
    else
      var front := Positions(keys[..|keys| - 1], key);
      assert forall x :: 0 <= x < |front| ==> front[x] in front;
      if keys[|keys| - 1] == key then front + [|keys| - 1] else front
  }

  function Extensions(files: seq<ScannedFile>): (extensions: seq<string>)
    ensures |extensions| == |files| && forall i :: 0 <= i < |files| ==> extensions[i] == files[i].extension
  {
    seq(|files|, i requires 0 <= i < |files| => files[i].extension)
  }

  function Stems(files: seq<ScannedFile>, order: seq<nat>): (stems: seq<string>)
    requires forall k :: 0 <= k < |order| ==> order[k] < |files|
    ensures |stems| == |order| && forall k :: 0 <= k < |order| ==> stems[k] == files[order[k]].stem
  {
    seq(|order|, k requires 0 <= k < |order| => files[order[k]].stem)
  }

  /** The files of one extension in a stem order; equal stems in any order. */
  ghost predicate IsStemOrder(files: seq<ScannedFile>, extension: string, order: seq<nat>) {
    && multiset(order) == multiset(Positions(Extensions(files), extension))
    && (forall k :: 0 <= k < |order| ==> order[k] < |files| && files[order[k]].extension == extension)
    && LexSorted(Stems(files, order))
  }

  predicate SameKey(a: ScannedFile, b: ScannedFile) {
    a.name == b.name && a.extension == b.extension && a.size == b.size
  }

  predicate SameFamily(a: ScannedFile, b: ScannedFile) {
    && a.extension == b.extension && CopyFamilyStem(a.stem) == CopyFamilyStem(b.stem)
    && |CopyFamilyStem(a.stem)| >= MINIMUM_PREFIX_LENGTH
  }

  ghost predicate SameBaseIn(stems: seq<string>, a: string, b: string) {
    exists p, q :: 0 <= p < |stems| && 0 <= q < |stems| && stems[p] == a && stems[q] == b && BaseShared(stems, p, q)
  }

  ghost predicate BaseShared(stems: seq<string>, p: nat, q: nat)
    requires p < |stems| && q < |stems|
  {
    BaseAt(stems, p) == BaseAt(stems, q) && |BaseAt(stems, p)| >= MINIMUM_PREFIX_LENGTH
    && |stems[p]| >= MINIMUM_PREFIX_LENGTH && |stems[q]| >= MINIMUM_PREFIX_LENGTH
  }

  ghost predicate SameBase(files: seq<ScannedFile>, a: nat, b: nat)
    requires a < |files| && b < |files|
  {
    && files[a].extension == files[b].extension
    && exists order :: IsStemOrder(files, files[a].extension, order)
                       && SameBaseIn(Stems(files, order), files[a].stem, files[b].stem)
  }

  function Without<T>(items: seq<T>, i: nat): (rest: seq<T>)
    requires i < |items|
    ensures |rest| == |items| - 1
    ensures forall k :: 0 <= k < |rest| ==> rest[k] == if k < i then items[k] else items[k + 1]
  {
    items[..i] + items[i + 1..]
  }

  lemma WithoutOne<T>(items: seq<T>, i: nat)
    requires i < |items|
    ensures multiset(items) == multiset(Without(items, i)) + multiset{items[i]}
    ensures multiset(Without(items, i)) == multiset(items) - multiset{items[i]}
  {
    assert items == items[..i] + [items[i]] + items[i + 1..];
  }

  lemma PlaceOf(a: seq<nat>, b: seq<nat>) returns (i: nat)
    requires multiset(a) == multiset(b) && a != []
    ensures i < |b| && b[i] == a[0]
    ensures multiset(Without(a, 0)) == multiset(Without(b, i))
  {
    assert a[0] in multiset(b);
    i :| 0 <= i < |b| && b[i] == a[0];
    WithoutOne(a, 0);
    WithoutOne(b, i);
  }

  lemma StemsWithoutOne(files: seq<ScannedFile>, order: seq<nat>, i: nat)
    requires i < |order| && forall k :: 0 <= k < |order| ==> order[k] < |files|
    ensures multiset(Stems(files, order)) == multiset(Stems(files, Without(order, i))) + multiset{files[order[i]].stem}
  {
    var stems := Stems(files, order);
    WithoutOne(stems, i);
    assert Without(stems, i) == Stems(files, Without(order, i));
  }

  lemma {:induction false} StemsOfPermutation(files: seq<ScannedFile>, a: seq<nat>, b: seq<nat>)
    requires multiset(a) == multiset(b)
    requires forall k :: 0 <= k < |a| ==> a[k] < |files|
    requires forall k :: 0 <= k < |b| ==> b[k] < |files|
    ensures multiset(Stems(files, a)) == multiset(Stems(files, b))
    decreases |a|
  {
    hide Stems;
    if a == [] {
      assert |multiset(b)| == |b|;
      assert Stems(files, a) == Stems(files, b);
    } else {
      var i := PlaceOf(a, b);
      StemsOfPermutation(files, Without(a, 0), Without(b, i));
      StemsWithoutOne(files, a, 0);
      StemsWithoutOne(files, b, i);
    }
  }

  /** Whatever order the sort leaves equal stems in, the stems come out the same. */
  lemma StemOrdersAgree(files: seq<ScannedFile>, extension: string, a: seq<nat>, b: seq<nat>)
    requires IsStemOrder(files, extension, a) && IsStemOrder(files, extension, b)
    ensures Stems(files, a) == Stems(files, b)
  {
    StemsOfPermutation(files, a, b);
    SortedNamesAreUnique(Stems(files, a), Stems(files, b));
  }

  // ----- The closure -----

  /** One of the three reasons to look at two files together. */
  ghost predicate Linked(files: seq<ScannedFile>, a: nat, b: nat)
    requires a < |files| && b < |files|
  {
    SameKey(files[a], files[b]) || SameFamily(files[a], files[b]) || SameBase(files, a, b)
  }

  ghost predicate IsChain(files: seq<ScannedFile>, chain: seq<nat>) {
    && chain != [] && (forall i :: 0 <= i < |chain| ==> chain[i] < |files|)
    && forall i :: 0 < i < |chain| ==> Linked(files, chain[i - 1], chain[i]) || Linked(files, chain[i], chain[i - 1])
  }

  ghost predicate Connected(files: seq<ScannedFile>, a: nat, b: nat) {
    exists chain :: IsChain(files, chain) && chain[0] == a && chain[|chain| - 1] == b
  }

  lemma ConnectedToItself(files: seq<ScannedFile>, a: nat)
    requires a < |files|
    ensures Connected(files, a, a)
  {
    assert IsChain(files, [a]) && [a][0] == a;
  }

  lemma LinkedAreConnected(files: seq<ScannedFile>, a: nat, b: nat)
    requires a < |files| && b < |files| && Linked(files, a, b)
    ensures Connected(files, a, b) && Connected(files, b, a)
  {
    hide Linked;
    assert IsChain(files, [a, b]) && [a, b][0] == a && [a, b][1] == b;
    assert IsChain(files, [b, a]) && [b, a][0] == b && [b, a][1] == a;
  }

  lemma ChainsJoin(files: seq<ScannedFile>, a: nat, b: nat, c: nat)
    requires Connected(files, a, b) && Connected(files, b, c)
    ensures Connected(files, a, c)
  {
    hide Linked;
    var first :| IsChain(files, first) && first[0] == a && first[|first| - 1] == b;
    var second :| IsChain(files, second) && second[0] == b && second[|second| - 1] == c;
    var chain := first + second[1..];
    forall i | 0 < i < |chain|
      ensures Linked(files, chain[i - 1], chain[i]) || Linked(files, chain[i], chain[i - 1])
    {
      if i >= |first| {
        assert chain[i] == second[i - |first| + 1] && chain[i - 1] == second[i - |first|];
      }
    }
    assert IsChain(files, chain) && chain[|chain| - 1] == c;
  }
}
