/** The orders that sorting uses, and sorting itself. */
module Orderings {

  /** `str::cmp`: characters are compared from the front. */
  predicate LexAtMost(a: string, b: string) {
    a == [] || (b != [] && (a[0] < b[0] || (a[0] == b[0] && LexAtMost(a[1..], b[1..]))))
  }

  lemma {:induction false} LexIsTotal(a: string, b: string)
    ensures LexAtMost(a, b) || LexAtMost(b, a)
    ensures LexAtMost(a, b) && LexAtMost(b, a) ==> a == b
  {
    if a != [] && b != [] && a[0] == b[0] {
      LexIsTotal(a[1..], b[1..]);
      assert a == [a[0]] + a[1..] && b == [b[0]] + b[1..];
    }
  }

  lemma {:induction false} LexIsTransitive(a: string, b: string, c: string)
    requires LexAtMost(a, b) && LexAtMost(b, c)
    ensures LexAtMost(a, c)
  {
    if a != [] && b != [] && c != [] && a[0] == b[0] == c[0] {
      LexIsTransitive(a[1..], b[1..], c[1..]);
    }
  }

  /** A name sorts no later than any name it begins. */
  lemma {:induction false} PrefixSortsFirst(a: string, b: string)
    requires a <= b
    ensures LexAtMost(a, b)
  {
    if a != [] {
      PrefixSortsFirst(a[1..], b[1..]);
    }
  }

  /** The first difference decides, and the smaller character goes first. */
  lemma {:induction false} FirstDifferenceDecides(common: string, c: char, d: char, x: string, y: string)
    requires c < d
    ensures LexAtMost(common + [c] + x, common + [d] + y) && !LexAtMost(common + [d] + y, common + [c] + x)
  {
    if common == [] {
      assert common + [c] + x == [c] + x && common + [d] + y == [d] + y;
    } else {
      var rest := common[1..];
      FirstDifferenceDecides(rest, c, d, x, y);
      assert (common + [c] + x)[1..] == rest + [c] + x && (common + [d] + y)[1..] == rest + [d] + y;
    }
  }

  ghost predicate LexSorted(names: seq<string>) {
    forall i, j :: 0 <= i < j < |names| ==> LexAtMost(names[i], names[j])
  }

  /** Sorting leaves no choice, however many names are equal. */
  lemma {:induction false} SortedNamesAreUnique(a: seq<string>, b: seq<string>)
    requires LexSorted(a) && LexSorted(b) && multiset(a) == multiset(b)
    ensures a == b
  {
    hide LexAtMost, LexSorted;
    assert |multiset(a)| == |a| && |multiset(b)| == |b|;
    if a != [] {
      FirstIsLeast(a, b[0]);
      FirstIsLeast(b, a[0]);
      LexIsTotal(a[0], b[0]);
      TailIsSorted(a);
      TailIsSorted(b);
      SortedNamesAreUnique(a[1..], b[1..]);
    }
  }

  lemma TailIsSorted(names: seq<string>)
    requires LexSorted(names) && names != []
    ensures LexSorted(names[1..]) && names == [names[0]] + names[1..]
    ensures multiset(names[1..]) == multiset(names) - multiset{names[0]}
  {
    hide LexAtMost;
    assert names == [names[0]] + names[1..];
  }

  lemma FirstIsLeast(names: seq<string>, name: string)
    requires LexSorted(names) && name in multiset(names)
    ensures LexAtMost(names[0], name)
  {
    hide LexAtMost;
    var i := IndexOf(names, name);
    LexIsTotal(names[0], names[0]);
  }

  lemma IndexOf(names: seq<string>, name: string) returns (i: nat)
    requires name in multiset(names)
    ensures i < |names| && names[i] == name
  {
    i :| 0 <= i < |names| && names[i] == name;
  }

  ghost predicate IsOrder<T(!new)>(items: seq<T>, atMost: (T, T) -> bool) {
    && (forall x, y :: x in items && y in items ==> atMost(x, y) || atMost(y, x))
    && (forall x, y, z :: x in items && y in items && z in items && atMost(x, y) && atMost(y, z) ==> atMost(x, z))
  }

  ghost predicate InOrder<T>(items: seq<T>, atMost: (T, T) -> bool) {
    forall i, j :: 0 <= i < j < |items| ==> atMost(items[i], items[j])
  }

  method SortBy<T(!new)>(items: seq<T>, atMost: (T, T) -> bool) returns (sorted: seq<T>)
    requires IsOrder(items, atMost)
    ensures InOrder(sorted, atMost) && multiset(sorted) == multiset(items)
  {
    hide IsOrder;
    sorted := [];
    for n := 0 to |items|
      invariant InOrder(sorted, atMost) && multiset(sorted) == multiset(items[..n])
    {
      var k := |sorted|;
      while k > 0 && !atMost(sorted[k - 1], items[n])
        invariant 0 <= k <= |sorted|
        invariant forall i :: k <= i < |sorted| ==> !atMost(sorted[i], items[n])
      {
        k := k - 1;
      }
      Inserted(items, n, sorted, k, atMost);
      sorted := sorted[..k] + [items[n]] + sorted[k..];
    }
    assert items[..|items|] == items;
  }

  lemma Inserted<T(!new)>(items: seq<T>, n: nat, sorted: seq<T>, k: nat, atMost: (T, T) -> bool)
    requires IsOrder(items, atMost) && n < |items| && k <= |sorted|
    requires InOrder(sorted, atMost) && multiset(sorted) == multiset(items[..n])
    requires forall i :: k <= i < |sorted| ==> !atMost(sorted[i], items[n])
    requires k > 0 ==> atMost(sorted[k - 1], items[n])
    ensures InOrder(sorted[..k] + [items[n]] + sorted[k..], atMost)
    ensures multiset(sorted[..k] + [items[n]] + sorted[k..]) == multiset(items[..n + 1])
  {
    InsertedItems(items, n, sorted, k);
    forall i | 0 <= i < |sorted| ensures sorted[i] in items {
      assert sorted[i] in multiset(items[..n]);
    }
    InsertedOrder(items, sorted, k, items[n], atMost);
  }

  lemma InsertedItems<T>(items: seq<T>, n: nat, sorted: seq<T>, k: nat)
    requires n < |items| && k <= |sorted| && multiset(sorted) == multiset(items[..n])
    ensures multiset(sorted[..k] + [items[n]] + sorted[k..]) == multiset(items[..n + 1])
  {
    assert items[..n + 1] == items[..n] + [items[n]];
    assert sorted == sorted[..k] + sorted[k..];
  }

  lemma InsertedOrder<T(!new)>(items: seq<T>, sorted: seq<T>, k: nat, item: T, atMost: (T, T) -> bool)
    requires IsOrder(items, atMost) && InOrder(sorted, atMost) && item in items && k <= |sorted|
    requires forall i :: 0 <= i < |sorted| ==> sorted[i] in items
    requires forall i :: k <= i < |sorted| ==> !atMost(sorted[i], item)
    requires k > 0 ==> atMost(sorted[k - 1], item)
    ensures InOrder(sorted[..k] + [item] + sorted[k..], atMost)
  {
    var now := sorted[..k] + [item] + sorted[k..];
    forall i, j | 0 <= i < j < |now| ensures atMost(now[i], now[j]) {
      if j == k {
        assert i < k - 1 ==> atMost(sorted[i], sorted[k - 1]);
      } else if i == k {
        assert now[j] == sorted[j - 1];
      } else {
        assert now[i] == sorted[if i < k then i else i - 1] && now[j] == sorted[if j < k then j else j - 1];
      }
    }
  }

  lemma OnceMeansDistinct<T>(items: seq<T>, i: nat, j: nat)
    requires i < j < |items| && multiset(items)[items[i]] <= 1
    ensures items[i] != items[j]
  {
    assert items == items[..i] + [items[i]] + items[i + 1..j] + [items[j]] + items[j + 1..];
  }
}
