/** What several modules share: the usual optional value, and two helpers for sets. */
module Prelude {
  datatype Option<+T> = None | Some(value: T)

  function Elements<T(==, !new)>(items: seq<T>): (elements: set<T>)
    ensures forall x :: x in elements <==> x in items
  {
    set x | x in items
  }

  lemma {:induction false} SubsetSize<T>(small: set<T>, large: set<T>)
    requires small <= large
    ensures |small| <= |large|
    ensures small != large ==> |small| < |large|
  {
    if small == {} {
    } else {
      var x :| x in small;
      SubsetSize(small - {x}, large - {x});
    }
  }
}
