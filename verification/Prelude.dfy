/** What several components share. */
module Prelude {

  const PAGE_SIZE := 0x1000
  const TWO_64 := 0x1_0000_0000_0000_0000

  datatype Option<T> = None | Some(value: T)

  predicate NoDup<T(==)>(s: seq<T>)
  {
    forall i, j :: 0 <= i < j < |s| ==> s[i] != s[j]
  }

  /** Distinct elements of a finite set are no more than it has. */
  lemma {:induction false} NoDupFits<T>(s: seq<T>, bound: set<T>)
    requires NoDup(s) && forall i :: 0 <= i < |s| ==> s[i] in bound
    ensures |s| <= |bound|
  {
    if s != [] {
      var n := |s| - 1;
      assert bound == (bound - {s[n]}) + {s[n]};
      NoDupFits(s[..n], bound - {s[n]});
    }
  }
}
