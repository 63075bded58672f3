/**
 Facts about sets and sequences that several parts share.
 */
module Collections {
  predicate NoDuplicates<T(==)>(q: seq<T>) {
    forall i, j :: 0 <= i < j < |q| ==> q[i] != q[j]
  }

  lemma HasMember(s: set<int>)
    ensures s == {} || exists t :: t in s
  {
    if forall t :: t !in s {
      assert s == {};
    }
  }
}
