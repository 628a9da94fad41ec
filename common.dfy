/** Small value wrappers shared by every module. */
module Common {

  /** A value that may be absent: Python's `None`, a missing form field or CSV column. */
  datatype Option<+T> = None | Some(value: T) {

    /** The wrapped value, or `default` when absent (Python's `d.get(key, default)`). */
    function GetOr(default: T): (r: T)
      ensures Some? ==> r == value
      ensures None? ==> r == default
    {
      match this
      case Some(v) => v
      case None => default
    }
  }

  /** The smaller of two integers. */
  function Min(a: int, b: int): (r: int)
    ensures r <= a && r <= b && (r == a || r == b)
  {
    if a <= b then a else b
  }

  /** Merging two maps with no key in common adds their sizes. */
  lemma DisjointMergeSize<K, V>(a: map<K, V>, b: map<K, V>)
    requires a.Keys !! b.Keys
    ensures |a + b| == |a| + |b|
  {
    assert (a + b).Keys == a.Keys + b.Keys;
    assert |(a + b).Keys| == |a.Keys| + |b.Keys|;
  }

  /** A non-empty set has a member. */
  lemma NonEmptyHasMember(s: set<int>)
    requires s != {}
    ensures exists x :: x in s
  {
    if forall x :: x !in s {
      assert false;
    }
  }

  /** Moving one member from one set to a disjoint other keeps them disjoint and keeps their union. */
  lemma MoveMember(from: set<int>, to: set<int>, k: int)
    requires k in from && from !! to
    ensures (from - {k}) !! (to + {k})
    ensures (from - {k}) + (to + {k}) == from + to
  {
  }
}
