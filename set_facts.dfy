/** Cardinality facts about sets of row ids, used by the single-result lookups. */
module SetFacts {

  /** A set of non-zero size has a member. */
  lemma Inhabited(s: set<int>)
    requires |s| != 0
    ensures exists x :: x in s
  {
    if forall x :: x !in s {
      assert false;
    }
  }

  /** A set is empty, a singleton, or holds two distinct members, according to its size. */
  lemma SizeCases(s: set<int>)
    ensures |s| == 0 ==> s == {}
    ensures |s| == 1 ==> exists x :: s == {x}
    ensures |s| >= 2 ==> exists x, y :: x in s && y in s && x != y
  {
    if |s| > 0 {
      Inhabited(s);
      var x :| x in s;
      if |s| == 1 {
        assert |s - {x}| == 0;
        assert s == {x};
      } else {
        Inhabited(s - {x});
        var y :| y in s - {x};
      }
    }
  }
}
