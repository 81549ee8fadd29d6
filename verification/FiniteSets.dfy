module FiniteSets {
  lemma SubsetSize<T>(a: set<T>, b: set<T>)
    requires a <= b
    ensures |a| <= |b|
  {
    assert b == a + (b - a);
  }

  lemma Member<T>(s: set<T>) returns (x: T)
    requires s != {}
    ensures x in s
  {
    x :| x in s;
  }

  /** A non-empty finite set of integers has a least member. */
  lemma {:induction false} LeastExists(s: set<int>) returns (least: int)
    requires s != {}
    ensures least in s && forall y | y in s :: least <= y
  {
    var x := Member(s);
    if s == {x} {
      least := x;
    } else {
      var rest := s - {x};
      assert s == rest + {x} && rest != {};
      var below := LeastExists(rest);
      least := if below < x then below else x;
    }
  }
}
