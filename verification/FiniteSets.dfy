/** Cardinality facts used by the counting arguments. */
module FiniteSets {

  lemma {:induction false} SubsetSize<T>(a: set<T>, b: set<T>)
    requires a <= b
    ensures |a| <= |b|
  {
    if a != {} {
      var x :| x in a;
      SubsetSize(a - {x}, b - {x});
    }
  }

  lemma {:induction false} IntervalSize(lo: nat, hi: nat, s: set<nat>)
    requires lo <= hi && forall i | i in s :: lo <= i < hi
    ensures |s| <= hi - lo
    decreases hi - lo
  {
    if lo == hi {
      assert s == {};
    } else {
      IntervalSize(lo, hi - 1, s - {hi - 1});
      if hi - 1 in s { assert s == (s - {hi - 1}) + {hi - 1}; }
    }
  }

  lemma {:induction false} Least(s: set<nat>) returns (m: nat)
    requires s != {}
    ensures m in s && forall x | x in s :: m <= x
  {
    m :| m in s;
    if s != {m} {
      var rest := s - {m};
      var m' := Least(rest);
      assert forall x | x in s :: x == m || x in rest;
      if m' < m { m := m'; }
    }
  }

  lemma {:induction false} Greatest(s: set<nat>) returns (m: nat)
    requires s != {}
    ensures m in s && forall x | x in s :: x <= m
  {
    m :| m in s;
    if s != {m} {
      var rest := s - {m};
      var m' := Greatest(rest);
      assert forall x | x in s :: x == m || x in rest;
      if m' > m { m := m'; }
    }
  }
}
