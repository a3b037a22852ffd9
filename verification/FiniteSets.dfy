/** Cardinality facts about finite sets. */
module FiniteSets {
  lemma Member<T>(s: set<T>) returns (x: T)
    requires s != {}
    ensures x in s
  {
    x :| x in s;
  }

  lemma {:induction false} SubsetSize<T>(a: set<T>, b: set<T>)
    requires a <= b
    ensures |a| <= |b|
  {
    if a != {} {
      var x :| x in a;
      SubsetSize(a - {x}, b - {x});
    }
  }

  /** The `n` integers from `lo` on. */
  function Interval(lo: int, n: nat): (s: set<int>)
    ensures |s| == n
    ensures forall i :: i in s <==> lo <= i < lo + n
  {
    if n == 0 then {} else Interval(lo, n - 1) + {lo + n - 1}
  }

  lemma {:induction false} Least(s: set<int>) returns (m: int)
    requires s != {}
    ensures m in s && forall x | x in s :: m <= x
  {
    var x := Member(s);
    var rest := s - {x};
    m := x;
    if rest != {} {
      m := Least(rest);
      if x < m { m := x; }
    }
    forall y | y in s ensures m <= y { assert y == x || y in rest; }
  }
}
