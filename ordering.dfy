/**
 * ORDER BY over a table: the rows a query selects form a finite set, and the
 * result lists them in the order of a strict total order on those rows.
 */
module Ordering {

  /** `lt` is a strict total order on the elements of `s`. */
  ghost predicate StrictOrderOn<T>(s: set<T>, lt: (T, T) -> bool)
  {
    && (forall x | x in s :: !lt(x, x))
    && (forall x, y, z | x in s && y in s && z in s && lt(x, y) && lt(y, z) :: lt(x, z))
    && (forall x, y | x in s && y in s && x != y :: lt(x, y) || lt(y, x))
  }

  /** Each element is before every later one. */
  ghost predicate Increasing<T>(r: seq<T>, lt: (T, T) -> bool)
  {
    forall i, j | 0 <= i < j < |r| :: lt(r[i], r[j])
  }

  /** Some element of a non-empty set. */
  lemma Pick<T>(s: set<T>) returns (x: T)
    requires s != {}
    ensures x in s
  {
    x :| x in s;
  }

  predicate IsLeast<T>(m: T, s: set<T>, lt: (T, T) -> bool)
  {
    m in s && forall y | y in s && y != m :: lt(m, y)
  }

  lemma {:induction false} LeastExists<T>(s: set<T>, lt: (T, T) -> bool)
    requires s != {} && StrictOrderOn(s, lt)
    ensures exists m :: IsLeast(m, s, lt)
    decreases |s|
  {
    var x :| x in s;
    if s != {x} {
      var rest := s - {x};
      LeastExists(rest, lt);
      var m :| IsLeast(m, rest, lt);
      if lt(x, m) {
        assert IsLeast(x, s, lt);
      } else {
        assert IsLeast(m, s, lt);
      }
    } else {
      assert IsLeast(x, s, lt);
    }
  }

  /** The first element of `s` in the order `lt`. */
  function Least<T>(s: set<T>, lt: (T, T) -> bool): (m: T)
    requires s != {} && StrictOrderOn(s, lt)
    ensures IsLeast(m, s, lt)
  {
    LeastExists(s, lt);
    var m :| IsLeast(m, s, lt);
    m
  }

  /** The elements of `s`, each once, listed in increasing order. */
  function SortSet<T>(s: set<T>, lt: (T, T) -> bool): (r: seq<T>)
    requires StrictOrderOn(s, lt)
    ensures |r| == |s|
    ensures forall x | x in s :: x in r
    ensures forall i | 0 <= i < |r| :: r[i] in s
    ensures Increasing(r, lt)
    ensures forall i, j | 0 <= i < j < |r| :: r[i] != r[j]
    decreases |s|
  {
    if s == {} then []
    else
      var m := Least(s, lt);
      [m] + SortSet(s - {m}, lt)
  }
}
