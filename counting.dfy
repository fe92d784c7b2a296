/** Sums of 0/1 decision variables and the cardinalities they stand for. */
module Counting {

  /** No element occurs twice. */
  predicate Distinct<T(==)>(vs: seq<T>) {
    forall k, l :: 0 <= k < l < |vs| ==> vs[k] != vs[l]
  }

  /** The value of `sum(vs)` when exactly the variables in `x` are 1 (duplicates count twice). */
  function Count<T(==)>(vs: seq<T>, x: set<T>): nat {
    if vs == [] then 0 else (if vs[0] in x then 1 else 0) + Count(vs[1..], x)
  }

  /** The elements of `vs` that are set to 1 by `x`. */
  function Chosen<T(==)>(vs: seq<T>, x: set<T>): set<T> {
    set v | v in vs && v in x
  }

  lemma DistinctAppend<T>(vs: seq<T>, v: T)
    requires Distinct(vs) && v !in vs
    ensures Distinct(vs + [v])
  {
    forall k, l | 0 <= k < l < |vs| + 1
      ensures (vs + [v])[k] != (vs + [v])[l]
    {
      if l == |vs| {
        assert (vs + [v])[k] == vs[k];
      } else {
        assert (vs + [v])[k] == vs[k] && (vs + [v])[l] == vs[l];
      }
    }
  }

  lemma DistinctConcat<T>(a: seq<T>, b: seq<T>)
    requires Distinct(a) && Distinct(b)
    requires forall v :: v in a ==> v !in b
    ensures Distinct(a + b)
  {
    forall k, l | 0 <= k < l < |a| + |b|
      ensures (a + b)[k] != (a + b)[l]
    {
      if l < |a| {
        assert (a + b)[k] == a[k] && (a + b)[l] == a[l];
      } else if k < |a| {
        assert (a + b)[k] == a[k] && (a + b)[l] == b[l - |a|];
        assert a[k] in a;
      } else {
        assert (a + b)[k] == b[k - |a|] && (a + b)[l] == b[l - |a|];
      }
    }
  }

  /** Over distinct variables, the sum of their values is the number of them that are chosen. */
  lemma {:induction false} CountIsCardinality<T>(vs: seq<T>, x: set<T>)
    requires Distinct(vs)
    ensures Count(vs, x) == |Chosen(vs, x)|
  {
    if vs != [] {
      var tail := vs[1..];
      assert Distinct(tail) by {
        forall k, l | 0 <= k < l < |tail| ensures tail[k] != tail[l] {
          assert tail[k] == vs[k + 1] && tail[l] == vs[l + 1];
        }
      }
      CountIsCardinality(tail, x);
      assert vs[0] !in tail by {
        forall k | 0 <= k < |tail| ensures tail[k] != vs[0] {
          assert tail[k] == vs[k + 1];
        }
      }
      assert vs == [vs[0]] + tail;
      if vs[0] in x {
        assert Chosen(vs, x) == Chosen(tail, x) + {vs[0]};
      } else {
        assert Chosen(vs, x) == Chosen(tail, x);
      }
    }
  }

  /** A subset has at most as many elements. */
  lemma {:induction false} SubsetCardinality<T>(small: set<T>, big: set<T>)
    requires small <= big
    ensures |small| <= |big|
  {
    if small != {} {
      var e :| e in small;
      SubsetCardinality(small - {e}, big - {e});
    }
  }

  /** A set of at most one element has no two different members. */
  lemma AtMostOneMember<T>(s: set<T>, e1: T, e2: T)
    requires |s| <= 1 && e1 in s && e2 in s
    ensures e1 == e2
  {
    if e1 != e2 {
      assert |{e1, e2}| == 2;
      SubsetCardinality({e1, e2}, s);
    }
  }

  /** The cells of an `h` by `w` block whose top-left cell is (`top`, `left`). */
  function Block(top: int, left: int, h: nat, w: nat): set<(int, int)> {
    set a, b | top <= a < top + h && left <= b < left + w :: (a, b)
  }

  lemma {:induction false} RowCells(top: int, left: int, w: nat)
    ensures |Block(top, left, 1, w)| == w
  {
    if w > 0 {
      RowCells(top, left, w - 1);
      assert Block(top, left, 1, w) == Block(top, left, 1, w - 1) + {(top, left + w - 1)};
    }
  }

  /** A block of `h` rows and `w` columns has `h * w` cells. */
  lemma {:induction false} BlockCells(top: int, left: int, h: nat, w: nat)
    ensures |Block(top, left, h, w)| == h * w
  {
    if h > 0 {
      BlockCells(top, left, h - 1, w);
      var last := Block(top + h - 1, left, 1, w);
      RowCells(top + h - 1, left, w);
      assert Block(top, left, h, w) == Block(top, left, h - 1, w) + last;
      assert Block(top, left, h - 1, w) * last == {};
      assert (h - 1) * w + w == h * w;
    }
  }
}
