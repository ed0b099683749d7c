/** Why uniform selection is fair. With n elements the generator can produce
    exactly n! draw vectors (the i-th draw has i + 1 possible values), and
    each position of the sequence is the last zero draw, and so the selected
    element, of exactly (n - 1)! of them. When Next(count) is uniform, every
    element is therefore selected with probability 1 / n, the reservoir-of-one
    argument the uniform overloads rely on. */
module UniformFairness {
  import opened UniformSelection

  function Factorial(n: nat): nat
  {
    if n == 0 then 1 else n * Factorial(n - 1)
  }

  /** Every vector d + [x] with d in vectors and lo <= x < hi. */
  ghost function Extend(vectors: set<seq<nat>>, lo: nat, hi: nat): set<seq<nat>>
  {
    set d, x: nat | d in vectors && lo <= x < hi :: d + [x]
  }

  /** The draw vectors a pass over n elements can see: after the vectors for
      the first n - 1 elements, Next(n) adds one of 0 .. n - 1. */
  ghost function DrawVectors(n: nat): set<seq<nat>>
  {
    if n == 0 then {[]} else Extend(DrawVectors(n - 1), 0, n)
  }

  /** The draw vectors for n elements that select position i. */
  ghost function Selecting(n: nat, i: int): set<seq<nat>>
  {
    set d | d in DrawVectors(n) && LastZero(d) == i
  }

  lemma ExtendMembership(vectors: set<seq<nat>>, lo: nat, hi: nat, e: seq<nat>)
    ensures e in Extend(vectors, lo, hi) <==>
              |e| > 0 && e[..|e| - 1] in vectors && lo <= e[|e| - 1] < hi
  {
    if e in Extend(vectors, lo, hi) {
      var d, x: nat :| d in vectors && lo <= x < hi && e == d + [x];
      assert e[..|e| - 1] == d;
    }
    if |e| > 0 && e[..|e| - 1] in vectors && lo <= e[|e| - 1] < hi {
      assert e == e[..|e| - 1] + [e[|e| - 1]];
    }
  }

  /** DrawVectors(n) is exactly the set of length-n vectors that meet the
      contract of Next. */
  lemma {:induction false} DrawVectorsAreValid(n: nat, d: seq<nat>)
    ensures d in DrawVectors(n) <==> |d| == n && NextInRange(d)
  {
    if n > 0 {
      ExtendMembership(DrawVectors(n - 1), 0, n, d);
      if |d| > 0 {
        var p := d[..|d| - 1];
        DrawVectorsAreValid(n - 1, p);
        assert forall i :: 0 <= i < |p| ==> p[i] == d[i];
      }
    }
  }

  /** Without vectors there is nothing to extend. */
  lemma ExtendEmpty(lo: nat, hi: nat)
    ensures Extend({}, lo, hi) == {}
  {
    forall e | e in Extend({}, lo, hi) ensures false {
      ExtendMembership({}, lo, hi, e);
    }
  }

  /** Removing one vector v removes exactly v + [x] from the extension. */
  lemma ExtendOneSplit(vectors: set<seq<nat>>, v: seq<nat>, x: nat, next: nat)
    requires v in vectors && next == x + 1
    ensures Extend(vectors, x, next) == Extend(vectors - {v}, x, next) + {v + [x]}
    ensures v + [x] !in Extend(vectors - {v}, x, next)
  {
    var rest := vectors - {v};
    assert (v + [x])[..|v|] == v;
    ExtendMembership(rest, x, next, v + [x]);
    forall e | e in Extend(vectors, x, next) ensures e in Extend(rest, x, next) + {v + [x]} {
      ExtendMembership(vectors, x, next, e);
      ExtendMembership(rest, x, next, e);
      assert e == e[..|e| - 1] + [x];
    }
    forall e | e in Extend(rest, x, next) ensures e in Extend(vectors, x, next) {
      ExtendMembership(vectors, x, next, e);
      ExtendMembership(rest, x, next, e);
    }
    ExtendMembership(vectors, x, next, v + [x]);
  }

  /** Appending one fixed value is injective, so it keeps the count. */
  lemma {:induction false} ExtendOneCard(vectors: set<seq<nat>>, x: nat)
    ensures |Extend(vectors, x, x + 1)| == |vectors|
    decreases vectors
  {
    if vectors == {} {
      ExtendEmpty(x, x + 1);
    } else {
      var v :| v in vectors;
      ExtendOneCard(vectors - {v}, x);
      ExtendOneSplit(vectors, v, x, x + 1);
    }
  }

  /** The values lo .. hi - 1 split into lo .. hi - 2 and hi - 1, and the two
      extensions share no vector because their last draws differ. */
  lemma ExtendSplit(vectors: set<seq<nat>>, lo: nat, last: nat, hi: nat)
    requires lo <= last && hi == last + 1
    ensures Extend(vectors, lo, hi) == Extend(vectors, lo, last) + Extend(vectors, last, hi)
    ensures Extend(vectors, lo, last) * Extend(vectors, last, hi) == {}
  {
    forall e | e in Extend(vectors, lo, hi) ensures e in Extend(vectors, lo, last) + Extend(vectors, last, hi) {
      ExtendMembership(vectors, lo, hi, e);
      ExtendMembership(vectors, lo, last, e);
      ExtendMembership(vectors, last, hi, e);
    }
    forall e | e in Extend(vectors, lo, last) ensures e in Extend(vectors, lo, hi) && e !in Extend(vectors, last, hi) {
      ExtendMembership(vectors, lo, hi, e);
      ExtendMembership(vectors, lo, last, e);
      ExtendMembership(vectors, last, hi, e);
    }
    forall e | e in Extend(vectors, last, hi) ensures e in Extend(vectors, lo, hi) {
      ExtendMembership(vectors, lo, hi, e);
      ExtendMembership(vectors, last, hi, e);
    }
  }

  /** Appending each of hi - lo values multiplies the count by hi - lo. */
  lemma {:induction false} ExtendCard(vectors: set<seq<nat>>, lo: nat, hi: nat)
    requires lo <= hi
    ensures |Extend(vectors, lo, hi)| == |vectors| * (hi - lo)
    decreases hi - lo
  {
    if lo == hi {
      ExtendEmptyRange(vectors, lo);
    } else {
      var last := hi - 1;
      var below, top := Extend(vectors, lo, last), Extend(vectors, last, hi);
      ExtendCard(vectors, lo, last);
      ExtendOneCard(vectors, last);
      ExtendSplit(vectors, lo, last, hi);
      DisjointUnionCard(below, top);
      MulSucc(|vectors|, last - lo);
    }
  }

  lemma DisjointUnionCard(a: set<seq<nat>>, b: set<seq<nat>>)
    requires a * b == {}
    ensures |a + b| == |a| + |b|
  {
  }

  lemma MulSucc(a: nat, k: nat)
    ensures a * (k + 1) == a * k + a
  {
  }

  /** An empty range of values gives no vectors. */
  lemma ExtendEmptyRange(vectors: set<seq<nat>>, lo: nat)
    ensures Extend(vectors, lo, lo) == {}
  {
    forall e | e in Extend(vectors, lo, lo) ensures false {
      ExtendMembership(vectors, lo, lo, e);
    }
  }

  /** A pass over n elements can see n! draw vectors. */
  lemma {:induction false} DrawVectorsCount(n: nat)
    ensures |DrawVectors(n)| == Factorial(n)
  {
    if n > 0 {
      DrawVectorsCount(n - 1);
      ExtendCard(DrawVectors(n - 1), 0, n);
    }
  }

  /** The newest of n + 1 elements is selected exactly when its draw is 0. */
  lemma SelectingNewest(n: nat)
    ensures Selecting(n + 1, n) == Extend(DrawVectors(n), 0, 1)
  {
    forall e ensures e in Selecting(n + 1, n) <==> e in Extend(DrawVectors(n), 0, 1) {
      ExtendMembership(DrawVectors(n), 0, n + 1, e);
      ExtendMembership(DrawVectors(n), 0, 1, e);
      if |e| > 0 {
        var p := e[..|e| - 1];
        assert e == p + [e[|e| - 1]];
        LastZeroSnoc(p, e[|e| - 1]);
        DrawVectorsAreValid(n, p);
      }
    }
  }

  /** An earlier position i < n stays selected exactly when the newest draw
      is not 0. */
  lemma SelectingEarlier(n: nat, i: nat)
    requires i < n
    ensures Selecting(n + 1, i) == Extend(Selecting(n, i), 1, n + 1)
  {
    var m := n + 1;
    forall e ensures e in Selecting(m, i) <==> e in Extend(Selecting(n, i), 1, m) {
      ExtendMembership(DrawVectors(n), 0, m, e);
      ExtendMembership(Selecting(n, i), 1, m, e);
      if |e| > 0 {
        var p := e[..|e| - 1];
        assert e == p + [e[|e| - 1]];
        LastZeroSnoc(p, e[|e| - 1]);
        DrawVectorsAreValid(n, p);
      }
    }
  }

  /** Fairness: of the n! draw vectors for n elements, each position is
      selected by exactly (n - 1)!, so by the same number of vectors. */
  lemma {:induction false} UniformSelectionIsFair(n: nat, i: nat)
    requires i < n
    ensures |Selecting(n, i)| == Factorial(n - 1)
    ensures |DrawVectors(n)| == n * Factorial(n - 1)
  {
    var m := n - 1;
    DrawVectorsCount(n);
    assert Factorial(n) == n * Factorial(m);
    if i == m {
      SelectingNewest(m);
      ExtendCard(DrawVectors(m), 0, 1);
      DrawVectorsCount(m);
    } else {
      SelectingEarlier(m, i);
      UniformSelectionIsFair(m, i);
      ExtendCard(Selecting(m, i), 1, n);
      MulComm(Factorial(m - 1), m);
    }
  }

  lemma MulComm(a: nat, b: nat)
    ensures a * b == b * a
  {
  }

  /** The selecting sets cover every draw vector: each vector for n > 0
      elements selects one position in [0, n). */
  lemma EveryVectorSelects(n: nat, d: seq<nat>)
    requires n > 0 && d in DrawVectors(n)
    ensures d in Selecting(n, LastZero(d)) && 0 <= LastZero(d) < n
  {
    DrawVectorsAreValid(n, d);
    FirstElementIsTaken(d);
  }
}
