/** Loops that emit values in order.

    Every "equivalent Python" loop nest in the tutorials appends the
    coordinates it visits, one iteration after the other.  `Concat(n, f)` is
    what a loop of `n` iterations emits when iteration `i` emits `f(i)`; loop
    nests become nested `Concat`s.  The lemmas here are the facts about such
    loops that the schedules need: how long the output is, where the output of
    one iteration sits, and how two loops can be fused into one. */
module Sequences {

  /** f(0) + f(1) + ... + f(n - 1). */
  function Concat<T>(n: nat, f: nat -> seq<T>): seq<T>
  {
    if n == 0 then [] else Concat(n - 1, f) + f(n - 1)
  }

  /** One more iteration appends its output. */
  lemma ConcatStep<T>(n: nat, f: nat -> seq<T>)
    ensures Concat(n + 1, f) == Concat(n, f) + f(n)
  {
  }

  /** Euclidean division recovers quotient and remainder of `q * m + r`. */
  lemma DivModOfSum(q: nat, r: nat, m: nat)
    requires r < m
    ensures (q * m + r) / m == q && (q * m + r) % m == r
  {
    var k := q * m + r;
    var d, s := k / m, k % m;
    assert d * m + s == q * m + r;
    assert (q - d) * m == s - r;
    ScaledBound(q - d, m);
  }

  /** A non-zero multiple of `m` is at least `m` away from zero. */
  lemma ScaledBound(z: int, m: int)
    requires m >= 0
    ensures z >= 0 ==> z * m >= 0
    ensures z >= 1 ==> z * m >= m
    ensures z <= -1 ==> z * m <= -m
  {
  }

  /** A fused index splits into a non-negative quotient and a remainder. */
  lemma FusedParts(t: nat, m: nat)
    requires m > 0
    ensures 0 <= t / m && 0 <= t % m < m && t == (t / m) * m + t % m
  {
  }

  /** `k * m <= a` makes `k` at most the quotient `a / m`. */
  lemma DivLowerBound(a: nat, k: nat, m: nat)
    requires m > 0 && k * m <= a
    ensures k <= a / m
  {
    var d, s := a / m, a % m;
    assert d * m + s == a;
    assert (k - d) * m == k * m - d * m;
    ScaledBound(k - d, m);
  }

  /** Index `i < n` of a loop split by `m` has its outer index below the
      outer loop's trip count `(n + m - 1) / m`. */
  lemma OuterIndexBound(i: nat, n: nat, m: nat)
    requires m > 0 && i < n
    ensures i / m < (n + m - 1) / m
  {
    var q := i / m;
    assert q * m + i % m == i;
    assert (q + 1) * m == q * m + m;
    DivLowerBound(n + m - 1, q + 1, m);
  }

  /** When every iteration emits `m` elements the loop emits `n * m`. */
  lemma {:induction false} ConcatLength<T>(n: nat, f: nat -> seq<T>, m: nat)
    requires forall k :: 0 <= k < n ==> |f(k)| == m
    ensures |Concat(n, f)| == n * m
  {
    if n > 0 {
      ConcatLength(n - 1, f, m);
      assert n * m == (n - 1) * m + m;
    }
  }

  /** When every iteration emits `m` elements, the `j`-th element emitted by
      iteration `i` is element `i * m + j` of the whole output. */
  lemma {:induction false} ConcatAt<T>(n: nat, f: nat -> seq<T>, m: nat, i: nat, j: nat)
    requires forall k :: 0 <= k < n ==> |f(k)| == m
    requires i < n && j < m
    ensures |Concat(n, f)| == n * m
    ensures i * m + j < n * m
    ensures Concat(n, f)[i * m + j] == f(i)[j]
  {
    ConcatLength(n, f, m);
    ConcatLength(n - 1, f, m);
    assert n * m == (n - 1) * m + m;
    if i == n - 1 {
      assert Concat(n, f) == Concat(n - 1, f) + f(n - 1);
    } else {
      ConcatAt(n - 1, f, m, i, j);
    }
  }

  /** The slice emitted by iteration `i` is exactly `f(i)`. */
  lemma {:induction false} ConcatSlice<T>(n: nat, f: nat -> seq<T>, m: nat, i: nat)
    requires forall k :: 0 <= k < n ==> |f(k)| == m
    requires i < n
    ensures |Concat(n, f)| == n * m
    ensures i * m + m <= n * m
    ensures Concat(n, f)[i * m .. i * m + m] == f(i)
  {
    ConcatLength(n, f, m);
    ConcatLength(n - 1, f, m);
    assert n * m == (n - 1) * m + m;
    if i == n - 1 {
      assert Concat(n, f) == Concat(n - 1, f) + f(n - 1);
    } else {
      ConcatSlice(n - 1, f, m, i);
      assert i * m + m <= (n - 1) * m;
      assert Concat(n, f)[..(n - 1) * m] == Concat(n - 1, f);
    }
  }

  /** Iteration `k` of this loop is iteration `start + k` of `f`. */
  function Shifted<T>(f: nat -> seq<T>, start: nat): nat -> seq<T>
  {
    (k: nat) => f(start + k)
  }

  /** Running `a` iterations and then `b` more is the loop of `a + b`. */
  lemma {:induction false} ConcatSplit<T>(a: nat, b: nat, f: nat -> seq<T>)
    ensures Concat(a + b, f) == Concat(a, f) + Concat(b, Shifted(f, a))
  {
    if b > 0 {
      ConcatSplit(a, b - 1, f);
    }
  }

  /** Two loops whose iterations emit the same values emit the same output. */
  lemma {:induction false} ConcatCongruent<T>(n: nat, f: nat -> seq<T>, g: nat -> seq<T>)
    requires forall k :: 0 <= k < n ==> f(k) == g(k)
    ensures Concat(n, f) == Concat(n, g)
  {
    if n > 0 {
      ConcatCongruent(n - 1, f, g);
    }
  }

  /** Two nested loops, the outer of `a` iterations and the inner of `b`,
      emit what one loop of `a * b` iterations emits when outer iteration `i`
      emits what iterations `i * b` to `i * b + b - 1` of the single loop emit. */
  lemma {:induction false} ConcatFuse<T>(a: nat, b: nat, outer: nat -> seq<T>, fused: nat -> seq<T>)
    requires forall i :: 0 <= i < a ==> outer(i) == Concat(b, Shifted(fused, i * b))
    ensures Concat(a, outer) == Concat(a * b, fused)
  {
    if a > 0 {
      var last: nat := a - 1;
      ConcatFuse(last, b, outer, fused);
      assert a * b == last * b + b;
      assert last * b >= 0;
      ConcatSplit(last * b, b, fused);
    }
  }

  /** Whatever a loop emits was emitted by one of its iterations. */
  lemma {:induction false} InConcatWitness<T>(n: nat, f: nat -> seq<T>, e: T) returns (i: nat)
    requires e in Concat(n, f)
    ensures i < n && e in f(i)
  {
    if e in f(n - 1) {
      i := n - 1;
    } else {
      i := InConcatWitness(n - 1, f, e);
    }
  }

  /** What any iteration emits is part of the loop's output. */
  lemma {:induction false} InConcat<T>(n: nat, f: nat -> seq<T>, i: nat, e: T)
    requires i < n && e in f(i)
    ensures e in Concat(n, f)
  {
    if i < n - 1 {
      InConcat(n - 1, f, i, e);
    }
  }

  /** A loop whose iteration `k` emits the single value `s[k]` emits `s`. */
  lemma {:induction false} ConcatSingletons<T>(n: nat, f: nat -> seq<T>, s: seq<T>)
    requires |s| == n
    requires forall k :: 0 <= k < n ==> f(k) == [s[k]]
    ensures Concat(n, f) == s
  {
    if n > 0 {
      ConcatSingletons(n - 1, f, s[..n - 1]);
      assert s == s[..n - 1] + [s[n - 1]];
    }
  }

  /** A loop emits a value at least as often as any one iteration does. */
  lemma {:induction false} ConcatCount<T>(n: nat, f: nat -> seq<T>, i: nat, e: T)
    requires i < n
    ensures multiset(Concat(n, f))[e] >= multiset(f(i))[e]
  {
    assert multiset(Concat(n, f)) == multiset(Concat(n - 1, f)) + multiset(f(n - 1));
    if i < n - 1 {
      ConcatCount(n - 1, f, i, e);
    }
  }
}
