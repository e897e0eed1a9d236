/** The order in which one tick tests pairs of logos
    (components/main/Advanced.tsx:151, 197): logo `i`'s iteration tests
    `(i, j)` for every later `j`. */
module Pairs {

  /** The pairs `(i, j)`, `(i, j + 1)`, ..., `(i, n - 1)`: the inner loop of
      line 197 for logo `i` starts with `j = i + 1`. */
  function Row(i: nat, j: nat, n: nat): seq<(nat, nat)>
    decreases n - j
  {
    if j >= n then [] else [(i, j)] + Row(i, j + 1, n)
  }

  /** Row `(i, j..n)` holds `n - j` pairs, the `t`-th being `(i, j + t)`. */
  lemma {:induction false} RowShape(i: nat, j: nat, n: nat)
    decreases n - j
    ensures |Row(i, j, n)| == if j <= n then n - j else 0
    ensures forall t :: 0 <= t < |Row(i, j, n)| ==> Row(i, j, n)[t] == (i, j + t)
  {
    if j < n {
      RowShape(i, j + 1, n);
    }
  }

  /** The pairs tested from logo `i`'s iteration on: the rows of logos
      `i`, ..., `n - 1`, in order. */
  function PairsFrom(i: nat, n: nat): seq<(nat, nat)>
    decreases n - i
  {
    if i >= n then [] else Row(i, i + 1, n) + PairsFrom(i + 1, n)
  }

  /** Logo `i`'s row is the first `n - i - 1` pairs from `i` on; the rest
      are the pairs from `i + 1` on. */
  lemma SplitRow(i: nat, n: nat)
    requires i < n
    ensures |Row(i, i + 1, n)| == n - i - 1 <= |PairsFrom(i, n)|
    ensures PairsFrom(i, n)[..n - i - 1] == Row(i, i + 1, n)
    ensures PairsFrom(i, n)[n - i - 1..] == PairsFrom(i + 1, n)
  {
    RowShape(i, i + 1, n);
  }

  /** The pairs of a whole tick over `n` logos. */
  function Schedule(n: nat): seq<(nat, nat)> {
    PairsFrom(0, n)
  }

  /** How many times `x` occurs in `s`: `multiset(s)[x]`, written out by
      recursion because the proofs below go through cheaply on it. */
  function Count<T(==)>(s: seq<T>, x: T): nat
  {
    if |s| == 0 then 0 else (if s[0] == x then 1 else 0) + Count(s[1..], x)
  }

  /** Occurrences in a concatenation add up. */
  lemma {:induction false} CountAppend<T>(a: seq<T>, b: seq<T>, x: T)
    ensures Count(a + b, x) == Count(a, x) + Count(b, x)
  {
    if |a| > 0 {
      assert (a + b)[1..] == a[1..] + b;
      CountAppend(a[1..], b, x);
    } else {
      assert a + b == b;
    }
  }

  /** Row `(k, j..n)` holds `(i, i2)` once when it is in range, else never. */
  lemma {:induction false} RowCount(k: nat, j: nat, n: nat, i: nat, i2: nat)
    decreases n - j
    ensures Count(Row(k, j, n), (i, i2)) == if k == i && j <= i2 < n then 1 else 0
  {
    if j < n {
      RowCount(k, j + 1, n, i, i2);
      var rest := Row(k, j + 1, n);
      assert ([(k, j)] + rest)[1..] == rest;
    }
  }

  /** The pairs from `k` on hold `(i, j)` once when `k <= i < j < n`, else never. */
  lemma {:induction false} RowsCount(k: nat, n: nat, i: nat, j: nat)
    decreases n - k
    ensures Count(PairsFrom(k, n), (i, j)) == if k <= i < j < n then 1 else 0
  {
    if k < n {
      RowCount(k, k + 1, n, i, j);
      RowsCount(k + 1, n, i, j);
      CountAppend(Row(k, k + 1, n), PairsFrom(k + 1, n), (i, j));
    }
  }

  /** Each unordered pair of distinct logos is tested exactly once per tick,
      always with the lower index first. */
  lemma ScheduleOnce(n: nat, i: nat, j: nat)
    ensures Count(Schedule(n), (i, j)) == if i < j < n then 1 else 0
  {
    RowsCount(0, n, i, j);
  }
}
