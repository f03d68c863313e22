/** Index rotation over a fixed-size list of n entries: the transitions
    `(i + 1) % n` and `(i - 1 + n) % n` that the how-it-works carousel and the
    landing page's feature timer apply to their current index.

    Indices are non-negative, and for non-negative operands JavaScript's `%`
    and Dafny's `%` give the same remainder, so `%` below is the source's. */
module Rotation {

  /** `(i + 1) % n`: one step forward, wrapping from the last index to 0. */
  function Next(i: nat, n: nat): (j: nat)
    requires n > 0
    ensures j < n
    ensures i + 1 < n ==> j == i + 1
    ensures i + 1 == n ==> j == 0
  {
    assert i + 1 == n ==> (i + 1) % n == 0 by {
      if i + 1 == n { ModUnique(n, n, 1, 0); }
    }
    assert i + 1 < n ==> (i + 1) % n == i + 1 by {
      if i + 1 < n { ModUnique(i + 1, n, 0, i + 1); }
    }
    (i + 1) % n
  }

  /** `(i - 1 + n) % n`: one step back, wrapping from 0 to the last index. */
  function Prev(i: nat, n: nat): (j: nat)
    requires n > 0
    ensures j < n
    ensures 0 < i <= n ==> j == i - 1
    ensures i == 0 ==> j == n - 1
  {
    assert i == 0 ==> (i - 1 + n) % n == n - 1 by {
      if i == 0 { ModUnique(n - 1, n, 0, n - 1); }
    }
    assert 0 < i <= n ==> (i - 1 + n) % n == i - 1 by {
      if 0 < i <= n { ModUnique(i - 1 + n, n, 1, i - 1); }
    }
    (i - 1 + n) % n
  }

  /** The index reached from i after k forward steps. */
  function Advance(i: nat, k: nat, n: nat): (j: nat)
    requires n > 0
    decreases k
  {
    if k == 0 then i else Next(Advance(i, k - 1, n), n)
  }

  /** Stepping back undoes stepping forward. */
  lemma PrevUndoesNext(i: nat, n: nat)
    requires i < n
    ensures Prev(Next(i, n), n) == i
  {
  }

  /** Stepping forward undoes stepping back. */
  lemma NextUndoesPrev(i: nat, n: nat)
    requires i < n
    ensures Next(Prev(i, n), n) == i
  {
  }

  /** k forward steps from i land on (i + k) mod n. */
  lemma {:induction false} AdvanceIsMod(i: nat, k: nat, n: nat)
    requires i < n
    ensures Advance(i, k, n) == (i + k) % n
    decreases k
  {
    if k == 0 {
      ModUnique(i, n, 0, i);
    } else {
      AdvanceIsMod(i, k - 1, n);
      ModSucc(i + k - 1, n);
    }
  }

  /** k forward steps from index 0 land on k mod n. */
  lemma AdvanceFromZero(k: nat, n: nat)
    requires n > 0
    ensures Advance(0, k, n) == k % n
  {
    AdvanceIsMod(0, k, n);
  }

  /** n forward steps return every index to itself. */
  lemma FullTurnIsIdentity(i: nat, n: nat)
    requires i < n
    ensures Advance(i, n, n) == i
  {
    AdvanceIsMod(i, n, n);
    ModUnique(i + n, n, 1, i);
  }

  // Arithmetic helpers about Euclidean remainder.

  lemma MulAtLeast(k: int, n: int)
    requires k >= 1 && n > 0
    ensures k * n >= n
  {
  }

  /** The remainder is determined by any quotient/remainder decomposition. */
  lemma ModUnique(a: int, n: int, q: int, r: int)
    requires n > 0 && 0 <= r < n && a == q * n + r
    ensures a % n == r
  {
    var q', r' := a / n, a % n;
    assert a == q' * n + r';
    assert (q - q') * n == r' - r;
    if q > q' {
      MulAtLeast(q - q', n);
    } else if q < q' {
      MulAtLeast(q' - q, n);
    }
  }

  lemma ModSucc(a: nat, n: nat)
    requires n > 0
    ensures (a % n + 1) % n == (a + 1) % n
  {
    var q, r := a / n, a % n;
    assert a == q * n + r;
    if r + 1 < n {
      ModUnique(a + 1, n, q, r + 1);
      ModUnique(r + 1, n, 0, r + 1);
    } else {
      ModUnique(a + 1, n, q + 1, 0);
      ModUnique(r + 1, n, 1, 0);
    }
  }
}
