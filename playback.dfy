/**
 * The playback loop's index arithmetic: `play` starts at index 0; every loop
 * iteration draws `frames[playIndex]`, waits the frame's duration and then sets
 * `playIndex = (playIndex + 1) % frames.length`, with the length the list has
 * when the wait ends. The state fields themselves live in the two editor classes.
 */
module Playback {

  /** What the head of one iteration of `while (playing) { ... }` does. */
  datatype Tick =
    | Exited          // `playing` was false: the loop ends and the buttons are reset
    | Faulted         // `frames[playIndex]` is undefined: drawing it throws and the loop dies
    | Shown(index: nat)  // the frame at `index` was drawn

  /** `playIndex`: a frame index, or `NaN` once `% frames.length` was taken of an empty list. */
  datatype PlayIndex = Index(value: nat) | NaN

  /** `frames[playIndex]` is a frame, not `undefined`. */
  predicate Showable(p: PlayIndex, n: nat)
  {
    p.Index? && p.value < n
  }

  /** `(i + 1) % n` for a non-negative index, as JavaScript computes it. */
  function NextIndex(i: nat, n: nat): (j: nat)
    requires n > 0
    ensures j < n
    ensures i < n - 1 ==> j == i + 1
    ensures i == n - 1 ==> j == 0
  {
    (i + 1) % n
  }

  /** The index after `k` iterations from `start` on an unchanged list of `n` frames. */
  function IndexAfter(start: nat, n: nat, k: nat): nat
    requires n > 0
  {
    if k == 0 then start else NextIndex(IndexAfter(start, n, k - 1), n)
  }

  /** Starting from 0, the `k`-th iteration shows frame `k mod n`: the frames cycle in list order forever. */
  lemma {:induction false} IndexAfterIsModulo(n: nat, k: nat)
    requires n > 0
    ensures IndexAfter(0, n, k) == k % n
  {
    if k > 0 {
      IndexAfterIsModulo(n, k - 1);
      ModStep(k, n);
    }
  }

  lemma ModStep(k: int, n: int)
    requires k > 0 && n > 0
    ensures (k - 1) % n < n - 1 ==> k % n == (k - 1) % n + 1
    ensures (k - 1) % n == n - 1 ==> k % n == 0
  {
    var q, i := (k - 1) / n, (k - 1) % n;
    assert k - 1 == q * n + i;
    if i < n - 1 {
      ModOfDecomposition(k, n, q, i + 1);
    } else {
      assert k == q * n + n;
      assert q * n + n == (q + 1) * n;
      ModOfDecomposition(k, n, q + 1, 0);
    }
  }

  lemma ModOfDecomposition(a: int, n: int, q: int, r: int)
    requires n > 0 && 0 <= r < n && a == q * n + r
    ensures a % n == r
  {
    var q', r' := a / n, a % n;
    assert a == q' * n + r';
    assert (q - q') * n == r' - r;
    if q > q' {
      MulAtLeast(q - q', n);
    } else if q < q' {
      MulAtLeast(q' - q, n);
    }
  }

  lemma {:induction false} MulAtLeast(d: int, n: int)
    requires d >= 1 && n > 0
    ensures d * n >= n
  {
    if d > 1 {
      MulAtLeast(d - 1, n);
      assert d * n == (d - 1) * n + n;
    }
  }

  /** The index never leaves `[0, n)` while the list is unchanged. */
  lemma {:induction false} IndexAfterInRange(start: nat, n: nat, k: nat)
    requires start < n
    ensures IndexAfter(start, n, k) < n
  {
    if k > 0 {
      IndexAfterInRange(start, n, k - 1);
    }
  }

  /**
   * `playIndex = (playIndex + 1) % frames.length` after the wait, with the current
   * length `n`: a list emptied during the wait gives `NaN`, which stays `NaN`.
   */
  function Advanced(p: PlayIndex, n: nat): (q: PlayIndex)
    ensures q.NaN? <==> p.NaN? || n == 0
    ensures q.Index? ==> Showable(q, n)
  {
    if p.NaN? || n == 0 then NaN else Index(NextIndex(p.value, n))
  }

  /** On a list of unchanged length the step is the cyclic one, so `k` steps from 0 reach `k mod n`. */
  lemma {:induction false} AdvancedCycles(n: nat, k: nat)
    requires n > 0
    ensures Advanced(Index(IndexAfter(0, n, k)), n) == Index((k + 1) % n)
  {
    IndexAfterIsModulo(n, k + 1);
  }

  /**
   * The length that counts is the one after the wait. Removing the first of three
   * frames while the last is shown moves on to index 1 of the two left, which is
   * that same last frame, shown again; removing the first while the second is
   * shown wraps to index 0, again the frame just shown.
   */
  lemma AdvancedAfterRemoval()
    ensures Advanced(Index(2), 2) == Index(1)
    ensures Advanced(Index(1), 2) == Index(0)
    ensures Advanced(Index(0), 0) == NaN
  {
  }
}
