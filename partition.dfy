/**
 * The work split at the start of the threaded run in graph_coloring/main.rs:
 * n nodes over k threads, each thread taking one contiguous block. The first
 * `lower_start` threads take ceil(n/k) nodes and the others floor(n/k);
 * `lower_start` is k when k divides n and n % k otherwise. The source fixes
 * k at 8; the arithmetic is modelled for every k > 0.
 */
module Partition {
  import opened NatArith

  /** `agent_per_thread_upper`. */
  function UpperBlock(n: nat, k: nat): nat
    requires k > 0
  {
    (n + k - 1) / k
  }

  /** `agent_per_thread_lower`. */
  function LowerBlock(n: nat, k: nat): nat
    requires k > 0
  {
    n / k
  }

  /** `lower_start`: the first thread that takes the smaller block. */
  function LowerStart(n: nat, k: nat): nat
    requires k > 0
  {
    if UpperBlock(n, k) == LowerBlock(n, k) then k else n % k
  }

  /** `start_index` of thread i. */
  function StartIndex(n: nat, k: nat, i: nat): nat
    requires k > 0
  {
    var upper, lower, ls := UpperBlock(n, k), LowerBlock(n, k), LowerStart(n, k);
    if i < ls then i * upper else ls * upper + (i - ls) * lower
  }

  /** `end_index` of thread i (exclusive). */
  function EndIndex(n: nat, k: nat, i: nat): nat
    requires k > 0
  {
    var upper, lower, ls := UpperBlock(n, k), LowerBlock(n, k), LowerStart(n, k);
    StartIndex(n, k, i) + if i < ls then upper else lower
  }

  function Min(a: nat, b: nat): nat
  {
    if a < b then a else b
  }

  /** Quotient and remainder are determined by a decomposition with a remainder below the divisor. */
  lemma DivModUnique(a: nat, k: nat, q: nat, r: nat)
    requires r < k && a == q * k + r
    ensures a / k == q && a % k == r
  {
    var q', r' := a / k, a % k;
    assert a == q' * k + r';
    if q' < q {
      MulMonotone(q' + 1, q, k);
      assert false;
    } else if q < q' {
      MulMonotone(q + 1, q', k);
      assert false;
    }
  }

  /**
   * The two block sizes are ceil(n/k) and floor(n/k), and `lower_start` is the
   * number of threads that must take the larger block (all of them when k divides n).
   */
  lemma BlockSizes(n: nat, k: nat)
    requires k > 0
    ensures LowerBlock(n, k) * k <= n < (LowerBlock(n, k) + 1) * k
    ensures UpperBlock(n, k) == LowerBlock(n, k) + (if n % k == 0 then 0 else 1)
    ensures LowerStart(n, k) == (if n % k == 0 then k else n % k)
  {
    var q, r := n / k, n % k;
    if r == 0 {
      DivModUnique(n + k - 1, k, q, k - 1);
    } else {
      DivModUnique(n + k - 1, k, q + 1, r - 1);
    }
  }

  /** Thread i starts after i blocks of floor(n/k) plus one extra node for each earlier thread that took the larger block. */
  lemma {:induction false} StartIndexClosedForm(n: nat, k: nat, i: nat)
    requires k > 0
    ensures StartIndex(n, k, i) == i * (n / k) + Min(i, if n % k == 0 then 0 else n % k)
  {
    BlockSizes(n, k);
    var q, r := n / k, n % k;
    if r != 0 && i >= r {
      assert r * (q + 1) + (i - r) * q == i * q + r;
    }
  }

  /** Thread i takes floor(n/k) + 1 nodes if i < n % k, otherwise floor(n/k). */
  lemma BlockOfThread(n: nat, k: nat, i: nat)
    requires k > 0 && i < k
    ensures EndIndex(n, k, i) - StartIndex(n, k, i) == if i < n % k then n / k + 1 else n / k
  {
    BlockSizes(n, k);
  }

  /** Each thread ends where the next one starts. */
  lemma Contiguous(n: nat, k: nat, i: nat)
    requires k > 0 && i + 1 < k
    ensures EndIndex(n, k, i) == StartIndex(n, k, i + 1)
  {
    var upper, lower, ls := UpperBlock(n, k), LowerBlock(n, k), LowerStart(n, k);
    if i + 1 < ls {
      assert (i + 1) * upper == i * upper + upper;
    } else if i + 1 == ls {
      assert ls * upper == i * upper + upper;
    } else {
      assert (i + 1 - ls) * lower == (i - ls) * lower + lower;
    }
  }

  /** The first thread starts at node 0 and the last one ends at node n. */
  lemma Bounds(n: nat, k: nat)
    requires k > 0
    ensures StartIndex(n, k, 0) == 0
    ensures EndIndex(n, k, k - 1) == n
  {
    BlockSizes(n, k);
    StartIndexClosedForm(n, k, k - 1);
    var q, r := n / k, n % k;
    assert n == k * q + r;
    if r == 0 {
      assert (k - 1) * q + q == k * q;
    } else {
      assert (k - 1) * q + (r - 1) + q + 1 == k * q + r;
    }
  }

  /** Start indices never decrease from one thread to the next. */
  lemma {:induction false} StartsAscend(n: nat, k: nat, i: nat, j: nat)
    requires k > 0 && i <= j < k
    ensures StartIndex(n, k, i) <= StartIndex(n, k, j)
    decreases j - i
  {
    if i < j {
      StartsAscend(n, k, i, j - 1);
      Contiguous(n, k, j - 1);
    }
  }

  /** Every node 0 <= x < n belongs to some thread's range. */
  lemma {:induction false} Covers(n: nat, k: nat, x: nat)
    requires k > 0 && x < n
    ensures exists i :: 0 <= i < k && StartIndex(n, k, i) <= x < EndIndex(n, k, i)
  {
    Bounds(n, k);
    CoveredFrom(n, k, x, 0);
  }

  lemma {:induction false} CoveredFrom(n: nat, k: nat, x: nat, i: nat)
    requires k > 0 && i < k && StartIndex(n, k, i) <= x < n && EndIndex(n, k, k - 1) == n
    ensures exists j :: 0 <= j < k && StartIndex(n, k, j) <= x < EndIndex(n, k, j)
    decreases k - i
  {
    if x >= EndIndex(n, k, i) {
      Contiguous(n, k, i);
      CoveredFrom(n, k, x, i + 1);
    }
  }

  /** The ranges of two different threads share no node. */
  lemma Disjoint(n: nat, k: nat, i: nat, j: nat, x: nat)
    requires k > 0 && i < j < k
    requires StartIndex(n, k, i) <= x < EndIndex(n, k, i)
    ensures !(StartIndex(n, k, j) <= x < EndIndex(n, k, j))
  {
    Contiguous(n, k, i);
    StartsAscend(n, k, i + 1, j);
  }
}
