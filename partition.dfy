/** The division of the keyspace `[0, total)` among `n` workers: every
    worker gets `total / n` indices and the first `total % n` workers one
    more, in order of worker number. */
module Partition {
  import opened Keyspace

  /** How many indices worker `i` searches. */
  function Size(total: nat, n: nat, i: nat): (r: nat)
    requires n > 0
  {
    total / n + (if i < total % n then 1 else 0)
  }

  /** The first index of worker `i`; for `i == n` it is one past the last
      index of the last worker. */
  function Start(total: nat, n: nat, i: nat): (r: nat)
    requires n > 0
  {
    i * (total / n) + (if i < total % n then i else total % n)
  }

  /** The last index of worker `i`: one before its start when its size is 0. */
  function End(total: nat, n: nat, i: nat): (r: int)
    requires n > 0
  {
    Start(total, n, i) + Size(total, n, i) - 1
  }

  /** The total of the sizes of workers `0` to `m - 1`. */
  function SumSizes(total: nat, n: nat, m: nat): (r: nat)
    requires n > 0
  {
    if m == 0 then 0 else SumSizes(total, n, m - 1) + Size(total, n, m - 1)
  }

  /** Worker `i + 1` starts right after worker `i` ends. */
  lemma Contiguous(total: nat, n: nat, i: nat)
    requires n > 0
    ensures Start(total, n, i + 1) == Start(total, n, i) + Size(total, n, i)
    ensures Start(total, n, i + 1) == End(total, n, i) + 1
  {
    MulSucc(i, total / n);
  }

  /** The ranges begin at index 0 and the last one ends at `total - 1`. */
  lemma Bounds(total: nat, n: nat)
    requires n > 0
    ensures Start(total, n, 0) == 0
    ensures Start(total, n, n) == total
    ensures End(total, n, n - 1) == total - 1
  {
    Euclid(total, n);
    Contiguous(total, n, n - 1);
  }

  /** The first `m` sizes add up to the start of worker `m`; all `n` of them
      add up to `total`. */
  lemma {:induction false} SumIsStart(total: nat, n: nat, m: nat)
    requires n > 0
    ensures SumSizes(total, n, m) == Start(total, n, m)
  {
    if m == 0 {
      Bounds(total, n);
    } else {
      SumIsStart(total, n, m - 1);
      Contiguous(total, n, m - 1);
    }
  }

  lemma SumIsTotal(total: nat, n: nat)
    requires n > 0
    ensures SumSizes(total, n, n) == total
  {
    SumIsStart(total, n, n);
    Bounds(total, n);
  }

  /** Sizes never grow with the worker number and differ by at most one. */
  lemma Balanced(total: nat, n: nat, i: nat, j: nat)
    requires n > 0 && i <= j
    ensures Size(total, n, j) <= Size(total, n, i) <= Size(total, n, j) + 1
  {
  }

  /** Starts never decrease with the worker number. */
  lemma {:induction false} StartMonotone(total: nat, n: nat, i: nat, j: nat)
    requires n > 0 && i <= j
    ensures Start(total, n, i) <= Start(total, n, j)
    decreases j - i
  {
    if i < j {
      Contiguous(total, n, i);
      StartMonotone(total, n, i + 1, j);
    }
  }

  /** The worker, from `m` on, whose range holds index `k`: each index below
      `total` is searched by some worker ... */
  function Owner(total: nat, n: nat, k: nat, m: nat): (i: nat)
    requires n > 0 && m <= n && Start(total, n, m) <= k < total
    ensures m <= i < n && Start(total, n, i) <= k <= End(total, n, i)
    decreases n - m
  {
    Bounds(total, n);
    Contiguous(total, n, m);
    if k < Start(total, n, m + 1) then m else Owner(total, n, k, m + 1)
  }

  /** The worker whose range holds index `k`. */
  function Covered(total: nat, n: nat, k: nat): (i: nat)
    requires n > 0 && k < total
    ensures i < n && Start(total, n, i) <= k <= End(total, n, i)
  {
    Bounds(total, n);
    Owner(total, n, k, 0)
  }

  /** ... and by only one. */
  lemma Disjoint(total: nat, n: nat, i: nat, j: nat, k: int)
    requires n > 0 && i < n && j < n
    requires Start(total, n, i) <= k <= End(total, n, i)
    requires Start(total, n, j) <= k <= End(total, n, j)
    ensures i == j
  {
    if i < j {
      Contiguous(total, n, i);
      StartMonotone(total, n, i + 1, j);
    } else if j < i {
      Contiguous(total, n, j);
      StartMonotone(total, n, j + 1, i);
    }
  }

  /** With at least as many indices as workers nobody is idle. */
  lemma NoneEmpty(total: nat, n: nat, i: nat)
    requires 0 < n <= total
    ensures Size(total, n, i) >= 1
  {
    DivMonotone(n, total, n);
  }

  /** A worker with nothing to search (only when `n > total`) starts at
      `total` and ends at `total - 1`. */
  lemma EmptyRange(total: nat, n: nat, i: nat)
    requires n > 0 && i < n && Size(total, n, i) == 0
    ensures total < n && total <= i
    ensures Start(total, n, i) == total && End(total, n, i) == total - 1
  {
    if n <= total {
      NoneEmpty(total, n, i);
    }
    Euclid(total, n);
  }

  /** With a non-empty keyspace every range ends at an index, and starts at
      most at `total`. */
  lemma EndNonNegative(total: nat, n: nat, i: nat)
    requires 0 < total && 0 < n && i < n
    ensures 0 <= End(total, n, i) < total && Start(total, n, i) <= total
  {
    Bounds(total, n);
    Contiguous(total, n, i);
    StartMonotone(total, n, i + 1, n);
    if Size(total, n, i) == 0 {
      EmptyRange(total, n, i);
    }
  }

  /** The passwords such a worker is handed are not an empty range: its start
      index decodes, wrapping around, to the first password of the keyspace
      and its end index to the last, so it searches the whole keyspace. */
  lemma EmptyRangeBounds(cs: seq<char>, len: nat, n: nat, i: nat)
    requires |cs| > 0 && n > 0 && i < n && Size(Pow(|cs|, len), n, i) == 0
    ensures Decode(cs, len, Start(Pow(|cs|, len), n, i)) == Repeat(cs[0], len)
    ensures Decode(cs, len, End(Pow(|cs|, len), n, i)) == Repeat(cs[|cs| - 1], len)
  {
    var t := Pow(|cs|, len);
    EmptyRange(t, n, i);
    assert Start(t, n, i) == t && End(t, n, i) == t - 1;
    DecodeWraps(cs, len);
    DecodeZero(cs, len);
    DecodeLast(cs, len);
  }
}
