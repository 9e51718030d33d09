/** The keyspace: fixed-length passwords over a charset, numbered by their
    base-|charset| value (most significant symbol first), and the odometer
    step that advances a password to the next index. */
module Keyspace {

  /** Largest value of a signed 64-bit `long long`. */
  const Int64Max: int := 0x7FFF_FFFF_FFFF_FFFF

  /** The C `long long` the search-space size is computed in. */
  newtype int64 = x: int | -0x8000_0000_0000_0000 <= x <= 0x7FFF_FFFF_FFFF_FFFF

  /** The string terminator written after every password. */
  const Nul: char := '\0'

  // ---------------------------------------------------------------------
  // Arithmetic
  // ---------------------------------------------------------------------

  function Pow(b: nat, e: nat): (r: nat)
    ensures b >= 1 ==> r >= 1
  {
    if e == 0 then 1 else b * Pow(b, e - 1)
  }

  lemma {:induction false} PowMonotone(b: nat, d: nat, e: nat)
    requires b >= 1 && d <= e
    ensures Pow(b, d) <= Pow(b, e)
  {
    if d < e {
      PowMonotone(b, d, e - 1);
      MulMonotone(1, b, Pow(b, e - 1));
    }
  }

  /** A product with a positive factor keeps the sign of the other factor,
      at least a whole `c` away from zero. */
  lemma MulSign(a: int, c: int)
    requires c > 0
    ensures a >= 1 ==> a * c >= c
    ensures a <= -1 ==> a * c <= -c
  {
  }

  lemma MulMonotone(a: int, b: int, c: int)
    requires c >= 0
    ensures a <= b ==> a * c <= b * c
  {
  }

  /** Euclidean division undoes `q * c + f` for a digit `f`. */
  lemma DivMod(q: int, f: int, c: int)
    requires c > 0 && 0 <= f < c
    ensures (q * c + f) / c == q && (q * c + f) % c == f
  {
    var n := q * c + f;
    var d, m := n / c, n % c;
    assert n == d * c + m;
    assert (d - q) * c == f - m;
    MulSign(d - q, c);
  }

  lemma MulSucc(q: int, c: int)
    ensures (q + 1) * c == q * c + c
  {
  }

  lemma Euclid(k: int, c: int)
    requires c > 0
    ensures k == (k / c) * c + k % c && 0 <= k % c < c
  {
  }

  /** `k / c` stays below `p` when `k` stays below `c * p`. */
  lemma DivBound(k: nat, c: nat, p: nat)
    requires c > 0 && k < c * p
    ensures k / c < p
  {
    var q := k / c;
    assert q * c <= k;
    MulMonotone(p, q, c);
  }

  /** Appending a digit below `c` to a number below `p` stays below `c * p`. */
  lemma DigitBound(q: int, f: int, c: int, p: int)
    requires 0 <= q < p && 0 <= f < c
    ensures 0 <= q * c + f < c * p
  {
    MulMonotone(q + 1, p, c);
    MulSucc(q, c);
  }

  /** Splits `k` into its quotient and last digit in base `c`. */
  lemma Split(k: nat, c: nat) returns (q: nat, d: nat)
    requires c > 0
    ensures k == q * c + d && d < c
  {
    q, d := k / c, k % c;
  }

  /** A carry out of the last digit leaves the quotient's successor below `p`. */
  lemma CarryBound(q: nat, c: nat, p: nat)
    requires c > 0 && q * c + c < c * p
    ensures q + 1 < p
  {
    MulSucc(q, c);
    MulMonotone(p, q + 1, c);
  }

  /** Integer division by a positive constant is monotone. */
  lemma DivMonotone(j: int, k: int, c: int)
    requires c > 0 && j <= k
    ensures j / c <= k / c
  {
    var a, b := j / c, k / c;
    assert a * c + j % c == j && b * c + k % c == k;
    assert (a - b) * c == (j - j % c) - (k - k % c);
    MulSign(a - b, c);
  }

  // ---------------------------------------------------------------------
  // Charsets and passwords
  // ---------------------------------------------------------------------

  function Repeat(x: char, n: nat): (r: seq<char>)
    ensures |r| == n
  {
    if n == 0 then [] else Repeat(x, n - 1) + [x]
  }

  /** Every position of `Repeat(x, n)` holds `x`. */
  lemma {:induction false} RepeatAt(x: char, n: nat, i: nat)
    requires i < n
    ensures Repeat(x, n)[i] == x
  {
    if i < n - 1 {
      RepeatAt(x, n - 1, i);
    }
  }

  /** One more copy of `x` after any prefix `a`. */
  lemma RepeatSnoc(a: seq<char>, x: char, m: nat)
    ensures a + Repeat(x, m + 1) == a + Repeat(x, m) + [x]
  {
    assert Repeat(x, m + 1) == Repeat(x, m) + [x];
  }


  /** No symbol occurs twice in the charset. */
  predicate Distinct(cs: seq<char>)
  {
    forall i, j :: 0 <= i < j < |cs| ==> cs[i] != cs[j]
  }

  /** Symbols strictly increase by their unsigned byte value, so that `strcmp`
      order and index order coincide. */
  predicate Ascending(cs: seq<char>)
  {
    forall i, j :: 0 <= i < j < |cs| ==> cs[i] < cs[j]
  }

  /** Every symbol of `p` is a charset symbol. */
  predicate Over(cs: seq<char>, p: seq<char>)
  {
    forall i :: 0 <= i < |p| ==> p[i] in cs
  }

  /** A symbol missing from the charset is missing from every password over
      it. */
  lemma OverExcludes(cs: seq<char>, p: seq<char>, x: char)
    requires Over(cs, p) && x !in cs
    ensures x !in p
  {
    assert forall i :: 0 <= i < |p| ==> p[i] != x;
  }

  /** The position of the first occurrence of `x` in `cs`, or -1. */
  function Find(cs: seq<char>, x: char): (r: int)
    ensures -1 <= r < |cs|
  {
    FindFrom(cs, x, 0)
  }

  /** The position of the first occurrence of `x` at or after `i`, or -1. */
  function FindFrom(cs: seq<char>, x: char, i: nat): (r: int)
    requires i <= |cs|
    ensures r == -1 || i <= r < |cs|
    decreases |cs| - i
  {
    if i == |cs| then -1
    else if cs[i] == x then i
    else FindFrom(cs, x, i + 1)
  }

  /** The search from `i` reports the first occurrence in `cs[i..]`, and -1
      exactly when `x` does not occur there. */
  lemma {:induction false} FindFromFirst(cs: seq<char>, x: char, i: nat)
    requires i <= |cs|
    ensures FindFrom(cs, x, i) == -1 <==> x !in cs[i..]
    ensures FindFrom(cs, x, i) >= 0 ==> cs[FindFrom(cs, x, i)] == x && x !in cs[i..FindFrom(cs, x, i)]
    decreases |cs| - i
  {
    if i < |cs| && cs[i] != x {
      FindFromFirst(cs, x, i + 1);
      var t := FindFrom(cs, x, i + 1);
      assert cs[i..] == [cs[i]] + cs[i + 1..];
      assert t >= 0 ==> cs[i..t] == [cs[i]] + cs[i + 1..t];
    }
  }

  /** `Find` reports the first occurrence, and -1 exactly for absent symbols. */
  lemma FindFirst(cs: seq<char>, x: char)
    ensures Find(cs, x) == -1 <==> x !in cs
    ensures Find(cs, x) >= 0 ==> cs[Find(cs, x)] == x && x !in cs[..Find(cs, x)]
  {
    FindFromFirst(cs, x, 0);
    assert cs[0..] == cs;
    assert Find(cs, x) >= 0 ==> cs[0..Find(cs, x)] == cs[..Find(cs, x)];
  }

  lemma FindDistinct(cs: seq<char>, i: nat)
    requires Distinct(cs) && i < |cs|
    ensures Find(cs, cs[i]) == i
  {
    FindFirst(cs, cs[i]);
  }

  /** Any first occurrence is the one `Find` reports. */
  lemma FindUnique(cs: seq<char>, x: char, r: int)
    requires -1 <= r < |cs|
    requires r == -1 <==> x !in cs
    requires r >= 0 ==> cs[r] == x && x !in cs[..r]
    ensures r == Find(cs, x)
  {
    var f := Find(cs, x);
    FindFirst(cs, x);
    if r >= 0 && f >= 0 {
      assert forall j :: 0 <= j < f ==> cs[j] != x;
      assert forall j :: 0 <= j < r ==> cs[j] != x;
    }
  }

  // ---------------------------------------------------------------------
  // Index <-> password
  // ---------------------------------------------------------------------

  /** The password of index `k`: the `len` low-order base-|cs| digits of `k`,
      most significant first, each digit `d` written as `cs[d]`. */
  function Decode(cs: seq<char>, len: nat, k: nat): (p: seq<char>)
    requires |cs| > 0
    ensures |p| == len && Over(cs, p)
  {
    if len == 0 then [] else Decode(cs, len - 1, k / |cs|) + [cs[k % |cs|]]
  }

  /** The index of a password: its digits (positions of first occurrence in
      the charset) read as a base-|cs| number. */
  function IndexOf(cs: seq<char>, p: seq<char>): int
  {
    if |p| == 0 then 0 else IndexOf(cs, p[..|p| - 1]) * |cs| + Find(cs, p[|p| - 1])
  }

  /** Appending a symbol appends its digit. */
  lemma IndexOfSnoc(cs: seq<char>, p: seq<char>, x: char)
    ensures IndexOf(cs, p + [x]) == IndexOf(cs, p) * |cs| + Find(cs, x)
  {
    assert (p + [x])[..|p|] == p;
  }

  /** Index 0 is the all-first-symbol password. */
  lemma {:induction false} DecodeZero(cs: seq<char>, len: nat)
    requires |cs| > 0
    ensures Decode(cs, len, 0) == Repeat(cs[0], len)
  {
    if len > 0 {
      DecodeZero(cs, len - 1);
      assert Repeat(cs[0], len) == Repeat(cs[0], len - 1) + [cs[0]];
    }
  }

  /** The last index is the all-last-symbol password. */
  lemma {:induction false} DecodeLast(cs: seq<char>, len: nat)
    requires |cs| > 0
    ensures Decode(cs, len, Pow(|cs|, len) - 1) == Repeat(cs[|cs| - 1], len)
  {
    var c := |cs|;
    if len > 0 {
      var p := Pow(c, len - 1);
      DecodeLast(cs, len - 1);
      assert Pow(c, len) - 1 == (p - 1) * c + (c - 1);
      DivMod(p - 1, c - 1, c);
      assert Repeat(cs[c - 1], len) == Repeat(cs[c - 1], len - 1) + [cs[c - 1]];
    }
  }

  /** Decoding `|cs|^len` wraps around to the first password. */
  lemma {:induction false} DecodeWraps(cs: seq<char>, len: nat)
    requires |cs| > 0
    ensures Decode(cs, len, Pow(|cs|, len)) == Decode(cs, len, 0)
  {
    var c := |cs|;
    if len > 0 {
      DecodeWraps(cs, len - 1);
      DivMod(Pow(c, len - 1), 0, c);
      DivMod(0, 0, c);
    }
  }

  /** Every password over the charset has an index inside the keyspace. */
  lemma {:induction false} IndexOfBound(cs: seq<char>, p: seq<char>)
    requires Over(cs, p)
    ensures 0 <= IndexOf(cs, p) < Pow(|cs|, |p|)
  {
    if |p| > 0 {
      var n := |p| - 1;
      var init := p[..n];
      assert Over(cs, init);
      IndexOfBound(cs, init);
      var c, q, f := |cs|, IndexOf(cs, init), Find(cs, p[n]);
      FindFirst(cs, p[n]);
      var P := Pow(c, n);
      assert Pow(c, |p|) == c * P;
      assert IndexOf(cs, p) == q * c + f;
      DigitBound(q, f, c, P);
    }
  }

  /** Reading the digits of a password and decoding them gives it back. */
  lemma {:induction false} DecodeIndexOf(cs: seq<char>, p: seq<char>)
    requires |cs| > 0 && Over(cs, p)
    ensures IndexOf(cs, p) >= 0 && Decode(cs, |p|, IndexOf(cs, p)) == p
  {
    IndexOfBound(cs, p);
    if |p| > 0 {
      var n := |p| - 1;
      var init, x := p[..n], p[n];
      assert p == init + [x];
      assert Over(cs, init);
      IndexOfBound(cs, init);
      DecodeIndexOf(cs, init);
      FindFirst(cs, x);
      var q, f := IndexOf(cs, init), Find(cs, x);
      IndexOfSnoc(cs, init, x);
      DivMod(q, f, |cs|);
    }
  }

  /** Decoding an index of the keyspace and reading its digits gives it back. */
  lemma {:induction false} IndexOfDecode(cs: seq<char>, len: nat, k: nat)
    requires |cs| > 0 && Distinct(cs) && k < Pow(|cs|, len)
    ensures IndexOf(cs, Decode(cs, len, k)) == k
  {
    var c := |cs|;
    if len > 0 {
      var q, d, P := k / c, k % c, Pow(c, len - 1);
      Euclid(k, c);
      DivBound(k, c, P);
      IndexOfDecode(cs, len - 1, q);
      var init := Decode(cs, len - 1, q);
      IndexOfSnoc(cs, init, cs[d]);
      FindDistinct(cs, d);
    }
  }

  /** Different indices of the keyspace decode to different passwords. */
  lemma DecodeInjective(cs: seq<char>, len: nat, j: nat, k: nat)
    requires |cs| > 0 && Distinct(cs) && j < Pow(|cs|, len) && k < Pow(|cs|, len)
    ensures Decode(cs, len, j) == Decode(cs, len, k) <==> j == k
  {
    IndexOfDecode(cs, len, j);
    IndexOfDecode(cs, len, k);
  }

  // ---------------------------------------------------------------------
  // The odometer step
  // ---------------------------------------------------------------------

  /** The password after one odometer step. Scanning from the right, a
      symbol not in the charset stops the step and leaves the password as it
      is; a symbol below the last is bumped to the next one; a last symbol
      wraps to `cs[0]` and the carry moves one position left. */
  function Increment(cs: seq<char>, p: seq<char>): (r: seq<char>)
    ensures |r| == |p|
  {
    if |p| == 0 then p
    else
      var n := |p| - 1;
      var d := Find(cs, p[n]);
      if d == -1 then p
      else if d + 1 < |cs| then p[..n] + [cs[d + 1]]
      else Increment(cs, p[..n]) + [cs[0]]
  }

  /** Whether the odometer step produced a successor: it does when it bumps
      some symbol, and not when it meets a foreign symbol or carries out of
      the leftmost position. */
  predicate Advances(cs: seq<char>, p: seq<char>)
  {
    if |p| == 0 then false
    else
      var n := |p| - 1;
      var d := Find(cs, p[n]);
      if d == -1 then false
      else if d + 1 < |cs| then true
      else Advances(cs, p[..n])
  }

  /** The step on a password ending in a symbol outside the charset stops. */
  lemma SnocStop(cs: seq<char>, p: seq<char>, x: char)
    requires Find(cs, x) == -1
    ensures Increment(cs, p + [x]) == p + [x]
    ensures !Advances(cs, p + [x])
  {
  }

  /** The step on a password ending in a symbol below the last bumps it. */
  lemma SnocBump(cs: seq<char>, p: seq<char>, x: char)
    requires 0 <= Find(cs, x) && Find(cs, x) + 1 < |cs|
    ensures Increment(cs, p + [x]) == p + [cs[Find(cs, x) + 1]]
    ensures Advances(cs, p + [x])
  {
    var q := p + [x];
    var d := Find(cs, x);
    assert q[|q| - 1] == x;
    assert q[..|q| - 1] == p;
    assert Increment(cs, q) == q[..|q| - 1] + [cs[d + 1]];
  }


  /** The step on a password ending in the last symbol wraps it to `cs[0]`
      and carries into `p`. */
  lemma SnocCarry(cs: seq<char>, p: seq<char>, x: char)
    requires |cs| > 0 && Find(cs, x) == |cs| - 1
    ensures Increment(cs, p + [x]) == Increment(cs, p) + [cs[0]]
    ensures Advances(cs, p + [x]) == Advances(cs, p)
  {
    assert (p + [x])[..|p|] == p;
  }

  /** Decoding `q * |cs| + d` appends digit `d` to the password of `q`. */
  lemma DecodeStep(cs: seq<char>, len: nat, k: nat, q: nat, d: nat)
    requires |cs| > 0 && len > 0 && d < |cs| && k == q * |cs| + d
    ensures Decode(cs, len, k) == Decode(cs, len - 1, q) + [cs[d]]
  {
    DivMod(q, d, |cs|);
  }

  /** Index `k` ends in digit `d` below the last: `k + 1` only bumps it. */
  lemma DecodeNoCarry(cs: seq<char>, len: nat, k: nat, q: nat, d: nat)
    requires |cs| > 0 && len > 0 && d + 1 < |cs| && k == q * |cs| + d
    ensures Decode(cs, len, k) == Decode(cs, len - 1, q) + [cs[d]]
    ensures Decode(cs, len, k + 1) == Decode(cs, len - 1, q) + [cs[d + 1]]
  {
    DecodeStep(cs, len, k, q, d);
    DecodeStep(cs, len, k + 1, q, d + 1);
  }

  /** Index `k` ends in the last digit: `k + 1` wraps it and carries. */
  lemma DecodeCarry(cs: seq<char>, len: nat, k: nat, q: nat)
    requires |cs| > 0 && len > 0 && k == q * |cs| + |cs| - 1
    ensures Decode(cs, len, k) == Decode(cs, len - 1, q) + [cs[|cs| - 1]]
    ensures Decode(cs, len, k + 1) == Decode(cs, len - 1, q + 1) + [cs[0]]
  {
    DecodeStep(cs, len, k, q, |cs| - 1);
    MulSucc(q, |cs|);
    DecodeStep(cs, len, k + 1, q + 1, 0);
  }

  /** The step advances index `k` to index `k + 1` inside the keyspace. */
  lemma {:induction false} IncrementDecode(cs: seq<char>, len: nat, k: nat)
    requires |cs| > 0 && Distinct(cs) && k + 1 < Pow(|cs|, len)
    ensures Increment(cs, Decode(cs, len, k)) == Decode(cs, len, k + 1)
    ensures Advances(cs, Decode(cs, len, k))
  {
    var c := |cs|;
    assert len > 0;
    var q, d := Split(k, c);
    if d + 1 < c {
      DecodeNoCarry(cs, len, k, q, d);
      FindDistinct(cs, d);
      SnocBump(cs, Decode(cs, len - 1, q), cs[d]);
    } else {
      CarryBound(q, c, Pow(c, len - 1));
      IncrementDecode(cs, len - 1, q);
      DecodeCarry(cs, len, k, q);
      FindDistinct(cs, c - 1);
      SnocCarry(cs, Decode(cs, len - 1, q), cs[c - 1]);
    }
  }

  /** A successful step changes exactly one position `i` to the symbol after
      it, keeps everything left of `i`, and resets everything right of `i`. */
  lemma {:induction false} IncrementShape(cs: seq<char>, p: seq<char>) returns (i: nat)
    requires Advances(cs, p)
    ensures i < |p| && 0 <= Find(cs, p[i]) < |cs| - 1
    ensures Increment(cs, p) == p[..i] + [cs[Find(cs, p[i]) + 1]] + Repeat(cs[0], |p| - 1 - i)
  {
    var n := |p| - 1;
    var h, x := p[..n], p[n];
    assert p == h + [x];
    var d := Find(cs, x);
    if 0 <= d && d + 1 < |cs| {
      SnocBump(cs, h, x);
      i := n;
      assert Increment(cs, p) == p[..n] + [cs[d + 1]] + Repeat(cs[0], 0);
    } else {
      SnocCarry(cs, h, x);
      i := IncrementShape(cs, h);
      assert h[..i] == p[..i] && h[i] == p[i];
      var b := p[..i] + [cs[Find(cs, p[i]) + 1]];
      assert b + Repeat(cs[0], n - 1 - i) + [cs[0]] == b + Repeat(cs[0], |p| - 1 - i);
    }
  }



  /** Positions holding the last charset symbol all carry: the step on `h`
      followed by `m` of them is the step on `h` followed by `m` positions
      reset to `pad`, the first charset symbol. */
  lemma {:induction false} CarryTail(cs: seq<char>, h: seq<char>, top: char, pad: char, m: nat)
    requires m == 0 || (|cs| > 0 && Find(cs, top) == |cs| - 1 && pad == cs[0])
    ensures Increment(cs, h + Repeat(top, m)) == Increment(cs, h) + Repeat(pad, m)
  {
    if m == 0 {
      assert h + Repeat(top, 0) == h;
      assert Increment(cs, h) + Repeat(pad, 0) == Increment(cs, h);
    } else {
      var p := h + Repeat(top, m - 1);
      RepeatSnoc(h, top, m - 1);
      CarryTail(cs, h, top, pad, m - 1);
      SnocCarry(cs, p, top);
      RepeatSnoc(Increment(cs, h), pad, m - 1);
    }
  }

  /** Carrying through trailing last symbols advances exactly when the step
      on the rest does. */
  lemma {:induction false} CarryTailAdvances(cs: seq<char>, h: seq<char>, top: char, m: nat)
    requires m == 0 || (|cs| > 0 && Find(cs, top) == |cs| - 1)
    ensures Advances(cs, h + Repeat(top, m)) == Advances(cs, h)
  {
    if m == 0 {
      assert h + Repeat(top, 0) == h;
    } else {
      var p := h + Repeat(top, m - 1);
      RepeatSnoc(h, top, m - 1);
      CarryTailAdvances(cs, h, top, m - 1);
      SnocCarry(cs, p, top);
    }
  }


  /** A sequence whose positions from `k` on all hold `x`. */
  lemma TailForm(q: seq<char>, k: nat, x: char)
    requires k <= |q| && forall j :: k <= j < |q| ==> q[j] == x
    ensures q == q[..k] + Repeat(x, |q| - k)
  {
    var r := q[..k] + Repeat(x, |q| - k);
    forall j | k <= j < |q|
      ensures r[j] == x
    {
      RepeatAt(x, |q| - k, j - k);
    }
  }

  /** `p` and `q` agree before `i`; after `i`, `p` holds `top` and `q`
      holds `pad`. */
  lemma Reshape(p: seq<char>, q: seq<char>, i: nat, top: char, pad: char)
    requires i < |p| == |q|
    requires forall j :: 0 <= j < i ==> q[j] == p[j]
    requires forall j :: i < j < |p| ==> p[j] == top && q[j] == pad
    ensures p == p[..i] + [p[i]] + Repeat(top, |p| - 1 - i)
    ensures q == p[..i] + [q[i]] + Repeat(pad, |p| - 1 - i)
  {
    TailForm(p, i + 1, top);
    TailForm(q, i + 1, pad);
    assert p[..i + 1] == p[..i] + [p[i]];
    assert q[..i + 1] == p[..i] + [q[i]];
  }

  /** A symbol outside the charset followed by `m` carrying positions. */
  lemma StopTail(cs: seq<char>, h: seq<char>, x: char, top: char, pad: char, m: nat)
    requires Find(cs, x) == -1
    requires m == 0 || (|cs| > 0 && Find(cs, top) == |cs| - 1 && pad == cs[0])
    ensures Increment(cs, h + [x] + Repeat(top, m)) == h + [x] + Repeat(pad, m)
    ensures !Advances(cs, h + [x] + Repeat(top, m))
  {
    SnocStop(cs, h, x);
    CarryTail(cs, h + [x], top, pad, m);
    CarryTailAdvances(cs, h + [x], top, m);
  }

  /** A symbol below the last followed by `m` carrying positions. */
  lemma BumpTail(cs: seq<char>, h: seq<char>, x: char, top: char, pad: char, m: nat)
    requires 0 <= Find(cs, x) && Find(cs, x) + 1 < |cs|
    requires m == 0 || (|cs| > 0 && Find(cs, top) == |cs| - 1 && pad == cs[0])
    ensures Increment(cs, h + [x] + Repeat(top, m)) == h + [cs[Find(cs, x) + 1]] + Repeat(pad, m)
    ensures Advances(cs, h + [x] + Repeat(top, m))
  {
    SnocBump(cs, h, x);
    CarryTail(cs, h + [x], top, pad, m);
    CarryTailAdvances(cs, h + [x], top, m);
  }

  /** The step stops, with no successor, at a symbol outside the charset
      once every position to its right has carried: `q` is `p` with those
      positions reset to `pad`. */
  lemma StopAt(cs: seq<char>, p: seq<char>, q: seq<char>, i: nat, top: char, pad: char)
    requires i < |p| == |q|
    requires forall j :: 0 <= j <= i ==> q[j] == p[j]
    requires forall j :: i < j < |p| ==> p[j] == top && q[j] == pad
    requires i == |p| - 1 || (|cs| > 0 && Find(cs, top) == |cs| - 1 && pad == cs[0])
    requires Find(cs, p[i]) == -1
    ensures Increment(cs, p) == q && !Advances(cs, p)
  {
    var m := |p| - 1 - i;
    Reshape(p, q, i, top, pad);
    StopTail(cs, p[..i], p[i], top, pad, m);
  }

  /** The step bumps the first position `i`, from the right, that holds a
      symbol below the last, and resets every position to its right: `q` is
      that successor. */
  lemma BumpAt(cs: seq<char>, p: seq<char>, q: seq<char>, i: nat, top: char, pad: char)
    requires i < |p| == |q|
    requires forall j :: 0 <= j < i ==> q[j] == p[j]
    requires 0 <= Find(cs, p[i]) && Find(cs, p[i]) + 1 < |cs| && q[i] == cs[Find(cs, p[i]) + 1]
    requires forall j :: i < j < |p| ==> p[j] == top && q[j] == pad
    requires i == |p| - 1 || (|cs| > 0 && Find(cs, top) == |cs| - 1 && pad == cs[0])
    ensures Increment(cs, p) == q && Advances(cs, p)
  {
    var m := |p| - 1 - i;
    Reshape(p, q, i, top, pad);
    BumpTail(cs, p[..i], p[i], top, pad, m);
  }

  /** When every position carries, the step wraps the password to all
      `pad`, the first charset symbol, and reports that there is no
      successor. */
  lemma WrapAll(cs: seq<char>, p: seq<char>, q: seq<char>, top: char, pad: char)
    requires |p| == |q| && forall j :: 0 <= j < |p| ==> p[j] == top && q[j] == pad
    requires |p| == 0 || (|cs| > 0 && Find(cs, top) == |cs| - 1 && pad == cs[0])
    ensures Increment(cs, p) == q && !Advances(cs, p)
  {
    TailForm(p, 0, top);
    TailForm(q, 0, pad);
    CarryTail(cs, [], top, pad, |p|);
    CarryTailAdvances(cs, [], top, |p|);
    assert [] + Repeat(top, |p|) == p;
    assert [] + Repeat(pad, |p|) == q;
  }

  /** The last password of the keyspace has no successor; the step wraps it
      to the first. */
  lemma IncrementLast(cs: seq<char>, len: nat)
    requires |cs| > 0 && Distinct(cs)
    ensures Increment(cs, Repeat(cs[|cs| - 1], len)) == Repeat(cs[0], len)
    ensures !Advances(cs, Repeat(cs[|cs| - 1], len))
  {
    var top := cs[|cs| - 1];
    FindDistinct(cs, |cs| - 1);
    CarryTail(cs, [], top, cs[0], len);
    CarryTailAdvances(cs, [], top, len);
    assert [] + Repeat(top, len) == Repeat(top, len);
    assert [] + Repeat(cs[0], len) == Repeat(cs[0], len);
  }

  // ---------------------------------------------------------------------
  // The C functions
  // ---------------------------------------------------------------------

  /** `calculate_search_space`: multiplies `total` by the charset length once
      per password position. The product must fit in a `long long`. */
  method CalculateSearchSpace(charsetLen: nat, passwordLen: int) returns (total: int64)
    requires Pow(charsetLen, if passwordLen < 0 then 0 else passwordLen) <= Int64Max
    ensures total as int == Pow(charsetLen, if passwordLen < 0 then 0 else passwordLen)
  {
    ghost var len: nat := if passwordLen < 0 then 0 else passwordLen;
    total := 1;
    var i := 0;
    while i < passwordLen
      invariant 0 <= i <= len
      invariant total as int == Pow(charsetLen, i)
    {
      ghost var next := Pow(charsetLen, i + 1);
      assert next == Pow(charsetLen, i) * charsetLen;
      if charsetLen > 0 {
        PowMonotone(charsetLen, i + 1, len);
        MulMonotone(1, Pow(charsetLen, i), charsetLen);
        assert charsetLen <= next <= Int64Max;
      }
      total := total * charsetLen as int64;
      i := i + 1;
    }
  }

  /** `index_to_password`: writes the `passwordLen` digits of `index` into
      `output`, least significant last, followed by the terminator. */
  method IndexToPassword(index: int, cs: seq<char>, passwordLen: nat, output: array<char>)
    requires |cs| > 0 && 0 <= index && passwordLen < output.Length
    modifies output
    ensures output[..passwordLen] == Decode(cs, passwordLen, index)
    ensures output[passwordLen] == Nul
    ensures output[passwordLen + 1..] == old(output[passwordLen + 1..])
  {
    var c := |cs|;
    var idx := index;
    var i := passwordLen - 1;
    while i >= 0
      invariant -1 <= i < passwordLen && idx >= 0
      invariant Decode(cs, passwordLen, index) == Decode(cs, i + 1, idx) + output[i + 1..passwordLen]
      invariant output[passwordLen..] == old(output[passwordLen..])
    {
      output[i] := cs[idx % c];
      idx := idx / c;
      i := i - 1;
    }
    output[passwordLen] := Nul;
  }

  /** `find_index`: linear search for the first position of `x` in `cs`. */
  method FindIndex(x: char, cs: seq<char>) returns (r: int)
    ensures -1 <= r < |cs|
    ensures r == -1 <==> x !in cs
    ensures r >= 0 ==> cs[r] == x && x !in cs[..r]
    ensures r == Find(cs, x)
  {
    var i := 0;
    while i < |cs|
      invariant 0 <= i <= |cs| && x !in cs[..i]
    {
      if cs[i] == x {
        FindUnique(cs, x, i);
        return i;
      }
      i := i + 1;
    }
    assert cs[..i] == cs;
    FindUnique(cs, x, -1);
    return -1;
  }

  /** The reset loop of `increment_password`: writes `x` into positions
      `from` to `to - 1` and leaves the rest of the buffer alone. */
  method ResetTail(password: array<char>, from: nat, to: nat, x: char)
    requires from <= to <= password.Length
    modifies password
    ensures forall j :: 0 <= j < password.Length ==>
      password[j] == if from <= j < to then x else old(password[j])
  {
    var k := from;
    while k < to
      invariant from <= k <= to
      invariant forall j :: 0 <= j < password.Length ==>
        password[j] == if from <= j < k then x else old(password[j])
    {
      password[k] := x;
      k := k + 1;
    }
  }

  /** `increment_password`: the odometer step in place on the first
      `passwordLen` positions of the buffer. */
  method IncrementPassword(password: array<char>, cs: seq<char>, passwordLen: nat) returns (advanced: bool)
    requires passwordLen <= password.Length
    modifies password
    ensures password[..passwordLen] == Increment(cs, old(password[..passwordLen]))
    ensures advanced == Advances(cs, old(password[..passwordLen]))
    ensures password[passwordLen..] == old(password[passwordLen..])
  {
    ghost var before := password[..passwordLen];
    ghost var top := if |cs| > 0 then cs[|cs| - 1] else Nul;
    ghost var pad := if |cs| > 0 then cs[0] else Nul;
    var i := passwordLen - 1;
    while i >= 0
      invariant -1 <= i < passwordLen
      invariant forall j :: i < j < passwordLen ==> before[j] == top && password[j] == pad
      invariant forall j :: 0 <= j <= i ==> password[j] == before[j]
      invariant i == passwordLen - 1 || (|cs| > 0 && Find(cs, top) == |cs| - 1)
      invariant forall j :: passwordLen <= j < password.Length ==> password[j] == old(password[j])
    {
      var index := FindIndex(password[i], cs);
      if index == -1 {
        StopAt(cs, before, password[..passwordLen], i, top, pad);
        return false;
      }
      index := index + 1;
      if index < |cs| {
        password[i] := cs[index];
        ResetTail(password, i + 1, passwordLen, cs[0]);
        BumpAt(cs, before, password[..passwordLen], i, top, pad);
        return true;
      }
      password[i] := cs[0];
      i := i - 1;
    }
    WrapAll(cs, before, password[..passwordLen], top, pad);
    return false;
  }
}
