/** The byte order `strcmp` compares C strings in, and how it relates to the
    index order of the keyspace. */
module ByteOrder {
  import opened Keyspace

  /** The sign of an integer: -1, 0 or 1. */
  function Sign(x: int): (r: int)
    ensures -1 <= r <= 1
    ensures r < 0 <==> x < 0
    ensures r == 0 <==> x == 0
  {
    if x < 0 then -1 else if x > 0 then 1 else 0
  }

  /** The comparison of two symbols by their codes. */
  function CompareSymbol(x: char, y: char): (r: int)
    ensures r == Sign(x as int - y as int)
  {
    if x < y then -1 else if x > y then 1 else 0
  }

  /** `strcmp` on two terminated strings, reported by sign: the first
      differing symbol decides, and a proper prefix sorts first. */
  function StrCmp(a: seq<char>, b: seq<char>): (r: int)
    ensures -1 <= r <= 1
    ensures r == 0 <==> a == b
  {
    if |a| == 0 || |b| == 0 then Sign(|a| - |b|)
    else if a[0] != b[0] then CompareSymbol(a[0], b[0])
    else
      var t := StrCmp(a[1..], b[1..]);
      assert a == [a[0]] + a[1..] && b == [b[0]] + b[1..];
      t
  }

  /** Swapping the operands flips the sign. */
  lemma {:induction false} StrCmpSwap(a: seq<char>, b: seq<char>)
    ensures StrCmp(b, a) == -StrCmp(a, b)
  {
    if |a| > 0 && |b| > 0 && a[0] == b[0] {
      StrCmpSwap(a[1..], b[1..]);
    }
  }

  /** For strings of one length, a last symbol decides only between equal
      prefixes. */
  lemma {:induction false} StrCmpSnoc(a: seq<char>, b: seq<char>, x: char, y: char)
    requires |a| == |b|
    ensures StrCmp(a + [x], b + [y]) == if a == b then CompareSymbol(x, y) else StrCmp(a, b)
  {
    if |a| > 0 {
      assert (a + [x])[1..] == a[1..] + [x];
      assert (b + [y])[1..] == b[1..] + [y];
      if a[0] == b[0] {
        StrCmpSnoc(a[1..], b[1..], x, y);
        assert a == [a[0]] + a[1..] && b == [b[0]] + b[1..];
      }
    }
  }

  /** In base `c`, a smaller quotient gives a smaller number whatever the
      last digits. */
  lemma DigitOrder(qj: nat, dj: nat, qk: nat, dk: nat, c: nat)
    requires dj < c && dk < c && qj < qk
    ensures qj * c + dj < qk * c + dk
  {
    MulSucc(qj, c);
    MulMonotone(qj + 1, qk, c);
  }

  /** Over a charset in ascending byte order, `strcmp` on two passwords of the
      keyspace has the sign of the difference of their indices. */
  lemma {:induction false} StrCmpDecode(cs: seq<char>, len: nat, j: nat, k: nat)
    requires |cs| > 0 && Ascending(cs)
    requires j < Pow(|cs|, len) && k < Pow(|cs|, len)
    ensures StrCmp(Decode(cs, len, j), Decode(cs, len, k)) == Sign(j - k)
  {
    if len > 0 {
      var c := |cs|;
      var qj, dj := Split(j, c);
      var qk, dk := Split(k, c);
      DecodeStep(cs, len, j, qj, dj);
      DecodeStep(cs, len, k, qk, dk);
      DivMod(qj, dj, c);
      DivMod(qk, dk, c);
      DivBound(j, c, Pow(c, len - 1));
      DivBound(k, c, Pow(c, len - 1));
      StrCmpDecode(cs, len - 1, qj, qk);
      StrCmpSnoc(Decode(cs, len - 1, qj), Decode(cs, len - 1, qk), cs[dj], cs[dk]);
      if qj < qk {
        DigitOrder(qj, dj, qk, dk, c);
      } else if qk < qj {
        DigitOrder(qk, dk, qj, dj, c);
      }
    }
  }

  /** Over a charset in ascending byte order, the end test of the worker,
      `strcmp(current, end) >= 0`, holds exactly from the end index on. */
  lemma EndTestAscending(cs: seq<char>, len: nat, k: nat, e: nat)
    requires |cs| > 0 && Ascending(cs)
    requires k < Pow(|cs|, len) && e < Pow(|cs|, len)
    ensures StrCmp(Decode(cs, len, k), Decode(cs, len, e)) >= 0 <==> k >= e
  {
    StrCmpDecode(cs, len, k, e);
  }

  /** Over the charset "ba", which is not in ascending byte order, the end
      test already holds at index 0 of a range that ends at index 1, so the
      password of index 1 is never hashed. */
  lemma EndTestStopsEarly()
    ensures StrCmp(Decode("ba", 1, 0), Decode("ba", 1, 1)) >= 0
    ensures Decode("ba", 1, 0) != Decode("ba", 1, 1)
  {
    assert Decode("ba", 1, 0) == "b";
    assert Decode("ba", 1, 1) == "a";
  }
}
