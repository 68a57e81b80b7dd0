/** Numbers written as big-endian digits, and the buffers in which a base conversion computes them. */
module Positional {
  import opened Numbers

  predicate Below(b: nat, s: seq<nat>) { forall i :: 0 <= i < |s| ==> s[i] < b }

  /** The number that digits stand for. */
  function Num(b: nat, s: seq<nat>): nat
  {
    if s == [] then 0 else s[0] * Pow(b, |s| - 1) + Num(b, s[1..])
  }

  lemma {:induction false} NumSnoc(b: nat, s: seq<nat>, x: nat)
    ensures Num(b, s + [x]) == Num(b, s) * b + x
  {
    if s == [] {
      assert s + [x] == [x] && [x][1..] == [];
    } else {
      NumSnoc(b, s[1..], x);
      assert (s + [x])[1..] == s[1..] + [x];
      SnocStep(s[0], Pow(b, |s| - 1), b, Num(b, s[1..]), x);
    }
  }

  lemma SnocStep(d: nat, p: nat, b: nat, v: nat, x: nat)
    ensures d * (b * p) + (v * b + x) == (d * p + v) * b + x
  {}

  lemma {:induction false} NumBound(b: nat, s: seq<nat>)
    requires Below(b, s)
    ensures Num(b, s) < Pow(b, |s|)
  {
    if s != [] {
      NumBound(b, s[1..]);
      TopDigit(s[0], b, Pow(b, |s| - 1), Num(b, s[1..]));
    }
  }

  lemma TopDigit(x: nat, b: nat, p: nat, v: nat)
    requires x < b && v < p
    ensures x * p + v < b * p
  {
    MulAtMost(x + 1, b, p);
  }

  /** Leading zeros do not count. */
  lemma {:induction false} NumZeros(b: nat, s: seq<nat>, k: nat)
    requires k <= |s| && forall i :: 0 <= i < k ==> s[i] == 0
    ensures Num(b, s) == Num(b, s[k..])
  {
    if k > 0 {
      NumZeros(b, s[1..], k - 1);
      assert s[1..][k - 1..] == s[k..];
    } else {
      assert s[0..] == s;
    }
  }

  /** One more digit after those of the quotient. */
  lemma DigitsSnoc(b: nat, v: nat, t: seq<nat>)
    requires b >= 2 && v > 0 && Below(b, t) && Num(b, t) == v / b && (t != [] ==> t[0] != 0)
    ensures Below(b, t + [v % b]) && Num(b, t + [v % b]) == v && (t + [v % b])[0] != 0
  {
    NumSnoc(b, t, v % b);
    DivMod(v, b);
  }

  lemma QuotientFalls(v: nat, b: nat)
    requires b >= 2 && v > 0
    ensures 0 <= v / b < v
  {
    QuotientBelow(v, b, v);
  }

  /** The digits of a number, without leading zeros. */
  function Digits(b: nat, v: nat): (s: seq<nat>)
    requires b >= 2
    ensures Below(b, s) && Num(b, s) == v && (s != [] ==> s[0] != 0)
  {
    if v == 0 then []
    else
      QuotientFalls(v, b);
      var t := Digits(b, v / b);
      DigitsSnoc(b, v, t);
      t + [v % b]
  }

  /** There is only one way to write a number without leading zeros. */
  lemma {:induction false} DigitsUnique(b: nat, s: seq<nat>)
    requires b >= 2 && Below(b, s) && (s != [] ==> s[0] != 0)
    ensures Digits(b, Num(b, s)) == s
  {
    if s != [] {
      var k := |s| - 1;
      DigitsUnique(b, s[..k]);
      assert s == s[..k] + [s[k]];
      NumSnoc(b, s[..k], s[k]);
      DivUnique(Num(b, s), b, Num(b, s[..k]), s[k]);
      NumPositive(b, s);
    }
  }

  lemma NumPositive(b: nat, s: seq<nat>)
    requires b > 0 && s != [] && s[0] != 0
    ensures Num(b, s) > 0
  {
    PowPositive(b, |s| - 1);
    MulAtLeast(s[0], Pow(b, |s| - 1));
  }

  // ---------------------------------------------------------------------------------------------
  // Multiplying and adding in a buffer
  // ---------------------------------------------------------------------------------------------

  function Up(x: nat, b: nat, i: nat): nat { x * Pow(b, i) }

  lemma SuffixStep(b: nat, s: seq<nat>, i: nat)
    requires i < |s|
    ensures Num(b, s[|s| - i - 1..]) == Up(s[|s| - i - 1], b, i) + Num(b, s[|s| - i..])
  {}

  function Times(v: nat, f: nat): nat { v * f }

  function Quo(t: nat, b: nat): nat
    requires b > 0
  {
    DivMod(t, b);
    t / b
  }

  function Rem(t: nat, b: nat): (r: nat)
    requires b > 0
    ensures r < b
  {
    t % b
  }

  /** One digit of the product: what stays and what is carried. */
  lemma Column(b: nat, i: nat, low: nat, carry: nat, rest: nat, f: nat, c: nat, x: nat)
    requires b > 0 && low + Up(carry, b, i) == Times(rest, f) + c
    ensures var t := carry + Times(x, f);
      low + Up(Rem(t, b), b, i) + Up(Quo(t, b), b, i + 1) == Times(Up(x, b, i) + rest, f) + c
  {
    var t, p := carry + f * x, Pow(b, i);
    DivMod(t, b);
    assert t % b * p + t / b * (b * p) == t * p by { Spread(t, b, t / b, t % b, p); }
    assert t * p == carry * p + x * p * f by { Product(carry, f, x, p); }
    assert (x * p + rest) * f == x * p * f + rest * f;
    assert Times(x, f) == f * x;
  }

  lemma Spread(t: nat, b: nat, q: nat, r: nat, p: nat)
    requires t == b * q + r
    ensures r * p + q * (b * p) == t * p
  {
    assert t * p == b * q * p + r * p;
    assert q * (b * p) == b * q * p;
  }

  lemma Product(carry: nat, f: nat, x: nat, p: nat)
    ensures (carry + f * x) * p == carry * p + x * p * f
  {
    assert (carry + f * x) * p == carry * p + f * x * p;
    assert f * x * p == x * p * f;
  }

  /** Replaces the number in a buffer by `f` times it plus `c`, touching only the `length` low digits and
      those the carry reaches. A number that fits leaves no carry. */
  method MulAdd(d: array<nat>, b: nat, f: nat, c: nat, length: nat) returns (used: nat)
    requires b >= 2 && Below(b, d[..]) && length <= d.Length
    requires forall k :: 0 <= k < d.Length - length ==> d[k] == 0
    requires Times(Num(b, d[..]), f) + c < Pow(b, d.Length)
    modifies d
    ensures Below(b, d[..]) && used <= d.Length && forall k :: 0 <= k < d.Length - used ==> d[k] == 0
    ensures Num(b, d[..]) == Times(old(Num(b, d[..])), f) + c
  {
    hide Num, Pow, Up, Times, Quo, Rem;
    var n := d.Length;
    ghost var a := d[..];
    var carry: nat, i := c, 0;
    Start(b, a, f, c);
    while (carry != 0 || i < length) && i < n
      invariant 0 <= i <= n && Below(b, d[..])
      invariant Num(b, d[n - i..]) + Up(carry, b, i) == Times(Num(b, a[n - i..]), f) + c
      invariant forall k :: 0 <= k < n - i ==> d[k] == a[k]
    {
      ghost var low := d[n - i..];
      var k := n - 1 - i;
      Column(b, i, Num(b, low), carry, Num(b, a[n - i..]), f, c, d[k]);
      carry := carry + Times(d[k], f);
      d[k] := Rem(carry, b);
      carry := Quo(carry, b);
      assert d[n - i..] == low;
      SuffixStep(b, d[..], i);
      SuffixStep(b, a, i);
      i := i + 1;
    }
    if i < n {
      Stopped(b, d[..], a, f, c, i);
    } else {
      assert d[0..] == d[..] && a[0..] == a;
      NoCarry(b, d[..], carry, Times(Num(b, a), f) + c);
    }
    assert carry == 0;
    used := i;
  }

  lemma Start(b: nat, a: seq<nat>, f: nat, c: nat)
    ensures Num(b, a[|a|..]) + Up(c, b, 0) == Times(Num(b, a[|a|..]), f) + c
  {}

  lemma NoCarry(b: nat, s: seq<nat>, carry: nat, total: nat)
    requires b > 0 && Num(b, s) + Up(carry, b, |s|) == total < Pow(b, |s|)
    ensures carry == 0 && Num(b, s) == total
  {
    if carry > 0 { MulAtLeast(carry, Pow(b, |s|)); }
  }

  /** When the loop stops early, the digits above were zero and stay so. */
  lemma Stopped(b: nat, d: seq<nat>, a: seq<nat>, f: nat, c: nat, i: nat)
    requires i <= |d| == |a| && forall k :: 0 <= k < |a| - i ==> d[k] == a[k] == 0
    requires Num(b, d[|a| - i..]) + Up(0, b, i) == Times(Num(b, a[|a| - i..]), f) + c
    ensures Num(b, d) == Times(Num(b, a), f) + c
  {
    hide Num, Pow, Times, Up;
    NumZeros(b, d, |a| - i);
    NumZeros(b, a, |a| - i);
    UpZero(b, i);
  }

  lemma UpZero(b: nat, i: nat)
    ensures Up(0, b, i) == 0
  {}

  // ---------------------------------------------------------------------------------------------
  // Capacity
  // ---------------------------------------------------------------------------------------------

  lemma {:induction false} PowLess(x: nat, y: nat, n: nat)
    requires x < y && n > 0
    ensures Pow(x, n) < Pow(y, n)
  {
    if n > 1 {
      PowLess(x, y, n - 1);
      MulAtMost(Pow(x, n - 1), Pow(y, n - 1), x);
      PowPositive(y, n - 1);
      assert (x + 1) * Pow(y, n - 1) <= y * Pow(y, n - 1) by { MulAtMost(x + 1, y, Pow(y, n - 1)); }
    }
  }

  lemma {:induction false} PowBase(x: nat, y: nat, n: nat)
    requires x <= y
    ensures Pow(x, n) <= Pow(y, n)
  {
    if x < y && n > 0 { PowLess(x, y, n); }
  }

  /** If `p` digits to base `b` are worth no more than `q` to base `c`, then so are `n` digits and any
      number of digits in a larger proportion. */
  lemma Capacity(b: nat, c: nat, p: nat, q: nat, n: nat, size: nat)
    requires c > 0 && p > 0 && Pow(b, p) <= Pow(c, q) && q * n <= p * size
    ensures Pow(b, n) <= Pow(c, size)
  {
    hide Pow;
    PowSwap(b, n, p);
    PowBase(Pow(b, p), Pow(c, q), n);
    PowerOrder(c, q, n, p, size);
    if Pow(c, size) < Pow(b, n) { PowLess(Pow(c, size), Pow(b, n), p); }
  }

  lemma PowerOrder(c: nat, q: nat, n: nat, p: nat, size: nat)
    requires c > 0 && q * n <= p * size
    ensures Pow(Pow(c, q), n) <= Pow(Pow(c, size), p)
  {
    hide Pow;
    PowOfPow(c, q, n);
    PowGrows(c, q * n, p * size);
    PowSwap(c, size, p);
    PowOfPow(c, p, size);
  }

  lemma PowSwap(b: nat, m: nat, n: nat)
    ensures Pow(Pow(b, m), n) == Pow(Pow(b, n), m)
  {
    PowOfPow(b, m, n);
    PowOfPow(b, n, m);
    assert m * n == n * m;
  }

  lemma Product2(b: nat, m: nat, x: nat, n: nat, y: nat)
    requires Pow(b, m) == x && Pow(b, n) == y
    ensures Pow(b, m + n) == x * y
  {
    PowAdd(b, m, n);
  }

  lemma Pow58Of71()
    ensures Pow(58, 71) <= Pow(256, 52)
  {
    hide Pow;
    var p1, p2, p4 := 58, 3364, 11316496;
    var p8 := p4 * p4;
    var p16 := p8 * p8;
    var p32 := p16 * p16;
    One(58);
    Product2(58, 1, p1, 1, p1);
    Product2(58, 2, p2, 2, p2);
    Product2(58, 4, p4, 4, p4);
    Product2(58, 8, p8, 8, p8);
    Product2(58, 16, p16, 16, p16);
    Product2(58, 32, p32, 32, p32);
    Product2(58, 64, p32 * p32, 4, p4);
    Product2(58, 68, p32 * p32 * p4, 2, p2);
    Product2(58, 70, p32 * p32 * p4 * p2, 1, p1);
    var q1 := 256;
    var q2 := q1 * q1;
    var q4 := q2 * q2;
    var q8 := q4 * q4;
    var q16 := q8 * q8;
    One(256);
    Product2(256, 1, q1, 1, q1);
    Product2(256, 2, q2, 2, q2);
    Product2(256, 4, q4, 4, q4);
    Product2(256, 8, q8, 8, q8);
    Product2(256, 16, q16, 16, q16);
    Product2(256, 32, q16 * q16, 16, q16);
    Product2(256, 48, q16 * q16 * q16, 4, q4);
    assert p32 * p32 * p4 * p2 * p1 <= q16 * q16 * q16 * q4;
  }

  lemma One(b: nat)
    ensures Pow(b, 1) == b
  {}

  lemma Pow256Of8()
    ensures Pow(256, 8) <= Pow(58, 11)
  {
    PowAdd(58, 1, 1);
    PowAdd(58, 2, 2);
    PowAdd(58, 4, 4);
    PowAdd(58, 8, 2);
    PowAdd(58, 10, 1);
    PowAdd(256, 1, 1);
    PowAdd(256, 2, 2);
    PowAdd(256, 4, 4);
  }
}
