/** Unsigned integers of any fixed width, as little-endian arrays of 32-bit limbs updated in place. */
module ArithUint {
  import opened Numbers

  const BASE := 0x1_0000_0000
  const WORD64 := 0x1_0000_0000_0000_0000

  type Limb = x: int | 0 <= x < BASE

  // ---------------------------------------------------------------------------------------------
  // The number that limbs stand for
  // ---------------------------------------------------------------------------------------------

  function Unit(i: nat): (r: nat)
    ensures r > 0
  {
    PowPositive(BASE, i);
    Pow(BASE, i)
  }

  /** A number moved up by whole limbs. */
  function Up(x: nat, i: nat): nat { x * Unit(i) }

  function Val(s: seq<Limb>): nat
  {
    if s == [] then 0 else Val(s[..|s| - 1]) + Up(s[|s| - 1], |s| - 1)
  }

  /** What `n` limbs hold of a number: the number modulo the word size. */
  function Mod(v: nat, n: nat): nat { v % Unit(n) }

  lemma ValNone(s: seq<Limb>)
    ensures Val(s[..0]) == 0 && s[..|s|] == s && Up(0, 0) == 0 && Unit(0) == 1
  {}

  lemma ValStep(s: seq<Limb>, i: nat)
    requires i < |s|
    ensures Val(s[..i + 1]) == Val(s[..i]) + Up(s[i], i)
  {
    assert s[..i + 1][..i] == s[..i];
  }

  lemma UpBound(x: nat, i: nat)
    requires x < BASE
    ensures Up(x, i) + Unit(i) <= Unit(i + 1)
  {
    MulAtMost(x + 1, BASE, Unit(i));
  }

  lemma {:induction false} ValBound(s: seq<Limb>)
    ensures Val(s) < Unit(|s|)
  {
    hide Up, Unit;
    if s == [] {
      ValNone(s);
    } else {
      var i := |s| - 1;
      ValBound(s[..i]);
      UpBound(s[i], i);
    }
  }

  /** Limbs that agree from a place on differ in value as the limbs below it do. */
  lemma {:induction false} ValSuffix(a: seq<Limb>, b: seq<Limb>, i: nat)
    requires |a| == |b| && i <= |a| && forall k :: i <= k < |a| ==> a[k] == b[k]
    ensures Val(a) - Val(b) == Val(a[..i]) - Val(b[..i])
  {
    var n := |a|;
    if i < n {
      ValSuffix(a[..n - 1], b[..n - 1], i);
      assert a[..n - 1][..i] == a[..i] && b[..n - 1][..i] == b[..i];
    } else {
      assert a[..i] == a && b[..i] == b;
    }
  }

  lemma {:induction false} ValSplit(s: seq<Limb>, k: nat)
    requires k <= |s|
    ensures Val(s) == Val(s[..k]) + Up(Val(s[k..]), k)
  {
    hide Up;
    var n := |s|;
    if k < n {
      ValSplit(s[..n - 1], k);
      assert s[..n - 1][..k] == s[..k] && s[..n - 1][k..] == s[k..][..n - 1 - k];
      assert s[k..][n - 1 - k] == s[n - 1];
      UpSum(Val(s[k..][..n - 1 - k]), Up(s[n - 1], n - 1 - k), k);
      UpUp(s[n - 1], n - 1 - k, k);
    } else {
      assert s[..k] == s && s[k..] == [];
      UpUnit(k);
    }
  }

  lemma {:induction false} ValZero(s: seq<Limb>)
    ensures Val(s) == 0 <==> forall i :: 0 <= i < |s| ==> s[i] == 0
  {
    if s != [] {
      var i := |s| - 1;
      ValZero(s[..i]);
      assert s[i] != 0 ==> s[i] * Unit(i) > 0;
    }
  }

  // ---------------------------------------------------------------------------------------------
  // Bitwise or
  // ---------------------------------------------------------------------------------------------

  function Or(x: nat, y: nat): nat
  {
    if x == 0 && y == 0 then 0
    else (if x % 2 == 1 || y % 2 == 1 then 1 else 0) + 2 * Or(x / 2, y / 2)
  }

  lemma {:induction false} OrZero(x: nat)
    ensures Or(0, x) == x
  {
    if x > 0 { OrZero(x / 2); }
  }

  /** Numbers without a common bit add up. */
  lemma {:induction false} OrIsSum(x: nat, q: nat, s: nat)
    requires x < Pow(2, s)
    ensures Or(x, q * Pow(2, s)) == x + q * Pow(2, s)
    decreases s
  {
    var y := q * Pow(2, s);
    if s == 0 {
      OrZero(q);
    } else {
      assert y == 2 * (q * Pow(2, s - 1));
      OrIsSum(x / 2, q, s - 1);
    }
  }

  lemma {:induction false} OrSymmetric(x: nat, y: nat)
    ensures Or(x, y) == Or(y, x)
  {
    if x != 0 || y != 0 { OrSymmetric(x / 2, y / 2); }
  }

  // ---------------------------------------------------------------------------------------------
  // Steps of the loops
  // ---------------------------------------------------------------------------------------------

  /** One column of a sum or product: the limb kept and the carry stand for the whole column. */
  lemma Column(i: nat, low: nat, carry: nat, rest: nat, limb: nat, carry2: nat, column: nat)
    requires low + Up(carry, i) == rest && limb + BASE * carry2 == carry + column
    ensures low + Up(limb, i) + Up(carry2, i + 1) == rest + Up(column, i)
  {
    var u := Unit(i);
    assert limb * u + carry2 * (BASE * u) == (limb + BASE * carry2) * u;
    assert (carry + column) * u == carry * u + column * u;
  }

  lemma UpSum(x: nat, y: nat, i: nat)
    ensures Up(x + y, i) == Up(x, i) + Up(y, i)
  {}

  lemma UpFull(x: nat, i: nat)
    requires x < BASE
    ensures Up(BASE - 1 - x, i) + Up(x, i) + Unit(i) == Unit(i + 1)
  {}

  lemma UpUnit(i: nat)
    ensures Up(0, i) == 0 && Up(1, i) == Unit(i)
  {}

  /** One column of a decrement. */
  lemma Borrow(i: nat, low: nat, rest: nat, limb: nat, borrow: nat, x: nat)
    requires low + 1 == rest + Up(1, i)
    requires limb + 1 == x + BASE * borrow
    ensures low + Up(limb, i) + 1 == rest + Up(x, i) + Up(borrow, i + 1)
  {
    var u := Unit(i);
    assert limb * u + u == x * u + borrow * (BASE * u);
  }

  function Times(x: nat, y: nat): nat { x * y }

  lemma TimesBound(x: Limb, y: Limb)
    ensures Times(x, y) <= (BASE - 1) * (BASE - 1)
  {
    MulAtMost(x, BASE - 1, y);
    MulAtMost(y, BASE - 1, BASE - 1);
  }

  lemma TimesLaws(v: nat, x: nat, y: nat, i: nat)
    ensures Times(v + Up(x, i), y) == Times(v, y) + Up(Times(x, y), i)
    ensures Times(0, y) == 0
  {}

  lemma UpUp(x: nat, i: nat, j: nat)
    ensures Up(Up(x, i), j) == Up(x, i + j)
  {
    PowAdd(BASE, i, j);
    MulAssoc(x, Unit(i), Unit(j));
  }

  /** One more limb of the second factor in a row of a long multiplication. */
  lemma RowStep(x: nat, v: nat, y: nat, i: nat, j: nat)
    ensures Up(Times(x, v + Up(y, i)), j) == Up(Times(x, v), j) + Up(Times(x, y), i + j)
  {
    hide Unit;
    assert x * (v + y * Unit(i)) == x * v + x * y * Unit(i) by { MulAssoc(x, y, Unit(i)); }
    UpSum(x * v, Up(x * y, i), j);
    UpUp(x * y, i, j);
  }

  /** The limbs of the second factor that a row leaves out only count beyond the top. */
  lemma RowEnd(x: nat, c: seq<Limb>, j: nat)
    requires j <= |c|
    ensures Up(Times(x, Val(c)), j)
         == Up(Times(x, Val(c[..|c| - j])), j) + Up(Times(x, Val(c[|c| - j..])), |c|)
  {
    hide Val, Up, Times;
    ValSplit(c, |c| - j);
    RowStep(x, Val(c[..|c| - j]), Val(c[|c| - j..]), |c| - j, j);
  }

  lemma TimesSwap(x: nat, y: nat)
    ensures Times(x, y) == Times(y, x)
  {}

  lemma TimesIsProduct(x: nat, y: nat)
    ensures Times(x, y) == x * y
  {}

  lemma SumModulo(x: nat, y: nat, n: nat)
    ensures Mod(x + Mod(y, n), n) == Mod(x + y, n)
  {
    var m := Unit(n);
    DivMod(y, m);
    DivMod(x + y % m, m);
    var q := (x + y % m) / m;
    assert x + y == (q + y / m) * m + (x + y % m) % m;
    DivUnique(x + y, m, q + y / m, (x + y % m) % m);
  }

  /** What a carry out of the top limb means. */
  lemma CarryOut(s: seq<Limb>, carry: nat, total: nat)
    requires Val(s) + Up(carry, |s|) == total
    ensures Val(s) == Mod(total, |s|)
  {
    ValBound(s);
    DivUnique(total, Unit(|s|), carry, Val(s));
  }

  // ---------------------------------------------------------------------------------------------
  // Comparison and bits
  // ---------------------------------------------------------------------------------------------

  /** The highest limb that differs decides. */
  lemma LimbDecides(a: seq<Limb>, b: seq<Limb>, i: nat)
    requires |a| == |b| && i < |a| && a[i] < b[i] && forall k :: i < k < |a| ==> a[k] == b[k]
    ensures Val(a) < Val(b)
  {
    hide Val, Unit, Up;
    ValSuffix(a, b, i + 1);
    ValStep(a, i);
    ValStep(b, i);
    ValBound(a[..i]);
    UpLess(a[i], b[i], i);
  }

  lemma UpLess(x: nat, y: nat, i: nat)
    requires x < y
    ensures Up(x, i) + Unit(i) <= Up(y, i)
  {
    MulAtMost(x + 1, y, Unit(i));
  }

  /** `n` is the number of bits of `v`. */
  predicate IsBits(v: nat, n: nat) { if n == 0 then v == 0 else Pow(2, n - 1) <= v < Pow(2, n) }

  lemma UnitIsPow2(i: nat)
    ensures Unit(i) == Pow(2, 32 * i)
  {
    Pow2Of32();
    PowOfPow(2, 32, i);
  }

  lemma UpPow2(bits: nat, i: nat)
    ensures Up(Pow(2, bits), i) == Pow(2, 32 * i + bits)
  {
    hide Pow, Unit;
    UnitIsPow2(i);
    PowAdd(2, bits, 32 * i);
  }

  lemma HighBit(x: nat, bits: nat)
    requires x < Pow(2, bits + 1)
    ensures Pow(2, bits) > 0 && (x / Pow(2, bits) % 2 == 1 <==> x >= Pow(2, bits))
    ensures bits == 0 ==> Pow(2, bits) == 1
  {
    PowPositive(2, bits);
    if x >= Pow(2, bits) { DivUnique(x, Pow(2, bits), 1, x - Pow(2, bits)); }
  }

  lemma LimbBits(a: seq<Limb>, i: nat, bits: nat)
    requires i < |a| && IsBits(a[i], bits + 1) && forall k :: i < k < |a| ==> a[k] == 0
    ensures IsBits(Val(a), 32 * i + bits + 1)
  {
    hide Val, Unit, Up, Pow;
    var zeros: seq<Limb> := seq(|a|, k => 0);
    ValZero(zeros);
    ValZero(zeros[..i + 1]);
    ValSuffix(a, zeros, i + 1);
    ValStep(a, i);
    ValBound(a[..i]);
    UpPow2(bits, i);
    UpPow2(bits + 1, i);
    if Pow(2, bits) < a[i] { UpLess(Pow(2, bits), a[i], i); }
    UpLess(a[i], Pow(2, bits + 1), i);
  }

  // ---------------------------------------------------------------------------------------------
  // Shifts within a limb
  // ---------------------------------------------------------------------------------------------

  /** What a limb shifted left leaves in place, and what it hands to the limb above. */
  function Keep(x: nat, s: nat): nat { x * Pow(2, s) % BASE }
  function Spill(x: nat, s: nat): nat
    requires s < 32
  {
    PowPositive(2, 32 - s);
    if s == 0 then 0 else x / Pow(2, 32 - s)
  }

  lemma Pow2Word(s: nat)
    requires s <= 32
    ensures Pow(2, s) * Pow(2, 32 - s) == BASE && Pow(2, s) > 0 && Pow(2, 32 - s) > 0
  {
    Pow2Of32();
    PowAdd(2, s, 32 - s);
    PowPositive(2, s);
    PowPositive(2, 32 - s);
  }

  /** The low bits of a limb, moved to the top. */
  lemma KeepIs(x: Limb, s: nat)
    requires s < 32 && Pow(2, 32 - s) > 0
    ensures Keep(x, s) == x % Pow(2, 32 - s) * Pow(2, s)
    ensures Keep(x, s) + BASE * (x / Pow(2, 32 - s)) == Pow(2, s) * x
    ensures Keep(x, s) + Pow(2, s) <= BASE
  {
    hide Pow;
    Pow2Word(s);
    var d := Pow(2, 32 - s);
    DivMod(x, d);
    KeepSplit(Pow(2, s), d, x / d, x % d, x);
  }

  lemma KeepSplit(p: nat, d: nat, q: nat, r: nat, x: nat)
    requires p * d == BASE && x == d * q + r && r < d
    ensures x * p % BASE == r * p && r * p + p <= BASE && r * p + BASE * q == p * x && p > 0
  {
    Distribute(p, d, q, r, x);
    MulAtMost(r + 1, d, p);
    DivUnique(x * p, BASE, q, r * p);
  }

  lemma Distribute(p: nat, d: nat, q: nat, r: nat, x: nat)
    requires x == d * q + r
    ensures x * p == q * (p * d) + r * p
  {
    assert x * p == d * q * p + r * p;
    assert d * q * p == q * (p * d);
  }

  lemma LeftLimb(x: Limb, s: nat, h: nat)
    requires s < 32 && h < Pow(2, s)
    ensures Or(h, Keep(x, s)) == h + Keep(x, s) < BASE
    ensures h + Keep(x, s) + BASE * Spill(x, s) == h + Times(Pow(2, s), x)
    ensures Spill(x, s) < Pow(2, s) && Spill(x, s) <= x && Or(0, Spill(x, s)) == Spill(x, s)
  {
    OrZero(Spill(x, s));
    Pow2Word(s);
    KeepIs(x, s);
    OrIsSum(h, x % Pow(2, 32 - s), s);
    if s == 0 {
      Pow2Of32();
    } else {
      DivMod(x, Pow(2, 32 - s));
      DivAtMost(x, Pow(2, 32 - s));
      var q := x / Pow(2, 32 - s);
      if q >= Pow(2, s) { MulAtMost(Pow(2, s), q, Pow(2, 32 - s)); }
    }
  }

  /** The two parts of a limb shifted right. */
  function High(x: nat, s: nat): nat { PowPositive(2, s); x / Pow(2, s) }
  function Low(x: nat, s: nat): nat { PowPositive(2, s); x % Pow(2, s) }

  /** Where they go. */
  lemma RightLimb(x: Limb, s: nat, u: nat)
    requires s < 32 && u < Pow(2, 32 - s)
    ensures s > 0 ==> Or(u, Keep(x, 32 - s)) == u + Keep(x, 32 - s) < BASE
    ensures s > 0 ==> Times(Pow(2, s), Keep(x, 32 - s)) == Low(x, s) * BASE
    ensures x == Times(Pow(2, s), High(x, s)) + Low(x, s) && Low(x, s) < Pow(2, s)
    ensures High(x, s) < Pow(2, 32 - s) <= BASE && Or(0, High(x, s)) == High(x, s)
  {
    hide Pow;
    Pow2Word(s);
    OrZero(High(x, s));
    var p, d := Pow(2, s), Pow(2, 32 - s);
    DivMod(x, p);
    if x / p >= d { MulAtMost(d, x / p, p); }
    MulAtLeast(p, d);
    if s > 0 {
      KeepIs(x, 32 - s);
      OrIsSum(u, x % p, 32 - s);
      var r := x % p;
      assert p * (r * d) == r * (p * d) by { MulAssoc(p, r, d); MulAssoc(r, p, d); }
    }
  }

  /** A right shift is a division: the limbs kept, the part dropped. */
  lemma RightEnd(s: nat, k: nat, v: nat, q: nat, r: nat)
    requires v == Up(Times(Pow(2, s), q), k) + r && r < Up(Pow(2, s), k)
    ensures q == High(v, 32 * k + s)
  {
    hide Pow, Unit;
    UnitIsPow2(k);
    PowAdd(2, s, 32 * k);
    PowPositive(2, 32 * k + s);
    Regroup(q, Pow(2, s), Unit(k));
    DivUnique(v, Pow(2, 32 * k + s), q, r);
  }

  lemma Regroup(q: nat, p: nat, u: nat)
    ensures p * q * u == q * (p * u)
  {}

  function Shifted(v: nat, amount: nat): nat { v * Pow(2, amount) }

  lemma ShiftStart(zeros: seq<Limb>, v: seq<Limb>, s: nat, k: nat)
    requires forall i :: 0 <= i < |zeros| ==> zeros[i] == 0
    requires |zeros| == |v|
    ensures LeftSoFar(zeros, v, s, k, 0, 0)
  {
    var p := Pow(2, s);
    PowPositive(2, s);
    if k <= |zeros| { ValZero(zeros[..k]); }
    ValNone(v);
    UpUnit(k);
    TimesSwap(p, 0);
    TimesLaws(0, 0, p, 0);
  }

  /** A left shift after `i` limbs: the limbs below `i + k` are done and the next one holds `h`, which
      the limb below has handed up. */
  ghost predicate LeftSoFar(t: seq<Limb>, v: seq<Limb>, s: nat, k: nat, i: nat, h: nat)
  {
    var n := |t|;
    var m := if i + k <= n then i else n - k;
    && |v| == n && i <= n && h < Pow(2, s)
    && (if k > n then forall j :: 0 <= j < n ==> t[j] == 0
        else
          && Val(t[..m + k]) + Up(h, m + k) == Up(Times(Pow(2, s), Val(v[..m])), k)
          && (m + k < n ==> t[m + k] == h)
          && forall j :: m + k < j < n ==> t[j] == 0)
  }

  /** One more limb shifted left. */
  lemma LeftStep(t: seq<Limb>, t2: seq<Limb>, v: seq<Limb>, s: nat, k: nat, i: nat, h: nat)
    requires LeftSoFar(t, v, s, k, i, h) && i < |t| == |t2| && s < 32
    requires i + k >= |t| ==> t2 == t
    requires i + k < |t| ==> t2[..i + k] == t[..i + k] && t2[i + k] == h + Keep(v[i], s)
    requires i + k + 1 < |t| ==> t2[i + k + 1] == Spill(v[i], s)
    requires forall j :: i + k + 1 < j < |t| ==> t2[j] == t[j]
    ensures LeftSoFar(t2, v, s, k, i + 1, if i + k < |t| then Spill(v[i], s) else h)
  {
    hide Val, Unit, Up, Times, Pow, Or, Keep, Spill;
    if i + k < |t| {
      var p, x := Pow(2, s), v[i];
      LeftLimb(x, s, h);
      Column(i + k, Val(t2[..i + k]), h, Up(Times(p, Val(v[..i])), k), t2[i + k], Spill(x, s), Times(p, x));
      RowStep(p, Val(v[..i]), x, i, k);
      ValStep(t2, i + k);
      ValStep(v, i);
    }
  }

  /** The limbs that the next step changes have room for the bits added to them. */
  lemma LeftNext(t: seq<Limb>, v: seq<Limb>, s: nat, k: nat, i: nat, h: nat)
    requires LeftSoFar(t, v, s, k, i, h) && i < |t| && s < 32
    ensures i + k < |t| ==> Or(t[i + k], Keep(v[i], s)) == h + Keep(v[i], s) < BASE
    ensures i + k + 1 < |t| ==> t[i + k + 1] == 0 && Or(0, Spill(v[i], s)) == Spill(v[i], s) < BASE
    ensures Spill(v[i], 0) == 0
  {
    hide Val, Unit, Up, Times, Pow, Or, Keep;
    LeftLimb(v[i], s, h);
  }

  lemma LeftDone(t: seq<Limb>, v: seq<Limb>, s: nat, k: nat, h: nat)
    requires LeftSoFar(t, v, s, k, |t|, h)
    ensures |v| == |t|
    ensures k <= |t| ==> Val(t) + Up(h, |t|) == Up(Times(Pow(2, s), Val(v[..|t| - k])), k)
    ensures k > |t| ==> Val(t) == 0
  {
    hide Val, Unit, Up, Times, Pow;
    assert t[..|t|] == t;
    if k > |t| { ValZero(t); }
  }

  /** What was shifted out of the top is a multiple of the modulus. */
  lemma ShiftEnd(s: seq<Limb>, v: seq<Limb>, shift: nat, k: nat, h: nat)
    requires shift < 32 && LeftSoFar(s, v, shift, k, |s|, h)
    ensures Val(s) == Mod(Shifted(Val(v), 32 * k + shift), |s|)
  {
    hide Mod, Val, Unit, Up, Times, Pow, Shifted, LeftSoFar;
    LeftDone(s, v, shift, k, h);
    var n, p := |s|, Pow(2, shift);
    ShiftIsPower(Val(v), shift, k);
    if k <= n {
      RowEnd(p, v, k);
      UpSum(h, Times(p, Val(v[n - k..])), n);
      CarryOut(s, h + Times(p, Val(v[n - k..])), Up(Times(p, Val(v)), k));
    } else {
      UpUp(Times(p, Val(v)), k - n, n);
      CarryOut(s, Up(Times(p, Val(v)), k - n), Up(Times(p, Val(v)), k));
    }
  }

  lemma ShiftIsPower(v: nat, s: nat, k: nat)
    ensures Up(Times(Pow(2, s), v), k) == Shifted(v, 32 * k + s)
  {
    hide Pow, Unit;
    UnitIsPow2(k);
    PowAdd(2, s, 32 * k);
    Regroup(v, Pow(2, s), Unit(k));
  }

  function Lift(x: nat, s: nat): nat
    requires s < 32
  {
    if s == 0 then 0 else Keep(x, 32 - s)
  }

  /** The first limb kept by a right shift: its low bits are dropped. */
  lemma RightFirst(t: seq<Limb>, v: seq<Limb>, s: nat, k: nat) returns (r: nat)
    requires k < |v| && |t| > 0 && s < 32 && t[0] == High(v[k], s)
    ensures Val(v[..k + 1]) == Up(Times(Pow(2, s), Val(t[..1])), k) + r && r < Up(Pow(2, s), k)
  {
    hide Val, Unit, Up, Times, Pow, Or, Keep, High, Low;
    var p, x := Pow(2, s), v[k];
    Pow2Word(s);
    RightLimb(x, s, 0);
    r := Val(v[..k]) + Up(Low(x, s), k);
    ValStep(v, k);
    ValStep(t, 0);
    ValNone(t);
    ValBound(v[..k]);
    UpLow(High(x, s), 0);
    UpUnit(1);
    UpSum(Times(p, High(x, s)), Low(x, s), k);
    UpLess(Low(x, s), p, k);
  }

  /** One more limb shifted right. */
  lemma RightStep(b: seq<Limb>, t: seq<Limb>, v: seq<Limb>, s: nat, k: nat, i: nat, r: nat)
    requires k < i < |v| && |t| == |b| == |v| && s < 32
    requires b[i - k - 1] < Pow(2, 32 - s)
    requires t[..i - k - 1] == b[..i - k - 1] && t[i - k - 1] == b[i - k - 1] + Lift(v[i], s)
    requires t[i - k] == High(v[i], s)
    requires Val(v[..i]) == Up(Times(Pow(2, s), Val(b[..i - k])), k) + r
    ensures Val(v[..i + 1]) == Up(Times(Pow(2, s), Val(t[..i - k + 1])), k) + r
  {
    hide Val, Unit, Up, Times, Pow, Or, Keep, High, Low;
    var p, x, j := Pow(2, s), v[i], i - k;
    var u, w, hi := High(x, s), Low(x, s), Lift(x, s);
    RightLimb(x, s, b[j - 1]);
    ValStep(v, i);
    ValStep(t, j);
    ValStep(t, j - 1);
    ValStep(b, j - 1);
    UpSum(b[j - 1], hi, j - 1);
    assert Val(t[..j + 1]) == Val(b[..j]) + Up(hi, j - 1) + Up(u, j);
    RowStep(p, Val(b[..j]), hi, j - 1, k);
    RowStep(p, Val(b[..j]) + Up(hi, j - 1), u, j, k);
    LiftedBits(x, s, i);
    UpSum(Times(p, u), w, i);
  }

  lemma LiftedBits(x: Limb, s: nat, i: nat)
    requires s < 32 && i > 0
    ensures Up(Times(Pow(2, s), Lift(x, s)), i - 1) == Up(Low(x, s), i)
  {
    hide Or, Unit, Keep;
    Pow2Word(s);
    RightLimb(x, s, 0);
    if s == 0 {
      assert Pow(2, 0) == 1 && x % 1 == 0;
      UpUnit(i);
      UpUnit(i - 1);
    } else {
      UpUp(Low(x, s), 1, i - 1);
      assert Up(Low(x, s), 1) == Low(x, s) * BASE by { UpLow(0, Low(x, s)); UpUnit(0); }
    }
  }

  lemma RightDone(t: seq<Limb>, v: seq<Limb>, s: nat, k: nat, r: nat)
    requires |t| == |v| && s < 32
    requires |v| > k ==> Val(v) == Up(Times(Pow(2, s), Val(t[..|v| - k])), k) + r && r < Up(Pow(2, s), k)
    requires forall j :: 0 <= j < |t| && j >= |v| - k ==> t[j] == 0
    ensures Val(t) == High(Val(v), 32 * k + s)
  {
    hide Val, Unit, Up, Times, Pow;
    var zeros: seq<Limb> := seq(|t|, i => 0);
    var m := if |v| > k then |v| - k else 0;
    ValZero(zeros);
    ValZero(zeros[..m]);
    ValSuffix(t, zeros, m);
    if |v| > k {
      RightEnd(s, k, Val(v), Val(t), r);
    } else {
      ValNone(t);
      ValBound(v);
      UpUnit(k);
      PowPositive(2, s);
      UpLess(0, Pow(2, s), k);
      TimesSwap(Pow(2, s), 0);
      TimesLaws(0, 0, Pow(2, s), 0);
      UnitGrows(|v|, k);
      RightEnd(s, k, Val(v), 0, Val(v));
    }
  }

  lemma UnitGrows(i: nat, j: nat)
    requires i <= j
    ensures Unit(i) <= Unit(j)
  {
    PowGrows(BASE, i, j);
  }

  // ---------------------------------------------------------------------------------------------
  // Long division
  // ---------------------------------------------------------------------------------------------

  lemma ModSmall(v: nat, n: nat)
    requires v < Unit(n)
    ensures Mod(v, n) == v && Mod(v + Unit(n), n) == v
  {
    DivUnique(v, Unit(n), 0, v);
    DivUnique(v + Unit(n), Unit(n), 1, v);
  }

  lemma ShiftedLaws(d: nat, s: nat)
    ensures Shifted(d, 0) == d && Shifted(d, s + 1) == 2 * Shifted(d, s)
    ensures Pow(2, 1) == 2
  {
    assert Pow(2, s + 1) == 2 * Pow(2, s);
    assert d * (2 * Pow(2, s)) == 2 * (d * Pow(2, s));
  }

  /** Aligning the divisor with the number: it stays within the word and its double exceeds the number. */
  lemma Align(num: nat, d: nat, numBits: nat, dBits: nat, n: nat)
    requires IsBits(num, numBits) && IsBits(d, dBits) && 0 < dBits <= numBits && num < Unit(n)
    ensures numBits <= 32 * n
    ensures Shifted(d, numBits - dBits) < Unit(n) && num < Shifted(d, numBits - dBits + 1)
  {
    hide Unit, Pow;
    UnitIsPow2(n);
    if numBits > 32 * n { PowGrows(2, 32 * n, numBits - 1); }
    PowGrows(2, numBits, 32 * n);
    var s := numBits - dBits;
    PowAdd(2, dBits, s);
    PowAdd(2, dBits - 1, s + 1);
    PowPositive(2, s);
    MulAtMost(d + 1, Pow(2, dBits), Pow(2, s));
    MulAtMost(Pow(2, dBits - 1), d, Pow(2, s + 1));
  }

  /** No bit below `c` is set. */
  ghost predicate LowClear(t: seq<Limb>, c: nat)
  {
    && (forall j :: 0 <= j < c / 32 && j < |t| ==> t[j] == 0)
    && (c / 32 < |t| ==> Low(t[c / 32], c % 32) == 0)
  }

  lemma LowSmaller(x: nat, e: nat)
    requires Low(x, e + 1) == 0
    ensures Low(x, e) == 0 && Low(x + Pow(2, e), e) == 0
  {
    PowPositive(2, e);
    PowPositive(2, e + 1);
    DivMod(x, Pow(2, e + 1));
    var q := x / Pow(2, e + 1);
    assert x == 2 * q * Pow(2, e);
    DivUnique(x, Pow(2, e), 2 * q, 0);
    DivUnique(x + Pow(2, e), Pow(2, e), 2 * q + 1, 0);
  }

  lemma LowZero(e: nat)
    ensures Low(0, e) == 0 && Low(Pow(2, e), e) == 0
  {
    PowPositive(2, e);
    DivUnique(Pow(2, e), Pow(2, e), 1, 0);
    DivUnique(0, Pow(2, e), 0, 0);
  }

  /** A limb whose low bits are clear has room for the next bit down. */
  lemma OrBit(x: Limb, e: nat)
    requires e < 32 && (if e == 31 then x == 0 else Low(x, e + 1) == 0)
    ensures Or(x, Pow(2, e)) == x + Pow(2, e) < BASE
    ensures Low(x, e) == 0 && Low(x + Pow(2, e), e) == 0
  {
    hide Pow, Or;
    Pow2Word(e + 1);
    PowPositive(2, e);
    assert Pow(2, e + 1) == 2 * Pow(2, e) by { PowAdd(2, e, 1); ShiftedLaws(1, 0); }
    if e == 31 {
      OrZero(Pow(2, e));
      LowZero(e);
      MulAtLeast(Pow(2, 32 - 32), Pow(2, 32));
    } else {
      LowSmaller(x, e);
      var d, q := Pow(2, e + 1), High(x, e + 1);
      DivMod(x, d);
      OrIsSum(Pow(2, e), q, e + 1);
      OrSymmetric(x, Pow(2, e));
      RoomAbove(x, q, d, Pow(2, 31 - e));
    }
  }

  lemma RoomAbove(x: nat, q: nat, d: nat, w: nat)
    requires x == q * d && x < d * w
    ensures x + d <= d * w
  {
    if q >= w { MulAtMost(w, q, d); }
    MulAtMost(q + 1, w, d);
  }

  lemma SetBit(t: seq<Limb>, shift: nat)
    requires shift < 32 * |t| && LowClear(t, shift + 1)
    ensures LowClear(t, shift)
    ensures var m := shift / 32;
      var x := Or(t[m], Pow(2, shift % 32));
      x < BASE && Val(t[m := x]) == Val(t) + Pow(2, shift) && LowClear(t[m := x], shift)
  {
    hide Val, Or, Pow, Low, Up;
    var m, e := shift / 32, shift % 32;
    OrBit(t[m], e);
    var x := Or(t[m], Pow(2, e));
    var u := t[m := x];
    ValSuffix(u, t, m + 1);
    ValStep(u, m);
    ValStep(t, m);
    assert u[..m] == t[..m];
    UpSum(t[m], Pow(2, e), m);
    UpPow2(e, m);
  }

  lemma AllClear(t: seq<Limb>, c: nat)
    requires forall i :: 0 <= i < |t| ==> t[i] == 0
    ensures LowClear(t, c)
  {
    LowZero(c % 32);
  }

  lemma BitsOrder(v: nat, d: nat, n: nat, m: nat)
    requires IsBits(v, n) && IsBits(d, m)
    ensures m == 0 <==> d == 0
    ensures m > n ==> v < d
  {
    if m > 0 { PowPositive(2, m - 1); }
    if m > n { PowGrows(2, n, m - 1); }
  }

  lemma QuotientStart(zeros: seq<Limb>, d: nat)
    requires Val(zeros) == 0
    ensures Times(Val(zeros), d) == 0
  {}

  lemma QuotientStep(q: nat, d: nat, shift: nat)
    ensures Times(q + Pow(2, shift), d) == Times(q, d) + Shifted(d, shift)
  {}

  lemma HalfShifted(d: nat, s: nat)
    ensures s > 0 ==> High(Shifted(d, s), 1) == Shifted(d, s - 1)
  {
    if s > 0 {
      ShiftedLaws(d, s - 1);
      assert Pow(2, 1) == 2;
    }
  }

  lemma QuotientEnd(total: nat, d: nat, q: nat, r: nat)
    requires total == r + Times(q, d) && r < d
    ensures q == total / d && r == total % d
  {
    DivUnique(total, d, q, r);
  }

  lemma SmallValue(s: seq<Limb>, zeros: seq<Limb>, b: nat)
    requires |s| == |zeros| >= 2 && s[0] == b % BASE && s[1] == b / BASE
    requires forall i :: 0 <= i < |s| ==> zeros[i] == 0 && (i >= 2 ==> s[i] == 0)
    ensures Val(s) == b && Val(zeros) == 0
  {
    hide Val, Up, Unit;
    ValSuffix(s, zeros, 2);
    ValZero(zeros);
    ValZero(zeros[..2]);
    ValNone(s);
    ValStep(s, 0);
    ValStep(s, 1);
    UpLow(s[0], s[1]);
  }

  lemma UpLow(x: nat, y: nat)
    ensures Up(x, 0) + Up(y, 1) == x + BASE * y
  {
    assert Unit(0) == 1 && Unit(1) == BASE;
  }

  lemma LowTwo(s: seq<Limb>)
    requires |s| >= 2
    ensures Or(s[0], s[1] * BASE) == Val(s) % WORD64
  {
    hide Val, Up, Or;
    Pow2Of32();
    OrIsSum(s[0], s[1], 32);
    ValSplit(s, 2);
    ValNone(s);
    ValStep(s, 0);
    ValStep(s, 1);
    UpLow(s[0], s[1]);
    var v := Val(s[2..]);
    assert Up(v, 2) == v * WORD64 by { UpUp(v, 1, 1); UpLow(0, v); UpLow(0, Up(v, 1)); UpUnit(0); }
    DivUnique(Val(s), WORD64, v, s[0] + BASE * s[1]);
  }

  predicate AllZero(s: seq<Limb>) { forall i :: 0 <= i < |s| ==> s[i] == 0 }

  /** One column of a row of the long multiplication. */
  lemma RowColumn(x: Limb, a: seq<Limb>, c: seq<Limb>, low: seq<Limb>, i: nat, j: nat, carry: nat, n: nat)
    requires i + j < |a| == |c| && carry < BASE && |low| == i + j
    requires Val(low) + Up(carry, i + j) == Val(a[..i + j]) + Up(Times(x, Val(c[..i])), j)
    requires n == carry + a[i + j] + Times(x, c[i])
    ensures Val(low) + Up(n % BASE, i + j) + Up(n / BASE, i + j + 1)
         == Val(a[..i + j + 1]) + Up(Times(x, Val(c[..i + 1])), j)
  {
    hide Val, Unit, Up, Times;
    Column(i + j, Val(low), carry, Val(a[..i + j]) + Up(Times(x, Val(c[..i])), j),
           n % BASE, n / BASE, (a[i + j] as nat) + Times(x, c[i]));
    UpSum(a[i + j], Times(x, c[i]), i + j);
    RowStep(x, Val(c[..i]), c[i], i, j);
    ValStep(a, i + j);
    ValStep(c, i);
  }

  class BaseUint {
    const pn: array<Limb>

    ghost function Value(): nat
      reads pn
    {
      Val(pn[..])
    }

    ghost function Modulus(): nat { Unit(pn.Length) }

    /** A copy of another number. */
    constructor Copy(b: BaseUint)
      ensures fresh(pn) && pn[..] == b.pn[..]
    {
      pn := new Limb[b.pn.Length](i requires 0 <= i < b.pn.Length reads b.pn => b.pn[i]);
    }

    /** A 64-bit number, in two limbs or more. */
    constructor Small(width: nat, b: nat)
      requires width >= 2 && b < WORD64
      ensures fresh(pn) && pn.Length == width && Value() == b
    {
      pn := new Limb[width](i => 0);
      new;
      Assign(b);
    }

    method Add(b: BaseUint)
      requires pn.Length == b.pn.Length
      modifies pn
      ensures Value() == Mod(old(Value()) + old(b.Value()), pn.Length)
    {
      hide Mod, Val, Unit, Up;
      ghost var a, c := pn[..], b.pn[..];
      ValNone(a);
      ValNone(c);
      var carry := 0;
      for i := 0 to pn.Length
        invariant 0 <= carry <= 1
        invariant Val(pn[..i]) + Up(carry, i) == Val(a[..i]) + Val(c[..i])
        invariant forall k :: i <= k < pn.Length ==> pn[k] == a[k] && b.pn[k] == c[k]
      {
        var x: nat, y: nat := pn[i], b.pn[i];
        var n := carry + x + y;
        assert n < WORD64;
        ghost var low := pn[..i];
        Column(i, Val(low), carry, Val(a[..i]) + Val(c[..i]), n % BASE, n / BASE, x + y);
        UpSum(x, y, i);
        pn[i] := n % BASE;
        carry := n / BASE;
        assert pn[..i] == low;
        ValStep(pn[..], i);
        ValStep(a, i);
        ValStep(c, i);
      }
      ValNone(pn[..]);
      CarryOut(pn[..], carry, Val(a) + Val(c));
    }

    method Complement() returns (r: BaseUint)
      ensures fresh(r.pn) && r.pn.Length == pn.Length
      ensures r.Value() + Value() + 1 == Modulus()
    {
      hide Mod, Val, Unit, Up;
      r := new BaseUint.Copy(this);
      ValNone(pn[..]);
      ValNone(r.pn[..]);
      for i := 0 to pn.Length
        invariant Val(r.pn[..i]) + Val(pn[..i]) + 1 == Unit(i)
      {
        ghost var low := r.pn[..i];
        r.pn[i] := BASE - 1 - pn[i];
        assert r.pn[..i] == low;
        ValStep(r.pn[..], i);
        ValStep(pn[..], i);
        UpFull(pn[i], i);
      }
      assert r.pn[..pn.Length] == r.pn[..] && pn[..pn.Length] == pn[..];
    }

    method Increment()
      requires pn.Length > 0
      modifies pn
      ensures Value() == Mod(old(Value()) + 1, pn.Length)
    {
      hide Mod, Val, Unit, Up;
      ghost var a := pn[..];
      var i := 0;
      ValNone(a);
      UpUnit(0);
      pn[0] := (pn[0] + 1) % BASE;
      ghost var c := if pn[0] == 0 then 1 else 0;
      Column(0, 0, 1, 1, pn[0], c, a[0]);
      ValStep(pn[..], 0);
      ValStep(a, 0);
      while pn[i] == 0 && i < pn.Length - 1
        invariant i < pn.Length && forall k :: i < k < pn.Length ==> pn[k] == a[k]
        invariant c == if pn[i] == 0 then 1 else 0
        invariant Val(pn[..i + 1]) + Up(c, i + 1) == Val(a[..i + 1]) + 1
      {
        ghost var low := pn[..i + 1];
        i := i + 1;
        pn[i] := (pn[i] + 1) % BASE;
        c := if pn[i] == 0 then 1 else 0;
        Column(i, Val(low), 1, Val(a[..i]) + 1, pn[i], c, a[i]);
        assert pn[..i] == low;
        ValStep(pn[..], i);
        ValStep(a, i);
      }
      UpUnit(i + 1);
      UpUnit(pn.Length);
      ValSuffix(pn[..], a, i + 1);
      assert pn[..][..i + 1] == pn[..i + 1];
      CarryOut(pn[..], c, Val(a) + 1);
    }

    method Decrement()
      requires pn.Length > 0
      modifies pn
      ensures Value() == Mod(old(Value()) + Modulus() - 1, pn.Length)
    {
      hide Mod, Val, Unit, Up;
      ghost var a := pn[..];
      var i := 0;
      ValNone(a);
      UpUnit(0);
      UpUnit(1);
      UpUnit(pn.Length);
      Borrow(0, 0, 0, (a[0] - 1) % BASE, if a[0] == 0 then 1 else 0, a[0]);
      pn[0] := (pn[0] - 1) % BASE;
      ValStep(pn[..], 0);
      ValStep(a, 0);
      while pn[i] == BASE - 1 && i < pn.Length - 1
        invariant i < pn.Length && forall k :: i < k < pn.Length ==> pn[k] == a[k]
        invariant Val(pn[..i + 1]) + 1 == Val(a[..i + 1]) + (if pn[i] == BASE - 1 then Up(1, i + 1) else 0)
      {
        ghost var low := pn[..i + 1];
        i := i + 1;
        UpUnit(i + 1);
        Borrow(i, Val(low), Val(a[..i]), (a[i] - 1) % BASE, if a[i] == 0 then 1 else 0, a[i]);
        pn[i] := (pn[i] - 1) % BASE;
        assert pn[..i] == low;
        ValStep(pn[..], i);
        ValStep(a, i);
      }
      ValSuffix(pn[..], a, i + 1);
      assert pn[..][..i + 1] == pn[..i + 1];
      CarryOut(pn[..], if pn[i] == BASE - 1 then 0 else 1, Val(a) + Modulus() - 1);
    }

    method Negated() returns (r: BaseUint)
      requires pn.Length > 0
      ensures fresh(r.pn) && r.pn.Length == pn.Length
      ensures Value() < Modulus() && r.Value() == Mod(Modulus() - Value(), pn.Length)
    {
      hide Mod, Val, Unit, Up;
      ValBound(pn[..]);
      r := Complement();
      r.Increment();
    }

    method Subtract(b: BaseUint)
      requires pn.Length == b.pn.Length > 0
      modifies pn
      ensures old(b.Value()) < Modulus() && Value() == Mod(old(Value()) + Modulus() - old(b.Value()), pn.Length)
    {
      hide Mod, Val, Unit, Up;
      ValBound(b.pn[..]);
      var minus := b.Negated();
      Add(minus);
      SumModulo(old(Value()), Modulus() - old(b.Value()), pn.Length);
    }

    /** Multiplication by a 32-bit number. */
    method MultiplyWord(b: Limb)
      modifies pn
      ensures Value() == Mod(old(Value()) * b, pn.Length)
    {
      hide Mod, Val, Unit, Up, Times;
      ghost var a := pn[..];
      ValNone(a);
      TimesLaws(0, 0, b, 0);
      var carry := 0;
      for i := 0 to pn.Length
        invariant 0 <= carry < BASE
        invariant Val(pn[..i]) + Up(carry, i) == Times(Val(a[..i]), b)
        invariant forall k :: i <= k < pn.Length ==> pn[k] == a[k]
      {
        TimesBound(pn[i], b);
        var n := carry + Times(pn[i], b);
        assert n < WORD64;
        ghost var low := pn[..i];
        Column(i, Val(low), carry, Times(Val(a[..i]), b), n % BASE, n / BASE, Times(a[i], b));
        TimesLaws(Val(a[..i]), a[i], b, i);
        pn[i] := n % BASE;
        carry := n / BASE;
        assert pn[..i] == low;
        ValStep(pn[..], i);
        ValStep(a, i);
      }
      ValNone(pn[..]);
      CarryOut(pn[..], carry, Times(Val(a), b));
      TimesIsProduct(Val(a), b);
    }

    /** A row of a long multiplication; `over` is what does not fit. */
    method AddRow(b: BaseUint, x: Limb, j: nat) returns (ghost over: nat)
      requires pn.Length == b.pn.Length && j <= pn.Length && (pn == b.pn ==> AllZero(pn[..]))
      modifies pn
      ensures pn != b.pn ==> Value() + Up(over, pn.Length) == old(Value()) + Up(Times(x, b.Value()), j)
      ensures pn == b.pn ==> AllZero(pn[..])
    {
      hide Mod, Val, Unit, Up, Times;
      ghost var a, c, other := pn[..], b.pn[..], pn != b.pn;
      ValNone(c);
      TimesLaws(0, 0, x, 0);
      TimesSwap(0, x);
      UpUnit(j);
      var carry := 0;
      for i := 0 to pn.Length - j
        invariant 0 <= carry < BASE && (!other ==> carry == 0 && AllZero(pn[..]))
        invariant other ==> b.pn[..] == c
        invariant other ==> Val(pn[..i + j]) + Up(carry, i + j) == Val(a[..i + j]) + Up(Times(x, Val(c[..i])), j)
        invariant other ==> forall k :: i + j <= k < pn.Length ==> pn[k] == a[k]
      {
        TimesBound(x, b.pn[i]);
        var n := carry + (pn[i + j] as nat) + Times(x, b.pn[i]);
        assert n < WORD64;
        ghost var low := pn[..i + j];
        if other { RowColumn(x, a, c, low, i, j, carry, n); }
        pn[i + j] := n % BASE;
        carry := n / BASE;
        if other {
          assert pn[..i + j] == low;
          ValStep(pn[..], i + j);
        }
      }
      RowEnd(x, c, j);
      over := carry + Times(x, Val(c[pn.Length - j..]));
      UpSum(carry, Times(x, Val(c[pn.Length - j..])), pn.Length);
      ValNone(pn[..]);
      ValNone(a);
    }

    /** Multiplication. This number is cleared first, so that multiplied by itself it ends as zero. */
    method Multiply(b: BaseUint)
      requires pn.Length == b.pn.Length
      modifies pn
      ensures pn != b.pn ==> Value() == Mod(old(Value()) * b.Value(), pn.Length)
      ensures pn == b.pn ==> Value() == 0
    {
      hide Mod, Val, Unit, Up, Times;
      var a := new BaseUint.Copy(this);
      Zero();
      ghost var v, n, other := a.pn[..], pn.Length, pn != b.pn;
      ghost var over := 0;
      ValNone(v);
      UpUnit(n);
      TimesLaws(0, 0, b.Value(), 0);
      for j := 0 to pn.Length
        invariant a.pn[..] == v
        invariant !other ==> AllZero(pn[..])
        invariant other ==> Value() + Up(over, n) == Times(Val(v[..j]), b.Value())
      {
        ghost var more := AddRow(b, a.pn[j], j);
        if other {
          TimesLaws(Val(v[..j]), v[j], b.Value(), j);
          ValStep(v, j);
          UpSum(over, more, n);
        }
        over := over + more;
      }
      if other {
        CarryOut(pn[..], over, Times(Val(v), b.Value()));
        TimesIsProduct(Val(v), b.Value());
      } else {
        ValZero(pn[..]);
      }
    }

    method Zero()
      modifies pn
      ensures Value() == 0 && forall i :: 0 <= i < pn.Length ==> pn[i] == 0
    {
      for i := 0 to pn.Length
        invariant forall k :: 0 <= k < i ==> pn[k] == 0
      {
        pn[i] := 0;
      }
      ValZero(pn[..]);
    }

    method CompareTo(b: BaseUint) returns (r: int)
      requires pn.Length == b.pn.Length
      ensures r == if Value() < b.Value() then -1 else if Value() > b.Value() then 1 else 0
    {
      hide Val;
      for i := pn.Length downto 0
        invariant forall k :: i <= k < pn.Length ==> pn[k] == b.pn[k]
      {
        if pn[i] < b.pn[i] {
          LimbDecides(pn[..], b.pn[..], i);
          return -1;
        }
        if pn[i] > b.pn[i] {
          LimbDecides(b.pn[..], pn[..], i);
          return 1;
        }
      }
      assert pn[..] == b.pn[..];
      return 0;
    }

    /** The position of the highest bit set plus one, or zero. */
    method Bits() returns (n: nat)
      ensures IsBits(Value(), n) && n <= 32 * pn.Length
    {
      hide Val, Pow;
      for pos := pn.Length downto 0
        invariant forall k :: pos <= k < pn.Length ==> pn[k] == 0
      {
        if pn[pos] != 0 {
          Pow2Of32();
          for bits := 32 downto 1
            invariant pn[pos] < Pow(2, bits)
          {
            HighBit(pn[pos], bits);
            if pn[pos] / Pow(2, bits) % 2 == 1 {
              LimbBits(pn[..], pos, bits);
              return 32 * pos + bits + 1;
            }
          }
          HighBit(pn[pos], 0);
          LimbBits(pn[..], pos, 0);
          return 32 * pos + 1;
        }
      }
      ValZero(pn[..]);
      return 0;
    }

    /** Adds the bits of a limb shifted left, as far as there are limbs to take them. */
    method OrLimb(at: nat, x: Limb, s: nat)
      requires s < 32
      requires at < pn.Length ==> Or(pn[at], Keep(x, s)) < BASE
      requires at + 1 < pn.Length && s != 0 ==> Or(pn[at + 1], Spill(x, s)) < BASE
      modifies pn
      ensures forall j :: 0 <= j < pn.Length && j != at && (j != at + 1 || s == 0) ==> pn[j] == old(pn[j])
      ensures at < pn.Length ==> pn[at] == Or(old(pn[at]), Keep(x, s))
      ensures at + 1 < pn.Length && s != 0 ==> pn[at + 1] == Or(old(pn[at + 1]), Spill(x, s))
    {
      hide Or, Keep, Spill;
      if at + 1 < pn.Length && s != 0 {
        pn[at + 1] := Or(pn[at + 1], Spill(x, s));
      }
      if at < pn.Length {
        pn[at] := Or(pn[at], Keep(x, s));
      }
    }

    method ShiftLeft(amount: nat)
      modifies pn
      ensures Value() == Mod(Shifted(old(Value()), amount), pn.Length)
    {
      hide Mod, Val, Unit, Up, Times, Or, Keep, Spill, Shifted, LeftSoFar;
      var a := new BaseUint.Copy(this);
      Zero();
      var k, s := amount / 32, amount % 32;
      ghost var v, h: nat := a.pn[..], 0;
      ShiftStart(pn[..], v, s, k);
      for i := 0 to pn.Length
        invariant a.pn[..] == v && LeftSoFar(pn[..], v, s, k, i, h)
      {
        ghost var before := pn[..];
        LeftNext(before, v, s, k, i, h);
        OrLimb(i + k, a.pn[i], s);
        LeftStep(before, pn[..], v, s, k, i, h);
        h := if i + k < pn.Length then Spill(v[i], s) else h;
      }
      ShiftEnd(pn[..], v, s, k, h);
    }

    method ShiftRight(amount: nat)
      modifies pn
      ensures Value() == High(old(Value()), amount)
    {
      hide Mod, Val, Unit, Up, Times, Pow, Or, Keep, High, Low;
      var a := new BaseUint.Copy(this);
      Zero();
      var k, s, n := amount / 32, amount % 32, pn.Length;
      ghost var v, p, r: nat := a.pn[..], Pow(2, s), 0;
      Pow2Word(s);
      for i := 0 to n
        invariant a.pn[..] == v
        invariant i > k ==> Val(v[..i]) == Up(Times(p, Val(pn[..i - k])), k) + r && r < Up(p, k)
        invariant i > k ==> pn[i - k - 1] < Pow(2, 32 - s)
        invariant forall j :: 0 <= j < n && j >= i - k ==> pn[j] == 0
      {
        var x := a.pn[i];
        ghost var before := pn[..];
        RightLimb(x, s, if i > k then pn[i - k - 1] else 0);
        if i - k - 1 >= 0 && s != 0 {
          pn[i - k - 1] := Or(pn[i - k - 1], Keep(x, 32 - s));
        }
        if i - k >= 0 {
          pn[i - k] := Or(pn[i - k], High(x, s));
          if i == k {
            r := RightFirst(pn[..], v, s, k);
          } else {
            RightStep(before, pn[..], v, s, k, i, r);
          }
        }
      }
      ValNone(v);
      assert n > k ==> pn[..][..n - k] == pn[..n - k];
      RightDone(pn[..], v, s, k, r);
    }

    /** Subtracts the divisor, halving it, wherever it fits, and notes the quotient here. */
    method Reduce(num: BaseUint, div: BaseUint, aligned: nat, ghost d: nat, ghost total: nat)
      requires pn.Length == num.pn.Length == div.pn.Length > aligned / 32
      requires pn != num.pn && pn != div.pn && num.pn != div.pn
      requires num.Value() == total < Shifted(d, aligned + 1) && div.Value() == Shifted(d, aligned)
      requires forall i :: 0 <= i < pn.Length ==> pn[i] == 0
      modifies pn, num.pn, div.pn
      ensures total == num.Value() + Times(Value(), d) && num.Value() < d
    {
      hide Mod, Val, Unit, Up, Times, Shifted, LowClear, High, Low, Or;
      var shift: int := aligned;
      AllClear(pn[..], shift + 1);
      ValZero(pn[..]);
      QuotientStart(pn[..], d);
      while shift >= 0
        invariant -1 <= shift <= aligned
        invariant total == num.Value() + Times(Value(), d) && num.Value() < Shifted(d, shift + 1)
        invariant shift >= 0 ==> div.Value() == Shifted(d, shift)
        invariant LowClear(pn[..], shift + 1)
      {
        var c := num.CompareTo(div);
        SetBit(pn[..], shift);
        ShiftedLaws(d, shift);
        if c >= 0 {
          num.SubtractSmaller(div);
          QuotientStep(Value(), d, shift);
          ghost var before := pn[..];
          pn[shift / 32] := Or(pn[shift / 32], Pow(2, shift % 32));
          assert pn[..] == before[shift / 32 := pn[shift / 32]];
        }
        div.ShiftRight(1);
        HalfShifted(d, shift);
        shift := shift - 1;
      }
      ShiftedLaws(d, 0);
    }

    method SubtractSmaller(b: BaseUint)
      requires pn != b.pn && pn.Length == b.pn.Length > 0 && b.Value() <= Value()
      modifies pn
      ensures Value() == old(Value()) - b.Value()
    {
      hide Mod, Val, Unit;
      ValBound(pn[..]);
      ModSmall(Value() - b.Value(), pn.Length);
      Subtract(b);
    }

    /** Long division; `rest` is the copy of the number from which the divisor is subtracted. Dividing by
        zero clears the number and fails. */
    method Divide(b: BaseUint) returns (failed: bool, rest: BaseUint)
      requires pn.Length == b.pn.Length > 0
      modifies pn
      ensures fresh(rest.pn)
      ensures failed <==> old(b.Value()) == 0
      ensures failed ==> Value() == 0
      ensures !failed ==> Value() == old(Value()) / old(b.Value()) && rest.Value() == old(Value()) % old(b.Value())
    {
      hide Mod, Val, Unit, Up, Times, Shifted, IsBits;
      ghost var total, d := Value(), b.Value();
      ValBound(pn[..]);
      var div := new BaseUint.Copy(b);
      var num := new BaseUint.Copy(this);
      rest := num;
      Zero();
      var numBits := num.Bits();
      var divBits := div.Bits();
      BitsOrder(total, d, numBits, divBits);
      if divBits == 0 { return true, num; }
      failed := false;
      if divBits > numBits {
        QuotientStart(pn[..], d);
      } else {
        var shift := numBits - divBits;
        Align(total, d, numBits, divBits, pn.Length);
        div.ShiftLeft(shift);
        ModSmall(Shifted(d, shift), pn.Length);
        Reduce(num, div, shift, d, total);
      }
      QuotientEnd(total, d, Value(), num.Value());
    }

    /** The two lowest limbs. */
    method GetLow64() returns (r: nat)
      requires pn.Length >= 2
      ensures r == Value() % WORD64
    {
      r := Or(pn[0], pn[1] * BASE);
      LowTwo(pn[..]);
    }

    method Assign(b: nat)
      requires pn.Length >= 2 && b < WORD64
      modifies pn
      ensures Value() == b
    {
      Zero();
      ghost var zeros := pn[..];
      pn[0], pn[1] := b % BASE, b / BASE;
      SmallValue(pn[..], zeros, b);
    }
  }
}
