/** The compact form of a difficulty target: a sign, a base-256 exponent and a 23-bit mantissa in 32 bits. */
module Compact {
  import opened Numbers
  import opened ArithUint

  const EXPONENT := 0x100_0000
  const SIGN := 0x80_0000

  function P(k: nat): (r: nat)
    ensures r > 0
  {
    PowPositive(256, k);
    Pow(256, k)
  }

  // ---------------------------------------------------------------------------------------------
  // The meaning of a compact form
  // ---------------------------------------------------------------------------------------------

  function Size(c: nat): nat { c / EXPONENT }
  function Mantissa(c: nat): nat { c % SIGN }
  function SignBit(c: nat): bool { c / SIGN % 2 == 1 }

  function Quotient(n: nat, d: nat): nat
    requires d > 0
  {
    n / d
  }

  function Product(a: nat, b: nat): nat { a * b }

  /** The number meant, however large. */
  function Meant(c: nat): nat
  {
    if Size(c) <= 3 then Quotient(Mantissa(c), P(3 - Size(c))) else Product(Mantissa(c), P(Size(c) - 3))
  }

  lemma PSmall()
    ensures P(0) == 1 && P(1) == 0x100 && P(2) == 0x1_0000 && P(3) == 0x100_0000
  {}

  lemma PStep(k: nat)
    ensures P(k + 1) == 256 * P(k)
  {}

  lemma PAdd(i: nat, j: nat)
    ensures P(i + j) == P(i) * P(j)
  {
    PowAdd(256, i, j);
  }

  lemma PGrows(i: nat, j: nat)
    requires i <= j
    ensures P(i) <= P(j)
  {
    PowGrows(256, i, j);
  }

  lemma PIsPow2(k: nat)
    ensures P(k) == Pow(2, 8 * k)
  {
    Pow2Of32();
    PowOfPow(2, 8, k);
  }

  /** Eight limbs hold numbers of 32 bytes. */
  lemma UnitIsP()
    ensures Unit(8) == P(32)
  {
    UnitIsPow2(8);
    PIsPow2(32);
  }

  /** The overflow flag as it is computed. */
  predicate Overflows(size: nat, word: nat)
  {
    word != 0 && (size > 34 || (word > 0xff && size > 33) || (word > 0xffff && size > 32))
  }

  /** It is set exactly when the number meant does not fit. */
  lemma OverflowIsExact(c: nat)
    ensures Overflows(Size(c), if Size(c) <= 3 then Quotient(Mantissa(c), P(3 - Size(c))) else Mantissa(c))
        <==> Meant(c) >= P(32)
  {
    hide P;
    PSmall();
    PGrows(3, 32);
    var size, word := Size(c), Mantissa(c);
    if size <= 3 {
      DivAtMost(word, P(3 - size));
    } else if size <= 32 {
      PGrows(size, 32);
      PAdd(3, size - 3);
      MulAtMost(word, P(3), P(size - 3));
      if word == 0 { PGrows(0, 32); } else { StrictProduct(word, P(3), P(size - 3)); }
    } else {
      WideWord(word, size);
    }
  }

  lemma StrictProduct(a: nat, b: nat, c: nat)
    requires a < b && c > 0
    ensures a * c < b * c
  {
    MulAtMost(a + 1, b, c);
  }

  lemma WideWord(word: nat, size: nat)
    requires size >= 33
    ensures word * P(size - 3) >= P(32)
      <==> word != 0 && (size > 34 || (word > 0xff && size == 34) || (word > 0xffff && size == 33))
  {
    hide P;
    PSmall();
    if size >= 35 {
      PGrows(32, size - 3);
      if word > 0 { MulAtLeast(word, P(size - 3)); }
    } else {
      var d := 35 - size;
      PAdd(d, size - 3);
      if word >= P(d) { MulAtMost(P(d), word, P(size - 3)); } else { StrictProduct(word, P(d), P(size - 3)); }
    }
  }

  // ---------------------------------------------------------------------------------------------
  // The compact form of a number
  // ---------------------------------------------------------------------------------------------

  /** The numbers below it fit in `s` bytes with the top bit free for the sign. */
  function Half(s: nat): nat { if s == 0 then 1 else 128 * P(s - 1) }

  predicate HasSize(v: nat, s: nat) { v < Half(s) && (s > 0 ==> v >= Half(s - 1)) }

  lemma {:induction false} HalfGrows(i: nat, j: nat)
    requires i <= j
    ensures Half(i) <= Half(j)
    decreases j
  {
    if i < j {
      if j > 1 { PStep(j - 2); } else { PSmall(); }
      HalfGrows(i, j - 1);
    }
  }

  lemma SizeUnique(v: nat, s: nat, t: nat)
    requires HasSize(v, s) && HasSize(v, t)
    ensures s == t
  {
    if s < t { HalfGrows(s, t - 1); }
    if t < s { HalfGrows(t, s - 1); }
  }

  function SizeOf(v: nat): (s: nat)
    ensures HasSize(v, s)
  {
    PSmall();
    if v == 0 then 0 else if v < 128 then 1 else if v < 256 then 2
    else
      var t := SizeOf(v / 256);
      HalfStep(v, t);
      t + 1
  }

  lemma HalfStep(v: nat, t: nat)
    requires v >= 256 && HasSize(v / 256, t)
    ensures HasSize(v, t + 1)
  {
    PSmall();
    if t > 1 { PStep(t - 1); PStep(t - 2); }
  }

  /** The mantissa that goes with an exponent. */
  function Digits(v: nat, s: nat): nat { if s <= 3 then v * P(3 - s) else v / P(s - 3) }

  function ToCompact(v: nat, negative: bool): nat
  {
    var s := SizeOf(v);
    s * EXPONENT + Digits(v, s) + if negative && Digits(v, s) != 0 then SIGN else 0
  }

  /** The number without the low bytes that the mantissa cannot hold. */
  function Rounded(v: nat): nat
  {
    var s := SizeOf(v);
    if s <= 3 then v else Digits(v, s) * P(s - 3)
  }

  lemma DigitsFit(v: nat, s: nat)
    requires HasSize(v, s)
    ensures Digits(v, s) < SIGN && (v > 0 ==> Digits(v, s) > 0)
    ensures s > 3 ==> Digits(v, s) >= SIGN / 256
  {
    hide P;
    PSmall();
    if s == 0 {
    } else if s <= 3 {
      PAdd(s - 1, 3 - s);
      Below(v, 128 * P(s - 1), P(3 - s));
      MulAtLeast(P(3 - s), v);
      assert 128 * P(s - 1) * P(3 - s) == 128 * (P(s - 1) * P(3 - s));
    } else {
      PAdd(2, s - 3);
      PAdd(1, s - 3);
      QuotientBelow(v, P(s - 3), 128 * P(2));
      QuotientAtLeast(v, P(s - 3), 128 * P(1));
    }
  }

  lemma Below(a: nat, b: nat, c: nat)
    requires a < b && c > 0
    ensures a * c < b * c
  {
    StrictProduct(a, b, c);
  }

  /** Reading back what was written: the sign and the number rounded down, by less than one unit of the
      last byte kept. */
  lemma RoundTrip(v: nat, negative: bool)
    ensures var c := ToCompact(v, negative);
      && Meant(c) == Rounded(v) <= v
      && (if SizeOf(v) <= 3 then Rounded(v) == v else v < Rounded(v) + P(SizeOf(v) - 3))
      && SignBit(c) == (negative && v != 0)
      && Size(c) == SizeOf(v)
  {
    hide P, Digits, Size, Mantissa, SignBit, SizeOf;
    var s := SizeOf(v);
    var m := Digits(v, s);
    DigitsFit(v, s);
    DigitsBack(v, s);
    Fields(s, m, negative && m != 0);
  }

  lemma DigitsBack(v: nat, s: nat)
    ensures s <= 3 ==> Digits(v, s) / P(3 - s) == v
    ensures s > 3 ==> Digits(v, s) * P(s - 3) <= v < Digits(v, s) * P(s - 3) + P(s - 3)
    ensures v == 0 ==> Digits(v, s) == 0
  {
    hide P;
    if s <= 3 {
      DivUnique(v * P(3 - s), P(3 - s), v, 0);
    } else {
      DivMod(v, P(s - 3));
    }
  }

  lemma Fields(s: nat, m: nat, sign: bool)
    requires m < SIGN
    ensures var c := s * EXPONENT + m + if sign then SIGN else 0;
      Size(c) == s && Mantissa(c) == m && SignBit(c) == sign
  {}

  /** A number of at most 32 bytes comes back without overflow. */
  lemma RoundTripFits(v: nat, negative: bool)
    requires v < P(32)
    ensures ToCompact(v, negative) < BASE && Meant(ToCompact(v, negative)) < P(32)
  {
    RoundTrip(v, negative);
    var s := SizeOf(v);
    if s > 33 {
      HalfGrows(33, s - 1);
    }
    DigitsFit(v, s);
  }

  /** Rounding keeps the size, so writing a rounded number again gives the same compact form. */
  lemma RoundingIsIdempotent(v: nat, negative: bool)
    ensures ToCompact(Rounded(v), negative) == ToCompact(v, negative) && Rounded(Rounded(v)) == Rounded(v)
  {
    hide P, SizeOf, Half;
    var s := SizeOf(v);
    if s > 3 {
      RoundedSize(v, s);
      var m, d := Digits(v, s), P(s - 3);
      SizeUnique(m * d, s, SizeOf(m * d));
      DivUnique(m * d, d, m, 0);
    }
  }

  lemma RoundedSize(v: nat, s: nat)
    requires HasSize(v, s) && s > 3
    ensures HasSize(Digits(v, s) * P(s - 3), s)
  {
    hide P;
    PSmall();
    DigitsFit(v, s);
    DigitsBack(v, s);
    PAdd(1, s - 3);
    MulAtMost(128 * P(1), Digits(v, s), P(s - 3));
    assert 128 * P(1) * P(s - 3) == 128 * (P(1) * P(s - 3));
  }

  /** Larger numbers have larger sizes, and at one size larger mantissas. */
  lemma RoundingIsMonotone(v: nat, w: nat)
    requires v <= w
    ensures Rounded(v) <= Rounded(w) && ToCompact(v, false) <= ToCompact(w, false)
  {
    hide P, SizeOf, Half;
    var s, t := SizeOf(v), SizeOf(w);
    DigitsFit(v, s);
    if s == t {
      DigitsGrow(v, w, s);
    } else {
      assert s < t by { if t < s { HalfGrows(t, s - 1); } }
      HalfGrows(s, t - 1);
      RoundTrip(v, false);
      if t > 3 { RoundedSize(w, t); }
    }
  }

  lemma DigitsGrow(v: nat, w: nat, s: nat)
    requires v <= w
    ensures Digits(v, s) <= Digits(w, s)
    ensures s > 3 ==> Digits(v, s) * P(s - 3) <= Digits(w, s) * P(s - 3)
  {
    hide P;
    if s <= 3 {
      MulAtMost(v, w, P(3 - s));
    } else {
      DivMod(v, P(s - 3));
      QuotientAtLeast(w, P(s - 3), v / P(s - 3));
      MulAtMost(Digits(v, s), Digits(w, s), P(s - 3));
    }
  }

  // ---------------------------------------------------------------------------------------------
  // The conversions on 256-bit numbers
  // ---------------------------------------------------------------------------------------------

  lemma MeantIs(c: nat)
    ensures Pow(256, 32) > 0 && Mod(Meant(c), 8) == Meant(c) % Pow(256, 32) && P(32) == Pow(256, 32)
    ensures SignBit(c) <==> c / 0x80_0000 % 2 == 1
    ensures var exponent, mantissa := c / 0x100_0000, c % 0x80_0000;
      if exponent <= 3 then Pow(256, 3 - exponent) > 0 && Meant(c) == mantissa / Pow(256, 3 - exponent)
      else Meant(c) == mantissa * Pow(256, exponent - 3)
  {
    UnitIsP();
    if Size(c) <= 3 { PowPositive(256, 3 - Size(c)); }
  }

  /** Sets the number meant, as far as it fits, and tells whether it was negative and whether it fits. */
  method SetCompact(x: BaseUint, c: nat) returns (negative: bool, overflow: bool)
    requires x.pn.Length == 8 && c < BASE
    modifies x.pn
    ensures x.Value() == Mod(Meant(c), 8)
    ensures negative <==> SignBit(c) && Meant(c) != 0
    ensures overflow <==> Meant(c) >= P(32)
    ensures var exponent, mantissa := c / 0x100_0000, c % 0x80_0000;
      var meant := if exponent <= 3 then mantissa / Pow(256, 3 - exponent) else mantissa * Pow(256, exponent - 3);
      && x.Value() == meant % Pow(256, 32) && (overflow <==> meant >= Pow(256, 32))
      && (negative <==> meant != 0 && c / 0x80_0000 % 2 == 1)
  {
    hide Mod, P, Shifted, SignBit;
    MeantIs(c);
    var size, word := Size(c), Mantissa(c);
    OverflowIsExact(c);
    if size <= 3 {
      DivAtMost(word, P(3 - size));
      word := word / P(3 - size);
      x.Assign(word);
      PSmall();
      UnitIsP();
      PGrows(3, 32);
      ModSmall(word, 8);
    } else {
      x.Assign(word);
      x.ShiftLeft(8 * (size - 3));
      ShiftIsP(word, size - 3);
      if word > 0 { MulAtLeast(word, P(size - 3)); }
    }
    negative := word != 0 && SignBit(c);
    overflow := Overflows(size, word);
  }

  lemma ShiftIsP(v: nat, k: nat)
    ensures Shifted(v, 8 * k) == v * P(k) && High(v, 8 * k) == v / P(k)
  {
    PIsPow2(k);
  }

  /** The bytes that the bits of a number take. */
  lemma BytesOfBits(v: nat, n: nat)
    requires IsBits(v, n) && n > 0
    ensures P((n + 7) / 8 - 1) <= v < P((n + 7) / 8)
  {
    hide Pow, P;
    var k := (n + 7) / 8;
    PIsPow2(k);
    PIsPow2(k - 1);
    PowGrows(2, n, 8 * k);
    PowGrows(2, 8 * (k - 1), n - 1);
  }

  /** The mantissa over all the bytes of a number, and what to do when it reaches the sign bit. */
  lemma SizeFromBytes(v: nat, k: nat)
    requires k > 0 && P(k - 1) <= v < P(k)
    ensures Digits(v, k) < EXPONENT
    ensures Digits(v, k) < SIGN ==> SizeOf(v) == k
    ensures Digits(v, k) >= SIGN ==> SizeOf(v) == k + 1 && Digits(v, k + 1) == Digits(v, k) / 256
  {
    hide P, SizeOf;
    PSmall();
    if k > 1 { PStep(k - 2); }
    DigitsSize(v, k);
    if Digits(v, k) < SIGN {
      SizeUnique(v, SizeOf(v), k);
    } else {
      PStep(k - 1);
      SizeUnique(v, SizeOf(v), k + 1);
      DigitsNext(v, k);
    }
  }

  lemma DigitsSize(v: nat, k: nat)
    requires k > 0 && v < P(k)
    ensures Digits(v, k) < EXPONENT && (Digits(v, k) < SIGN <==> v < 128 * P(k - 1))
  {
    hide P;
    PSmall();
    if k <= 3 {
      var w := P(3 - k);
      PAdd(k, 3 - k);
      PAdd(k - 1, 3 - k);
      StrictProduct(v, P(k), w);
      MulAssoc(128, P(k - 1), w);
      if v < 128 * P(k - 1) { StrictProduct(v, 128 * P(k - 1), w); } else { MulAtMost(128 * P(k - 1), v, w); }
    } else {
      var w := P(k - 3);
      PAdd(3, k - 3);
      PAdd(2, k - 3);
      QuotientBelow(v, w, P(3));
      MulAssoc(128, P(2), w);
      if v < 128 * P(k - 1) { QuotientBelow(v, w, 128 * P(2)); } else { QuotientAtLeast(v, w, 128 * P(2)); }
    }
  }

  lemma DigitsNext(v: nat, k: nat)
    ensures Digits(v, k + 1) == Digits(v, k) / 256
  {
    hide P;
    PSmall();
    if k < 3 {
      PStep(2 - k);
      assert v * (256 * P(2 - k)) == 256 * (v * P(2 - k));
    } else {
      PStep(k - 3);
      DivDiv(v, P(k - 3));
    }
  }

  lemma DivDiv(v: nat, d: nat)
    requires d > 0
    ensures v / (256 * d) == v / d / 256
  {
    var q := v / d;
    DivMod(v, d);
    DivMod(q, 256);
    var r := (q % 256) * d + v % d;
    assert v == (q / 256) * (256 * d) + r;
    MulAtMost(q % 256 + 1, 256, d);
    DivUnique(v, 256 * d, q / 256, r);
  }

  lemma {:induction false} OrMiddle(m: nat, h: nat, k: nat)
    requires m < Pow(2, k) && h % Pow(2, k) == 0
    ensures Or(m + 2 * h, Pow(2, k)) == m + Pow(2, k) + 2 * h
    decreases k
  {
    hide Or;
    if k == 0 {
      OrZero(h);
      OrSymmetric(h, 0);
      OrOdd(h);
    } else {
      PowPositive(2, k - 1);
      HalfMultiple(h, k);
      OrMiddle(m / 2, h / 2, k - 1);
      OrStep(m + 2 * h, Pow(2, k));
    }
  }

  lemma HalfMultiple(h: nat, k: nat)
    requires k > 0 && Pow(2, k) > 0 && Pow(2, k - 1) > 0 && h % Pow(2, k) == 0
    ensures h % 2 == 0 && h / 2 % Pow(2, k - 1) == 0 && Pow(2, k) == 2 * Pow(2, k - 1)
  {
    var z := Pow(2, k - 1);
    DivMod(h, 2 * z);
    var q := h / (2 * z);
    assert h == 2 * (z * q);
    DivUnique(h / 2, z, q, 0);
  }

  lemma OrOdd(h: nat)
    ensures Or(2 * h, 1) == 1 + 2 * Or(h, 0)
  {}

  lemma OrStep(x: nat, y: nat)
    requires y % 2 == 0 && y > 0
    ensures Or(x, y) == x % 2 + 2 * Or(x / 2, y / 2)
  {}

  lemma OrFields(m: nat, size: nat)
    requires m < SIGN
    ensures Or(m, size * EXPONENT) == m + size * EXPONENT
    ensures Or(m + size * EXPONENT, SIGN) == m + SIGN + size * EXPONENT
  {
    Pow2Of32();
    PowAdd(2, 16, 8);
    assert Pow(2, 24) == 2 * Pow(2, 23);
    OrIsSum(m, size, 24);
    DivUnique(size * Pow(2, 23), Pow(2, 23), size, 0);
    OrMiddle(m, size * Pow(2, 23), 23);
  }

  lemma DigitsAre(v: nat, s: nat)
    ensures Digits(v, s) == if s <= 3 then v * P(3 - s) else v / P(s - 3)
  {}

  /** The three leading bytes of a number of `size` bytes. */
  method Leading(x: BaseUint, size: nat) returns (m: nat)
    requires x.pn.Length == 8 && x.Value() < P(size)
    ensures m == Digits(x.Value(), size)
  {
    hide P, Mod, High, Val, Digits;
    PSmall();
    DigitsAre(x.Value(), size);
    if size <= 3 {
      PGrows(size, 3);
      var low := x.GetLow64();
      m := low * P(3 - size);
    } else {
      var bn := new BaseUint.Copy(x);
      bn.ShiftRight(8 * (size - 3));
      ShiftIsP(x.Value(), size - 3);
      DigitsSize(x.Value(), size);
      m := bn.GetLow64();
    }
  }

  method GetCompact(x: BaseUint, negative: bool) returns (c: nat)
    requires x.pn.Length == 8
    ensures c == ToCompact(x.Value(), negative)
  {
    hide P, SizeOf, Digits, Or, IsBits, Val;
    var bits := x.Bits();
    var size := (bits + 7) / 8;
    ghost var v := x.Value();
    BytesAndSize(v, bits);
    c := Leading(x, size);
    if c / SIGN % 2 == 1 {
      c := c / 256;
      size := size + 1;
    }
    assert c == Digits(v, SizeOf(v)) < SIGN && size == SizeOf(v) by { DigitsFit(v, SizeOf(v)); }
    assert size < 256;
    OrFields(c, size);
    c := Or(c, size * EXPONENT);
    if negative && c % SIGN != 0 {
      c := Or(c, SIGN);
    }
  }

  lemma BytesAndSize(v: nat, bits: nat)
    requires IsBits(v, bits)
    ensures var k := (bits + 7) / 8;
      && v < P(k) && Digits(v, k) < EXPONENT
      && (if Digits(v, k) < SIGN then SizeOf(v) == k
          else SizeOf(v) == k + 1 && Digits(v, k + 1) == Digits(v, k) / 256)
  {
    hide P, Digits, SizeOf;
    if bits > 0 {
      BytesOfBits(v, bits);
      SizeFromBytes(v, (bits + 7) / 8);
    } else {
      PSmall();
      DigitsBack(0, 0);
      ZeroSize();
    }
  }

  lemma ZeroSize()
    ensures SizeOf(0) == 0
  {}

  // ---------------------------------------------------------------------------------------------
  // The work that a target stands for
  // ---------------------------------------------------------------------------------------------

  /** No target that fits is one short of the modulus. */
  lemma TargetHasRoom(c: nat)
    requires Meant(c) < P(32)
    ensures Meant(c) + 1 < P(32)
  {
    hide P;
    PSmall();
    PStep(31);
    PGrows(4, 32);
    PStep(3);
    var size := Size(c);
    if size <= 3 {
      DivAtMost(Mantissa(c), P(3 - size));
    } else {
      PStep(size - 4);
      var m, d := Mantissa(c), P(size - 4);
      assert m * (256 * d) == 256 * (m * d);
    }
  }

  lemma ProofQuotient(m: nat, t: nat)
    requires 0 < t && t + 1 < m
    ensures (m - 1 - t) / (t + 1) + 1 == m / (t + 1) && m / (t + 1) < m
  {
    var d := t + 1;
    var q, r := (m - d) / d, (m - d) % d;
    DivMod(m - d, d);
    assert m == (q + 1) * d + r;
    DivUnique(m, d, q + 1, r);
    MulAtMost(2, d, q + 1);
    assert d * (q + 1) == (q + 1) * d;
  }

  method ProofOf(target: BaseUint) returns (r: BaseUint)
    requires target.pn.Length == 8 && 0 < target.Value() && target.Value() + 1 < Unit(8)
    ensures r.pn.Length == 8 && r.Value() == Unit(8) / (target.Value() + 1)
  {
    hide Val, Unit, Mod;
    ghost var t := target.Value();
    ProofQuotient(Unit(8), t);
    var one := new BaseUint.Small(8, 1);
    var divisor := new BaseUint.Copy(target);
    divisor.Add(one);
    ModSmall(t + 1, 8);
    r := target.Complement();
    var failed, rest := r.Divide(divisor);
    ModSmall(r.Value() + 1, 8);
    r.Add(one);
  }

  /** The expected number of hashes: two to the 256th, divided by one more than the target. */
  method GetBlockProof(nBits: nat) returns (r: BaseUint)
    requires nBits < BASE
    ensures r.pn.Length == 8
    ensures
      var t := Meant(nBits);
      r.Value() == if t == 0 || t >= P(32) || SignBit(nBits) then 0 else P(32) / (t + 1)
  {
    hide P, Meant, SignBit, Val, Unit, Mod;
    var bnTarget := new BaseUint.Small(8, 0);
    var negative, overflow := SetCompact(bnTarget, nBits);
    var zero := new BaseUint.Small(8, 0);
    UnitIsP();
    if negative || overflow { return zero; }
    ModSmall(Meant(nBits), 8);
    var c := bnTarget.CompareTo(zero);
    if c == 0 { return zero; }
    TargetHasRoom(nBits);
    r := ProofOf(bnTarget);
  }
}
