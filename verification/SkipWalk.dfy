/** The heights that skip pointers lead to, and how long a walk along them is. */
module SkipWalk {
  import opened Numbers

  // ---------------------------------------------------------------------------------------------
  // Skip heights
  // ---------------------------------------------------------------------------------------------

  function And(x: nat, y: nat): (r: nat)
    ensures r <= x && r <= y
  {
    if x == 0 || y == 0 then 0
    else (if x % 2 == 1 && y % 2 == 1 then 1 else 0) + 2 * And(x / 2, y / 2)
  }

  function InvertLowestOne(n: nat): (r: nat)
    ensures n > 0 ==> r < n
  {
    if n == 0 then 0 else And(n, n - 1)
  }

  /** The height to which the skip pointer of a block leads: always a lower one. */
  function GetSkipHeight(height: nat): (r: nat)
    ensures height > 0 ==> r < height
  {
    if height < 2 then 0
    else if height % 2 == 1 then InvertLowestOne(InvertLowestOne(height - 1)) + 1
    else InvertLowestOne(height)
  }

  /** Where the walk towards height `t` goes from height `w`: along the skip pointer, unless that of the
      block before it is better. */
  function NextHeight(w: nat, t: nat): (r: nat)
    requires t < w
    ensures t <= r < w
  {
    var skip, skipPrev := GetSkipHeight(w), GetSkipHeight(w - 1);
    if skip == t || (skip > t && !(skipPrev < skip - 2 && skipPrev >= t)) then skip else w - 1
  }

  function Steps(w: nat, t: nat): nat
    decreases w
  {
    if w <= t then 0 else 1 + Steps(NextHeight(w, t), t)
  }

  // ---------------------------------------------------------------------------------------------
  // How long the walk is
  // ---------------------------------------------------------------------------------------------

  lemma {:induction false} InvertHalf(n: nat)
    ensures InvertLowestOne(2 * n) == 2 * InvertLowestOne(n)
    ensures InvertLowestOne(2 * n + 1) == 2 * n
  {
    AndSelf(n);
    if n > 0 {
      assert (2 * n - 1) / 2 == n - 1 && 2 * n / 2 == n && (2 * n + 1) / 2 == n;
    }
  }

  lemma {:induction false} AndSelf(n: nat)
    ensures And(n, n) == n
  {
    if n > 0 { AndSelf(n / 2); }
  }

  /** The number whose lowest one is bit `k`, with the bits of `m` above it. */
  function OneAt(m: nat, k: nat): nat { (2 * m + 1) * Pow(2, k) }

  /** The same number without that one. */
  function Above(m: nat, k: nat): nat { 2 * m * Pow(2, k) }

  lemma OneUp(m: nat, k: nat)
    requires k > 0
    ensures OneAt(m, k) == 2 * OneAt(m, k - 1) && Above(m, k) == 2 * Above(m, k - 1) && OneAt(m, k) == Above(m, k) + Pow(2, k)
    ensures OneAt(m, k) >= 2 && OneAt(m, 0) == 2 * m + 1 && Above(m, 0) == 2 * m
  {
    var p := Pow(2, k - 1);
    PowPositive(2, k - 1);
    assert (2 * m + 1) * (2 * p) == 2 * ((2 * m + 1) * p);
    assert 2 * m * (2 * p) == 2 * (2 * m * p);
    MulAtLeast(2 * m + 1, p);
  }

  lemma {:induction false} LowestOne(m: nat, k: nat)
    ensures InvertLowestOne(OneAt(m, k)) == Above(m, k)
  {
    hide InvertLowestOne, OneAt, Above;
    OneUp(m, if k == 0 then 1 else k);
    if k == 0 {
      InvertHalf(m);
    } else {
      LowestOne(m, k - 1);
      InvertHalf(OneAt(m, k - 1));
    }
  }

  /** From an even height the skip takes the lowest one away; from an odd height it takes away the two lowest above the
      unit. */
  lemma SkipHeightIs(m: nat, j: nat, k: nat)
    requires j > k > 0
    ensures GetSkipHeight(OneAt(m, k)) == Above(m, k)
    ensures GetSkipHeight(OneAt(m, j) + Pow(2, k) + 1) == Above(m, j) + 1
    ensures GetSkipHeight(Pow(2, k) + 1) == 1
  {
    hide InvertLowestOne, OneAt, Above, Pow, GetSkipHeight;
    LowestOne(m, k);
    LowestOne(0, k);
    LowestOne(m, j);
    LowestOfTwo(m, j, k);
    OneUp(m, k);
    OneUp(m, j);
    OneUp(0, k);
    ZeroAbove(k);
    SkipOf(OneAt(m, k));
    SkipOf(OneAt(m, j) + Pow(2, k) + 1);
    SkipOf(Pow(2, k) + 1);
  }

  lemma ZeroAbove(k: nat)
    ensures Above(0, k) == 0 && OneAt(0, k) == Pow(2, k) && InvertLowestOne(0) == 0
  {}

  lemma SkipOf(height: nat)
    requires height >= 2
    ensures GetSkipHeight(height) == if height % 2 == 1 then InvertLowestOne(InvertLowestOne(height - 1)) + 1 else InvertLowestOne(height)
  {}

  lemma {:induction false} LowestOfTwo(m: nat, j: nat, k: nat)
    requires j > k
    ensures InvertLowestOne(OneAt(m, j) + Pow(2, k)) == OneAt(m, j)
  {
    hide InvertLowestOne, OneAt;
    OneUp(m, j);
    if k == 0 {
      InvertHalf(OneAt(m, j - 1));
      assert Pow(2, 0) == 1;
    } else {
      LowestOfTwo(m, j - 1, k - 1);
      InvertHalf(OneAt(m, j - 1) + Pow(2, k - 1));
    }
  }

  /** The highest bit in which two numbers differ. */
  function Level(w: nat, t: nat): nat
    requires t < w
  {
    if w / 2 == t / 2 then 0 else Level(w / 2, t / 2) + 1
  }

  /** How many ones the larger number has below that bit. */
  function Ones(w: nat, t: nat): (r: nat)
    requires t < w
    ensures r <= Level(w, t)
  {
    if w / 2 == t / 2 then 0 else Ones(w / 2, t / 2) + w % 2
  }

  lemma Halves(w: nat, t: nat, odd: nat)
    requires t / 2 < w && odd <= 1
    ensures t < 2 * w + odd && Level(2 * w + odd, t) == Level(w, t / 2) + 1 && Ones(2 * w + odd, t) == Ones(w, t / 2) + odd
  {
    assert (2 * w + odd) / 2 == w && (2 * w + odd) % 2 == odd;
  }

  /** Taking away the lowest one either takes one of those ones, or leads down to the target or past it. */
  lemma {:induction false} InvertLevel(w: nat, t: nat)
    requires t < w
    ensures var r := InvertLowestOne(w);
      if Ones(w, t) > 0 then r > t && Level(r, t) == Level(w, t) && Ones(r, t) == Ones(w, t) - 1 else r <= t
  {
    hide InvertLowestOne;
    var h, u := w / 2, t / 2;
    InvertHalf(h);
    if w % 2 == 1 {
      assert w == 2 * h + 1;
      if h != u { Halves(h, t, 0); }
    } else {
      assert w == 2 * h && h > u;
      InvertLevel(h, u);
      if Ones(h, u) > 0 { Halves(InvertLowestOne(h), t, 0); }
    }
  }

  lemma OddHasOne(w: nat, t: nat)
    requires t < w - 1 && w % 2 == 1
    ensures Ones(w, t) > 0
  {}

  lemma SameHalves(w: nat, t: nat)
    requires t < w && w / 2 == t / 2
    ensures Level(w, t) == 0 && Ones(w, t) == 0
  {}

  /** One below a number without such ones: the level falls, and all bits below it are ones. */
  lemma {:induction false} BelowLevel(w: nat, t: nat)
    requires t < w - 1 && w % 2 == 0 && Ones(w, t) == 0
    ensures Level(w - 1, t) < Level(w, t) && Ones(w - 1, t) == Level(w - 1, t)
  {
    hide Level, Ones;
    var h, u := w / 2, t / 2;
    assert w == 2 * h && w - 1 == 2 * (h - 1) + 1 && u <= h - 1;
    Halves(h, t, 0);
    if h - 1 > u {
      if h % 2 == 1 { OddHasOne(h, u); }
      BelowLevel(h, u);
      Halves(h - 1, t, 1);
    } else {
      SameHalves(w - 1, t);
    }
  }

  /** The skip from an odd height, in halves. */
  lemma OddSkip(h: nat)
    requires h > 0
    ensures GetSkipHeight(2 * h + 1) == 2 * InvertLowestOne(InvertLowestOne(h)) + 1
    ensures GetSkipHeight(2 * h) == 2 * InvertLowestOne(h)
  {
    hide InvertLowestOne;
    InvertHalf(h);
    InvertHalf(InvertLowestOne(h));
  }

  /** From an odd height the skip is taken whenever it does not lead past the target. */
  lemma OddNext(h: nat, t: nat)
    requires h > 0 && t < 2 * h + 1
    ensures NextHeight(2 * h + 1, t) ==
      if GetSkipHeight(2 * h + 1) >= t then GetSkipHeight(2 * h + 1) else 2 * h
  {
    OddSkip(h);
  }

  /** Where the skip of the block before is better, it takes away the two or three lowest ones. */
  lemma BetterBefore(h: nat)
    requires h > 1
    requires GetSkipHeight(2 * h - 1) < GetSkipHeight(2 * h) - 2
    ensures var i := InvertLowestOne(InvertLowestOne(h));
      GetSkipHeight(2 * h - 1) == 2 * (if h % 2 == 1 then InvertLowestOne(i) else i) + 1
  {
    hide InvertLowestOne;
    OddSkip(h);
    OddSkip(h - 1);
    InvertHalf(h / 2);
    if h % 2 == 0 { BetterBeforeEven(h / 2); }
  }

  lemma BetterBeforeEven(x: nat)
    requires x > 0
    requires 2 * InvertLowestOne(InvertLowestOne(2 * x - 1)) + 1 < 2 * InvertLowestOne(2 * x) - 2
    ensures InvertLowestOne(InvertLowestOne(2 * x - 1)) == InvertLowestOne(InvertLowestOne(2 * x))
  {
    hide InvertLowestOne;
    InvertHalf(x);
    InvertHalf(x - 1);
    assert 2 * x - 1 == 2 * (x - 1) + 1;
    InvertHalf(x / 2);
    if x % 2 == 0 { EvenPair(x / 2); }
  }

  lemma EvenPair(h: nat)
    requires h > 0
    ensures InvertLowestOne(2 * h - 1) == 2 * h - 2 >= InvertLowestOne(2 * h)
  {
    hide InvertLowestOne;
    InvertHalf(h - 1);
    InvertHalf(h);
    assert 2 * h - 1 == 2 * (h - 1) + 1;
  }

  /** Two ones less, in halves. */
  lemma InvertTwice(h: nat, u: nat)
    requires u < h
    ensures var i := InvertLowestOne(InvertLowestOne(h));
      if Ones(h, u) >= 2 then i > u && Level(i, u) == Level(h, u) && Ones(i, u) == Ones(h, u) - 2 else i <= u
  {
    hide Level, Ones;
    InvertLevel(h, u);
    if InvertLowestOne(h) > u { InvertLevel(InvertLowestOne(h), u); }
  }

  /** From an odd height two ones are taken away at once, unless there are not that many. Then the walk
      is at the target or next to it, or takes the ones that are left one by one. */
  lemma OddMoves(h: nat, t: nat)
    requires t / 2 < h
    ensures var w, r := 2 * h + 1, NextHeight(2 * h + 1, t);
      if Ones(w, t) >= 3 then r % 2 == 1 && r > t && Level(r, t) == Level(w, t) && Ones(r, t) == Ones(w, t) - 2
      else
        || r <= t + 1
        || (&& r == 2 * h > t && Level(r, t) == Level(w, t) && Ones(r, t) == Ones(w, t) - 1
            && (Ones(w, t) == 2 ==>
                  var q := NextHeight(r, t); q % 2 == 0 && q > t && Level(q, t) == Level(w, t) && Ones(q, t) == 0))
  {
    hide InvertLowestOne, GetSkipHeight, Level, Ones;
    var u, i := t / 2, InvertLowestOne(InvertLowestOne(h));
    OddNext(h, t);
    OddSkip(h);
    InvertTwice(h, u);
    Halves(h, t, 1);
    Halves(h, t, 0);
    if Ones(h, u) >= 2 {
      Halves(i, t, 1);
    } else if 2 * i + 1 < t && Ones(h, u) == 1 {
      InvertLevel(h, u);
      Halves(InvertLowestOne(h), t, 0);
      if GetSkipHeight(2 * h - 1) < GetSkipHeight(2 * h) - 2 { BetterBefore(h); Falls(i); }
    }
  }

  lemma Falls(n: nat)
    ensures InvertLowestOne(n) <= n
  {}

  /** From an even height one of the ones is taken away, or two of them in two steps; without any the
      level falls. */
  lemma EvenMoves(h: nat, t: nat)
    requires t / 2 < h
    ensures var w, r := 2 * h, NextHeight(2 * h, t);
      var c := Ones(w, t);
      if c == 0 then
        r == t || (r == w - 1 > t && Level(r, t) < Level(w, t) && Ones(r, t) == Level(r, t))
      else
        || (r % 2 == 0 && r > t && Level(r, t) == Level(w, t) && Ones(r, t) == c - 1)
        || (&& r > t && r % 2 == 1
            && var q := NextHeight(r, t);
               || q <= t + 1
               || (q % 2 == 1 && Level(q, t) == Level(w, t) && 1 <= Ones(q, t) <= c - 1))
  {
    hide InvertLowestOne, GetSkipHeight, Level, Ones;
    var w := 2 * h;
    assert w > t by { Halves(h, t, 0); }
    OddSkip(h);
    InvertHalf(h);
    InvertLevel(w, t);
    if Ones(w, t) == 0 {
      if NextHeight(w, t) == w - 1 > t { BelowLevel(w, t); }
    } else if NextHeight(w, t) != InvertLowestOne(w) {
      EvenDetour(h, t);
    }
  }

  lemma EvenDetour(h: nat, t: nat)
    requires t / 2 < h && h > 1 && GetSkipHeight(2 * h - 1) < GetSkipHeight(2 * h) - 2
    requires GetSkipHeight(2 * h - 1) >= t
    ensures var q := GetSkipHeight(2 * h - 1);
      && t < 2 * h - 1 && NextHeight(2 * h - 1, t) == q && q % 2 == 1
      && (q <= t + 1 || (Level(q, t) == Level(2 * h, t) && 1 <= Ones(q, t) <= Ones(2 * h, t) - 1))
  {
    hide InvertLowestOne, GetSkipHeight, Level, Ones;
    BetterBefore(h);
    var u, i := t / 2, InvertLowestOne(InvertLowestOne(h));
    var j := if h % 2 == 1 then InvertLowestOne(i) else i;
    assert 2 * h - 1 == 2 * (h - 1) + 1;
    OddNext(h - 1, t);
    if j > u {
      Falls(i);
      InvertTwice(h, u);
      InvertLevel(i, u);
      Halves(j, t, 1);
      Halves(h, t, 0);
    }
  }

  /** The steps that all lower levels can take: half as many as there are bits, and two more, for each. */
  function Below(level: nat): nat { if level == 0 then 0 else Below(level - 1) + (level - 1) / 2 + 2 }

  lemma {:induction false} BelowGrows(m: nat, n: nat)
    requires m <= n
    ensures Below(m) <= Below(n)
  {
    if m < n { BelowGrows(m, n - 1); }
  }

  function StepBound(w: nat, t: nat): nat
    requires t < w
  {
    Below(Level(w, t)) +
    if w % 2 == 1 then Ones(w, t) / 2 + 2 else if Ones(w, t) == 0 then 1 else Ones(w, t) + 2
  }

  lemma OneStep(t: nat)
    ensures Steps(t + 1, t) == 1
  {
    assert NextHeight(t + 1, t) == t;
  }

  lemma {:induction false} StepsLevel(w: nat, t: nat)
    requires t < w
    ensures Steps(w, t) <= StepBound(w, t)
  {
    hide NextHeight, Level, Ones, Below;
    var h, r := w / 2, NextHeight(w, t);
    if h == t / 2 {
      assert r == t;
    } else if w % 2 == 1 {
      assert w == 2 * h + 1;
      OddMoves(h, t);
      if r > t + 1 {
        if r % 2 == 0 && Ones(w, t) == 2 {
          var q := NextHeight(r, t);
          assert Steps(w, t) == 1 + Steps(r, t) && Steps(r, t) == 1 + Steps(q, t);
          StepsLevel(q, t);
        } else {
          StepsLevel(r, t);
        }
      } else if r == t + 1 {
        OneStep(t);
      }
    } else {
      assert w == 2 * h;
      EvenMoves(h, t);
      if r > t {
        if r % 2 == 0 {
          StepsLevel(r, t);
        } else if Ones(w, t) == 0 {
          StepsLevel(r, t);
          LevelBelow(Level(r, t), Level(w, t));
        } else {
          var q := NextHeight(r, t);
          assert Steps(w, t) == 1 + Steps(r, t) && Steps(r, t) == 1 + Steps(q, t);
          if q > t + 1 { StepsLevel(q, t); } else if q == t + 1 { OneStep(t); }
        }
      }
    }
  }

  lemma LevelBelow(m: nat, n: nat)
    requires m < n
    ensures Below(m) + m / 2 + 2 <= Below(n)
  {
    BelowGrows(m + 1, n);
  }

  lemma {:induction false} LevelBound(w: nat, t: nat, k: nat)
    requires t < w < Pow(2, k)
    ensures Level(w, t) < k
  {
    if w / 2 != t / 2 { LevelBound(w / 2, t / 2, k - 1); }
  }

  function Square(n: nat): nat { n * n }

  lemma SquareNext(n: nat)
    ensures Square(n + 1) == Square(n) + 2 * n + 1
  {}

  lemma BelowStep(m: nat)
    ensures 4 * Below(m + 1) == 4 * Below(m) + 2 * m + 8 - 2 * (m % 2)
    ensures (m + 1) % 2 == 1 - m % 2
  {}

  lemma {:induction false} BelowIs(m: nat)
    ensures 4 * Below(m) == Square(m) + 6 * m + m % 2
  {
    hide Square, Below;
    if m > 0 {
      BelowIs(m - 1);
      SquareNext(m - 1);
      BelowStep(m - 1);
    } else {
      SquareZero();
    }
  }

  lemma SquareZero()
    ensures Square(0) == 0 && Below(0) == 0
  {}

  lemma StepsWithin(w: nat, t: nat, k: nat)
    requires w < Pow(2, k) && k > 0
    ensures Steps(w, t) <= Below(k - 1) + k + 1
  {
    hide Level, Ones, Below;
    if t < w {
      StepsLevel(w, t);
      LevelBound(w, t, k);
      BelowGrows(Level(w, t), k - 1);
    }
  }

  /** A walk among heights of `k` bits takes a number of steps that is quadratic in `k`: for 18 bits it is
      at most 117. */
  lemma StepsBound(w: nat, t: nat, k: nat)
    requires w < Pow(2, k) && k > 0
    ensures 4 * Steps(w, t) <= Square(k) + 8 * k
    ensures k == 18 ==> Steps(w, t) <= 117
  {
    hide Steps, Square, Below;
    StepsWithin(w, t, k);
    BelowIs(k - 1);
    SquareNext(k - 1);
    if k == 18 { SquareOf18(); }
  }

  lemma SquareOf18()
    ensures Square(18) == 324
  {}
}
