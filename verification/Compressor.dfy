/** The compact form in which unspent coins are stored: variable-length integers, amounts, scripts. */
module Compressor {
  import opened CoinsView
  import opened Numbers
  import opened Options

  type Bytes = seq<Byte>

  // ---------------------------------------------------------------------------------------------
  // Variable-length integers
  // ---------------------------------------------------------------------------------------------

  /** The bytes before the last one: seven bits each, with the top bit set. */
  function Leading(n: nat): Bytes
  {
    (if n <= 0x7f then [] else Leading(n / 128 - 1)) + [n % 128 + 128]
  }

  function VarInt(n: nat): Bytes
  {
    (if n <= 0x7f then [] else Leading(n / 128 - 1)) + [n % 128]
  }

  /** The number read from a stream, and the rest of the stream. */
  function ReadVarInt(s: Bytes, acc: nat): Option<(nat, Bytes)>
  {
    if s == [] then None
    else
      var n := acc * 128 + s[0] % 128;
      if s[0] >= 128 then ReadVarInt(s[1..], n + 1) else Some((n, s[1..]))
  }

  lemma ReadByte(x: Byte, rest: Bytes, acc: nat)
    ensures ReadVarInt([x] + rest, acc)
         == if x >= 128 then ReadVarInt(rest, acc * 128 + x % 128 + 1) else Some((acc * 128 + x % 128, rest))
  {}

  lemma {:induction false} ReadLeading(n: nat, rest: Bytes)
    ensures ReadVarInt(Leading(n) + rest, 0) == ReadVarInt(rest, n + 1)
  {
    hide ReadVarInt;
    var last := n % 128 + 128;
    if n <= 0x7f {
      ReadByte(last, rest, 0);
      assert Leading(n) + rest == [last] + rest;
    } else {
      var m := n / 128 - 1;
      ReadLeading(m, [last] + rest);
      ReadByte(last, rest, m + 1);
      assert Leading(n) + rest == Leading(m) + ([last] + rest);
    }
  }

  /** The number that bytes stand for: base 128, most significant byte first, with one more for every byte but the last. */
  function Weighted(s: Bytes): nat
  {
    if s == [] then 0
    else (s[0] % 128 + if |s| > 1 then 1 else 0) * Pow(128, |s| - 1) + Weighted(s[1..])
  }

  /** A number is written as the bytes that stand for it, all but the last one with the top bit set. */
  lemma VarIntMeans(n: nat)
    ensures var s := VarInt(n);
      && s != [] && s[|s| - 1] <= 0x7f && (forall i :: 0 <= i < |s| - 1 ==> s[i] >= 0x80)
      && Weighted(s) == n
  {
    if n > 0x7f {
      LeadingMeans(n / 128 - 1, n % 128);
    } else {
      assert VarInt(n) == [n];
      assert Pow(128, 0) == 1;
    }
  }

  lemma {:induction false} LeadingMeans(n: nat, last: Byte)
    ensures (forall i :: 0 <= i < |Leading(n)| ==> Leading(n)[i] >= 0x80) && Leading(n) != []
    ensures Weighted(Leading(n) + [last]) == (n + 1) * 128 + last % 128
  {
    hide Weighted, Pow;
    var x := n % 128 + 128;
    if n > 0x7f {
      LeadingMeans(n / 128 - 1, x);
      assert Leading(n) == Leading(n / 128 - 1) + [x];
    } else {
      assert Leading(n) == [x];
      WeightedByte(x);
    }
    WeightedSnoc(Leading(n), last);
    DivMod(n, 128);
  }

  lemma WeightedByte(x: Byte)
    ensures Weighted([x]) == x % 128
  {
    assert [x][1..] == [] && Pow(128, 0) == 1;
  }

  /** One more byte behind: the others count 128 times as much, and the last of them once more. */
  lemma {:induction false} WeightedSnoc(s: Bytes, x: Byte)
    requires s != []
    ensures Weighted(s + [x]) == (Weighted(s) + 1) * 128 + x % 128
  {
    assert (s + [x])[1..] == s[1..] + [x];
    assert Pow(128, |s|) == 128 * Pow(128, |s| - 1);
    if |s| > 1 {
      WeightedSnoc(s[1..], x);
      MulAssoc(s[0] % 128 + 1, 128, Pow(128, |s| - 1));
      MulAssoc(128, s[0] % 128 + 1, Pow(128, |s| - 1));
    } else {
      assert s[1..] + [x] == [x] && [x][1..] == [] && s[1..] == [];
      assert Pow(128, 0) == 1;
    }
  }

  /** Reading gives back what was written, and stops where it ended. */
  lemma VarIntRoundTrip(n: nat, rest: Bytes)
    ensures ReadVarInt(VarInt(n) + rest, 0) == Some((n, rest))
  {
    hide ReadVarInt;
    var last := n % 128;
    if n <= 0x7f {
      ReadByte(last, rest, 0);
      assert VarInt(n) + rest == [last] + rest;
    } else {
      var m := n / 128 - 1;
      ReadLeading(m, [last] + rest);
      ReadByte(last, rest, m + 1);
      assert VarInt(n) + rest == Leading(m) + ([last] + rest);
    }
  }

  /** And no other bytes are read as the same number. */
  lemma {:induction false} VarIntUnique(s: Bytes, acc: nat)
    requires ReadVarInt(s, acc).Some?
    ensures var (n, rest) := ReadVarInt(s, acc).value;
      Prefix(acc) + s == VarInt(n) + rest
    decreases |s|
  {
    var n := acc * 128 + s[0] % 128;
    PrefixStep(acc, s[0]);
    assert s == [s[0]] + s[1..];
    assert Prefix(acc) + s == Prefix(acc) + [s[0]] + s[1..];
    if s[0] >= 128 {
      VarIntUnique(s[1..], n + 1);
    }
  }

  lemma PrefixStep(acc: nat, x: Byte)
    ensures var n := acc * 128 + x % 128;
      Prefix(acc) + [x] == if x >= 128 then Prefix(n + 1) else VarInt(n)
  {
    var n := acc * 128 + x % 128;
    assert n / 128 == acc && n % 128 == x % 128;
  }

  /** The bytes that bring a reader to an accumulated value. */
  function Prefix(acc: nat): Bytes { if acc == 0 then [] else Leading(acc - 1) }

  /** The bytes still to be sent above those in the buffer. */
  function Rest(n: nat, inner: bool): Bytes { if inner then Leading(n) else VarInt(n) }

  function LowByte(n: nat, inner: bool): Byte { if inner then n % 128 + 128 else n % 128 }

  lemma RestStep(n: nat, inner: bool, tail: Bytes)
    ensures Rest(n, inner) + tail
         == if n <= 0x7f then [LowByte(n, inner)] + tail
            else Rest(n / 128 - 1, true) + ([LowByte(n, inner)] + tail)
  {}

  lemma FewerDigits(n: nat, k: nat)
    requires k > 0 && n > 0x7f && n < Pow(128, k)
    ensures k > 1 && n / 128 - 1 < Pow(128, k - 1)
  {
    assert Pow(128, 1) == 128;
  }

  /** The writer fills a buffer from its low end and sends it from the top. */
  method WriteVarInt(value: nat, capacity: nat) returns (out: Bytes)
    requires capacity > 0 && value < Pow(128, capacity)
    ensures out == VarInt(value)
  {
    hide Pow, Rest, Reversed, LowByte, VarInt, Leading;
    var tmp := new Byte[capacity](i => 0);
    var n: nat, len: nat := value, 0;
    assert Rest(n, false) + Reversed(tmp[..0]) == VarInt(value) by { NothingSent(value, tmp[..0]); }
    while true
      invariant len < capacity && n < Pow(128, capacity - len)
      invariant VarInt(value) == Rest(n, len != 0) + Reversed(tmp[..len])
      decreases n
    {
      RestStep(n, len != 0, Reversed(tmp[..len]));
      tmp[len] := LowByte(n, len != 0);
      assert tmp[..len + 1] == tmp[..len] + [tmp[len]];
      ReversedSnoc(tmp[..len], tmp[len]);
      if n <= 0x7f { break; }
      FewerDigits(n, capacity - len);
      n := n / 128 - 1;
      len := len + 1;
    }
    out := Send(tmp, len + 1);
  }

  lemma NothingSent(value: nat, s: Bytes)
    requires s == []
    ensures Rest(value, false) + Reversed(s) == VarInt(value)
  {}

  method Send(tmp: array<Byte>, count: nat) returns (out: Bytes)
    requires count <= tmp.Length
    ensures out == Reversed(tmp[..count])
  {
    out := [];
    var i := count;
    while i > 0
      invariant 0 <= i <= count && Reversed(tmp[..count]) == out + Reversed(tmp[..i])
    {
      assert tmp[..i] == tmp[..i - 1] + [tmp[i - 1]];
      ReversedSnoc(tmp[..i - 1], tmp[i - 1]);
      i := i - 1;
      out := out + [tmp[i]];
    }
  }

  function Reversed(s: Bytes): Bytes { if s == [] then [] else [s[|s| - 1]] + Reversed(s[..|s| - 1]) }

  lemma ReversedSnoc(s: Bytes, x: Byte)
    ensures Reversed(s + [x]) == [x] + Reversed(s)
  {}

  /** The reader's arithmetic wraps at its word size, which only matters for numbers that do not fit. */
  method ReadWord(s: Bytes, size: nat) returns (r: Option<(nat, Bytes)>)
    requires size > 0
    ensures r.Some? <==> ReadVarInt(s, 0).Some?
    ensures r.Some? ==>
      r.value.0 == ReadVarInt(s, 0).value.0 % size && r.value.1 == ReadVarInt(s, 0).value.1
  {
    hide Wrapped;
    var n: nat, i := 0, 0;
    ghost var exact: nat := 0;
    assert s[0..] == s;
    IsWrapped(0, size);
    while i < |s|
      invariant 0 <= i <= |s| && n == Wrapped(exact, size) && ReadVarInt(s, 0) == ReadVarInt(s[i..], exact)
    {
      assert s[i..][1..] == s[i + 1..];
      var c := s[i];
      i := i + 1;
      WrapStep(exact, n, c % 128, size);
      WrapStep(exact, n, c % 128 + 1, size);
      if c >= 128 {
        n := (n * 128 + c % 128 + 1) % size;
        exact := exact * 128 + c % 128 + 1;
      } else {
        n := (n * 128 + c % 128) % size;
        IsWrapped(exact * 128 + c % 128, size);
        return Some((n, s[i..]));
      }
    }
    return None;
  }

  function Wrapped(n: nat, size: nat): nat
    requires size > 0
  {
    n % size
  }

  lemma IsWrapped(n: nat, size: nat)
    requires size > 0
    ensures Wrapped(n, size) == n % size && Wrapped(0, size) == 0
  {}

  lemma WrapStep(exact: nat, n: nat, c: nat, size: nat)
    requires size > 0 && n == Wrapped(exact, size)
    ensures (n * 128 + c) % size == Wrapped(exact * 128 + c, size)
  {
    DivMod(exact, size);
    var q, x := exact / size, n * 128 + c;
    DivMod(x, size);
    assert exact * 128 + c == (q * 128 + x / size) * size + x % size;
    DivUnique(exact * 128 + c, size, q * 128 + x / size, x % size);
  }

  /** The buffer has room for every number of a word of `bits` bits. */
  lemma BufferSuffices(bits: nat)
    ensures Pow(2, bits) <= Pow(128, (bits + 6) / 7)
  {
    var k := (bits + 6) / 7;
    assert Pow(2, 7) == 128 by { PowAdd(2, 4, 3); assert Pow(2, 4) == 16 && Pow(2, 3) == 8; }
    PowOfPow(2, 7, k);
    PowGrows(2, bits, 7 * k);
  }

  // ---------------------------------------------------------------------------------------------
  // Amounts
  // ---------------------------------------------------------------------------------------------

  const WORD64 := 0x1_0000_0000_0000_0000
  const MAX_MONEY := 21_000_000 * 100_000_000

  function Times10(n: nat, e: nat): nat
    decreases e
  {
    if e == 0 then n else 10 * Times10(n, e - 1)
  }

  lemma {:induction false} Times10Shift(n: nat, e: nat)
    requires e > 0
    ensures Times10(10 * n, e - 1) == Times10(n, e)
  {
    if e > 1 { Times10Shift(n, e - 1); }
  }

  /** A number without its trailing zeros, of which at most `limit` are taken off, and how many were. */
  function Strip(n: nat, limit: nat): (r: (nat, nat))
    ensures r.1 <= limit && Times10(r.0, r.1) == n
    ensures r.1 < limit ==> r.0 % 10 != 0
    ensures n > 0 ==> r.0 > 0
  {
    if n % 10 == 0 && limit > 0 then
      var r := Strip(n / 10, limit - 1);
      (r.0, r.1 + 1)
    else (n, 0)
  }

  lemma {:induction false} StripTimes10(m: nat, e: nat, limit: nat)
    requires e <= limit && m > 0 && (e < limit ==> m % 10 != 0)
    ensures Strip(Times10(m, e), limit) == (m, e)
  {
    hide Strip;
    if e > 0 {
      StripTimes10(m, e - 1, limit - 1);
      StripStep(Times10(m, e - 1), limit);
    } else {
      StripNone(m, limit);
    }
  }

  lemma StripStep(k: nat, limit: nat)
    requires limit > 0
    ensures Strip(10 * k, limit) == (Strip(k, limit - 1).0, Strip(k, limit - 1).1 + 1)
  {
    assert 10 * k % 10 == 0 && 10 * k / 10 == k;
  }

  lemma StripNone(m: nat, limit: nat)
    requires limit > 0 ==> m % 10 != 0
    ensures Strip(m, limit) == (m, 0)
  {}

  function Compressed(amount: nat): nat
  {
    if amount == 0 then 0
    else
      var (n, e) := Strip(amount, 9);
      Packed(n, e)
  }

  /** The last digit, which is not zero, is kept apart from the rest, unless nine zeros were taken off. */
  function Packed(n: nat, e: nat): nat
    requires e <= 9 && n > 0 && (e < 9 ==> n % 10 != 0)
  {
    if e < 9 then 1 + (n / 10 * 9 + n % 10 - 1) * 10 + e else 1 + (n - 1) * 10 + 9
  }

  function Unpacked(code: nat): (r: (nat, nat))
    requires code > 0
    ensures r.1 <= 9 && r.0 > 0 && (r.1 < 9 ==> r.0 % 10 != 0)
  {
    var e, x := (code - 1) % 10, (code - 1) / 10;
    (if e < 9 then x / 9 * 10 + x % 9 + 1 else x + 1, e)
  }

  function Decompressed(code: nat): nat
  {
    if code == 0 then 0 else Times10(Unpacked(code).0, Unpacked(code).1)
  }

  lemma {:induction false} Times10Is(n: nat, e: nat)
    ensures Times10(n, e) == n * Pow(10, e)
  {
    if e > 0 {
      Times10Is(n, e - 1);
      MulAssoc(10, n, Pow(10, e - 1));
      MulAssoc(n, 10, Pow(10, e - 1));
    }
  }

  /** The code of an amount whose last digit other than zero is `d`, with `e` zeros behind it and the number `q` before it;
      and of a multiple of ten to the ninth. */
  lemma CompressedMeans(q: nat, d: nat, e: nat)
    ensures 1 <= d <= 9 && e <= 8 ==> Compressed((10 * q + d) * Pow(10, e)) == 1 + 10 * (9 * q + d - 1) + e
    ensures q > 0 ==> Compressed(q * Pow(10, 9)) == 1 + 10 * (q - 1) + 9
    ensures Compressed(0) == 0
  {
    hide Strip;
    if 1 <= d <= 9 && e <= 8 {
      var n := 10 * q + d;
      DivUnique(n, 10, q, d);
      Times10Is(n, e);
      StripTimes10(n, e, 9);
      Times10Positive(n, e);
    }
    if q > 0 {
      Times10Is(q, 9);
      StripTimes10(q, 9, 9);
      Times10Positive(q, 9);
    }
  }

  lemma UnpackPacked(n: nat, e: nat)
    requires e <= 9 && n > 0 && (e < 9 ==> n % 10 != 0)
    ensures Unpacked(Packed(n, e)) == (n, e)
  {
    if e < 9 {
      var x := n / 10 * 9 + n % 10 - 1;
      DivUnique(x, 9, n / 10, n % 10 - 1);
      DivUnique(Packed(n, e) - 1, 10, x, e);
    } else {
      DivUnique(Packed(n, e) - 1, 10, n - 1, e);
    }
  }

  lemma PackUnpacked(code: nat)
    requires code > 0
    ensures Packed(Unpacked(code).0, Unpacked(code).1) == code
  {
    var e, x := (code - 1) % 10, (code - 1) / 10;
    DivMod(code - 1, 10);
    DivMod(x, 9);
    DivUnique(x / 9 * 10 + x % 9 + 1, 10, x / 9, x % 9 + 1);
  }

  /** The amount code is one-to-one on all numbers. */
  lemma AmountRoundTrip(amount: nat)
    ensures Decompressed(Compressed(amount)) == amount
  {
    if amount > 0 {
      var (n, e) := Strip(amount, 9);
      UnpackPacked(n, e);
    }
  }

  lemma CodeRoundTrip(code: nat)
    ensures Compressed(Decompressed(code)) == code
  {
    if code > 0 {
      var (n, e) := Unpacked(code);
      StripTimes10(n, e, 9);
      Times10Positive(n, e);
      PackUnpacked(code);
    }
  }

  lemma {:induction false} Times10Positive(n: nat, e: nat)
    requires n > 0
    ensures Times10(n, e) >= n
  {
    if e > 0 { Times10Positive(n, e - 1); }
  }

  function Wrap(x: nat): (r: nat)
    ensures r < WORD64 && (x < WORD64 ==> r == x)
  {
    x % WORD64
  }

  /** Wrapping early does not matter to sums and products. */
  lemma WrapSum(x: nat, y: nat)
    ensures Wrap(Wrap(x) + y) == Wrap(x + y)
  {
    DivMod(x, WORD64);
    Shifted(x % WORD64 + y, x / WORD64);
  }

  lemma WrapProduct(x: nat, y: nat)
    ensures Wrap(y * Wrap(x)) == Wrap(y * x)
  {
    var q, r := x / WORD64, x % WORD64;
    DivMod(x, WORD64);
    Shifted(y * r, y * q);
    MulAssoc(y, WORD64, q);
    MulAssoc(WORD64, y, q);
    assert y * x == y * (WORD64 * q) + y * r;
  }

  lemma Shifted(x: nat, q: nat)
    ensures Wrap(WORD64 * q + x) == Wrap(x)
  {
    DivMod(x, WORD64);
    DivUnique(WORD64 * q + x, WORD64, q + x / WORD64, x % WORD64);
  }

  /** A code is at most ten times its amount, so that amounts of money have codes of 64 bits. */
  lemma CompressedBound(amount: nat)
    ensures Compressed(amount) <= 10 * amount
    ensures amount <= MAX_MONEY ==> 10 * amount < WORD64
  {
    if amount > 0 {
      var (n, e) := Strip(amount, 9);
      Times10Positive(n, e);
      DivMod(n, 10);
    }
  }

  /** Takes trailing zeros off, at most nine. */
  method StripZeros(amount: nat) returns (n: nat, e: nat)
    requires amount > 0
    ensures (n, e) == Strip(amount, 9)
  {
    hide Strip;
    n, e := amount, 0;
    while n % 10 == 0 && e < 9
      invariant n > 0 && e <= 9 && Strip(amount, 9) == (Strip(n, 9 - e).0, Strip(n, 9 - e).1 + e)
      decreases 9 - e
    {
      StripStep(n / 10, 9 - e);
      n := n / 10;
      e := e + 1;
    }
    StripNone(n, 9 - e);
  }

  /** The computation on 64-bit words. */
  method CompressAmount(amount: nat) returns (code: nat)
    requires amount < WORD64
    ensures code == Wrap(Compressed(amount))
  {
    hide Wrap, Strip, Packed;
    if amount == 0 { return 0; }
    var n, e := StripZeros(amount);
    PackWrapped(n, e);
    if e < 9 {
      var d := n % 10;
      assert 1 <= d <= 9;
      n := n / 10;
      code := Wrap(1 + Wrap(10 * Wrap(Wrap(9 * n) + d - 1)) + e);
    } else {
      code := Wrap(1 + Wrap(10 * (n - 1)) + 9);
    }
  }

  lemma PackWrapped(n: nat, e: nat)
    requires e <= 9 && n > 0 && (e < 9 ==> n % 10 != 0)
    ensures if e < 9 then Wrap(1 + Wrap(10 * Wrap(Wrap(9 * (n / 10)) + n % 10 - 1)) + e) == Wrap(Packed(n, e))
            else Wrap(1 + Wrap(10 * (n - 1)) + 9) == Wrap(Packed(n, e))
  {
    hide Wrap;
    if e < 9 {
      var q, d := n / 10, n % 10;
      WrapSum(9 * q, d - 1);
      WrapProduct(9 * q + d - 1, 10);
      WrapSum(10 * (9 * q + d - 1), 1 + e);
    } else {
      WrapSum(10 * (n - 1), 10);
    }
  }

  lemma UnpackedBound(code: nat)
    requires code > 0
    ensures Unpacked(code).0 <= code
  {
    var x := (code - 1) / 10;
    DivMod(code - 1, 10);
    DivMod(x, 9);
  }

  method DecompressAmount(code: nat) returns (amount: nat)
    requires code < WORD64
    ensures amount == Wrap(Decompressed(code))
  {
    if code == 0 { return 0; }
    UnpackedBound(code);
    var x := code - 1;
    var e := x % 10;
    x := x / 10;
    var n: nat := if e < 9 then x / 9 * 10 + x % 9 + 1 else x + 1;
    amount := AppendZeros(n, e);
  }

  method AppendZeros(start: nat, count: nat) returns (n: nat)
    requires start < WORD64
    ensures n == Wrap(Times10(start, count))
  {
    hide Wrap;
    n := start;
    var e := count;
    while e > 0
      invariant n < WORD64 && Wrap(Times10(n, e)) == Wrap(Times10(start, count))
    {
      Times10Shift(n, e);
      WrapTimes10(10 * n, e - 1);
      n := Wrap(10 * n);
      e := e - 1;
    }
  }

  lemma {:induction false} WrapTimes10(n: nat, e: nat)
    ensures Wrap(Times10(Wrap(n), e)) == Wrap(Times10(n, e))
  {
    hide Wrap;
    if e > 0 {
      WrapTimes10(n, e - 1);
      WrapProduct(Times10(n, e - 1), 10);
      WrapProduct(Times10(Wrap(n), e - 1), 10);
    } else {
      WrapSum(n, 0);
    }
  }

  // ---------------------------------------------------------------------------------------------
  // Scripts
  // ---------------------------------------------------------------------------------------------

  const OP_DUP: Byte := 0x76
  const OP_EQUAL: Byte := 0x87
  const OP_EQUALVERIFY: Byte := 0x88
  const OP_HASH160: Byte := 0xa9
  const OP_CHECKSIG: Byte := 0xac
  const SPECIAL_SCRIPTS := 6

  /** The curve: which 65-byte keys are valid, and the full form of a 33-byte key. */
  datatype Curve = Curve(valid: Bytes -> bool, decompress: Bytes -> Option<Bytes>)

  /** A valid key is the full form of its first coordinate and the parity of its second. */
  ghost predicate Sound(c: Curve)
  {
    && (forall k :: |k| == 65 && k[0] == 4 && c.valid(k) ==> c.decompress([2 + k[64] % 2] + k[1..33]) == Some(k))
    && forall x :: c.decompress(x).Some? ==> |c.decompress(x).value| == 65
  }

  predicate IsToKeyID(s: Bytes)
  {
    |s| == 25 && s[0] == OP_DUP && s[1] == OP_HASH160 && s[2] == 20 && s[23] == OP_EQUALVERIFY && s[24] == OP_CHECKSIG
  }

  predicate IsToScriptID(s: Bytes) { |s| == 23 && s[0] == OP_HASH160 && s[1] == 20 && s[22] == OP_EQUAL }

  predicate IsToShortKey(s: Bytes)
  {
    |s| == 35 && s[0] == 33 && s[34] == OP_CHECKSIG && (s[1] == 2 || s[1] == 3)
  }

  predicate IsToLongKey(c: Curve, s: Bytes)
  {
    |s| == 67 && s[0] == 65 && s[66] == OP_CHECKSIG && s[1] == 4 && c.valid(s[1..66])
  }

  /** The short form of a script of one of the usual kinds. */
  function Compress(c: Curve, s: Bytes): Option<Bytes>
  {
    if IsToKeyID(s) then Some([0] + s[3..23])
    else if IsToScriptID(s) then Some([1] + s[2..22])
    else if IsToShortKey(s) then Some([s[1]] + s[2..34])
    else if IsToLongKey(c, s) then Some([4 + s[65] % 2] + s[2..34])
    else None
  }

  /** Exactly these scripts have a short form: a hash of a key or of a script, in 21 bytes; a key in 33 bytes or, if it is
      valid, in 65, in 33 bytes. */
  lemma ShortForms(c: Curve, s: Bytes)
    ensures (|s| == 25 && s[..3] == [0x76, 0xa9, 20] && s[23..] == [0x88, 0xac]) ==> Compress(c, s) == Some([0] + s[3..23])
    ensures (|s| == 23 && s[..2] == [0xa9, 20] && s[22..] == [0x87]) ==> Compress(c, s) == Some([1] + s[2..22])
    ensures (|s| == 35 && (s[..2] == [33, 2] || s[..2] == [33, 3]) && s[34..] == [0xac]) ==> Compress(c, s) == Some(s[1..34])
    ensures (|s| == 67 && s[..2] == [65, 4] && s[66..] == [0xac] && c.valid(s[1..66])) ==>
      Compress(c, s) == Some([if s[65] % 2 == 0 then 4 else 5] + s[2..34])
    ensures Compress(c, s).Some? ==>
      || (|s| == 25 && s[..3] == [0x76, 0xa9, 20] && s[23..] == [0x88, 0xac])
      || (|s| == 23 && s[..2] == [0xa9, 20] && s[22..] == [0x87])
      || (|s| == 35 && (s[..2] == [33, 2] || s[..2] == [33, 3]) && s[34..] == [0xac])
      || (|s| == 67 && s[..2] == [65, 4] && s[66..] == [0xac] && c.valid(s[1..66]))
    ensures Compress(c, s).Some? ==> |Compress(c, s).value| == if |s| <= 25 then 21 else 33
  {
    if |s| == 25 { assert s[..3] == [s[0], s[1], s[2]] && s[23..] == [s[23], s[24]]; }
    if |s| == 23 { assert s[..2] == [s[0], s[1]] && s[22..] == [s[22]]; }
    if |s| == 35 { assert s[..2] == [s[0], s[1]] && s[34..] == [s[34]] && [s[1]] + s[2..34] == s[1..34]; }
    if |s| == 67 { assert s[..2] == [s[0], s[1]] && s[66..] == [s[66]]; }
  }

  function SpecialSize(tag: nat): nat { if tag <= 1 then 20 else if tag <= 5 then 32 else 0 }

  function Decompress(c: Curve, tag: nat, data: Bytes): Option<Bytes>
    requires tag < SPECIAL_SCRIPTS && |data| == SpecialSize(tag)
  {
    if tag == 0 then Some([OP_DUP, OP_HASH160, 20] + data + [OP_EQUALVERIFY, OP_CHECKSIG])
    else if tag == 1 then Some([OP_HASH160, 20] + data + [OP_EQUAL])
    else if tag <= 3 then Some([33, tag] + data + [OP_CHECKSIG])
    else
      var key := c.decompress([tag - 2] + data);
      if key.None? then None else Some([65] + key.value + [OP_CHECKSIG])
  }

  /** A short form is a tag and as many bytes as the tag calls for, and it expands to the script. */
  lemma CompressRoundTrip(c: Curve, s: Bytes)
    requires Sound(c) && Compress(c, s).Some?
    ensures var out := Compress(c, s).value;
      && out != [] && out[0] < SPECIAL_SCRIPTS && |out| == 1 + SpecialSize(out[0])
      && Decompress(c, out[0], out[1..]) == Some(s)
  {
    var out := Compress(c, s).value;
    if IsToKeyID(s) {
      assert out[1..] == s[3..23];
      assert s == [OP_DUP, OP_HASH160, 20] + s[3..23] + [OP_EQUALVERIFY, OP_CHECKSIG];
    } else if IsToScriptID(s) {
      assert out[1..] == s[2..22];
      assert s == [OP_HASH160, 20] + s[2..22] + [OP_EQUAL];
    } else if IsToShortKey(s) {
      assert out[1..] == s[2..34];
      assert s == [33, s[1]] + s[2..34] + [OP_CHECKSIG];
    } else {
      var key := s[1..66];
      assert out[1..] == s[2..34] == key[1..33];
      assert key[64] == s[65] && key[0] == 4;
      assert s == [65] + key + [OP_CHECKSIG];
    }
  }

  function WriteScript(c: Curve, s: Bytes): Bytes
  {
    var short := Compress(c, s);
    if short.Some? then short.value else VarInt(|s| + SPECIAL_SCRIPTS) + s
  }

  const WORD32 := 0x1_0000_0000

  /** Reads a script over the one that was there; None stands for the end of the stream. */
  function ReadScript(c: Curve, was: Bytes, stream: Bytes): Option<(Bytes, Bytes)>
  {
    var size := ReadVarInt(stream, 0);
    if size.None? then None
    else
      var (n, rest) := (size.value.0 % WORD32, size.value.1);
      if n < SPECIAL_SCRIPTS then
        var k := SpecialSize(n);
        if |rest| < k then None
        else
          var s := Decompress(c, n, rest[..k]);
          Some((if s.Some? then s.value else was, rest[k..]))
      else
        var k := n - SPECIAL_SCRIPTS;
        if |rest| < k then None
        else if k > MAX_SCRIPT_SIZE then Some((was + [OP_RETURN], rest[k..]))
        else Some((rest[..k], rest[k..]))
  }

  lemma ScriptRoundTrip(c: Curve, was: Bytes, s: Bytes, rest: Bytes)
    requires Sound(c) && |s| <= MAX_SCRIPT_SIZE
    ensures ReadScript(c, was, WriteScript(c, s) + rest) == Some((s, rest))
  {
    hide VarInt, ReadVarInt, Compress, Decompress, Sound;
    var short := Compress(c, s);
    if short.Some? {
      CompressRoundTrip(c, s);
      var tag, data := short.value[0], short.value[1..];
      ReadByte(tag, data + rest, 0);
      assert short.value + rest == [tag] + (data + rest);
      assert (data + rest)[..|data|] == data && (data + rest)[|data|..] == rest;
    } else {
      VarIntRoundTrip(|s| + SPECIAL_SCRIPTS, s + rest);
      assert WriteScript(c, s) + rest == VarInt(|s| + SPECIAL_SCRIPTS) + (s + rest);
      assert (s + rest)[..|s|] == s && (s + rest)[|s|..] == rest;
    }
  }

  /** A script over the size limit is skipped, and a return is appended to what was there; a script that is cut off is
      not read at all. */
  lemma OtherScripts(c: Curve, was: Bytes, s: Bytes, rest: Bytes, k: nat)
    requires |s| + SPECIAL_SCRIPTS < WORD32
    ensures |s| > 10000 ==> ReadScript(c, was, WriteScript(c, s) + rest) == Some((was + [0x6a], rest))
    ensures k < |s| ==> ReadScript(c, was, VarInt(|s| + SPECIAL_SCRIPTS) + s[..k]) == None
  {
    hide VarInt, ReadVarInt, Decompress;
    if |s| > 10000 {
      VarIntRoundTrip(|s| + SPECIAL_SCRIPTS, s + rest);
      assert WriteScript(c, s) + rest == VarInt(|s| + SPECIAL_SCRIPTS) + (s + rest);
      assert (s + rest)[|s|..] == rest;
    }
    if k < |s| { VarIntRoundTrip(|s| + SPECIAL_SCRIPTS, s[..k]); }
  }

  // ---------------------------------------------------------------------------------------------
  // Coins
  // ---------------------------------------------------------------------------------------------

  function WriteCoin(c: Curve, coin: Coin): Bytes
    requires coin.value >= 0
  {
    VarInt(coin.height * 2 + (if coin.coinBase then 1 else 0)) + VarInt(Wrap(Compressed(coin.value)))
    + WriteScript(c, coin.script)
  }

  function ReadCoin(c: Curve, was: Coin, stream: Bytes): Option<(Coin, Bytes)>
  {
    var code := ReadVarInt(stream, 0);
    if code.None? then None
    else
      var amount := ReadVarInt(code.value.1, 0);
      if amount.None? then None
      else
        var script := ReadScript(c, was.script, amount.value.1);
        if script.None? then None
        else
          var n := code.value.0 % WORD32;
          Some((Coin(Wrap(Decompressed(Wrap(amount.value.0))), script.value.0, n % 2 == 1, n / 2), script.value.1))
  }

  /** A stored coin comes back, with everything after it, for every value up to a tenth of the 64-bit
      range, which is far beyond the money that can exist. */
  lemma CoinRoundTrip(c: Curve, was: Coin, coin: Coin, rest: Bytes)
    requires Sound(c) && 0 <= 10 * coin.value < WORD64 && coin.height < WORD32 / 2
    requires |coin.script| <= MAX_SCRIPT_SIZE
    ensures ReadCoin(c, was, WriteCoin(c, coin) + rest) == Some((coin, rest))
  {
    hide VarInt, Compressed, Decompressed, Sound, ReadVarInt, ReadScript, WriteScript, Wrap;
    var code := coin.height * 2 + (if coin.coinBase then 1 else 0);
    var amount, script := Wrap(Compressed(coin.value)), WriteScript(c, coin.script);
    VarIntRoundTrip(code, VarInt(amount) + (script + rest));
    VarIntRoundTrip(amount, script + rest);
    ScriptRoundTrip(c, was.script, coin.script, rest);
    AmountRoundTrip(coin.value);
    CompressedBound(coin.value);
    assert WriteCoin(c, coin) + rest == VarInt(code) + (VarInt(amount) + (script + rest));
  }

  /** Two stored coins, byte by byte: 600 coins of a transaction at height 203998, and 110397 of a coinbase at 120891. */
  lemma StoredCoins(c: Curve, hash: Bytes)
    requires |hash| == 20
    ensures var script := [0x76, 0xa9, 20] + hash + [0x88, 0xac];
      && WriteCoin(c, Coin(600_00000000, script, false, 203998)) == [0x97, 0xf2, 0x3c, 0x83, 0x58, 0x00] + hash
      && WriteCoin(c, Coin(110397, script, true, 120891)) == [0x8d, 0xdf, 0x77, 0xbb, 0xd1, 0x23, 0x00] + hash
  {
    hide Compressed, VarInt, Compress;
    var script := [0x76, 0xa9, 20] + hash + [0x88, 0xac];
    ShortForms(c, script);
    assert script[..3] == [0x76, 0xa9, 20] && script[23..] == [0x88, 0xac] && script[3..23] == hash;
    Billion();
    CompressedMeans(60, 1, 0);
    CompressedMeans(11039, 7, 0);
    ThreeBytes(0x17, 0x72, 0x3c);
    TwoBytes(0x03, 0x58);
    ThreeBytes(0x0d, 0x5f, 0x77);
    ThreeBytes(0x3b, 0x51, 0x23);
    assert Pow(10, 0) == 1;
  }

  lemma Billion()
    ensures Pow(10, 9) == 1_000_000_000
  {
    assert Pow(10, 3) == 1000;
    PowAdd(10, 3, 3);
    PowAdd(10, 6, 3);
  }

  lemma TwoBytes(a: nat, b: nat)
    requires a < 128 && b < 128
    ensures VarInt((a + 1) * 128 + b) == [a + 128, b]
  {
    var n := (a + 1) * 128 + b;
    DivUnique(n, 128, a + 1, b);
    assert Leading(a) == [a + 128];
  }

  lemma ThreeBytes(a: nat, b: nat, d: nat)
    requires a < 128 && b < 128 && d < 128
    ensures VarInt(((a + 1) * 128 + b + 1) * 128 + d) == [a + 128, b + 128, d]
  {
    var m := (a + 1) * 128 + b;
    DivUnique((m + 1) * 128 + d, 128, m + 1, d);
    DivUnique(m, 128, a + 1, b);
    assert Leading(a) == [a + 128];
    assert Leading(m) == [a + 128, b + 128];
  }
}
