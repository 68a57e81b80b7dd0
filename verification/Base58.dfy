/** Base58: byte strings as text, in both directions, and the form with a checksum. */
module Base58 {
  import opened Numbers
  import opened Options
  import opened Positional

  // ---------------------------------------------------------------------------------------------
  // Characters
  // ---------------------------------------------------------------------------------------------

  /** All letters and digits but 0, I, O and l. */
  const ALPHABET := "123456789" + "ABCDEFGH" + "JKLMN" + "PQRSTUVWXYZ" + "abcdefghijk" + "mnopqrstuvwxyz"

  predicate Ascending(s: string) { forall i, j :: 0 <= i < j < |s| ==> s[i] < s[j] }

  lemma Join(s: string, t: string)
    requires Ascending(s) && Ascending(t) && s != [] && t != [] && s[|s| - 1] < t[0]
    ensures Ascending(s + t)
  {}

  lemma LowerPieces()
    ensures Ascending("abcdefghijk" + "mnopqrstuvwxyz")
  {
    assert Ascending("abcdefghijk") && Ascending("mnopqrstuvwxyz");
    Join("abcdefghijk", "mnopqrstuvwxyz");
  }

  lemma UpperPieces()
    ensures Ascending("ABCDEFGH" + "JKLMN" + "PQRSTUVWXYZ")
  {
    assert Ascending("ABCDEFGH") && Ascending("JKLMN") && Ascending("PQRSTUVWXYZ");
    Join("ABCDEFGH", "JKLMN");
    Join("ABCDEFGH" + "JKLMN", "PQRSTUVWXYZ");
  }

  lemma AlphabetAscends()
    ensures |ALPHABET| == 58 && Ascending(ALPHABET) && ALPHABET[0] == '1'
  {
    hide Ascending;
    var d, u, l := "123456789", "ABCDEFGH" + "JKLMN" + "PQRSTUVWXYZ", "abcdefghijk" + "mnopqrstuvwxyz";
    assert Ascending(d) by { DigitPiece(); }
    UpperPieces();
    LowerPieces();
    Join(d, u);
    Join(d + u, l);
    assert d + u + l == ALPHABET;
  }

  lemma DigitPiece()
    ensures Ascending("123456789")
  {}

  /** The alphabet is all letters and digits but four that are easily confused. */
  lemma AlphabetIs(c: char)
    ensures c in ALPHABET <==>
      ('0' <= c <= '9' || 'A' <= c <= 'Z' || 'a' <= c <= 'z') && c != '0' && c != 'O' && c != 'I' && c != 'l'
  {
    assert c in "123456789" <==> '1' <= c <= '9';
    assert c in "ABCDEFGH" <==> 'A' <= c <= 'H';
    assert c in "JKLMN" <==> 'J' <= c <= 'N';
    assert c in "PQRSTUVWXYZ" <==> 'P' <= c <= 'Z';
    assert c in "abcdefghijk" <==> 'a' <= c <= 'k';
    assert c in "mnopqrstuvwxyz" <==> 'm' <= c <= 'z';
  }

  predicate IsSpace(c: char) { c == ' ' || '\t' <= c <= '\r' }

  /** How many of the first characters satisfy a test. */
  function Span(s: string, p: char -> bool): (n: nat)
    ensures n <= |s| && (forall i :: 0 <= i < n ==> p(s[i])) && (n < |s| ==> !p(s[n]))
  {
    if s == [] || !p(s[0]) then 0 else 1 + Span(s[1..], p)
  }

  lemma {:induction false} SpanIs(s: string, p: char -> bool, n: nat)
    requires n <= |s| && (forall i :: 0 <= i < n ==> p(s[i])) && (n < |s| ==> !p(s[n]))
    ensures Span(s, p) == n
  {}

  /** The value of a character, or 58 for one that is not in the alphabet. */
  function DigitOf(c: char): (d: nat)
    ensures d <= 58 && |ALPHABET| == 58 && (d < 58 ==> ALPHABET[d] == c)
  {
    AlphabetAscends();
    Span(ALPHABET, x => x != c)
  }

  lemma DigitOfDigit(d: nat)
    requires d < 58
    ensures |ALPHABET| == 58 && DigitOf(ALPHABET[d]) == d
    ensures !IsSpace(ALPHABET[d]) && (ALPHABET[d] == '1' <==> d == 0) && ALPHABET[d] != '\0'
  {
    AlphabetAscends();
    assert d > 0 ==> ALPHABET[0] < ALPHABET[d];
    SpanIs(ALPHABET, x => x != ALPHABET[d], d);
  }

  // ---------------------------------------------------------------------------------------------
  // What encoding and decoding mean
  // ---------------------------------------------------------------------------------------------

  predicate InRange(s: seq<nat>) { Below(58, s) }

  function Text(digits: seq<nat>): (s: string)
    requires InRange(digits)
    ensures |ALPHABET| == 58 && |s| == |digits| && forall i :: 0 <= i < |s| ==> s[i] == ALPHABET[digits[i]]
  {
    AlphabetAscends();
    seq(|digits|, i requires 0 <= i < |digits| => ALPHABET[digits[i]])
  }

  function Values(s: string): (digits: seq<nat>)
    ensures |digits| == |s| && forall i :: 0 <= i < |s| ==> digits[i] == DigitOf(s[i])
  {
    seq(|s|, i requires 0 <= i < |s| => DigitOf(s[i]))
  }

  function Zeros(v: seq<Byte>): (n: nat)
    ensures n <= |v| && (forall i :: 0 <= i < n ==> v[i] == 0) && (n < |v| ==> v[n] != 0)
  {
    if v == [] || v[0] != 0 then 0 else 1 + Zeros(v[1..])
  }

  function Ones(n: nat): (s: string)
    ensures |s| == n && forall i :: 0 <= i < n ==> s[i] == '1'
  {
    seq(n, i => '1')
  }

  function ZeroBytes(n: nat): (s: seq<Byte>)
    ensures |s| == n && forall i :: 0 <= i < n ==> s[i] == 0
  {
    seq(n, i => 0)
  }

  /** One character for each leading zero byte, then the rest as a number to base 58. */
  function Encoded(v: seq<Byte>): string
  {
    Ones(Zeros(v)) + Text(Digits(58, Num(256, v[Zeros(v)..])))
  }

  /** What a C string is: everything up to the first NUL. */
  function CString(s: string): string { s[..Span(s, c => c != '\0')] }

  predicate IsOne(c: char) { c == '1' }
  predicate NotSpace(c: char) { !IsSpace(c) }
  predicate AllSpace(s: string) { forall i :: 0 <= i < |s| ==> IsSpace(s[i]) }

  function Bytes(digits: seq<nat>): (v: seq<Byte>)
    requires Below(256, digits)
    ensures v == digits
  {
    digits
  }

  /** The leading ones, a number to base 58, and nothing but white space after it. */
  function DecodedWord(a: string): Option<seq<Byte>>
  {
    var z := Span(a, IsOne);
    var u := a[z..];
    var w := Span(u, NotSpace);
    if InRange(Values(u[..w])) && AllSpace(u[w..])
    then Some(ZeroBytes(z) + Bytes(Digits(256, Num(58, Values(u[..w])))))
    else None
  }

  function Decoded(s: string): Option<seq<Byte>>
  {
    var t := CString(s);
    DecodedWord(t[Span(t, IsSpace)..])
  }

  /** An encoding stands for the same number, has a one for each leading zero byte, and goes on with another digit. */
  lemma EncodedMeans(v: seq<Byte>)
    ensures var t, z := Encoded(v), Zeros(v);
      && z <= |t| && (forall i :: 0 <= i < z ==> t[i] == '1') && (z < |t| ==> t[z] != '1')
      && InRange(Values(t)) && Num(58, Values(t)) == Num(256, v)
  {
    hide Digits, Num, Values, Text;
    var z := Zeros(v);
    var digits := Digits(58, Num(256, v[z..]));
    var t := Encoded(v);
    TextChars(digits);
    NumZeros(256, v, z);
    assert t[..z] == Ones(z) && t[z..] == Text(digits);
    OnesAreZeros(t, z);
    assert Values(t)[z..] == Values(t[z..]);
    NumZeros(58, Values(t), z);
  }

  lemma OnesAreZeros(t: string, z: nat)
    requires z <= |t| && forall i :: 0 <= i < z ==> t[i] == '1'
    ensures forall i :: 0 <= i < z ==> Values(t)[i] == 0
  {
    DigitOfDigit(0);
    AlphabetAscends();
  }

  /** Nothing after a NUL is looked at. */
  lemma DecodedToNul(s: string, t: string)
    requires '\0' !in s
    ensures Decoded(s + ['\0'] + t) == Decoded(s)
  {
    hide DecodedWord, Span;
    var all := s + ['\0'] + t;
    SpanIs(all, c => c != '\0', |s|);
    SpanIs(s, c => c != '\0', |s|);
    assert all[..|s|] == s && s[..|s|] == s;
  }

  // ---------------------------------------------------------------------------------------------
  // Round trips
  // ---------------------------------------------------------------------------------------------

  /** The characters of an encoding: leading ones, then text that starts with another character. */
  lemma TextChars(digits: seq<nat>)
    requires InRange(digits)
    ensures forall i :: 0 <= i < |digits| ==> NotSpace(Text(digits)[i]) && Text(digits)[i] != '\0'
    ensures digits != [] && digits[0] != 0 ==> Text(digits)[0] != '1'
    ensures Values(Text(digits)) == digits
  {
    forall i | 0 <= i < |digits|
      ensures NotSpace(Text(digits)[i]) && Text(digits)[i] != '\0' && DigitOf(Text(digits)[i]) == digits[i]
    {
      DigitOfDigit(digits[i]);
    }
    if digits != [] { DigitOfDigit(digits[0]); }
  }

  lemma ValuesText(body: string)
    requires InRange(Values(body))
    ensures Text(Values(body)) == body
    ensures body != [] && body[0] != '1' ==> Values(body)[0] != 0
  {}

  lemma DecodeWord(v: seq<Byte>, right: string)
    requires AllSpace(right)
    ensures DecodedWord(Encoded(v) + right) == Some(v)
  {
    hide Digits, Num, Values, IsSpace, Span, Text, AllSpace;
    var z := Zeros(v);
    var digits := Digits(58, Num(256, v[z..]));
    TextChars(digits);
    DigitsUnique(256, v[z..]);
    ParseWord(z, Text(digits), right);
    assert v == ZeroBytes(z) + v[z..];
  }

  /** How decoding cuts up a word. */
  lemma ParseWord(z: nat, text: string, right: string)
    requires AllSpace(right) && (text != [] ==> text[0] != '1')
    requires forall i :: 0 <= i < |text| ==> NotSpace(text[i])
    ensures var a := Ones(z) + text + right;
      && Span(a, IsOne) == z && Span(a[z..], NotSpace) == |text|
      && a[z..][..|text|] == text && a[z..][|text|..] == right
  {
    hide IsSpace, Span;
    var a := Ones(z) + text + right;
    NotOne(text, right);
    assert a[z..] == text + right;
    SpanIs(a, IsOne, z);
    NotWord(right);
    SpanIs(text + right, NotSpace, |text|);
  }

  lemma NotOne(text: string, right: string)
    requires AllSpace(right) && (text != [] ==> text[0] != '1')
    ensures text + right != [] ==> !IsOne((text + right)[0])
  {}

  lemma NotWord(right: string)
    requires AllSpace(right)
    ensures right != [] ==> !NotSpace(right[0])
  {}

  lemma EncodeWord(a: string) returns (right: string)
    requires DecodedWord(a).Some?
    ensures AllSpace(right) && a == Encoded(DecodedWord(a).value) + right
  {
    hide Digits, Num, Values, IsSpace, Span;
    var z := Span(a, IsOne);
    var u := a[z..];
    var w := Span(u, NotSpace);
    var body := u[..w];
    right := u[w..];
    ValuesText(body);
    DigitsUnique(58, Values(body));
    var digits := Digits(256, Num(58, Values(body)));
    var v := ZeroBytes(z) + Bytes(digits);
    ZerosAre(v, z);
    assert v[z..] == digits;
    assert a[..z] == Ones(z);
    assert a == Ones(z) + body + right;
  }

  /** Decoding undoes encoding, whatever white space stands around. */
  lemma DecodeEncoded(left: string, v: seq<Byte>, right: string)
    requires AllSpace(left) && AllSpace(right)
    ensures Decoded(left + Encoded(v) + right) == Some(v)
  {
    hide Encoded, DecodedWord, Span;
    var e := Encoded(v);
    EncodedChars(v);
    var s := left + e + right;
    SpanIs(s, c => c != '\0', |s|);
    assert s[..|s|] == s;
    DecodeWord(v, right);
    if e != [] {
      assert s[|left|] == e[0];
      SpanIs(s, IsSpace, |left|);
      assert s[|left|..] == e + right;
    } else {
      SpanIs(s, IsSpace, |s|);
      DecodeWord(v, []);
      assert s[|s|..] == e + [];
    }
  }

  lemma EncodedChars(v: seq<Byte>)
    ensures forall i :: 0 <= i < |Encoded(v)| ==> Encoded(v)[i] != '\0' && !IsSpace(Encoded(v)[i])
  {
    hide Digits, Num;
    var digits := Digits(58, Num(256, v[Zeros(v)..]));
    TextChars(digits);
    forall i | 0 <= i < |Encoded(v)| ensures Encoded(v)[i] != '\0' && !IsSpace(Encoded(v)[i]) {
      if i >= Zeros(v) {
        assert Encoded(v)[i] == Text(digits)[i - Zeros(v)];
        assert NotSpace(Text(digits)[i - Zeros(v)]);
      }
    }
  }

  /** Encoding undoes decoding, up to the white space around. */
  lemma EncodeDecoded(s: string) returns (left: string, right: string)
    requires Decoded(s).Some?
    ensures AllSpace(left) && AllSpace(right)
    ensures CString(s) == left + Encoded(Decoded(s).value) + right
  {
    hide Encoded, DecodedWord, IsSpace, Span;
    var t := CString(s);
    var k := Span(t, IsSpace);
    left := t[..k];
    right := EncodeWord(t[k..]);
    assert t == left + t[k..];
  }

  lemma {:induction false} ZerosAre(v: seq<Byte>, z: nat)
    requires z <= |v| && (forall i :: 0 <= i < z ==> v[i] == 0) && (z < |v| ==> v[z] != 0)
    ensures Zeros(v) == z
  {}

  // ---------------------------------------------------------------------------------------------
  // The conversions
  // ---------------------------------------------------------------------------------------------

  /** The buffer of 138/100 digits for each byte is large enough. */
  lemma EncodeRoom(v: seq<Byte>, n: nat)
    requires |v| <= n
    ensures Num(256, v) < Pow(58, n * 138 / 100 + 1)
  {
    hide Num, Pow;
    NumBound(256, v);
    PowGrows(256, |v|, n);
    Pow256Of8();
    Capacity(256, 58, 8, 11, n, n * 138 / 100 + 1);
  }

  /** And so is the one of 733/1000 bytes for each character. */
  lemma DecodeRoom(digits: seq<nat>, n: nat)
    requires |digits| <= n && InRange(digits)
    ensures Num(58, digits) < Pow(256, n * 733 / 1000 + 1)
  {
    hide Num, Pow;
    NumBound(58, digits);
    PowGrows(58, |digits|, n);
    Pow58Of71();
    Capacity(58, 256, 71, 52, n, n * 733 / 1000 + 1);
  }

  /** The digits in a buffer from its first non-zero digit on. */
  method Significant(d: array<nat>, b: nat, length: nat) returns (r: seq<nat>)
    requires b >= 2 && Below(b, d[..]) && length <= d.Length
    requires forall k :: 0 <= k < d.Length - length ==> d[k] == 0
    ensures r == Digits(b, Num(b, d[..]))
  {
    hide Num, Digits;
    var it := d.Length - length;
    while it < d.Length && d[it] == 0
      invariant 0 <= it <= d.Length && forall k :: 0 <= k < it ==> d[k] == 0
    {
      it := it + 1;
    }
    r := d[it..];
    NumZeros(b, d[..], it);
    assert d[..][it..] == d[it..];
    DigitsUnique(b, r);
  }

  method EncodeBase58(v: seq<Byte>) returns (str: string)
    ensures str == Encoded(v)
  {
    hide Num, Digits, Pow, Times, Text;
    var zeroes := 0;
    while zeroes < |v| && v[zeroes] == 0
      invariant 0 <= zeroes <= |v| && forall k :: 0 <= k < zeroes ==> v[k] == 0
    {
      zeroes := zeroes + 1;
    }
    ZerosAre(v, zeroes);
    var n := |v| - zeroes;
    var size := n * 138 / 100 + 1;
    var b58 := new nat[size](i => 0);
    var length: nat := 0;
    Empty(58, 256, b58[..]);
    assert v[zeroes..zeroes] == [];
    for j := zeroes to |v|
      invariant length <= size && Below(58, b58[..]) && forall k :: 0 <= k < size - length ==> b58[k] == 0
      invariant Num(58, b58[..]) == Num(256, v[zeroes..j])
    {
      assert v[zeroes..j + 1] == v[zeroes..j] + [v[j]];
      NextDigit(256, v[zeroes..j], v[j]);
      EncodeRoom(v[zeroes..j + 1], n);
      length := MulAdd(b58, 58, 256, v[j], length);
    }
    assert v[zeroes..|v|] == v[zeroes..];
    var digits := Significant(b58, 58, length);
    str := Ones(zeroes) + Text(digits);
  }

  lemma Empty(b: nat, c: nat, zeros: seq<nat>)
    requires forall i :: 0 <= i < |zeros| ==> zeros[i] == 0
    ensures Num(b, zeros) == 0 && Num(c, []) == 0
  {
    NumZeros(b, zeros, |zeros|);
  }

  lemma NextDigit(b: nat, s: seq<nat>, x: nat)
    ensures Num(b, s + [x]) == Times(Num(b, s), b) + x
  {
    NumSnoc(b, s, x);
  }

  /** The index of the first character from `i` on that fails a test. */
  method Skip(t: string, i: nat, p: char -> bool) returns (j: nat)
    requires i <= |t|
    ensures j == i + Span(t[i..], p)
  {
    j := i;
    while j < |t| && p(t[j])
      invariant i <= j <= |t| && forall k :: i <= k < j ==> p(t[k])
    {
      j := j + 1;
    }
    SpanIs(t[i..], p, j - i);
  }

  /** Reads base 58 digits up to white space into a buffer of bytes. */
  method ReadDigits(u: string) returns (ok: bool, j: nat, bytes: seq<nat>)
    ensures ok <==> InRange(Values(u[..Span(u, NotSpace)]))
    ensures ok ==> j == Span(u, NotSpace) && bytes == Digits(256, Num(58, Values(u[..j])))
  {
    hide Num, Digits, Pow, Times, Span, DigitOf, IsSpace;
    var size := |u| * 733 / 1000 + 1;
    var b256 := new nat[size](i => 0);
    var length: nat := 0;
    Empty(256, 58, b256[..]);
    j := 0;
    bytes := [];
    assert Values(u[..0]) == [];
    while j < |u| && !IsSpace(u[j])
      invariant j <= |u| && (forall k :: 0 <= k < j ==> NotSpace(u[k])) && InRange(Values(u[..j]))
      invariant length <= size && Below(256, b256[..]) && forall k :: 0 <= k < size - length ==> b256[k] == 0
      invariant Num(256, b256[..]) == Num(58, Values(u[..j]))
    {
      var d := DigitOf(u[j]);
      if d == 58 {
        BadCharacter(u, j);
        return false, j, [];
      }
      assert Values(u[..j + 1]) == Values(u[..j]) + [d];
      NextDigit(58, Values(u[..j]), d);
      DecodeRoom(Values(u[..j + 1]), |u|);
      length := MulAdd(b256, 256, 58, d, length);
      j := j + 1;
    }
    SpanIs(u, NotSpace, j);
    bytes := Significant(b256, 256, length);
    ok := true;
  }

  method DecodeBase58(s: string) returns (r: Option<seq<Byte>>)
    ensures r == Decoded(s)
  {
    hide Num, Digits, Span, Values, IsSpace;
    var t := CString(s);
    var start := Skip(t, 0, IsSpace);
    assert t[0..] == t;
    var a := t[start..];
    var zeroes := Skip(a, 0, IsOne);
    assert a[0..] == a;
    var u := a[zeroes..];
    var ok, j, bytes := ReadDigits(u);
    if !ok { return None; }
    var end := Skip(u, j, IsSpace);
    TrailingSpace(u[j..]);
    if end != |u| { return None; }
    r := Some(ZeroBytes(zeroes) + Bytes(bytes));
  }

  lemma BadCharacter(u: string, j: nat)
    requires j < |u| && (forall k :: 0 <= k <= j ==> NotSpace(u[k])) && DigitOf(u[j]) == 58
    ensures !InRange(Values(u[..Span(u, NotSpace)]))
  {}

  lemma TrailingSpace(s: string)
    ensures Span(s, IsSpace) == |s| <==> AllSpace(s)
  {}

  // ---------------------------------------------------------------------------------------------
  // With a checksum
  // ---------------------------------------------------------------------------------------------

  /** The hash gives at least the four bytes that serve as a checksum. */
  ghost predicate Hashes(hash: seq<Byte> -> seq<Byte>) { forall v :: |hash(v)| >= 4 }

  method EncodeBase58Check(hash: seq<Byte> -> seq<Byte>, v: seq<Byte>) returns (str: string)
    requires |hash(v)| >= 4
    ensures str == Encoded(v + hash(v)[..4])
  {
    str := EncodeBase58(v + hash(v)[..4]);
  }

  /** Accepts exactly the encodings, between white space, of byte strings with their checksum. */
  method DecodeBase58Check(hash: seq<Byte> -> seq<Byte>, s: string) returns (r: Option<seq<Byte>>)
    requires Hashes(hash)
    ensures r.Some? ==> Decoded(s) == Some(r.value + hash(r.value)[..4])
    ensures r.None? ==> forall v :: Decoded(s) != Some(v + hash(v)[..4])
  {
    hide Decoded;
    r := DecodeBase58(s);
    if r.None? || |r.value| < 4 { return None; }
    var n := |r.value| - 4;
    var v := r.value[..n];
    assert r.value == v + r.value[n..];
    forall w | r.value == w + hash(w)[..4] ensures w == v && hash(v)[..4] == r.value[n..] {
      Split(r.value, w, hash(w)[..4]);
    }
    if hash(v)[..4] != r.value[n..] { return None; }
    r := Some(v);
  }

  lemma Split(x: seq<Byte>, w: seq<Byte>, sum: seq<Byte>)
    requires |sum| == 4 && x == w + sum
    ensures w == x[..|x| - 4] && sum == x[|x| - 4..]
  {}

  /** What was encoded with its checksum is decoded again. */
  lemma CheckRoundTrip(hash: seq<Byte> -> seq<Byte>, v: seq<Byte>)
    requires |hash(v)| >= 4
    ensures Decoded(Encoded(v + hash(v)[..4])) == Some(v + hash(v)[..4])
  {
    hide Decoded, Encoded;
    DecodeEncoded([], v + hash(v)[..4], []);
    assert [] + Encoded(v + hash(v)[..4]) + [] == Encoded(v + hash(v)[..4]);
  }
}
