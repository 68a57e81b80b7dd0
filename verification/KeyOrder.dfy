/** The order of database keys, and the positions an iterator over a set of keys can take. */
module KeyOrder {
  import opened Numbers
  import opened Options

  type Key = seq<Byte>

  /** Byte-wise lexicographic comparison. */
  predicate Less(a: Key, b: Key)
  {
    b != [] && (a == [] || a[0] < b[0] || (a[0] == b[0] && Less(a[1..], b[1..])))
  }

  /** The keys agree up to a place where the first one ends, or has the smaller byte. */
  predicate Splits(a: Key, b: Key, n: nat)
  {
    n <= |a| && n < |b| && a[..n] == b[..n] && (n == |a| || a[n] < b[n])
  }

  /** A key is less than another exactly if it is the beginning of it, or has the smaller byte where they first differ. */
  lemma {:induction false} LessIff(a: Key, b: Key)
    ensures Less(a, b) <==> exists n: nat :: Splits(a, b, n)
  {
    if b != [] {
      if a == [] {
        assert Splits(a, b, 0);
      } else if a[0] == b[0] {
        LessIff(a[1..], b[1..]);
        assert a == [a[0]] + a[1..] && b == [b[0]] + b[1..];
        if Less(a, b) {
          var n: nat :| Splits(a[1..], b[1..], n);
          assert a[..n + 1] == [a[0]] + a[1..][..n] && b[..n + 1] == [b[0]] + b[1..][..n];
          assert Splits(a, b, n + 1);
        }
        if n: nat :| Splits(a, b, n) {
          SplitsRest(a, b, n);
        }
      } else {
        forall n: nat | Splits(a, b, n) ensures n == 0 || a[0] == b[0] { SameStart(a, b, n); }
        if a[0] < b[0] { assert Splits(a, b, 0); }
      }
    }
  }

  lemma SameStart(a: Key, b: Key, n: nat)
    requires n <= |a| && n <= |b| && a[..n] == b[..n]
    ensures n > 0 ==> a[0] == b[0]
  {
    if n > 0 { assert a[..n][0] == b[..n][0]; }
  }

  lemma SplitsRest(a: Key, b: Key, n: nat)
    requires a != [] && b != [] && a[0] == b[0] && Splits(a, b, n)
    ensures n > 0 && Splits(a[1..], b[1..], n - 1)
  {
    assert a[1..][..n - 1] == a[..n][1..] && b[1..][..n - 1] == b[..n][1..];
  }

  lemma {:induction false} LessIrreflexive(a: Key)
    ensures !Less(a, a)
  {
    if a != [] { LessIrreflexive(a[1..]); }
  }

  lemma {:induction false} LessTransitive(a: Key, b: Key, c: Key)
    requires Less(a, b) && Less(b, c)
    ensures Less(a, c)
  {
    if a != [] && a[0] == b[0] && b[0] == c[0] { LessTransitive(a[1..], b[1..], c[1..]); }
  }

  lemma {:induction false} LessTotal(a: Key, b: Key)
    ensures Less(a, b) || Less(b, a) || a == b
  {
    if a != [] && b != [] && a[0] == b[0] {
      LessTotal(a[1..], b[1..]);
      if a[1..] == b[1..] { assert a == [a[0]] + a[1..] && b == [b[0]] + b[1..]; }
    }
  }

  lemma LessOrEqual(a: Key, b: Key, c: Key)
    ensures !Less(a, b) && !Less(b, c) ==> !Less(a, c)
    ensures Less(a, b) && !Less(c, b) ==> Less(a, c)
    ensures !Less(b, a) && Less(b, c) ==> Less(a, c)
  {
    LessTotal(a, b);
    LessTotal(b, c);
    if Less(a, b) && Less(b, c) { LessTransitive(a, b, c); }
    if Less(a, c) && Less(c, b) { LessTransitive(a, c, b); }
    if Less(b, a) && Less(a, c) { LessTransitive(b, a, c); }
  }

  // ---------------------------------------------------------------------------------------------
  // Positions
  // ---------------------------------------------------------------------------------------------

  datatype Bound = Start | From(key: Key) | After(key: Key)

  /** Does the bound admit the key? */
  predicate Admits(b: Bound, k: Key)
  {
    match b
    case Start => true
    case From(x) => !Less(k, x)
    case After(x) => Less(x, k)
  }

  /** A bound at a key admits that key and those above it, a bound after it only those above. */
  lemma AdmitsIff(x: Key, k: Key)
    ensures Admits(From(x), k) <==> k == x || Less(x, k)
    ensures Admits(After(x), k) <==> k != x && Admits(From(x), k)
  {
    LessTotal(x, k);
    LessIrreflexive(x);
    if Less(x, k) && Less(k, x) { LessTransitive(x, k, x); }
  }

  ghost predicate NotBefore(b: Bound, k: Key, x: Key) { Admits(b, x) ==> !Less(x, k) }

  /** `r` is the least admitted key of a set, if there is one. */
  ghost predicate First(keys: set<Key>, b: Bound, r: Option<Key>)
  {
    match r
    case None => forall x :: x in keys ==> !Admits(b, x)
    case Some(k) => k in keys && Admits(b, k) && forall x :: x in keys ==> NotBefore(b, k, x)
  }

  method FindFirst(keys: set<Key>, b: Bound) returns (r: Option<Key>)
    ensures First(keys, b, r)
  {
    r := None;
    var todo := keys;
    while todo != {}
      invariant todo <= keys && First(keys - todo, b, r)
    {
      var k :| k in todo;
      FirstStep(keys - todo, b, r, k);
      assert keys - (todo - {k}) == (keys - todo) + {k};
      if Admits(b, k) && (r.None? || Less(k, r.value)) { r := Some(k); }
      todo := todo - {k};
    }
    assert keys - {} == keys;
  }

  lemma FirstStep(keys: set<Key>, b: Bound, r: Option<Key>, k: Key)
    requires First(keys, b, r)
    ensures First(keys + {k}, b, if Admits(b, k) && (r.None? || Less(k, r.value)) then Some(k) else r)
  {
    LessIrreflexive(k);
    if r.Some? {
      forall x | x in keys && Admits(b, x) && Less(k, r.value) ensures !Less(x, k) {
        assert NotBefore(b, r.value, x);
        LessOrEqual(x, r.value, k);
        if Less(x, k) { LessTransitive(x, k, r.value); }
      }
    }
  }

  /** Stepping past the first key leaves the keys that were admitted but for that one. */
  lemma AfterFirst(keys: set<Key>, b: Bound, k: Key, x: Key)
    requires First(keys, b, Some(k)) && x in keys
    ensures Admits(After(k), x) <==> Admits(b, x) && x != k
  {
    assert NotBefore(b, k, x);
    LessTotal(k, x);
    LessIrreflexive(k);
    if Less(k, x) {
      match b {
        case Start =>
        case From(y) => if Less(x, y) { LessTransitive(k, x, y); }
        case After(y) => LessTransitive(y, k, x);
      }
    }
  }

  // ---------------------------------------------------------------------------------------------
  // Walks
  // ---------------------------------------------------------------------------------------------

  /** The keys an iterator shows from a bound until its end. */
  ghost predicate Walk(keys: set<Key>, b: Bound, shown: seq<Key>)
    decreases |shown|
  {
    if shown == [] then First(keys, b, None)
    else First(keys, b, Some(shown[0])) && Walk(keys, After(shown[0]), shown[1..])
  }

  /** A walk that has got as far as a bound. */
  ghost predicate Path(keys: set<Key>, b: Bound, shown: seq<Key>, reached: Bound)
    decreases |shown|
  {
    if shown == [] then reached == b
    else First(keys, b, Some(shown[0])) && Path(keys, After(shown[0]), shown[1..], reached)
  }

  lemma PathStart(keys: set<Key>, b: Bound)
    ensures Path(keys, b, [], b)
  {}

  lemma {:induction false} PathStep(keys: set<Key>, b: Bound, shown: seq<Key>, reached: Bound, k: Key)
    requires Path(keys, b, shown, reached) && First(keys, reached, Some(k))
    ensures Path(keys, b, shown + [k], After(k))
    decreases |shown|
  {
    if shown != [] {
      PathStep(keys, After(shown[0]), shown[1..], reached, k);
      assert (shown + [k])[1..] == shown[1..] + [k];
    }
  }

  lemma {:induction false} PathEnd(keys: set<Key>, b: Bound, shown: seq<Key>, reached: Bound)
    requires Path(keys, b, shown, reached) && First(keys, reached, None)
    ensures Walk(keys, b, shown)
    decreases |shown|
  {
    if shown != [] { PathEnd(keys, After(shown[0]), shown[1..], reached); }
  }

  /** A walk shows exactly the admitted keys of the set. */
  lemma {:induction false} WalkShowsAll(keys: set<Key>, b: Bound, shown: seq<Key>, x: Key)
    requires Walk(keys, b, shown)
    ensures x in shown <==> x in keys && Admits(b, x)
    decreases |shown|
  {
    if shown != [] {
      WalkShowsAll(keys, After(shown[0]), shown[1..], x);
      if x in keys { AfterFirst(keys, b, shown[0], x); }
    }
  }

  /** And it shows them in ascending order, so each one once. */
  lemma {:induction false} WalkAscends(keys: set<Key>, b: Bound, shown: seq<Key>, i: nat, j: nat)
    requires Walk(keys, b, shown) && i < j < |shown|
    ensures Less(shown[i], shown[j]) && shown[i] != shown[j]
    decreases |shown|
  {
    if i == 0 {
      WalkShowsAll(keys, After(shown[0]), shown[1..], shown[j]);
      assert shown[j] == shown[1..][j - 1];
      LessIrreflexive(shown[0]);
    } else {
      WalkAscends(keys, After(shown[0]), shown[1..], i - 1, j - 1);
    }
  }
}
