/** Counting through all combinations of several lists of values: the mixed-radix odometer of
    StrSubstituterGenerator. */
module FnameOdometer {
  /** Multiplication, spelled out so that it costs nothing where it is only carried along. */
  function Times(a: nat, b: nat): nat {
    if a == 0 then 0 else b + Times(a - 1, b)
  }

  lemma {:induction false} TimesMul(a: nat, b: nat)
    ensures Times(a, b) == a * b
    decreases a
  {
    if a > 0 {
      TimesMul(a - 1, b);
      assert a * b == (a - 1) * b + b;
    }
  }

  /** The number of combinations. */
  function Product(radix: seq<nat>): nat {
    if radix == [] then 1 else Times(radix[0], Product(radix[1..]))
  }

  /** One index per list, each within its list. */
  predicate Digits(ds: seq<nat>, radix: seq<nat>) {
    |ds| == |radix| && forall i :: 0 <= i < |ds| ==> ds[i] < radix[i]
  }

  /** The place of a combination in lexicographic order, the last index varying fastest. */
  function Rank(ds: seq<nat>, radix: seq<nat>): nat
    requires |ds| == |radix|
  {
    if ds == [] then 0 else Times(ds[0], Product(radix[1..])) + Rank(ds[1..], radix[1..])
  }

  /** The combination at place k. */
  function Combination(k: nat, radix: seq<nat>): (ds: seq<nat>)
    ensures |ds| == |radix|
  {
    if radix == [] then []
    else
      var p := Product(radix[1..]);
      if p == 0 then [0] + Combination(0, radix[1..]) else [k / p] + Combination(k % p, radix[1..])
  }

  /** Dictionary order. */
  predicate Before(a: seq<nat>, b: seq<nat>)
    requires |a| == |b|
  {
    a != [] && (a[0] < b[0] || (a[0] == b[0] && Before(a[1..], b[1..])))
  }

  lemma DigitsTail(ds: seq<nat>, radix: seq<nat>)
    requires Digits(ds, radix) && ds != []
    ensures Digits(ds[1..], radix[1..]) && ds[0] < radix[0]
  {}

  lemma MulBound(d: nat, r: nat, p: nat, k: nat)
    requires d < r && k < p
    ensures Times(d, p) + k < Times(r, p)
  {
    TimesMul(d, p);
    TimesMul(r, p);
    assert r * p >= (d + 1) * p == d * p + p;
  }

  lemma {:induction false} RankBound(ds: seq<nat>, radix: seq<nat>)
    requires Digits(ds, radix)
    ensures Rank(ds, radix) < Product(radix)
    decreases |ds|
  {
    if ds != [] {
      DigitsTail(ds, radix);
      RankBound(ds[1..], radix[1..]);
      MulBound(ds[0], radix[0], Product(radix[1..]), Rank(ds[1..], radix[1..]));
    }
  }

  lemma SmallMultiple(x: int, p: int)
    requires -p < x * p < p
    ensures x == 0
  {
    assert x >= 1 ==> x * p >= p;
    assert x <= -1 ==> x * p <= -p;
  }

  lemma DivMod(d: nat, p: nat, k: nat)
    requires k < p
    ensures (d * p + k) / p == d && (d * p + k) % p == k
  {
    var n := d * p + k;
    assert n == p * (n / p) + n % p;
    assert (n / p - d) * p == k - n % p;
    SmallMultiple(n / p - d, p);
  }

  lemma Smaller(q: nat, r: nat, p: nat)
    requires q * p < r * p
    ensures q < r
  {
    assert q >= r ==> (q - r) * p >= 0;
  }

  lemma QuotientBound(k: nat, r: nat, p: nat)
    requires k < r * p
    ensures p > 0 && k / p < r && k % p < p && k == (k / p) * p + k % p
  {
    assert p == 0 ==> r * p == 0;
    Smaller(k / p, r, p);
  }

  /** The combination at a place has that place, ... */
  lemma {:induction false} RankOfCombination(k: nat, radix: seq<nat>)
    requires k < Product(radix)
    ensures Digits(Combination(k, radix), radix) && Rank(Combination(k, radix), radix) == k
    decreases |radix|
  {
    if radix != [] {
      var d, m := CombinationUnfolds(k, radix);
      RankOfCombination(m, radix[1..]);
      Prepended(d, Combination(m, radix[1..]), radix);
    }
  }

  lemma CombinationUnfolds(k: nat, radix: seq<nat>) returns (d: nat, m: nat)
    requires radix != [] && k < Product(radix)
    ensures Combination(k, radix) == [d] + Combination(m, radix[1..])
    ensures d < radix[0] && m < Product(radix[1..]) && k == Times(d, Product(radix[1..])) + m
  {
    var p := Product(radix[1..]);
    TimesMul(radix[0], p);
    QuotientBound(k, radix[0], p);
    d, m := k / p, k % p;
    TimesMul(d, p);
  }

  lemma Prepended(d: nat, ds: seq<nat>, radix: seq<nat>)
    requires radix != [] && d < radix[0] && Digits(ds, radix[1..])
    ensures Digits([d] + ds, radix) && Rank([d] + ds, radix) == Times(d, Product(radix[1..])) + Rank(ds, radix[1..])
  {
    assert ([d] + ds)[1..] == ds;
  }

  /** ... and is the only one there: places and combinations correspond one to one. */
  lemma {:induction false} CombinationOfRank(ds: seq<nat>, radix: seq<nat>)
    requires Digits(ds, radix)
    ensures Combination(Rank(ds, radix), radix) == ds
    decreases |ds|
  {
    if ds != [] {
      DigitsTail(ds, radix);
      RankBound(ds[1..], radix[1..]);
      CombinationOfRank(ds[1..], radix[1..]);
      TimesMul(ds[0], Product(radix[1..]));
      DivMod(ds[0], Product(radix[1..]), Rank(ds[1..], radix[1..]));
      assert ds == [ds[0]] + ds[1..];
    }
  }

  /** The order of the places is the dictionary order of the combinations. */
  lemma {:induction false} RankIsOrder(a: seq<nat>, b: seq<nat>, radix: seq<nat>)
    requires Digits(a, radix) && Digits(b, radix)
    ensures Rank(a, radix) < Rank(b, radix) <==> Before(a, b)
    decreases |a|
  {
    if a != [] {
      DigitsTail(a, radix);
      DigitsTail(b, radix);
      var p, x, y := Product(radix[1..]), Rank(a[1..], radix[1..]), Rank(b[1..], radix[1..]);
      RankBound(a[1..], radix[1..]);
      RankBound(b[1..], radix[1..]);
      RankIsOrder(a[1..], b[1..], radix[1..]);
      if a[0] < b[0] {
        MulBound(a[0], b[0], p, x);
      } else if b[0] < a[0] {
        MulBound(b[0], a[0], p, y);
      }
    }
  }

  // ---------- one step of the odometer ----------

  predicate AllZero(ds: seq<nat>) {
    forall i :: 0 <= i < |ds| ==> ds[i] == 0
  }

  predicate AllFull(ds: seq<nat>, radix: seq<nat>) {
    |ds| == |radix| && forall i :: 0 <= i < |ds| ==> ds[i] + 1 == radix[i]
  }

  lemma {:induction false} RankOfZero(ds: seq<nat>, radix: seq<nat>)
    requires |ds| == |radix| && AllZero(ds)
    ensures Rank(ds, radix) == 0
    decreases |ds|
  {
    if ds != [] {
      RankOfZero(ds[1..], radix[1..]);
      assert ds[0] == 0;
    }
  }

  lemma {:induction false} RankOfFull(ds: seq<nat>, radix: seq<nat>)
    requires AllFull(ds, radix)
    ensures Rank(ds, radix) + 1 == Product(radix)
    decreases |ds|
  {
    if ds != [] {
      RankOfFull(ds[1..], radix[1..]);
      assert Times(radix[0], Product(radix[1..])) == Product(radix[1..]) + Times(ds[0], Product(radix[1..]));
    }
  }

  /** Digit i goes up by one, the digits behind it go from full to zero: the place goes up by one. */
  lemma {:induction false} Carry(ds: seq<nat>, ds': seq<nat>, radix: seq<nat>, i: nat)
    requires i < |ds| == |ds'| == |radix| && ds'[i] == ds[i] + 1
    requires ds'[..i] == ds[..i] && AllFull(ds[i + 1..], radix[i + 1..]) && AllZero(ds'[i + 1..])
    ensures Rank(ds', radix) == Rank(ds, radix) + 1
    decreases i
  {
    var p := Product(radix[1..]);
    if i == 0 {
      RankOfFull(ds[1..], radix[1..]);
      RankOfZero(ds'[1..], radix[1..]);
      assert Times(ds'[0], p) == p + Times(ds[0], p);
    } else {
      assert ds'[0] == ds'[..i][0] && ds[0] == ds[..i][0];
      assert ds[1..][..i - 1] == ds[..i][1..] && ds'[1..][..i - 1] == ds'[..i][1..];
      assert ds[1..][i..] == ds[i + 1..] && ds'[1..][i..] == ds'[i + 1..] && radix[1..][i..] == radix[i + 1..];
      Carry(ds[1..], ds'[1..], radix[1..], i - 1);
    }
  }
}
