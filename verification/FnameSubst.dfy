/** Substituting lists of values into a base string (StrSubstituterGenerator). */
module FnameSubst {
  import opened FnameOdometer

  // ---------- lists of values ----------

  /** strchr, as a position; the length if the character does not occur from p on. */
  function Find(s: string, p: nat, c: char): (k: nat)
    requires p <= |s|
    ensures p <= k <= |s| && (k < |s| ==> s[k] == c) && forall i :: p <= i < k ==> s[i] != c
    decreases |s| - p
  {
    if p == |s| || s[p] == c then p else Find(s, p + 1, c)
  }

  /** The parts of a value between separators, from p on. */
  function Parts(s: string, p: nat, sep: char): (ps: seq<string>)
    requires p <= |s|
    ensures ps != []
    decreases |s| - p
  {
    var k := Find(s, p, sep);
    [s[p..k]] + if k == |s| then [] else Parts(s, k + 1, sep)
  }

  function Join(ps: seq<string>, sep: char): string
    requires ps != []
  {
    if |ps| == 1 then ps[0] else ps[0] + [sep] + Join(ps[1..], sep)
  }

  function Count(s: string, p: nat, c: char): nat
    requires p <= |s|
    decreases |s| - p
  {
    if p == |s| then 0 else (if s[p] == c then 1 else 0) + Count(s, p + 1, c)
  }

  predicate Free(s: string, c: char) {
    forall i :: 0 <= i < |s| ==> s[i] != c
  }

  predicate AllFree(ps: seq<string>, c: char) {
    forall i :: 0 <= i < |ps| ==> Free(ps[i], c)
  }

  lemma JoinCons(f: string, ps: seq<string>, sep: char)
    requires ps != []
    ensures Join([f] + ps, sep) == f + [sep] + Join(ps, sep)
  {
    assert ([f] + ps)[1..] == ps;
  }

  lemma {:induction false} CountSkips(s: string, p: nat, k: nat, c: char)
    requires p <= k <= |s| && forall i :: p <= i < k ==> s[i] != c
    ensures Count(s, p, c) == Count(s, k, c)
    decreases k - p
  {
    if p < k {
      CountSkips(s, p + 1, k, c);
    }
  }

  /** Splitting loses nothing: joined with separators the parts are the value again, ... */
  lemma {:induction false} PartsJoin(s: string, p: nat, sep: char)
    requires p <= |s|
    ensures Join(Parts(s, p, sep), sep) == s[p..]
    decreases |s| - p
  {
    var k := Find(s, p, sep);
    if k < |s| {
      PartsJoin(s, k + 1, sep);
      PartsStep(s, p, k, sep);
    } else {
      PartsEnd(s, p, sep);
    }
  }

  lemma PartsStep(s: string, p: nat, k: nat, sep: char)
    requires p <= |s| && k == Find(s, p, sep) < |s| && Join(Parts(s, k + 1, sep), sep) == s[k + 1..]
    ensures Join(Parts(s, p, sep), sep) == s[p..]
  {
    PartsUnfold(s, p, sep);
    JoinParts(s, p, k, Parts(s, k + 1, sep), sep);
  }

  lemma PartsEnd(s: string, p: nat, sep: char)
    requires p <= |s| && Find(s, p, sep) == |s|
    ensures Join(Parts(s, p, sep), sep) == s[p..]
  {
    PartsUnfold(s, p, sep);
    JoinOne(s[p..], sep);
  }

  lemma PartsUnfold(s: string, p: nat, sep: char)
    requires p <= |s|
    ensures var k := Find(s, p, sep);
      Parts(s, p, sep) == if k < |s| then [s[p..k]] + Parts(s, k + 1, sep) else [s[p..]]
  {
    assert s[p..|s|] == s[p..];
  }

  lemma JoinParts(s: string, p: nat, k: nat, ps: seq<string>, sep: char)
    requires p <= k < |s| && s[k] == sep && ps != [] && Join(ps, sep) == s[k + 1..]
    ensures Join([s[p..k]] + ps, sep) == s[p..]
  {
    JoinCons(s[p..k], ps, sep);
    Resplit(s, p, k);
  }

  lemma Resplit(s: string, p: nat, k: nat)
    requires p <= k < |s|
    ensures s[p..] == s[p..k] + [s[k]] + s[k + 1..]
  {}

  lemma JoinOne(f: string, sep: char)
    ensures Join([f], sep) == f
  {}

  /** ... there is one more of them than there are separators, ... */
  lemma {:induction false} PartsCount(s: string, p: nat, sep: char)
    requires p <= |s|
    ensures |Parts(s, p, sep)| == 1 + Count(s, p, sep)
    decreases |s| - p
  {
    var k := Find(s, p, sep);
    CountSkips(s, p, k, sep);
    if k < |s| {
      PartsCount(s, k + 1, sep);
    }
    PartsUnfold(s, p, sep);
  }

  /** ... and they hold no separator. */
  lemma {:induction false} PartsFree(s: string, p: nat, sep: char)
    requires p <= |s|
    ensures AllFree(Parts(s, p, sep), sep)
    decreases |s| - p
  {
    var k := Find(s, p, sep);
    PartsUnfold(s, p, sep);
    FreeSlice(s, p, k, sep);
    if k < |s| {
      PartsFree(s, k + 1, sep);
      FreeCons(s[p..k], Parts(s, k + 1, sep), sep);
    } else {
      FreeCons(s[p..], [], sep);
      assert [s[p..]] + [] == [s[p..]];
    }
  }

  lemma FreeSlice(s: string, p: nat, k: nat, sep: char)
    requires p <= k <= |s| && forall i :: p <= i < k ==> s[i] != sep
    ensures Free(s[p..k], sep) && (k == |s| ==> s[p..k] == s[p..])
  {}

  lemma FreeCons(f: string, ps: seq<string>, sep: char)
    requires Free(f, sep) && AllFree(ps, sep)
    ensures AllFree([f] + ps, sep)
  {}

  // ---------- substitution ----------

  /** A span of the base string and the values that can take its place. */
  datatype Seg = Seg(start: nat, len: nat, values: seq<string>)

  /** The spans are in order, do not overlap and lie within n characters from p on; every list has a value. */
  predicate Spans(segs: seq<Seg>, p: nat, n: nat) {
    if segs == [] then p <= n
    else p <= segs[0].start && segs[0].values != [] && Spans(segs[1..], segs[0].start + segs[0].len, n)
  }

  lemma {:induction false} SpansFit(segs: seq<Seg>, p: nat, n: nat)
    requires Spans(segs, p, n)
    ensures p <= n && forall i :: 0 <= i < |segs| ==>
      p <= segs[i].start && segs[i].start + segs[i].len <= n && segs[i].values != []
    decreases |segs|
  {
    if segs != [] {
      SpansFit(segs[1..], segs[0].start + segs[0].len, n);
      assert forall i :: 0 < i < |segs| ==> segs[i] == segs[1..][i - 1];
    }
  }

  ghost function Radix(segs: seq<Seg>): (r: seq<nat>)
    ensures |r| == |segs| && forall i :: 0 <= i < |r| ==> r[i] == |segs[i].values|
  {
    seq(|segs|, i requires 0 <= i < |segs| => |segs[i].values|)
  }

  /** One index for every list. */
  ghost predicate Picks(ds: seq<nat>, segs: seq<Seg>) {
    |ds| == |segs| && forall i :: 0 <= i < |ds| ==> ds[i] < |segs[i].values|
  }

  /** The base string from p on with the picked values in place of the spans. */
  ghost function Filled(base: string, p: nat, segs: seq<Seg>, ds: seq<nat>): string
    requires Spans(segs, p, |base|) && Picks(ds, segs)
    decreases |segs|
  {
    SpansFit(segs, p, |base|);
    if segs == [] then base[p..]
    else
      assert Picks(ds[1..], segs[1..]);
      base[p..segs[0].start] + segs[0].values[ds[0]] + Filled(base, segs[0].start + segs[0].len, segs[1..], ds[1..])
  }

  /** One replacement in a string. */
  function Splice(s: string, start: nat, len: nat, v: string): string
    requires start + len <= |s|
  {
    s[..start] + v + s[start + len..]
  }

  /** The replacements done one after the other, the last one first, so that no position shifts. */
  ghost function Replaced(base: string, segs: seq<Seg>, ds: seq<nat>): string
    requires Picks(ds, segs) && forall i :: 0 <= i < |segs| ==> segs[i].start + segs[i].len <= |base|
    requires forall i, j :: 0 <= i < j < |segs| ==> segs[i].start + segs[i].len <= segs[j].start
    decreases |segs|
  {
    if segs == [] then base
    else
      var k := |segs| - 1;
      Replaced(Splice(base, segs[k].start, segs[k].len, segs[k].values[ds[k]]), segs[..k], ds[..k])
  }

  lemma {:induction false} SpansOrdered(segs: seq<Seg>, p: nat, n: nat)
    requires Spans(segs, p, n)
    ensures forall i, j :: 0 <= i < j < |segs| ==> segs[i].start + segs[i].len <= segs[j].start
    decreases |segs|
  {
    if segs != [] {
      var q, tail := segs[0].start + segs[0].len, segs[1..];
      SpansFit(tail, q, n);
      SpansOrdered(tail, q, n);
      forall i, j | 0 <= i < j < |segs|
        ensures segs[i].start + segs[i].len <= segs[j].start
      {
        assert segs[j] == tail[j - 1] && (i > 0 ==> segs[i] == tail[i - 1]);
      }
    }
  }

  lemma {:induction false} SpansWithoutLast(segs: seq<Seg>, p: nat, n: nat, m: nat)
    requires Spans(segs, p, n) && segs != [] && segs[|segs| - 1].start <= m
    ensures Spans(segs[..|segs| - 1], p, m)
    decreases |segs|
  {
    if |segs| > 1 {
      var tail := segs[1..];
      assert tail[|tail| - 1] == segs[|segs| - 1];
      SpansWithoutLast(tail, segs[0].start + segs[0].len, n, m);
      assert segs[..|segs| - 1][1..] == tail[..|tail| - 1] && segs[..|segs| - 1][0] == segs[0];
    }
  }

  /** Filling all spans is filling all but the last in the string in which the last one is replaced. */
  lemma {:induction false} FilledLast(base: string, p: nat, segs: seq<Seg>, ds: seq<nat>)
    requires Spans(segs, p, |base|) && Picks(ds, segs) && segs != []
    ensures var k := |segs| - 1;
      && segs[k].start + segs[k].len <= |base|
      && var base' := Splice(base, segs[k].start, segs[k].len, segs[k].values[ds[k]]);
         Spans(segs[..k], p, |base'|) && Picks(ds[..k], segs[..k])
         && Filled(base, p, segs, ds) == Filled(base', p, segs[..k], ds[..k])
    decreases |segs|
  {
    SpansFit(segs, p, |base|);
    if |segs| == 1 {
      FilledOne(base, p, segs, ds);
    } else {
      FilledLast(base, segs[0].start + segs[0].len, segs[1..], ds[1..]);
      FilledLastStep(base, p, segs, ds);
    }
  }

  lemma FilledLastStep(base: string, p: nat, segs: seq<Seg>, ds: seq<nat>)
    requires Spans(segs, p, |base|) && Picks(ds, segs) && |segs| > 1
    requires var k, q := |segs| - 1, segs[0].start + segs[0].len;
      && segs[k].start + segs[k].len <= |base|
      && var base' := Splice(base, segs[k].start, segs[k].len, segs[k].values[ds[k]]);
         Spans(segs[1..][..k - 1], q, |base'|) && Picks(ds[1..][..k - 1], segs[1..][..k - 1])
         && Picks(ds[1..], segs[1..])
         && Filled(base, q, segs[1..], ds[1..]) == Filled(base', q, segs[1..][..k - 1], ds[1..][..k - 1])
    ensures var k := |segs| - 1;
      var base' := Splice(base, segs[k].start, segs[k].len, segs[k].values[ds[k]]);
      Spans(segs[..k], p, |base'|) && Picks(ds[..k], segs[..k])
      && Filled(base, p, segs, ds) == Filled(base', p, segs[..k], ds[..k])
  {
    var k := |segs| - 1;
    var base' := Splice(base, segs[k].start, segs[k].len, segs[k].values[ds[k]]);
    SpansFit(segs, p, |base|);
    SpansOrdered(segs, p, |base|);
    SpansWithoutLast(segs, p, |base|, |base'|);
    FilledCons(base, base', p, segs, ds);
  }

  lemma FilledOne(base: string, p: nat, segs: seq<Seg>, ds: seq<nat>)
    requires |segs| == 1 && Spans(segs, p, |base|) && Picks(ds, segs) && segs[0].start + segs[0].len <= |base|
    ensures var base' := Splice(base, segs[0].start, segs[0].len, segs[0].values[ds[0]]);
      Spans(segs[..0], p, |base'|) && Picks(ds[..0], segs[..0])
      && Filled(base, p, segs, ds) == Filled(base', p, segs[..0], ds[..0])
  {
    var s, v := segs[0], segs[0].values[ds[0]];
    FilledUnfolds(base, p, segs, ds);
    FilledNone(base, s.start + s.len, segs[1..], ds[1..]);
    var base' := Splice(base, s.start, s.len, v);
    FilledNone(base', p, segs[..0], ds[..0]);
    assert base'[p..] == base[p..s.start] + v + base[s.start + s.len..];
  }

  lemma FilledNone(base: string, p: nat, segs: seq<Seg>, ds: seq<nat>)
    requires segs == [] && p <= |base| && ds == []
    ensures Spans(segs, p, |base|) && Picks(ds, segs) && Filled(base, p, segs, ds) == base[p..]
  {}

  lemma FilledCons(base: string, base': string, p: nat, segs: seq<Seg>, ds: seq<nat>)
    requires |segs| > 1 && Spans(segs, p, |base|) && Picks(ds, segs)
    requires var k, q := |segs| - 1, segs[0].start + segs[0].len;
      && Spans(segs[..k], p, |base'|) && Picks(ds[..k], segs[..k])
      && segs[0].start <= |base| && segs[0].start <= |base'| && base[..segs[0].start] == base'[..segs[0].start]
      && Spans(segs[1..][..k - 1], q, |base'|) && Picks(ds[1..][..k - 1], segs[1..][..k - 1])
      && Picks(ds[1..], segs[1..])
      && Filled(base, q, segs[1..], ds[1..]) == Filled(base', q, segs[1..][..k - 1], ds[1..][..k - 1])
    ensures Filled(base, p, segs, ds) == Filled(base', p, segs[..|segs| - 1], ds[..|segs| - 1])
  {
    var k := |segs| - 1;
    assert segs[..k][1..] == segs[1..][..k - 1] && ds[..k][1..] == ds[1..][..k - 1]
      && segs[..k][0] == segs[0] && ds[..k][0] == ds[0];
    SamePrefix(base, base', p, segs[0].start);
    FilledUnfolds(base, p, segs, ds);
    FilledUnfolds(base', p, segs[..k], ds[..k]);
  }

  lemma SamePrefix(a: string, b: string, p: nat, q: nat)
    requires p <= q <= |a| && q <= |b| && a[..q] == b[..q]
    ensures a[p..q] == b[p..q]
  {
    assert a[p..q] == a[..q][p..] && b[p..q] == b[..q][p..];
  }

  lemma FilledUnfolds(base: string, p: nat, segs: seq<Seg>, ds: seq<nat>)
    requires Spans(segs, p, |base|) && Picks(ds, segs) && segs != []
    ensures Picks(ds[1..], segs[1..]) && p <= segs[0].start <= segs[0].start + segs[0].len <= |base|
    ensures Filled(base, p, segs, ds) ==
      base[p..segs[0].start] + segs[0].values[ds[0]] + Filled(base, segs[0].start + segs[0].len, segs[1..], ds[1..])
  {
    SpansFit(segs, p, |base|);
  }

  /** Filling the spans from left to right is replacing them one after the other, the last one first. */
  lemma {:induction false} FilledIsReplaced(base: string, p: nat, segs: seq<Seg>, ds: seq<nat>)
    requires Spans(segs, p, |base|) && Picks(ds, segs)
    ensures forall i :: 0 <= i < |segs| ==> segs[i].start + segs[i].len <= |base|
    ensures forall i, j :: 0 <= i < j < |segs| ==> segs[i].start + segs[i].len <= segs[j].start
    ensures |Replaced(base, segs, ds)| >= p && Filled(base, p, segs, ds) == Replaced(base, segs, ds)[p..]
    decreases |segs|
  {
    SpansFit(segs, p, |base|);
    SpansOrdered(segs, p, |base|);
    if segs != [] {
      var k := |segs| - 1;
      FilledLast(base, p, segs, ds);
      FilledIsReplaced(Splice(base, segs[k].start, segs[k].len, segs[k].values[ds[k]]), p, segs[..k], ds[..k]);
    }
  }

  // ---------- the generator ----------

  /** The constructor of SubStrSubstituter: count the values, then cut at every separator. */
  method SplitValue(value: string, sep: char) returns (values: seq<string>)
    ensures values == Parts(value, 0, sep)
  {
    var nValues := CountValues(value, sep);
    values := Cut(value, sep);
    PartsCount(value, 0, sep);
    assert |values| == nValues;
  }

  method Cut(value: string, sep: char) returns (values: seq<string>)
    ensures values == Parts(value, 0, sep)
  {
    values := [];
    var val: nat := 0;
    var pSep := Find(value, val, sep);
    ghost var rest := Parts(value, 0, sep);
    while pSep < |value|
      invariant val <= |value| && pSep == Find(value, val, sep)
      invariant rest == Parts(value, val, sep) && values + rest == Parts(value, 0, sep)
      decreases |value| - val
    {
      rest := CutAt(values, value, val, sep);
      values := values + [value[val..pSep]];
      val := pSep + 1;
      pSep := Find(value, val, sep);
    }
    rest := CutAt(values, value, val, sep);
    values := values + [value[val..]];
  }

  lemma CutAt(values: seq<string>, value: string, p: nat, sep: char) returns (rest: seq<string>)
    requires p <= |value|
    ensures var k := Find(value, p, sep);
      && rest == (if k < |value| then Parts(value, k + 1, sep) else [])
      && values + Parts(value, p, sep) == if k < |value| then (values + [value[p..k]]) + rest else values + [value[p..]]
  {
    PartsUnfold(value, p, sep);
    var k := Find(value, p, sep);
    rest := if k < |value| then Parts(value, k + 1, sep) else [];
    if k < |value| {
      Shift(values, value[p..k], rest);
    }
  }

  lemma Shift(a: seq<string>, x: string, b: seq<string>)
    ensures a + ([x] + b) == (a + [x]) + b
  {}

  method CountValues(value: string, sep: char) returns (n: nat)
    ensures n == 1 + Count(value, 0, sep)
  {
    n := 1;
    var pc := 0;
    while pc < |value|
      invariant pc <= |value| && n + Count(value, pc, sep) == 1 + Count(value, 0, sep)
    {
      if value[pc] == sep {
        n := n + 1;
      }
      pc := pc + 1;
    }
  }

  lemma PicksAreDigits(ds: seq<nat>, segs: seq<Seg>)
    ensures Picks(ds, segs) <==> Digits(ds, Radix(segs))
  {
    assert forall i {:trigger Radix(segs)[i]} :: 0 <= i < |segs| ==> Radix(segs)[i] == |segs[i].values|;
  }

  /** The k-th string: the k-th combination of values, in place of the spans. */
  ghost function Output(base: string, segs: seq<Seg>, k: nat): string
    requires Spans(segs, 0, |base|) && k < Product(Radix(segs))
  {
    RankOfCombination(k, Radix(segs));
    PicksAreDigits(Combination(k, Radix(segs)), segs);
    Filled(base, 0, segs, Combination(k, Radix(segs)))
  }

  /** Where the next span may start. */
  ghost function SegsEnd(segs: seq<Seg>): nat {
    if segs == [] then 0 else segs[|segs| - 1].start + segs[|segs| - 1].len
  }

  class StrSubstituterGenerator {
    var combinationsExhausted: bool
    var baseString: string
    /** The list of spans, and the d_valueIdx of each. */
    var segs: seq<Seg>
    var valueIdx: seq<nat>
    /** How many strings were given out. */
    ghost var calls: nat

    ghost predicate Valid()
      reads this
    {
      && Spans(segs, 0, |baseString|) && Picks(valueIdx, segs)
      && if combinationsExhausted then calls == Product(Radix(segs)) else calls == Rank(valueIdx, Radix(segs))
    }

    ghost function Total(): nat
      reads this
    {
      Product(Radix(segs))
    }

    constructor ()
      ensures Valid() && calls == 0 && !combinationsExhausted && segs == [] && baseString == ""
    {
      combinationsExhausted, baseString, segs, valueIdx, calls := false, "", [], [], 0;
    }

    method SetBaseStr(base: string)
      requires Valid() && segs == []
      modifies this`baseString
      ensures Valid() && baseString == base
    {
      baseString := base;
    }

    ghost function End(): nat
      reads this`segs
    {
      SegsEnd(segs)
    }

    /** AddMultiExpandableSeg: one more list of values, for a span behind the others. */
    method AddMultiExpandableSeg(value: string, sep: char, start: nat, len: nat)
      requires Valid() && calls == 0 && !combinationsExhausted && End() <= start && start + len <= |baseString|
      modifies this`segs, this`valueIdx
      ensures Valid() && segs == old(segs) + [Seg(start, len, Parts(value, 0, sep))]
    {
      var values := SplitValue(value, sep);
      var seg := Seg(start, len, values);
      SpansAppend(segs, 0, |baseString|, seg);
      RankZeroAppend(valueIdx, segs, seg);
      segs := segs + [seg];
      valueIdx := valueIdx + [0];
    }

    lemma {:induction false} SpansAppend(ss: seq<Seg>, p: nat, n: nat, s: Seg)
      requires Spans(ss, p, n) && s.values != [] && s.start + s.len <= n
      requires (if ss == [] then p else ss[|ss| - 1].start + ss[|ss| - 1].len) <= s.start
      ensures Spans(ss + [s], p, n)
      decreases |ss|
    {
      var us := ss + [s];
      if ss != [] {
        assert us[1..] == ss[1..] + [s] && us[0] == ss[0];
        SpansAppend(ss[1..], ss[0].start + ss[0].len, n, s);
      } else {
        assert us[1..] == [];
      }
    }

    lemma RankZeroAppend(ds: seq<nat>, ss: seq<Seg>, s: Seg)
      requires Picks(ds, ss) && Rank(ds, Radix(ss)) == 0 && s.values != []
      ensures Picks(ds + [0], ss + [s]) && Rank(ds + [0], Radix(ss + [s])) == 0
    {
      PicksAreDigits(ds, ss);
      OnlyZeroRanksZero(ds, Radix(ss));
      RankOfZero(ds + [0], Radix(ss + [s]));
    }

    lemma OnlyZeroRanksZero(ds: seq<nat>, radix: seq<nat>)
      requires Digits(ds, radix) && Rank(ds, radix) == 0
      ensures AllZero(ds)
    {
      var zs := seq(|ds|, _ => 0);
      assert Digits(zs, radix);
      RankOfZero(zs, radix);
      CombinationOfRank(ds, radix);
      CombinationOfRank(zs, radix);
    }

    /** The loop of NextCombination stands before position i: ds were the indices, those from i on were full and are
        zero. */
    ghost predicate Turning(ds: seq<nat>, i: nat)
      reads this`segs, this`valueIdx
    {
      && i <= |segs| == |valueIdx| == |ds| && valueIdx[..i] == ds[..i]
      && AllZero(valueIdx[i..]) && AllFull(ds[i..], Radix(segs)[i..]) && Picks(valueIdx, segs)
    }

    lemma TurnOn(ds: seq<nat>, i: nat)
      requires Turning(ds, i + 1)
      ensures valueIdx[i] == ds[i] < |segs[i].values|
      ensures valueIdx[i] + 1 == |segs[i].values| ==>
        valueIdx[..i] == ds[..i] && AllZero(valueIdx[i := 0][i..]) && AllFull(ds[i..], Radix(segs)[i..])
    {
      assert valueIdx[i] == valueIdx[..i + 1][i] && ds[i] == ds[..i + 1][i];
      assert valueIdx[..i] == valueIdx[..i + 1][..i] && ds[..i] == ds[..i + 1][..i];
      var vs, r := valueIdx[i := 0], Radix(segs);
      assert forall k :: 0 < k < |vs[i..]| ==> vs[i..][k] == valueIdx[i + 1..][k - 1];
      assert forall k :: 0 < k < |ds[i..]| ==> ds[i..][k] == ds[i + 1..][k - 1] && r[i..][k] == r[i + 1..][k - 1];
    }

    lemma TurnEnds(ds: seq<nat>, i: nat)
      requires Turning(ds, i + 1) && valueIdx[i] + 1 < |segs[i].values|
      ensures var vs := valueIdx[i := valueIdx[i] + 1];
        Picks(vs, segs) && Rank(vs, Radix(segs)) == Rank(ds, Radix(segs)) + 1 < Product(Radix(segs))
    {
      TurnOn(ds, i);
      var vs := valueIdx[i := valueIdx[i] + 1];
      assert vs[..i] == ds[..i] by {
        assert valueIdx[..i] == valueIdx[..i + 1][..i] && ds[..i] == ds[..i + 1][..i];
      }
      assert vs[i + 1..] == valueIdx[i + 1..];
      Carry(ds, vs, Radix(segs), i);
      PicksAreDigits(vs, segs);
      RankBound(vs, Radix(segs));
    }

    /** NextCombination: the odometer goes one place on; from the last place it goes to the first, and is exhausted. */
    method NextCombination()
      requires Valid() && !combinationsExhausted
      modifies this`valueIdx, this`combinationsExhausted, this`calls
      ensures Valid() && calls == old(calls) + 1 && (combinationsExhausted <==> calls == Total())
    {
      ghost var ds := valueIdx;
      calls := calls + 1;
      var i: nat := |segs|;
      while i > 0
        invariant Turning(ds, i) && calls == Rank(ds, Radix(segs)) + 1 && !combinationsExhausted
      {
        i := i - 1;
        TurnOn(ds, i);
        if valueIdx[i] + 1 < |segs[i].values| {
          TurnEnds(ds, i);
          valueIdx := valueIdx[i := valueIdx[i] + 1];
          return;
        }
        valueIdx := valueIdx[i := 0];
      }
      combinationsExhausted := true;
      assert ds[0..] == ds && Radix(segs)[0..] == Radix(segs);
      RankOfFull(ds, Radix(segs));
    }

    /** GetNextString: as long as there are combinations, the next one's string is appended; afterwards the destination
        is emptied, for ever. */
    method GetNextString(st: string) returns (rv: bool, st': string)
      requires Valid()
      modifies this`valueIdx, this`combinationsExhausted, this`calls
      ensures Valid() && rv == (old(calls) < Total())
      ensures if rv then calls == old(calls) + 1 && st' == st + Output(baseString, segs, old(calls))
        else calls == old(calls) && st' == ""
    {
      PicksAreDigits(valueIdx, segs);
      RankBound(valueIdx, Radix(segs));
      if combinationsExhausted {
        return false, "";
      }
      CombinationOfRank(valueIdx, Radix(segs));
      st' := Assemble(st);
      NextCombination();
      rv := true;
    }

    /** The loop of GetNextString. */
    method Assemble(st: string) returns (st': string)
      requires Valid()
      ensures st' == st + Filled(baseString, 0, segs, valueIdx)
    {
      st' := st;
      var lit: nat := 0;
      var i := 0;
      ghost var rest, ds := segs, valueIdx;
      while i < |segs|
        invariant i <= |segs| && rest == segs[i..] && ds == valueIdx[i..] && lit <= |baseString|
        invariant Spans(rest, lit, |baseString|) && Picks(ds, rest)
        invariant st' + Filled(baseString, lit, rest, ds) == st + Filled(baseString, 0, segs, valueIdx)
      {
        FilledUnfolds(baseString, lit, rest, ds);
        assert rest[0] == segs[i] && ds[0] == valueIdx[i];
        ghost var before, more := st', Filled(baseString, segs[i].start + segs[i].len, rest[1..], ds[1..]);
        var prevLitLen := segs[i].start - lit;
        st' := st' + baseString[lit..lit + prevLitLen];
        st' := st' + segs[i].values[valueIdx[i]];
        assert st' + more == before + (baseString[lit..segs[i].start] + segs[i].values[valueIdx[i]] + more);
        lit := lit + prevLitLen + segs[i].len;
        i := i + 1;
        rest, ds := rest[1..], ds[1..];
      }
      st' := st' + baseString[lit..];
    }
  }
}
