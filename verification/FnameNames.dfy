/** The names that a list of file specifications stands for: for each entry, each choice among the alternatives of its
    references in dictionary order, and each match of the resulting pattern. */
module FnameNames {
  import opened Wrappers
  import opened FnameOdometer
  import opened FnameSubst
  import opened FnameCfx
  import opened FnameSplit
  import opened FnameGen
  import opened FnameRefs

  // ---------- what an entry stands for ----------

  /** All ways to write an entry out: each reference in turn takes each of its alternatives, or stays as it is if it
      stands for nothing. */
  function Patterns(e: Entry, before: string, atStart: bool, getenv: string -> Option<string>): seq<string>
    decreases e, 0
  {
    match e
    case Last(post) => [before + post]
    case Unended(pre, sp, name) => [before + (pre + (sp.Opening() + name))]
    case Ref(pre, sp, name, more) =>
      var v := Meaning(name, atStart && pre == "", getenv);
      if v == "" then Patterns(more, before + (pre + (sp.Opening() + name + [sp.Closing()])), false, getenv)
      else PatternsOver(Parts(v, 0, ';'), before + pre, more, getenv)
  }

  function PatternsOver(vs: seq<string>, before: string, more: Entry, getenv: string -> Option<string>): seq<string>
    decreases more, |vs| + 1
  {
    if vs == [] then []
    else Patterns(more, before + vs[0], false, getenv) + PatternsOver(vs[1..], before, more, getenv)
  }

  /** The matches of all patterns, in order. */
  ghost function GlobAll(ps: seq<string>, glob: string -> seq<string>): seq<string> {
    if ps == [] then [] else glob(ps[0]) + GlobAll(ps[1..], glob)
  }

  // ---------- the strings of a base string with spans, enumerated ----------

  /** The base string from p on, for all choices of values. */
  ghost function Texts(base: string, p: nat, segs: seq<Seg>, before: string): seq<string>
    requires Spans(segs, p, |base|)
    decreases |segs|, 0
  {
    SpansFit(segs, p, |base|);
    if segs == [] then [before + base[p..]]
    else TextsOver(base, segs[0].start + segs[0].len, segs[1..], segs[0].values, before + base[p..segs[0].start])
  }

  ghost function TextsOver(base: string, p: nat, segs: seq<Seg>, vs: seq<string>, before: string): seq<string>
    requires Spans(segs, p, |base|)
    decreases |segs|, |vs| + 1
  {
    if vs == [] then [] else Texts(base, p, segs, before + vs[0]) + TextsOver(base, p, segs, vs[1..], before)
  }

  ghost function FilledAt(base: string, p: nat, segs: seq<Seg>, k: nat): string
    requires Spans(segs, p, |base|) && k < Product(Radix(segs))
  {
    RankOfCombination(k, Radix(segs));
    PicksAreDigits(Combination(k, Radix(segs)), segs);
    Filled(base, p, segs, Combination(k, Radix(segs)))
  }

  /** The text at place k is that of the k-th combination. */
  ghost predicate TextIs(base: string, p: nat, segs: seq<Seg>, before: string, k: nat)
    requires Spans(segs, p, |base|) && k < Product(Radix(segs))
  {
    var ts := Texts(base, p, segs, before);
    |ts| == Product(Radix(segs)) && ts[k] == before + FilledAt(base, p, segs, k)
  }

  lemma {:induction false} TextAt(base: string, p: nat, segs: seq<Seg>, before: string, k: nat)
    requires Spans(segs, p, |base|) && k < Product(Radix(segs))
    ensures TextIs(base, p, segs, before, k)
    decreases |segs|, 0
  {
    if segs != [] {
      SpansFit(segs, p, |base|);
      var r := Radix(segs);
      assert r[1..] == Radix(segs[1..]);
      var d, m := CombinationUnfolds(k, r);
      var q, mid := segs[0].start + segs[0].len, before + base[p..segs[0].start];
      OverAt(base, q, segs[1..], segs[0].values, mid, d, m);
      FilledStep(base, p, segs, before, k, d, m);
    } else {
      FilledAll(base, p, segs, before);
    }
  }

  lemma FilledAll(base: string, p: nat, segs: seq<Seg>, before: string)
    requires segs == [] && Spans(segs, p, |base|)
    ensures Product(Radix(segs)) == 1 && TextIs(base, p, segs, before, 0)
  {}

  lemma FilledStep(base: string, p: nat, segs: seq<Seg>, before: string, k: nat, d: nat, m: nat)
    requires segs != [] && Spans(segs, p, |base|) && k < Product(Radix(segs)) && d < |segs[0].values|
    requires m < Product(Radix(segs[1..])) && Combination(k, Radix(segs)) == [d] + Combination(m, Radix(segs[1..]))
    ensures p <= segs[0].start <= |base|
    ensures before + FilledAt(base, p, segs, k) ==
      before + base[p..segs[0].start] + segs[0].values[d] + FilledAt(base, segs[0].start + segs[0].len, segs[1..], m)
  {
    var ds, ds' := Combination(k, Radix(segs)), Combination(m, Radix(segs[1..]));
    assert ds[1..] == ds' && ds[0] == d;
    RankOfCombination(k, Radix(segs));
    PicksAreDigits(ds, segs);
    FilledUnfolds(base, p, segs, ds);
  }

  ghost predicate OverIs(base: string, p: nat, segs: seq<Seg>, vs: seq<string>, before: string, d: nat, m: nat)
    requires Spans(segs, p, |base|) && m < Product(Radix(segs)) && d < |vs|
  {
    var n := Product(Radix(segs));
    var ts, i := TextsOver(base, p, segs, vs, before), Times(d, n) + m;
    |ts| == Times(|vs|, n) && i < |ts| && ts[i] == before + vs[d] + FilledAt(base, p, segs, m)
  }

  /** A block of places for each value. */
  lemma {:induction false} OverAt(base: string, p: nat, segs: seq<Seg>, vs: seq<string>, before: string, d: nat, m: nat)
    requires Spans(segs, p, |base|) && m < Product(Radix(segs)) && d < |vs|
    ensures OverIs(base, p, segs, vs, before, d, m)
    decreases |segs|, |vs| + 1
  {
    TextAt(base, p, segs, before + vs[0], m);
    if |vs| > 1 {
      OverAt(base, p, segs, vs[1..], before, if d == 0 then 0 else d - 1, m);
    }
  }

  /** The names of an entry are the matches of its texts. */
  lemma {:induction false} NamesAreTexts(base: string, segs: seq<Seg>, k: nat, glob: string -> seq<string>)
    requires Spans(segs, 0, |base|) && k <= Product(Radix(segs)) == |Texts(base, 0, segs, "")|
    ensures NamesFrom(base, segs, k, glob) == GlobAll(Texts(base, 0, segs, "")[k..], glob)
    decreases Product(Radix(segs)) - k
  {
    if k < Product(Radix(segs)) {
      NamesAreTexts(base, segs, k + 1, glob);
      TextAt(base, 0, segs, "", k);
      var ts := Texts(base, 0, segs, "");
      assert ts[k] == Output(base, segs, k);
      assert ts[k..][1..] == ts[k + 1..];
    }
  }

  // ---------- the texts of an entry are its patterns ----------

  lemma SpansOk(s: string, p: nat, e: Entry, getenv: string -> Option<string>)
    requires p <= |s| && e.Valid() && s[p..] == e.Text()
    ensures Spans(e.Spans(p, getenv), p, |s|)
  {
    EntryParses(s, p, e, getenv);
    SegsFit(s, p, getenv);
  }

  /** Text in front of the first span can be taken over at once. */
  lemma SkipLiteral(s: string, p: nat, q: nat, segs: seq<Seg>, before: string)
    requires p <= q && Spans(segs, q, |s|)
    ensures q <= |s| && Spans(segs, p, |s|) && Texts(s, p, segs, before) == Texts(s, q, segs, before + s[p..q])
  {
    SpansFit(segs, q, |s|);
    if segs == [] {
      assert before + s[p..] == before + s[p..q] + s[q..];
    } else {
      var r := segs[0].start;
      assert before + s[p..r] == before + s[p..q] + s[q..r];
    }
  }

  lemma RefReads(s: string, p: nat, e: Entry)
    requires p <= |s| && e.Ref? && e.Valid() && s[p..] == e.Text()
    ensures var r, q := p + |e.pre|, e.Behind(p);
      && p <= r < q <= |s| && s[p..r] == e.pre && s[q..] == e.more.Text()
      && s[p..q] == e.pre + (e.spelling.Opening() + e.name + [e.spelling.Closing()])
  {
    var ref := e.spelling.Opening() + e.name + [e.spelling.Closing()];
    assert s[p..] == e.pre + ref + e.more.Text();
    assert s[p..p + |e.pre|] == s[p..][..|e.pre|] == e.pre;
    assert s[p..e.Behind(p)] == s[p..][..|e.pre + ref|] == e.pre + ref;
    assert s[e.Behind(p)..] == s[p..][|e.pre + ref|..];
  }

  lemma {:induction false} TextsArePatterns(
      s: string, p: nat, e: Entry, before: string, getenv: string -> Option<string>)
    requires p <= |s| && e.Valid() && s[p..] == e.Text()
    ensures Spans(e.Spans(p, getenv), p, |s|)
    ensures Texts(s, p, e.Spans(p, getenv), before) == Patterns(e, before, p == 0, getenv)
    decreases e, 0
  {
    SpansOk(s, p, e, getenv);
    if e.Ref? {
      RefReads(s, p, e);
      var q := e.Behind(p);
      SpansOk(s, q, e.more, getenv);
      if e.First(p, getenv) == [] {
        SkipLiteral(s, p, q, e.more.Spans(q, getenv), before);
        TextsArePatterns(s, q, e.more, before + s[p..q], getenv);
        RefStays(p, e, before, getenv);
      } else {
        var vs := e.First(p, getenv)[0].values;
        OverIsPatterns(s, q, e.more, vs, before + e.pre, getenv);
        RefTakes(s, p, e, before, getenv);
      }
    }
  }

  lemma RefStays(p: nat, e: Entry, before: string, getenv: string -> Option<string>)
    requires e.Ref? && e.First(p, getenv) == []
    ensures e.Spans(p, getenv) == e.more.Spans(e.Behind(p), getenv)
    ensures Patterns(e, before, p == 0, getenv) ==
      Patterns(e.more, before + (e.pre + (e.spelling.Opening() + e.name + [e.spelling.Closing()])), false, getenv)
  {}

  lemma RefTakes(s: string, p: nat, e: Entry, before: string, getenv: string -> Option<string>)
    requires e.Ref? && e.First(p, getenv) != [] && Spans(e.Spans(p, getenv), p, |s|)
    requires p + |e.pre| <= |s| && s[p..p + |e.pre|] == e.pre
    ensures var vs, more := e.First(p, getenv)[0].values, e.more.Spans(e.Behind(p), getenv);
      && Patterns(e, before, p == 0, getenv) == PatternsOver(vs, before + e.pre, e.more, getenv)
      && Spans(more, e.Behind(p), |s|)
      && Texts(s, p, e.Spans(p, getenv), before) == TextsOver(s, e.Behind(p), more, vs, before + e.pre)
  {
    var segs := e.Spans(p, getenv);
    assert segs[0] == e.First(p, getenv)[0] && segs[1..] == e.more.Spans(e.Behind(p), getenv);
  }

  lemma {:induction false} OverIsPatterns(
      s: string, p: nat, e: Entry, vs: seq<string>, before: string, getenv: string -> Option<string>)
    requires 0 < p <= |s| && e.Valid() && s[p..] == e.Text()
    ensures Spans(e.Spans(p, getenv), p, |s|)
    ensures TextsOver(s, p, e.Spans(p, getenv), vs, before) == PatternsOver(vs, before, e, getenv)
    decreases e, |vs| + 1
  {
    SpansOk(s, p, e, getenv);
    if vs != [] {
      TextsArePatterns(s, p, e, before + vs[0], getenv);
      OverIsPatterns(s, p, e, vs[1..], before, getenv);
    }
  }

  /** The names of an entry are the matches of its patterns, pattern by pattern. */
  lemma EntryNamesAre(e: Entry, getenv: string -> Option<string>, glob: string -> seq<string>)
    requires e.Valid()
    ensures EntryNames(e.Text(), getenv, glob) == GlobAll(Patterns(e, "", true, getenv), glob)
  {
    var s := e.Text();
    var segs := e.Spans(0, getenv);
    TextsArePatterns(s, 0, e, "", getenv);
    EntryParses(s, 0, e, getenv);
    TextsCount(s, segs);
    NamesAreTexts(s, segs, 0, glob);
    assert Texts(s, 0, segs, "")[0..] == Texts(s, 0, segs, "");
  }

  lemma TextsCount(base: string, segs: seq<Seg>)
    requires Spans(segs, 0, |base|)
    ensures |Texts(base, 0, segs, "")| == Product(Radix(segs))
  {
    ProductPositive(segs, 0, |base|);
    TextAt(base, 0, segs, "", 0);
  }

  lemma {:induction false} ProductPositive(segs: seq<Seg>, p: nat, n: nat)
    requires Spans(segs, p, n)
    ensures Product(Radix(segs)) > 0
    decreases |segs|
  {
    if segs != [] {
      ProductPositive(segs[1..], segs[0].start + segs[0].len, n);
      assert Radix(segs)[1..] == Radix(segs[1..]);
    }
  }

  // ---------- one reference, and two ----------

  /** An entry without references is matched as it is. */
  lemma NoReference(post: string, getenv: string -> Option<string>, glob: string -> seq<string>)
    requires IsPlain(post)
    ensures EntryNames(post, getenv, glob) == glob(post)
  {
    EntryNamesAre(Last(post), getenv, glob);
    assert "" + post == post && glob(post) + [] == glob(post);
  }

  lemma {:induction false} LastAt(
      vs: seq<string>, before: string, post: string, getenv: string -> Option<string>, i: nat)
    requires i < |vs|
    ensures var ps := PatternsOver(vs, before, Last(post), getenv); |ps| == |vs| && ps[i] == before + vs[i] + post
    decreases |vs|
  {
    if |vs| > 1 {
      LastAt(vs[1..], before, post, getenv, if i == 0 then 0 else i - 1);
    }
  }

  /** Each value with the same text around it. */
  function Around(pre: string, vs: seq<string>, post: string): (ps: seq<string>)
    ensures |ps| == |vs| && forall i :: 0 <= i < |vs| ==> ps[i] == pre + vs[i] + post
  {
    seq(|vs|, i requires 0 <= i < |vs| => pre + vs[i] + post)
  }

  lemma OverIsAround(vs: seq<string>, pre: string, post: string, getenv: string -> Option<string>)
    requires vs != []
    ensures PatternsOver(vs, pre, Last(post), getenv) == Around(pre, vs, post)
  {
    var ps := PatternsOver(vs, pre, Last(post), getenv);
    LastAt(vs, pre, post, getenv, 0);
    forall i | 0 <= i < |vs|
      ensures ps[i] == pre + vs[i] + post
    {
      LastAt(vs, pre, post, getenv, i);
    }
  }

  /** One reference: a pattern for each part of its value, in order. */
  lemma OneReference(e: Entry, post: string, v: string, getenv: string -> Option<string>, glob: string -> seq<string>)
    requires e.Ref? && e.Valid() && e.more == Last(post) && e.name != "" && |e.name| <= 513
    requires getenv(e.name) == Some(v) && v != ""
    ensures EntryNames(e.Text(), getenv, glob) == GlobAll(Around(e.pre, Parts(v, 0, ';'), post), glob)
  {
    EntryNamesAre(e, getenv, glob);
    assert "" + e.pre == e.pre;
    OverIsAround(Parts(v, 0, ';'), e.pre, post, getenv);
  }

  /** Two references: the second varies faster. */
  lemma {:induction false} TwoReferences(vs: seq<string>, before: string, e: Entry, post: string, v: string,
      getenv: string -> Option<string>, i: nat, j: nat)
    requires e.Ref? && e.more == Last(post) && e.name != "" && |e.name| <= 513
    requires getenv(e.name) == Some(v) && v != "" && i < |vs| && j < |Parts(v, 0, ';')|
    ensures var ws, ps := Parts(v, 0, ';'), PatternsOver(vs, before, e, getenv);
      && |ps| == Times(|vs|, |ws|) && Times(i, |ws|) + j < |ps|
      && ps[Times(i, |ws|) + j] == before + vs[i] + e.pre + ws[j] + post
    decreases |vs|
  {
    LastAt(Parts(v, 0, ';'), before + vs[0] + e.pre, post, getenv, j);
    if |vs| > 1 {
      TwoReferences(vs[1..], before, e, post, v, getenv, if i == 0 then 0 else i - 1, j);
    }
  }

  // ---------- lists ----------

  function Written(es: seq<Entry>): (fs: seq<string>)
    ensures |fs| == |es| && forall i :: 0 <= i < |es| ==> fs[i] == es[i].Text()
  {
    seq(|es|, i requires 0 <= i < |es| => es[i].Text())
  }

  function ListPatterns(es: seq<Entry>, getenv: string -> Option<string>): seq<string> {
    if es == [] then [] else Patterns(es[0], "", true, getenv) + ListPatterns(es[1..], getenv)
  }

  predicate AllValid(es: seq<Entry>) {
    forall i :: 0 <= i < |es| ==> es[i].Valid()
  }

  lemma {:induction false} GlobBoth(a: seq<string>, b: seq<string>, glob: string -> seq<string>)
    ensures GlobAll(a + b, glob) == GlobAll(a, glob) + GlobAll(b, glob)
    decreases |a|
  {
    if a == [] {
      assert a + b == b;
    } else {
      GlobBoth(a[1..], b, glob);
      assert (a + b)[1..] == a[1..] + b;
    }
  }

  lemma {:induction false} ListNames(
      fs: seq<string>, i: nat, es: seq<Entry>, getenv: string -> Option<string>, glob: string -> seq<string>)
    requires i <= |fs| && fs[i..] == Written(es) && AllValid(es)
    ensures EntriesFrom(fs, i, getenv, glob) == GlobAll(ListPatterns(es, getenv), glob)
    decreases |es|
  {
    if es != [] {
      assert fs[i + 1..] == Written(es[1..]) && fs[i] == es[0].Text();
      EntryNamesAre(es[0], getenv, glob);
      ListNames(fs, i + 1, es[1..], getenv, glob);
      GlobBoth(Patterns(es[0], "", true, getenv), ListPatterns(es[1..], getenv), glob);
    }
  }

  /** Every text is a list of entries between gaps. */
  lemma EveryListIsEntries(macroText: string) returns (gaps: seq<string>, es: seq<Entry>)
    ensures AllValid(es) && Dissects(macroText, [ENV_SEP], gaps, Written(es))
  {
    var fs := Fields(macroText, [ENV_SEP]);
    gaps := FieldsDissect(macroText, [ENV_SEP]);
    es := [];
    while |es| < |fs|
      invariant |es| <= |fs| && AllValid(es) && Written(es) == fs[..|es|]
    {
      var e := EveryTextIsEntry(fs[|es|], 0);
      es := es + [e];
    }
    assert fs[..|fs|] == fs;
  }

  /** Asking a generator for all names of a list: they are the matches of all patterns of its entries. */
  method ReadList(macroText: string, ghost gaps: seq<string>, ghost es: seq<Entry>, getenv: string -> Option<string>,
                  glob: string -> seq<string>) returns (names: seq<string>)
    requires ProperNames(glob) && forall i :: 0 <= i < |macroText| ==> macroText[i] != NUL
    requires AllValid(es) && Dissects(macroText, [ENV_SEP], gaps, Written(es))
    ensures names == GlobAll(ListPatterns(es, getenv), glob)
  {
    var generator := new CfxFilenameGenerator(macroText, getenv, glob);
    DissectionUnique(macroText, [ENV_SEP], gaps, Written(es));
    ListNames(Written(es), 0, es, getenv, glob);
    names := generator.ReadAll();
  }
}
