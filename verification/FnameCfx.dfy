/** References to environment variables in a file specification (CFX_to_SSG). */
module FnameCfx {
  import opened Wrappers
  import opened FnameSubst

  const ENV_SEP: char := ';'
  const PATHBUF := 514

  datatype EnvRefs = RefsNone | RefsParseErr | RefsUnambig | RefsMidList | RefsLeadingList

  /** The next reference from p on; the length if there is none. */
  function NextRef(s: string, p: nat): (r: nat)
    requires p <= |s|
    ensures p <= r <= |s| && (r < |s| ==> s[r] == '$' || s[r] == '%')
    ensures forall i :: p <= i < r ==> s[i] != '$' && s[i] != '%'
    decreases |s| - p
  {
    if p == |s| || s[p] == '$' || s[p] == '%' then p else NextRef(s, p + 1)
  }

  predicate Opens(s: string, r: nat, c: char)
    requires r < |s|
  {
    s[r] == '$' && r + 1 < |s| && s[r + 1] == c
  }

  /** Where the name starts, and what ends it: $(name) ${name} $name: %name%. */
  function NameStart(s: string, r: nat): (n: nat)
    requires r < |s|
    ensures r < n <= |s|
  {
    if Opens(s, r, '(') || Opens(s, r, '{') then r + 2 else r + 1
  }

  function Terminator(s: string, r: nat): char
    requires r < |s|
  {
    if s[r] == '%' then '%' else if Opens(s, r, '(') then ')' else if Opens(s, r, '{') then '}' else ':'
  }

  /** The characters from position n up to t. */
  function Between(s: string, n: nat, t: nat): string
    requires n <= t <= |s|
    decreases t - n
  {
    if n == t then "" else [s[n]] + Between(s, n + 1, t)
  }

  lemma {:induction false} BetweenIsSlice(s: string, n: nat, t: nat)
    requires n <= t <= |s|
    ensures Between(s, n, t) == s[n..t]
    decreases t - n
  {
    if n < t {
      BetweenIsSlice(s, n + 1, t);
      assert s[n..t] == [s[n]] + s[n + 1..t];
    }
  }

  /** What fits into the name buffer. */
  function Truncated(name: string): string {
    if |name| < PATHBUF then name else name[..PATHBUF - 1]
  }

  function Translated(s: string, from: char, to: char): (t: string)
    ensures |t| == |s| && forall i :: 0 <= i < |s| ==> t[i] == if s[i] == from then to else s[i]
  {
    if s == "" then "" else [if s[0] == from then to else s[0]] + Translated(s[1..], from, to)
  }

  /** The value of a name: the environment's; of an undefined name with bars the list it spells out; of a leading one
      without value the current directory. */
  function ValueOf(name: string, leading: bool, getenv: string -> Option<string>): string {
    var n := Truncated(name);
    match getenv(n)
    case None => if '|' in n then Translated(n, '|', ENV_SEP) else if leading then "." else ""
    case Some(v) => if v == "" && leading then "." else v
  }

  /** The span of the reference from r to its terminator at t, if it stands for anything. */
  function SegOf(s: string, r: nat, n: nat, t: nat, getenv: string -> Option<string>): seq<Seg>
    requires r < n <= t < |s|
  {
    if t == n || ValueOf(Between(s, n, t), r == 0, getenv) == "" then []
    else [Seg(r, t - r + 1, Parts(ValueOf(Between(s, n, t), r == 0, getenv), 0, ENV_SEP))]
  }

  lemma SegOfShape(s: string, r: nat, n: nat, t: nat, getenv: string -> Option<string>)
    requires r < n <= t < |s|
    ensures var segs := SegOf(s, r, n, t, getenv);
      segs == [] || (|segs| == 1 && segs[0].start == r && segs[0].len == t - r + 1 && segs[0].values != [])
  {}

  lemma SpansPrefixed(a: seq<Seg>, b: seq<Seg>, p: nat, r: nat, q: nat, n: nat)
    requires Spans(b, q, n) && p <= r <= q
    requires (a == [] || (|a| == 1 && a[0].start == r && a[0].start + a[0].len == q && a[0].values != []))
    ensures Spans(a + b, p, n)
  {
    if a == [] {
      assert a + b == b;
    } else {
      assert (a + b)[1..] == b;
    }
  }

  /** The spans and lists of values that the references from p on stand for, up to one that does not end. */
  function SegsFrom(s: string, p: nat, getenv: string -> Option<string>): seq<Seg>
    requires p <= |s|
    decreases |s| - p
  {
    var r := NextRef(s, p);
    if r == |s| then []
    else
      var n := NameStart(s, r);
      var t := Find(s, n, Terminator(s, r));
      if t == |s| then [] else SegOf(s, r, n, t, getenv) + SegsFrom(s, t + 1, getenv)
  }

  /** The reference from r, with its name at n and its terminator at t. */
  ghost predicate RefAt(s: string, p: nat, r: nat, n: nat, t: nat) {
    p <= |s| && r == NextRef(s, p) < |s| && n == NameStart(s, r) && t == Find(s, n, Terminator(s, r)) < |s|
  }

  lemma SegsNext(s: string, getenv: string -> Option<string>, p: nat, r: nat, n: nat, t: nat)
    requires RefAt(s, p, r, n, t)
    ensures SegsFrom(s, p, getenv) == SegOf(s, r, n, t, getenv) + SegsFrom(s, t + 1, getenv)
  {
    var r', one, more := NextRef(s, p), SegOf(s, r, n, t, getenv), SegsFrom(s, t + 1, getenv);
    assert Find(s, NameStart(s, r'), Terminator(s, r')) == t;
    assert SegsFrom(s, p, getenv) == one + more;
  }

  /** A reference from r that does not end. */
  ghost predicate Dangling(s: string, p: nat, r: nat) {
    p <= |s| && r == NextRef(s, p) < |s| && Find(s, NameStart(s, r), Terminator(s, r)) == |s|
  }

  lemma Located(s: string, p: nat, r: nat, n: nat, t: nat)
    requires p <= |s| && r == NextRef(s, p) < |s| && n == NameStart(s, r) && t == Find(s, n, Terminator(s, r))
    ensures if t == |s| then Dangling(s, p, r) else RefAt(s, p, r, n, t) && r < t < |s|
  {}

  lemma NextSpan(s: string, p: nat, getenv: string -> Option<string>) returns (r: nat, n: nat, t: nat)
    requires p <= |s|
    ensures SegsFrom(s, p, getenv) == [] || (RefAt(s, p, r, n, t) && p <= r < n <= t)
  {
    r := NextRef(s, p);
    n, t := r, r;
    if r < |s| {
      n := NameStart(s, r);
      t := Find(s, n, Terminator(s, r));
    }
  }

  /** For every string the spans are in order, do not overlap and lie inside. */
  lemma {:induction false} SegsFit(s: string, p: nat, getenv: string -> Option<string>)
    requires p <= |s|
    ensures Spans(SegsFrom(s, p, getenv), p, |s|)
    decreases |s| - p
  {
    var r, n, t := NextSpan(s, p, getenv);
    if SegsFrom(s, p, getenv) != [] {
      var more := SegsFrom(s, t + 1, getenv);
      SegsFit(s, t + 1, getenv);
      SegsNext(s, getenv, p, r, n, t);
      OneMoreFits(s, p, r, n, t, more, getenv);
    }
  }

  lemma OneMoreFits(s: string, p: nat, r: nat, n: nat, t: nat, more: seq<Seg>, getenv: string -> Option<string>)
    requires p <= r < n <= t < |s| && Spans(more, t + 1, |s|)
    ensures Spans(SegOf(s, r, n, t, getenv) + more, p, |s|)
  {
    SegOfShape(s, r, n, t, getenv);
    SpansPrefixed(SegOf(s, r, n, t, getenv), more, p, r, t + 1, |s|);
  }

  /** Whether every reference from p on ends. */
  predicate Ends(s: string, p: nat)
    requires p <= |s|
    decreases |s| - p
  {
    var r := NextRef(s, p);
    r == |s| || (var t := Find(s, NameStart(s, r), Terminator(s, r)); t < |s| && Ends(s, t + 1))
  }

  function NextStatus(rv: EnvRefs, leading: bool, isList: bool): EnvRefs {
    if leading then (if isList then RefsLeadingList else RefsUnambig)
    else if isList then RefsMidList
    else if rv == RefsNone then RefsUnambig else rv
  }

  predicate IsList(seg: Seg) {
    |seg.values| > 1
  }

  /** The status after some spans. */
  function Status(rv: EnvRefs, segs: seq<Seg>): (r: EnvRefs)
    ensures rv != RefsParseErr ==> r != RefsParseErr
    decreases |segs|
  {
    if segs == [] then rv else Status(NextStatus(rv, segs[0].start == 0, IsList(segs[0])), segs[1..])
  }

  /** What the status says: whether a list stands behind the start, or at it, or there are values at all. */
  lemma {:induction false} StatusMeans(rv: EnvRefs, segs: seq<Seg>, p: nat, n: nat)
    requires Spans(segs, p, n) && (p == 0 ==> rv == RefsNone) && rv != RefsParseErr
    requires forall i :: 0 <= i < |segs| ==> segs[i].len > 0
    ensures var mid := exists i :: 0 <= i < |segs| && segs[i].start > 0 && IsList(segs[i]);
      && (mid ==> Status(rv, segs) == RefsMidList)
      && (!mid && segs != [] && segs[0].start == 0 ==>
        Status(rv, segs) == if IsList(segs[0]) then RefsLeadingList else RefsUnambig)
      && (!mid && segs != [] && segs[0].start > 0 ==> Status(rv, segs) == if rv == RefsNone then RefsUnambig else rv)
      && (segs == [] ==> Status(rv, segs) == rv)
    decreases |segs|
  {
    if segs != [] {
      var tail := segs[1..];
      var rv' := NextStatus(rv, segs[0].start == 0, IsList(segs[0]));
      var q := segs[0].start + segs[0].len;
      assert forall i :: 0 <= i < |tail| ==> tail[i] == segs[i + 1];
      SpansFit(tail, q, n);
      StatusMeans(rv', tail, q, n);
      assert forall i :: 0 < i < |segs| ==> segs[i] == tail[i - 1];
    }
  }

  lemma {:induction false} ListIffSeparator(v: string)
    ensures |Parts(v, 0, ENV_SEP)| > 1 <==> Find(v, 0, ENV_SEP) < |v|
  {
    PartsUnfold(v, 0, ENV_SEP);
  }

  lemma {:induction false} StatusAppends(rv: EnvRefs, segs: seq<Seg>, x: Seg)
    ensures Status(rv, segs + [x]) == NextStatus(Status(rv, segs), x.start == 0, IsList(x))
    decreases |segs|
  {
    var us := segs + [x];
    if segs == [] {
      assert us[1..] == [] && us[0] == x;
    } else {
      assert us[0] == segs[0] && us[1..] == segs[1..] + [x];
      StatusAppends(NextStatus(rv, segs[0].start == 0, IsList(segs[0])), segs[1..], x);
    }
  }

  /** The generator, if there is one, has the string and these spans. */
  ghost predicate Fed(ssg: StrSubstituterGenerator?, inbuf: string, segs: seq<Seg>)
    reads ssg
  {
    ssg != null ==>
      && ssg.Valid() && ssg.calls == 0 && !ssg.combinationsExhausted && ssg.baseString == inbuf && ssg.segs == segs
  }

  ghost function Given(ssg: StrSubstituterGenerator?): set<StrSubstituterGenerator> {
    if ssg == null then {} else {ssg}
  }

  /** A value that is not empty, for the span from ref on. */
  method AddValue(inbuf: string, ssg: StrSubstituterGenerator?, ghost segs: seq<Seg>, value: string, ref: nat,
                  len: nat, rv: EnvRefs) returns (rv': EnvRefs)
    requires Fed(ssg, inbuf, segs) && SegsEnd(segs) <= ref && ref + len <= |inbuf| && rv == Status(RefsNone, segs)
    modifies Given(ssg)`segs, Given(ssg)`valueIdx
    ensures var segs' := segs + [Seg(ref, len, Parts(value, 0, ENV_SEP))];
      Fed(ssg, inbuf, segs') && rv' == Status(RefsNone, segs')
  {
    StatusAppends(RefsNone, segs, Seg(ref, len, Parts(value, 0, ENV_SEP)));
    ListIffSeparator(value);
    if ssg != null {
      ssg.AddMultiExpandableSeg(value, ENV_SEP, ref, len);
    }
    var isList := Find(value, 0, ENV_SEP) < |value|;
    rv' := NextStatus(rv, ref == 0, isList);
  }

  /** One reference that ends. */
  method AddReference(inbuf: string, ssg: StrSubstituterGenerator?, getenv: string -> Option<string>,
                      ghost segs: seq<Seg>, ref: nat, name: nat, pTerm: nat, rv: EnvRefs)
    returns (ghost segs': seq<Seg>, rv': EnvRefs)
    requires Fed(ssg, inbuf, segs) && ref < name <= pTerm < |inbuf| && SegsEnd(segs) <= ref
    requires rv == Status(RefsNone, segs)
    modifies Given(ssg)`segs, Given(ssg)`valueIdx
    ensures segs' == segs + SegOf(inbuf, ref, name, pTerm, getenv)
    ensures Fed(ssg, inbuf, segs') && SegsEnd(segs') <= pTerm + 1 && rv' == Status(RefsNone, segs')
  {
    segs', rv' := segs, rv;
    if pTerm == name {
      return;
    }
    var value := ValueOf(Between(inbuf, name, pTerm), ref == 0, getenv);
    if value != "" {
      segs' := segs + [Seg(ref, pTerm - ref + 1, Parts(value, 0, ENV_SEP))];
      rv' := AddValue(inbuf, ssg, segs, value, ref, pTerm - ref + 1, rv);
    }
  }

  /** What the parse comes to, if it has found these spans before position p: all spans, and whether all references
      end. */
  ghost function Outcome(s: string, segs: seq<Seg>, p: nat, getenv: string -> Option<string>): (seq<Seg>, bool)
    requires p <= |s|
  {
    (segs + SegsFrom(s, p, getenv), Ends(s, p))
  }

  /** The parse has come to position pC with status rv. */
  ghost predicate Parsing(inbuf: string, ssg: StrSubstituterGenerator?, getenv: string -> Option<string>,
      segs: seq<Seg>, pC: nat, rv: EnvRefs)
    reads ssg
  {
    && pC <= |inbuf| && Fed(ssg, inbuf, segs) && SegsEnd(segs) <= pC
    && Outcome(inbuf, segs, pC, getenv) == Outcome(inbuf, [], 0, getenv) && rv == Status(RefsNone, segs)
  }

  lemma EndsNext(s: string, p: nat, r: nat, n: nat, t: nat)
    requires RefAt(s, p, r, n, t)
    ensures Ends(s, p) == Ends(s, t + 1)
  {}

  lemma Prepend(segs: seq<Seg>, one: seq<Seg>, more: seq<Seg>)
    ensures segs + (one + more) == (segs + one) + more
  {}

  lemma PassOn(s: string, getenv: string -> Option<string>, p: nat, r: nat, n: nat, t: nat, segs: seq<Seg>)
    requires RefAt(s, p, r, n, t)
    ensures Outcome(s, segs + SegOf(s, r, n, t, getenv), t + 1, getenv) == Outcome(s, segs, p, getenv)
  {
    SegsNext(s, getenv, p, r, n, t);
    EndsNext(s, p, r, n, t);
    Prepend(segs, SegOf(s, r, n, t, getenv), SegsFrom(s, t + 1, getenv));
  }

  lemma StopAt(s: string, getenv: string -> Option<string>, p: nat, r: nat, segs: seq<Seg>)
    requires Dangling(s, p, r)
    ensures segs + SegsFrom(s, p, getenv) == segs && !Ends(s, p)
  {}

  /** A reference that ends: its span is added, and the parse goes on behind it. */
  method PassReference(inbuf: string, ssg: StrSubstituterGenerator?, getenv: string -> Option<string>,
                       ghost segs: seq<Seg>, ghost pC: nat, ref: nat, name: nat, pTerm: nat, rv: EnvRefs)
    returns (ghost segs': seq<Seg>, pC': nat, rv': EnvRefs)
    requires Parsing(inbuf, ssg, getenv, segs, pC, rv) && RefAt(inbuf, pC, ref, name, pTerm)
    modifies Given(ssg)`segs, Given(ssg)`valueIdx
    ensures Parsing(inbuf, ssg, getenv, segs', pC', rv') && pC' == pTerm + 1
  {
    pC' := pTerm + 1;
    PassOn(inbuf, getenv, pC, ref, name, pTerm, segs);
    segs', rv' := AddReference(inbuf, ssg, getenv, segs, ref, name, pTerm, rv);
  }

  lemma ParseStarts(s: string, getenv: string -> Option<string>)
    ensures [] + SegsFrom(s, 0, getenv) == SegsFrom(s, 0, getenv) && Status(RefsNone, []) == RefsNone
  {}

  lemma NoMore(s: string, getenv: string -> Option<string>, p: nat, segs: seq<Seg>)
    requires p <= |s| && NextRef(s, p) == |s|
    ensures segs + SegsFrom(s, p, getenv) == segs && Ends(s, p)
  {}

  /** The parse is over. */
  ghost predicate Parsed(inbuf: string, ssg: StrSubstituterGenerator?, getenv: string -> Option<string>, rv: EnvRefs)
    reads ssg
  {
    && Fed(ssg, inbuf, SegsFrom(inbuf, 0, getenv))
    && rv == if Ends(inbuf, 0) then Status(RefsNone, SegsFrom(inbuf, 0, getenv)) else RefsParseErr
  }

  lemma ParseEnds(inbuf: string, ssg: StrSubstituterGenerator?, getenv: string -> Option<string>, segs: seq<Seg>,
      pC: nat, rv: EnvRefs)
    requires Parsing(inbuf, ssg, getenv, segs, pC, rv) && NextRef(inbuf, pC) == |inbuf|
    ensures Parsed(inbuf, ssg, getenv, rv)
  {
    NoMore(inbuf, getenv, pC, segs);
    ParseStarts(inbuf, getenv);
  }

  lemma ParseStops(inbuf: string, ssg: StrSubstituterGenerator?, getenv: string -> Option<string>, segs: seq<Seg>,
      pC: nat, r: nat, rv: EnvRefs)
    requires Parsing(inbuf, ssg, getenv, segs, pC, rv) && Dangling(inbuf, pC, r)
    ensures Parsed(inbuf, ssg, getenv, RefsParseErr)
  {
    StopAt(inbuf, getenv, pC, r, segs);
    ParseStarts(inbuf, getenv);
  }

  method LocateEnd(inbuf: string, ghost pC: nat, ref: nat) returns (name: nat, pTerm: nat)
    requires pC <= |inbuf| && ref == NextRef(inbuf, pC) < |inbuf|
    ensures if pTerm == |inbuf| then Dangling(inbuf, pC, ref)
      else RefAt(inbuf, pC, ref, name, pTerm) && pC <= ref < pTerm
  {
    name := NameStart(inbuf, ref);
    pTerm := Find(inbuf, name, Terminator(inbuf, ref));
    Located(inbuf, pC, ref, name, pTerm);
  }

  /** One round of the loop of CFX_to_SSG. */
  method ParseOne(inbuf: string, ssg: StrSubstituterGenerator?, getenv: string -> Option<string>,
                  ghost segs: seq<Seg>, pC: nat, ref: nat, rv: EnvRefs)
    returns (ghost segs': seq<Seg>, pC': nat, rv': EnvRefs)
    requires Parsing(inbuf, ssg, getenv, segs, pC, rv) && ref == NextRef(inbuf, pC) < |inbuf|
    modifies Given(ssg)`segs, Given(ssg)`valueIdx
    ensures if pC' == 0 then Parsed(inbuf, ssg, getenv, rv')
      else Parsing(inbuf, ssg, getenv, segs', pC', rv') && pC < pC'
  {
    var name, pTerm := LocateEnd(inbuf, pC, ref);
    if pTerm == |inbuf| {
      ParseStops(inbuf, ssg, getenv, segs, pC, ref, rv);
      segs', pC', rv' := segs, 0, RefsParseErr;
    } else {
      segs', pC', rv' := PassReference(inbuf, ssg, getenv, segs, pC, ref, name, pTerm, rv);
    }
  }

  /** The loop of CFX_to_SSG. */
  method ParseLoop(inbuf: string, ssg: StrSubstituterGenerator?, getenv: string -> Option<string>) returns (rv: EnvRefs)
    requires Parsing(inbuf, ssg, getenv, [], 0, RefsNone)
    modifies Given(ssg)`segs, Given(ssg)`valueIdx
    ensures Parsed(inbuf, ssg, getenv, rv)
  {
    ghost var segs: seq<Seg> := [];
    var pC: nat := 0;
    rv := RefsNone;
    var ref := NextRef(inbuf, pC);
    while ref < |inbuf|
      invariant Parsing(inbuf, ssg, getenv, segs, pC, rv) && ref == NextRef(inbuf, pC)
      decreases |inbuf| - pC
    {
      segs, pC, rv := ParseOne(inbuf, ssg, getenv, segs, pC, ref, rv);
      if pC == 0 {
        return;
      }
      ref := NextRef(inbuf, pC);
    }
    ParseEnds(inbuf, ssg, getenv, segs, pC, rv);
  }

  /** CFX_to_SSG: the generator, if there is one, gets the string and exactly these spans; a reference that does not end
      stops the parse and leaves the spans before it. */
  method CfxToSsg(inbuf: string, ssg: StrSubstituterGenerator?, getenv: string -> Option<string>) returns (rv: EnvRefs)
    requires ssg != null ==> ssg.Valid() && ssg.calls == 0 && !ssg.combinationsExhausted && ssg.segs == []
    modifies Given(ssg)`baseString, Given(ssg)`segs, Given(ssg)`valueIdx
    ensures Parsed(inbuf, ssg, getenv, rv)
  {
    if ssg != null {
      ssg.SetBaseStr(inbuf);
    }
    ParseStarts(inbuf, getenv);
    rv := ParseLoop(inbuf, ssg, getenv);
  }
}
