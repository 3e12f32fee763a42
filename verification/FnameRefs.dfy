/** File specifications as they are written: plain text, references in four spellings, and perhaps one that does not
    end; and what each reference stands for. */
module FnameRefs {
  import opened Wrappers
  import opened FnameSubst
  import opened FnameCfx

  /** $(name) ${name} $name: %name%. */
  datatype Spelling = Paren | Brace | Colon | Percent
  {
    function Opening(): string {
      match this
      case Paren => ['$', '(']
      case Brace => ['$', '{']
      case Colon => ['$']
      case Percent => ['%']
    }

    function Closing(): char {
      match this
      case Paren => ')'
      case Brace => '}'
      case Colon => ':'
      case Percent => '%'
    }

    /** What can stand behind the opening without ending the reference, or being taken for another spelling. */
    predicate Holds(s: string) {
      Free(s, Closing()) && (Colon? && s != "" ==> s[0] != '(' && s[0] != '{')
    }
  }

  predicate IsPlain(s: string) {
    Free(s, '$') && Free(s, '%')
  }

  datatype Entry =
    | Last(post: string)
    | Ref(pre: string, spelling: Spelling, name: string, more: Entry)
    | Unended(pre: string, spelling: Spelling, name: string)
  {
    function Text(): string {
      match this
      case Last(post) => post
      case Ref(pre, sp, name, more) => pre + (sp.Opening() + name + [sp.Closing()]) + more.Text()
      case Unended(pre, sp, name) => pre + (sp.Opening() + name)
    }

    predicate Valid() {
      match this
      case Last(post) => IsPlain(post)
      case Ref(pre, sp, name, more) => IsPlain(pre) && sp.Holds(name) && more.Valid()
      case Unended(pre, sp, name) => IsPlain(pre) && sp.Holds(name)
    }

    predicate Complete() {
      match this
      case Last(_) => true
      case Ref(_, _, _, more) => more.Complete()
      case Unended(_, _, _) => false
    }

    /** The spans of the references that stand for something, and the alternatives of each. */
    function Spans(p: nat, getenv: string -> Option<string>): seq<Seg> {
      match this
      case Last(_) => []
      case Unended(_, _, _) => []
      case Ref(pre, sp, name, more) =>
        First(p, getenv) + more.Spans(Behind(p), getenv)
    }

    /** Where what follows the first reference stands. */
    function Behind(p: nat): nat
      requires Ref?
    {
      p + |pre| + |spelling.Opening()| + |name| + 1
    }

    function First(p: nat, getenv: string -> Option<string>): seq<Seg>
      requires Ref?
    {
      var v := Meaning(name, p + |pre| == 0, getenv);
      if v == "" then [] else [Seg(p + |pre|, |spelling.Opening()| + |name| + 1, Parts(v, 0, ';'))]
    }
  }

  /** The name that is looked up: at most 513 characters. */
  function LookedUp(name: string): string {
    if |name| > 513 then name[..513] else name
  }

  /** A list spelled out in place: bars separate the alternatives. */
  function SpelledOut(name: string): string {
    seq(|name|, i requires 0 <= i < |name| => if name[i] == '|' then ';' else name[i])
  }

  /** What a reference stands for; if for nothing, it stays as it is. */
  function Meaning(name: string, atStart: bool, getenv: string -> Option<string>): string {
    var n := LookedUp(name);
    if name == "" then ""
    else if getenv(n).Some? && getenv(n).value != "" then getenv(n).value
    else if getenv(n).None? && '|' in n then SpelledOut(n)
    else if atStart then "."
    else ""
  }

  // ---------- what the parse finds ----------

  lemma {:induction false} FindIs(s: string, p: nat, c: char, k: nat)
    requires p <= k <= |s| && (k < |s| ==> s[k] == c) && forall i :: p <= i < k ==> s[i] != c
    ensures Find(s, p, c) == k
    decreases k - p
  {
    if p < k {
      FindIs(s, p + 1, c, k);
    }
  }

  lemma {:induction false} NextRefIs(s: string, p: nat, k: nat)
    requires p <= k <= |s| && (k < |s| ==> s[k] == '$' || s[k] == '%')
    requires forall i :: p <= i < k ==> s[i] != '$' && s[i] != '%'
    ensures NextRef(s, p) == k
    decreases k - p
  {
    if p < k {
      NextRefIs(s, p + 1, k);
    }
  }

  /** Plain text, then a reference that is opened. */
  lemma Opened(s: string, p: nat, pre: string, sp: Spelling, rest: string) returns (r: nat, n: nat)
    requires p <= |s| && s[p..] == pre + (sp.Opening() + rest) && IsPlain(pre)
    requires sp.Colon? && rest != "" ==> rest[0] != '(' && rest[0] != '{'
    ensures r == p + |pre| && n == r + |sp.Opening()| <= |s| && s[n..] == rest
    ensures r < |s| && NextRef(s, p) == r && NameStart(s, r) == n && Terminator(s, r) == sp.Closing()
  {
    r, n := p + |pre|, p + |pre| + |sp.Opening()|;
    Shifted(s, p, pre, sp.Opening() + rest);
    Shifted(s, r, sp.Opening(), rest);
    NextRefIs(s, p, r);
  }

  lemma Shifted(s: string, p: nat, a: string, b: string)
    requires p <= |s| && s[p..] == a + b
    ensures |s| == p + |a| + |b| && s[p + |a|..] == b && forall i :: p <= i < p + |a| ==> s[i] == a[i - p]
  {
    assert forall i :: p <= i < |s| ==> s[i] == s[p..][i - p];
    assert s[p + |a|..] == s[p..][|a|..];
  }

  lemma Closed(s: string, n: nat, name: string, c: char, rest: string) returns (t: nat)
    requires n <= |s| && s[n..] == name + [c] + rest && Free(name, c)
    ensures t == n + |name| < |s| && Find(s, n, c) == t && Between(s, n, t) == name && s[t + 1..] == rest
  {
    t := n + |name|;
    assert name + [c] + rest == name + ([c] + rest);
    Shifted(s, n, name, [c] + rest);
    Shifted(s, t, [c], rest);
    FindIs(s, n, c, t);
    BetweenIsSlice(s, n, t);
  }

  lemma Regrouped(pre: string, open: string, name: string, c: char, rest: string)
    ensures pre + (open + name + [c]) + rest == pre + (open + (name + [c] + rest))
  {
    assert open + name + [c] + rest == open + (name + [c] + rest);
  }

  /** A reference at position r, with its name at n and its end at t. */
  ghost predicate Located(s: string, p: nat, e: Entry, r: nat, n: nat, t: nat)
    requires e.Ref?
  {
    && r == p + |e.pre| && n == r + |e.spelling.Opening()| && t == n + |e.name|
    && RefAt(s, p, r, n, t) && Between(s, n, t) == e.name
  }

  lemma RefStands(s: string, p: nat, e: Entry) returns (r: nat, n: nat, t: nat)
    requires p <= |s| && e.Ref? && e.Valid() && s[p..] == e.Text()
    ensures Located(s, p, e, r, n, t) && s[t + 1..] == e.more.Text()
  {
    var open, c, more := e.spelling.Opening(), e.spelling.Closing(), e.more.Text();
    Regrouped(e.pre, open, e.name, c, more);
    r, n := Opened(s, p, e.pre, e.spelling, e.name + [c] + more);
    t := Closed(s, n, e.name, c, more);
  }

  lemma UnendedStands(s: string, p: nat, e: Entry)
    requires p <= |s| && e.Unended? && e.Valid() && s[p..] == e.Text()
    ensures Dangling(s, p, p + |e.pre|)
  {
    var r, n := Opened(s, p, e.pre, e.spelling, e.name);
    assert forall i :: n <= i < |s| ==> s[i] == s[n..][i - n];
    FindIs(s, n, e.spelling.Closing(), |s|);
  }

  lemma MeaningIs(name: string, atStart: bool, getenv: string -> Option<string>)
    requires name != ""
    ensures ValueOf(name, atStart, getenv) == Meaning(name, atStart, getenv)
  {
    var n := LookedUp(name);
    assert Truncated(name) == n;
    assert Translated(n, '|', ENV_SEP) == SpelledOut(n);
  }

  /** What the parse finds from p on is what the entry says. */
  ghost predicate Agrees(s: string, p: nat, e: Entry, getenv: string -> Option<string>) {
    p <= |s| && SegsFrom(s, p, getenv) == e.Spans(p, getenv) && (Ends(s, p) <==> e.Complete())
  }

  /** Wherever it stands in a text, an entry gives exactly the spans of its references; the parse succeeds exactly if
      the last reference ends. */
  lemma {:induction false} EntryParses(s: string, p: nat, e: Entry, getenv: string -> Option<string>)
    requires p <= |s| && e.Valid() && s[p..] == e.Text()
    ensures Agrees(s, p, e, getenv)
    decreases e
  {
    if e.Last? {
      PlainAgrees(s, p, e, getenv);
    } else if e.Unended? {
      UnendedAgrees(s, p, e, getenv);
    } else {
      RefGoesOn(s, p, e);
      EntryParses(s, e.Behind(p), e.more, getenv);
      RefAgrees(s, p, e, getenv);
    }
  }

  lemma RefGoesOn(s: string, p: nat, e: Entry)
    requires p <= |s| && e.Ref? && e.Valid() && s[p..] == e.Text()
    ensures e.Behind(p) <= |s| && s[e.Behind(p)..] == e.more.Text() && e.more.Valid()
  {
    var r, n, t := RefStands(s, p, e);
  }

  lemma PlainAgrees(s: string, p: nat, e: Entry, getenv: string -> Option<string>)
    requires p <= |s| && e.Last? && IsPlain(s[p..])
    ensures Agrees(s, p, e, getenv)
  {
    assert forall i :: p <= i < |s| ==> s[i] == s[p..][i - p];
    NextRefIs(s, p, |s|);
  }

  lemma UnendedAgrees(s: string, p: nat, e: Entry, getenv: string -> Option<string>)
    requires p <= |s| && e.Unended? && e.Valid() && s[p..] == e.Text()
    ensures Agrees(s, p, e, getenv)
  {
    UnendedStands(s, p, e);
    StopAt(s, getenv, p, p + |e.pre|, []);
  }

  lemma RefAgrees(s: string, p: nat, e: Entry, getenv: string -> Option<string>)
    requires p <= |s| && e.Ref? && e.Valid() && s[p..] == e.Text() && Agrees(s, e.Behind(p), e.more, getenv)
    ensures Agrees(s, p, e, getenv)
  {
    var r, n, t := RefStands(s, p, e);
    RefParses(s, p, e, getenv, r, n, t, e.Behind(p));
  }

  lemma RefParses(s: string, p: nat, e: Entry, getenv: string -> Option<string>, r: nat, n: nat, t: nat, q: nat)
    requires e.Ref? && Located(s, p, e, r, n, t) && q == t + 1
    ensures q <= |s| && SegsFrom(s, p, getenv) == e.First(p, getenv) + SegsFrom(s, q, getenv)
    ensures Ends(s, p) <==> Ends(s, q)
  {
    SegsNext(s, getenv, p, r, n, t);
    EndsNext(s, p, r, n, t);
    SegIs(s, e, p, r, n, t, getenv);
  }

  lemma SegIs(s: string, e: Entry, p: nat, r: nat, n: nat, t: nat, getenv: string -> Option<string>)
    requires e.Ref? && r == p + |e.pre| && n == r + |e.spelling.Opening()| && t == n + |e.name| < |s|
    requires Between(s, n, t) == e.name
    ensures r < n && SegOf(s, r, n, t, getenv) == e.First(p, getenv)
  {
    if e.name != "" {
      MeaningIs(e.name, r == 0, getenv);
    }
    var v := Meaning(e.name, r == 0, getenv);
    if v == "" {
      assert SegOf(s, r, n, t, getenv) == [] == e.First(p, getenv);
    } else {
      var seg := Seg(r, t - r + 1, Parts(v, 0, ';'));
      assert SegOf(s, r, n, t, getenv) == [seg];
      assert e.First(p, getenv) == [seg];
    }
  }

  /** Every text is an entry: nothing else can be written. */
  lemma {:induction false} EveryTextIsEntry(s: string, p: nat) returns (e: Entry)
    requires p <= |s|
    ensures e.Valid() && e.Text() == s[p..]
    decreases |s| - p
  {
    var r := NextRef(s, p);
    if r == |s| {
      return Last(s[p..]);
    }
    var pre, sp := s[p..r], SpellingAt(s, r);
    var n := r + |sp.Opening()|;
    var t := Find(s, n, sp.Closing());
    if t == |s| {
      e := Unended(pre, sp, s[n..|s|]);
      UnendedAt(s, p, r, n, sp);
    } else {
      var more := EveryTextIsEntry(s, t + 1);
      e := Ref(pre, sp, s[n..t], more);
      RefIsAt(s, p, r, n, t, sp, more);
    }
  }

  lemma RefIsAt(s: string, p: nat, r: nat, n: nat, t: nat, sp: Spelling, more: Entry)
    requires p <= |s| && r == NextRef(s, p) < |s| && sp == SpellingAt(s, r) && n == r + |sp.Opening()|
    requires t == Find(s, n, sp.Closing()) < |s| && more.Valid() && more.Text() == s[t + 1..]
    ensures Ref(s[p..r], sp, s[n..t], more).Valid() && Ref(s[p..r], sp, s[n..t], more).Text() == s[p..]
  {
    PiecesAre(s, p, r, n, t, sp);
    Cut(s, p, r, n, t);
  }

  lemma UnendedAt(s: string, p: nat, r: nat, n: nat, sp: Spelling)
    requires p <= |s| && r == NextRef(s, p) < |s| && sp == SpellingAt(s, r) && n == r + |sp.Opening()|
    requires Find(s, n, sp.Closing()) == |s|
    ensures Unended(s[p..r], sp, s[n..|s|]).Valid() && Unended(s[p..r], sp, s[n..|s|]).Text() == s[p..]
  {
    PiecesAre(s, p, r, n, |s|, sp);
    CutOpen(s, p, r, n);
  }

  lemma PiecesAre(s: string, p: nat, r: nat, n: nat, t: nat, sp: Spelling)
    requires p <= |s| && r == NextRef(s, p) < |s| && sp == SpellingAt(s, r) && n == r + |sp.Opening()|
    requires t == Find(s, n, sp.Closing())
    ensures IsPlain(s[p..r]) && s[r..n] == sp.Opening() && sp.Holds(s[n..t])
  {
    SliceFree(s, p, r, '$');
    SliceFree(s, p, r, '%');
    SliceFree(s, n, t, sp.Closing());
    assert sp.Colon? && n < t ==> s[n..t][0] == s[r + 1];
  }

  lemma SliceFree(s: string, i: nat, j: nat, c: char)
    requires i <= j <= |s| && forall k :: i <= k < j ==> s[k] != c
    ensures Free(s[i..j], c)
  {}

  lemma CutOpen(s: string, p: nat, r: nat, n: nat)
    requires p <= r <= n <= |s|
    ensures s[p..] == s[p..r] + (s[r..n] + s[n..|s|])
  {
    assert s[r..] == s[r..n] + s[n..|s|];
  }

  lemma Cut(s: string, p: nat, r: nat, n: nat, t: nat)
    requires p <= r <= n <= t < |s|
    ensures s[p..] == s[p..r] + (s[r..n] + s[n..t] + [s[t]]) + s[t + 1..]
  {
    assert s[t..] == [s[t]] + s[t + 1..];
    assert s[r..] == s[r..n] + s[n..t] + s[t..];
  }

  function SpellingAt(s: string, r: nat): (sp: Spelling)
    requires r < |s| && (s[r] == '$' || s[r] == '%')
    ensures r + |sp.Opening()| <= |s| && s[r..r + |sp.Opening()|] == sp.Opening()
    ensures sp.Colon? && r + 1 < |s| ==> s[r + 1] != '(' && s[r + 1] != '{'
  {
    if s[r] == '%' then Percent
    else if r + 1 < |s| && s[r + 1] == '(' then Paren
    else if r + 1 < |s| && s[r + 1] == '{' then Brace
    else Colon
  }

  /** CFX_to_SSG on a text as it is written: the generator gets the text and the spans of its references. */
  method ParseEntry(e: Entry, getenv: string -> Option<string>) returns (ssg: StrSubstituterGenerator, rv: EnvRefs)
    requires e.Valid()
    ensures fresh(ssg) && ssg.Valid() && ssg.baseString == e.Text() && ssg.segs == e.Spans(0, getenv)
    ensures rv == if e.Complete() then Status(RefsNone, ssg.segs) else RefsParseErr
    ensures rv == RefsParseErr <==> !e.Complete()
  {
    ssg := new StrSubstituterGenerator();
    rv := CfxToSsg(e.Text(), ssg, getenv);
    EntryParses(e.Text(), 0, e, getenv);
  }
}
