/** Splitting a delimited list in place (ChopAscizzOnDelim) and walking over the parts (DiceableString). */
module FnameSplit {
  const NUL: char := '\0'

  /** The length of the leading run of delimiters, or of other characters. */
  function Run(s: string, delim: string, inDelim: bool): (n: nat)
    ensures n <= |s| && (n < |s| ==> (s[n] in delim) != inDelim)
    ensures forall i :: 0 <= i < n ==> (s[i] in delim) == inDelim
  {
    if s == [] || (s[0] in delim) != inDelim then 0 else 1 + Run(s[1..], delim, inDelim)
  }

  /** The maximal runs of characters that are no delimiters, in order. */
  function Fields(s: string, delim: string): seq<string>
    decreases |s|
  {
    var t := s[Run(s, delim, true)..];
    if t == [] then [] else
      var n := Run(t, delim, false);
      [t[..n]] + Fields(t[n..], delim)
  }

  /** A list of strings, each followed by one NUL, and one NUL at the end. */
  function Encode(fs: seq<string>): string {
    if fs == [] then [NUL] else fs[0] + [NUL] + Encode(fs[1..])
  }

  /** The same without the NUL at the end. */
  function Terminated(fs: seq<string>): string {
    if fs == [] then [] else fs[0] + [NUL] + Terminated(fs[1..])
  }

  lemma {:induction false} TerminatedConcat(a: seq<string>, b: seq<string>)
    ensures Terminated(a + b) == Terminated(a) + Terminated(b)
    decreases |a|
  {
    if a == [] {
      assert a + b == b;
    } else {
      assert (a + b)[1..] == a[1..] + b && (a + b)[0] == a[0];
      TerminatedConcat(a[1..], b);
    }
  }

  lemma {:induction false} EncodeTerminates(fs: seq<string>)
    ensures Encode(fs) == Terminated(fs) + [NUL]
    decreases |fs|
  {
    if fs != [] {
      EncodeTerminates(fs[1..]);
    }
  }

  // ---------- what the fields are, without reference to how they are found ----------

  ghost predicate Gap(g: string, delim: string) {
    forall i :: 0 <= i < |g| ==> g[i] in delim
  }

  ghost predicate Field(f: string, delim: string) {
    f != [] && forall i :: 0 <= i < |f| ==> f[i] !in delim
  }

  /** gap field gap field ... gap. */
  ghost function Interleaved(gaps: seq<string>, fs: seq<string>): string
    requires |gaps| == |fs| + 1
    decreases |fs|
  {
    if fs == [] then gaps[0] else gaps[0] + fs[0] + Interleaved(gaps[1..], fs[1..])
  }

  /** The gaps are made of delimiters, those between two fields are not empty; the fields are not empty and hold
      none. */
  ghost predicate Dissects(s: string, delim: string, gaps: seq<string>, fs: seq<string>) {
    && |gaps| == |fs| + 1 && s == Interleaved(gaps, fs)
    && (forall i :: 0 <= i < |gaps| ==> Gap(gaps[i], delim) && (0 < i < |fs| ==> gaps[i] != []))
    && (forall i :: 0 <= i < |fs| ==> Field(fs[i], delim))
  }

  lemma RunEnds(s: string, delim: string, inDelim: bool, n: nat)
    requires n <= |s| && (n < |s| ==> (s[n] in delim) != inDelim)
    requires forall i :: 0 <= i < n ==> (s[i] in delim) == inDelim
    ensures Run(s, delim, inDelim) == n
  {}

  /** A gap, a field, and a rest that does not go on with the field. */
  lemma FieldsStep(g: string, f: string, rest: string, delim: string)
    requires Gap(g, delim) && Field(f, delim) && (rest != [] ==> rest[0] in delim)
    ensures Fields(g + f + rest, delim) == [f] + Fields(rest, delim)
  {
    var s, t := g + f + rest, f + rest;
    assert s[|g|..] == t;
    RunEnds(s, delim, true, |g|);
    assert t[..|f|] == f && t[|f|..] == rest;
    RunEnds(t, delim, false, |f|);
  }

  lemma DissectsTail(gaps: seq<string>, fs: seq<string>, delim: string)
    requires fs != [] && |gaps| == |fs| + 1 && Dissects(Interleaved(gaps, fs), delim, gaps, fs)
    ensures var rest := Interleaved(gaps[1..], fs[1..]);
      Dissects(rest, delim, gaps[1..], fs[1..]) && (rest != [] ==> rest[0] in delim)
  {
    var more, fs' := gaps[1..], fs[1..];
    assert more[0] == gaps[1];
    assert forall i :: 0 <= i < |more| ==> more[i] == gaps[i + 1];
    assert forall i :: 0 <= i < |fs'| ==> fs'[i] == fs[i + 1];
  }

  /** However a text is taken apart into gaps and fields, the fields are those found. */
  lemma {:induction false} DissectionUnique(s: string, delim: string, gaps: seq<string>, fs: seq<string>)
    requires Dissects(s, delim, gaps, fs)
    ensures Fields(s, delim) == fs
    decreases |fs|
  {
    if fs == [] {
      RunEnds(s, delim, true, |s|);
    } else {
      DissectsTail(gaps, fs, delim);
      DissectionUnique(Interleaved(gaps[1..], fs[1..]), delim, gaps[1..], fs[1..]);
      FieldsStep(gaps[0], fs[0], Interleaved(gaps[1..], fs[1..]), delim);
      HeadTail(fs);
    }
  }

  lemma HeadTail<T>(s: seq<T>)
    requires s != []
    ensures [s[0]] + s[1..] == s
  {}

  lemma DissectsStep(g: string, f: string, rest: string, delim: string, more: seq<string>, fs: seq<string>)
    requires Dissects(rest, delim, more, fs) && Gap(g, delim) && Field(f, delim) && (fs != [] ==> more[0] != [])
    ensures Dissects(g + f + rest, delim, [g] + more, [f] + fs)
  {
    assert ([g] + more)[1..] == more && ([f] + fs)[1..] == fs;
  }

  /** A text is its leading gap and what follows; only what follows matters. */
  lemma SplitAtGap(t: string, delim: string) returns (g: string, u: string)
    ensures t == g + u && Gap(g, delim) && |g| == Run(t, delim, true) && (g == [] ==> u == t)
    ensures (t != [] && t[0] in delim ==> g != [])
    ensures Fields(t, delim) == Fields(u, delim) && (u != [] ==> u[0] !in delim)
  {
    g, u := t[..Run(t, delim, true)], t[Run(t, delim, true)..];
    RunEnds(u, delim, true, 0);
    assert u[0..] == u;
  }

  /** A text that starts with a field is that field and what follows it. */
  lemma SplitAtField(t: string, delim: string) returns (f: string, rest: string)
    requires t != [] && t[0] !in delim
    ensures t == f + rest && Field(f, delim) && |f| == Run(t, delim, false) && (rest != [] ==> rest[0] in delim)
    ensures Fields(t, delim) == [f] + Fields(rest, delim)
  {
    var n := Run(t, delim, false);
    f, rest := t[..n], t[n..];
    assert t == [] + f + rest;
    FieldsStep([], f, rest, delim);
  }

  lemma DissectsGap(g: string, delim: string)
    requires Gap(g, delim)
    ensures Dissects(g, delim, [g], [])
  {}

  lemma DissectsOn(s: string, g: string, t: string, f: string, rest: string, delim: string, more: seq<string>)
    requires s == g + t && t == f + rest && Gap(g, delim) && Field(f, delim)
    requires Dissects(rest, delim, more, Fields(rest, delim)) && (Fields(rest, delim) != [] ==> more[0] != [])
    ensures Dissects(s, delim, [g] + more, [f] + Fields(rest, delim))
  {
    DissectsStep(g, f, rest, delim, more, Fields(rest, delim));
    assert s == g + f + rest;
  }

  /** Every text can be taken apart that way. */
  lemma {:induction false} FieldsDissect(s: string, delim: string) returns (gaps: seq<string>)
    ensures Dissects(s, delim, gaps, Fields(s, delim))
    ensures Fields(s, delim) != [] && s[0] in delim ==> gaps[0] != []
    decreases |s|
  {
    var g, t := SplitAtGap(s, delim);
    if t == [] {
      DissectsGap(g, delim);
      NoFieldsInNothing(t, delim);
      gaps := [g];
      assert g + t == g;
    } else {
      var f, rest := SplitAtField(t, delim);
      var more := FieldsDissect(rest, delim);
      NoFieldsInNothing(rest, delim);
      DissectsOn(s, g, t, f, rest, delim, more);
      gaps := [g] + more;
    }
  }

  lemma NoFieldsInNothing(s: string, delim: string)
    ensures s == [] ==> Fields(s, delim) == []
  {}

  lemma FieldsDropDelim(t: string, delim: string)
    requires t != [] && t[0] in delim
    ensures Fields(t, delim) == Fields(t[1..], delim)
  {
    assert t[Run(t, delim, true)..] == t[1..][Run(t[1..], delim, true)..];
  }

  lemma EncodeCons(f: string, fs: seq<string>)
    ensures Encode([f] + fs) == f + [NUL] + Encode(fs)
  {
    assert ([f] + fs)[1..] == fs;
  }

  /** The encoded fields are at most one character longer than the text, if there is any text; else there is one NUL. */
  lemma {:induction false} EncodeLength(s: string, delim: string)
    ensures |Encode(Fields(s, delim))| <= if s == [] then 1 else |s| + 2
    decreases |s|
  {
    var g, t := SplitAtGap(s, delim);
    NoFieldsInNothing(t, delim);
    if t != [] {
      var f, rest := SplitAtField(t, delim);
      EncodeCons(f, Fields(rest, delim));
      NoFieldsInNothing(rest, delim);
      if rest != [] {
        FieldsDropDelim(rest, delim);
        EncodeLength(rest[1..], delim);
      }
    }
  }

  // ---------- in place ----------

  /** The text t stands in the buffer b from p on, with two NULs behind it. */
  ghost predicate Stands(b: string, p: nat, t: string) {
    p + |t| + 2 <= |b| && b[p..p + |t| + 2] == t + [NUL, NUL] && forall i :: 0 <= i < |t| ==> t[i] != NUL
  }

  lemma StandsAt(b: string, p: nat, t: string, i: nat)
    requires Stands(b, p, t) && i <= |t|
    ensures b[p + i] == if i < |t| then t[i] else NUL
  {
    assert b[p..p + |t| + 2][i] == (t + [NUL, NUL])[i];
  }

  /** StrPastAny and StrToNextOrEos: to the end of the run, or to the NUL. */
  method Past(a: array<char>, cur: nat, delim: string, inDelim: bool, ghost t: string) returns (r: nat)
    requires Stands(a[..], cur, t) && NUL !in delim
    ensures r == cur + Run(t, delim, inDelim)
  {
    r := cur;
    StandsAt(a[..], cur, t, 0);
    while a[r] != NUL && (a[r] in delim) == inDelim
      invariant cur <= r <= cur + |t| && a[r] == if r - cur < |t| then t[r - cur] else NUL
      invariant forall i :: 0 <= i < r - cur ==> (t[i] in delim) == inDelim
      decreases cur + |t| - r
    {
      r := r + 1;
      StandsAt(a[..], cur, t, r - cur);
    }
    RunEnds(t, delim, inDelim, r - cur);
  }

  /** Eos. */
  method Eos(a: array<char>, cur: nat, ghost t: string) returns (r: nat)
    requires Stands(a[..], cur, t)
    ensures r == cur + |t|
  {
    r := cur;
    StandsAt(a[..], cur, t, 0);
    while a[r] != NUL
      invariant cur <= r <= cur + |t| && a[r] == if r - cur < |t| then t[r - cur] else NUL
      decreases cur + |t| - r
    {
      r := r + 1;
      StandsAt(a[..], cur, t, r - cur);
    }
  }

  /** memmove: chars2move characters from src to dst, in one step. */
  method MemMove(a: array<char>, dst: nat, src: nat, chars2move: nat)
    requires dst <= src && src + chars2move <= a.Length
    modifies a
    ensures a[..] == old(a[..])[..dst] + old(a[..])[src..src + chars2move] + old(a[..])[dst + chars2move..]
  {
    ghost var was := a[..];
    var end := dst + chars2move;
    forall i | dst <= i < end {
      a[i] := a[i + (src - dst)];
    }
    assert a[..][..dst] == was[..dst] && a[..][end..] == was[end..];
    assert a[..][dst..end] == was[src..src + chars2move];
    ThreeParts(a[..], dst, end);
  }

  lemma ThreeParts(s: string, i: nat, j: nat)
    requires i <= j <= |s|
    ensures s == s[..i] + s[i..j] + s[j..]
  {}

  /** Where the loop of ChopAscizzOnDelim stands: fields done before cur, the text t still to be looked at from cur on;
      behind the two NULs of the original text the buffer is as it was in b0. */
  ghost predicate Chopping(b: string, b0: string, cur: nat, s: string, delim: string, done: seq<string>, t: string) {
    && Stands(b, cur, t) && b[..cur] == Terminated(done) && cur + |t| <= |s|
    && Fields(s, delim) == done + Fields(t, delim)
    && |s| + 2 <= |b0| == |b| && b[|s| + 2..] == b0[|s| + 2..]
  }

  /** The text moves left over g, the gap before it. */
  lemma RoomToMove(b: string, b0: string, c0: nat, s: string, delim: string, done: seq<string>, g: string, u: string)
    requires Chopping(b, b0, c0, s, delim, done, g + u)
    ensures c0 + |g| + |u| + 2 <= |b|
  {}

  lemma Collapsed(b: string, b': string, b0: string, c0: nat, s: string, delim: string, done: seq<string>, g: string,
      u: string, cur: nat, n: nat)
    requires Chopping(b, b0, c0, s, delim, done, g + u) && Fields(g + u, delim) == Fields(u, delim)
    requires cur == c0 + |g| && n == |u| + 2 && cur + n <= |b|
    requires b' == b[..c0] + b[cur..cur + n] + b[c0 + n..]
    ensures Chopping(b', b0, c0, s, delim, done, u)
  {
    MovedText(b, c0, g, u);
    Overwritten(b, c0, cur, n, |s| + 2);
    assert Stands(b', c0, u) && |g + u| == |g| + |u|;
  }

  lemma MovedText(b: string, c0: nat, g: string, u: string)
    requires Stands(b, c0, g + u)
    ensures Stands(b, c0 + |g|, u)
  {
    var cur, n := c0 + |g|, |u| + 2;
    assert b[cur..cur + n] == b[c0..c0 + |g| + n][|g|..];
    assert (g + u + [NUL, NUL])[|g|..] == u + [NUL, NUL];
    assert forall i :: 0 <= i < |u| ==> u[i] == (g + u)[|g| + i];
  }

  lemma Overwritten(b: string, c0: nat, cur: nat, n: nat, end: nat)
    requires c0 <= cur <= cur + n <= end <= |b|
    ensures var b' := b[..c0] + b[cur..cur + n] + b[c0 + n..];
      |b'| == |b| && b'[c0..c0 + n] == b[cur..cur + n] && b'[..c0] == b[..c0] && b'[end..] == b[end..]
  {}

  lemma TerminatedOne(f: string)
    ensures Terminated([f]) == f + [NUL]
  {
    var one: seq<string> := [f];
    assert one[1..] == [];
  }

  lemma Regroup<T>(a: seq<T>, b: seq<T>, c: seq<T>)
    ensures a + (b + c) == (a + b) + c
  {}

  lemma FieldsFirst(f: string, d: char, u: string, delim: string)
    requires Field(f, delim) && d in delim
    ensures Fields(f + [d] + u, delim) == [f] + Fields(u, delim)
  {
    var rest := [d] + u;
    Rejoin(f, d, u);
    FieldsStep([], f, rest, delim);
    FieldsDropDelim(rest, delim);
  }

  lemma Rejoin(f: string, d: char, u: string)
    ensures [] + f + ([d] + u) == f + [d] + u && ([d] + u)[1..] == u
  {}

  lemma CloseFacts(done: seq<string>, f: string, d: char, u: string, delim: string)
    requires Field(f, delim) && d in delim
    ensures done + Fields(f + [d] + u, delim) == (done + [f]) + Fields(u, delim)
    ensures Terminated(done + [f]) == Terminated(done) + (f + [NUL])
  {
    FieldsFirst(f, d, u, delim);
    Regroup(done, [f], Fields(u, delim));
    TerminatedConcat(done, [f]);
    TerminatedOne(f);
  }

  /** A NUL written over the delimiter d behind the field f. */
  lemma ClosedBuffer(b: string, c0: nat, f: string, d: char, u: string)
    requires Stands(b, c0, f + [d] + u)
    ensures var v := b[c0 + |f| := NUL];
      && v[..c0 + |f| + 1] == b[..c0] + (f + [NUL]) && Stands(v, c0 + |f| + 1, u)
      && v[c0 + |f| + 1 + |u|..] == b[c0 + |f| + 1 + |u|..]
  {
    var t := f + [d] + u;
    var l, rest := b[..c0], b[c0 + |t| + 2..];
    assert b == l + (t + [NUL, NUL]) + rest;
    var v := l + (f + [NUL]) + ((u + [NUL, NUL]) + rest);
    assert b[c0 + |f| := NUL] == v;
    assert forall i :: 0 <= i < |u| ==> u[i] == t[|f| + 1 + i];
  }

  lemma Closed(b: string, b0: string, c0: nat, s: string, delim: string, done: seq<string>, f: string, d: char,
      u: string)
    requires Chopping(b, b0, c0, s, delim, done, f + [d] + u) && Field(f, delim) && d in delim
    ensures Chopping(b[c0 + |f| := NUL], b0, c0 + |f| + 1, s, delim, done + [f], u)
  {
    CloseFacts(done, f, d, u, delim);
    ClosedBuffer(b, c0, f, d, u);
    var v, k := b[c0 + |f| := NUL], c0 + |f| + 1 + |u|;
    assert v[|s| + 2..] == v[k..][|s| + 2 - k..] && b[|s| + 2..] == b[k..][|s| + 2 - k..];
  }

  lemma SplitAtRun(t: string, delim: string) returns (f: string, d: char, u: string)
    requires t != [] && t[0] !in delim && Run(t, delim, false) < |t|
    ensures t == f + [d] + u && Field(f, delim) && d in delim && |f| == Run(t, delim, false)
  {
    var rest;
    f, rest := SplitAtField(t, delim);
    d, u := rest[0], rest[1..];
    assert rest == [d] + u && t == f + [d] + u;
  }

  lemma LastField(done: seq<string>, t: string, delim: string)
    requires t != [] && t[0] !in delim && Run(t, delim, false) == |t|
    ensures Terminated(done + Fields(t, delim)) + [NUL] == Terminated(done) + (t + [NUL, NUL])
  {
    var f, rest := SplitAtField(t, delim);
    NoFieldsInNothing(rest, delim);
    assert rest == [] && f == t && Fields(t, delim) == [t];
    TerminatedConcat(done, [t]);
    TerminatedOne(t);
  }

  /** At the end nothing, or one last field, stands before the NULs. */
  lemma Chopped(b: string, b0: string, c0: nat, s: string, delim: string, done: seq<string>, t: string)
    requires Chopping(b, b0, c0, s, delim, done, t) && (t != [] ==> t[0] !in delim && Run(t, delim, false) == |t|)
    ensures |Encode(Fields(s, delim))| <= |s| + 2 && b[..|Encode(Fields(s, delim))|] == Encode(Fields(s, delim))
  {
    EncodeLength(s, delim);
    EncodeTerminates(Fields(s, delim));
    if t == [] {
      NothingLeft(s, delim, done);
      StandsAt(b, c0, t, 0);
      OneMore(b, c0);
    } else {
      LastField(done, t, delim);
      WholeEnd(b, c0, t);
    }
  }

  lemma OneMore(b: string, n: nat)
    requires n < |b|
    ensures b[..n + 1] == b[..n] + [b[n]]
  {}

  lemma NothingLeft(s: string, delim: string, done: seq<string>)
    requires Fields(s, delim) == done + Fields([], delim)
    ensures Fields(s, delim) == done
  {
    NoFieldsInNothing([], delim);
  }

  lemma WholeEnd(b: string, c0: nat, t: string)
    requires Stands(b, c0, t)
    ensures b[..c0 + |t| + 2] == b[..c0] + (t + [NUL, NUL])
  {
    assert b[..c0 + |t| + 2] == b[..c0] + b[c0..c0 + |t| + 2];
  }

  /** The text behind the gap g moves to its place. */
  method MoveLeft(a: array<char>, c0: nat, cur: nat, eos: nat, ghost delim: string,
                  ghost b0: string, ghost s: string, ghost done: seq<string>, ghost g: string, ghost u: string)
    requires Chopping(a[..], b0, c0, s, delim, done, g + u) && Fields(g + u, delim) == Fields(u, delim)
    requires cur == c0 + |g| && eos == cur + |u| + 2
    modifies a
    ensures Chopping(a[..], b0, c0, s, delim, done, u)
  {
    ghost var b := a[..];
    var n := eos - cur;
    RoomToMove(b, b0, c0, s, delim, done, g, u);
    MemMove(a, c0, cur, n);
    ghost var b' := a[..];
    Collapsed(b, b', b0, c0, s, delim, done, g, u, cur, n);
  }

  /** The delimiters before the next field go. */
  method SkipGap(a: array<char>, c0: nat, eos: nat, delim: string,
                 ghost b0: string, ghost s: string, ghost done: seq<string>, ghost t: string)
    returns (eos': nat, ghost u: string)
    requires Chopping(a[..], b0, c0, s, delim, done, t) && NUL !in delim && eos == c0 + |t| + 2
    modifies a
    ensures Chopping(a[..], b0, c0, s, delim, done, u) && eos' == c0 + |u| + 2 && |u| <= |t|
    ensures (u != [] ==> u[0] !in delim)
  {
    ghost var g;
    g, u := SplitAtGap(t, delim);
    eos' := eos;
    var cur := Past(a, c0, delim, true, t);
    if c0 != cur {
      MoveLeft(a, c0, cur, eos, delim, b0, s, done, g, u);
      eos' := eos - (cur - c0);
    }
  }

  /** The next field is closed, unless there is none or it is the last. */
  method ChopField(a: array<char>, c0: nat, delim: string,
                   ghost b0: string, ghost s: string, ghost done: seq<string>, ghost t: string)
    returns (last: bool, cur: nat, ghost done': seq<string>, ghost t': string)
    requires Chopping(a[..], b0, c0, s, delim, done, t) && NUL !in delim && (t != [] ==> t[0] !in delim)
    modifies a
    ensures Chopping(a[..], b0, cur, s, delim, done', t') && cur + |t'| == c0 + |t|
    ensures last ==> t' == t && (t == [] || Run(t, delim, false) == |t|)
    ensures !last ==> |t'| < |t|
  {
    cur, last, done', t' := c0, true, done, t;
    StandsAt(a[..], c0, t, 0);
    if a[c0] == NUL {
      return;
    }
    var next := Past(a, c0, delim, false, t);
    StandsAt(a[..], c0, t, next - c0);
    if a[next] == NUL {
      return;
    }
    done', t' := CloseField(a, c0, next, delim, b0, s, done, t);
    cur, last := next + 1, false;
  }

  /** A NUL replaces the delimiter behind the field. */
  method CloseField(a: array<char>, c0: nat, next: nat, ghost delim: string,
                    ghost b0: string, ghost s: string, ghost done: seq<string>, ghost t: string)
    returns (ghost done': seq<string>, ghost t': string)
    requires Chopping(a[..], b0, c0, s, delim, done, t) && t != [] && t[0] !in delim
    requires next == c0 + Run(t, delim, false) < c0 + |t|
    modifies a
    ensures Chopping(a[..], b0, next + 1, s, delim, done', t') && next + 1 + |t'| == c0 + |t|
  {
    ghost var f, d, u := SplitAtRun(t, delim);
    Closed(a[..], b0, c0, s, delim, done, f, d, u);
    WriteNul(a, next);
    done', t' := done + [f], u;
  }

  method WriteNul(a: array<char>, i: nat)
    requires i < a.Length
    modifies a
    ensures a[..] == old(a[..])[i := NUL]
  {
    a[i] := NUL;
  }

  /** One round of ChopAscizzOnDelim; it is the last one if nothing follows the gap, or no delimiter the field. */
  method ChopOnce(a: array<char>, c0: nat, eos: nat, delim: string,
                  ghost b0: string, ghost s: string, ghost done: seq<string>, ghost t: string)
    returns (last: bool, cur: nat, eos': nat, ghost done': seq<string>, ghost t': string)
    requires Chopping(a[..], b0, c0, s, delim, done, t) && NUL !in delim && eos == c0 + |t| + 2
    modifies a
    ensures Chopping(a[..], b0, cur, s, delim, done', t') && eos' == cur + |t'| + 2
    ensures last ==> t' == [] || (t'[0] !in delim && Run(t', delim, false) == |t'|)
    ensures |t'| <= |t| && (!last ==> |t'| < |t|)
  {
    ghost var u;
    eos', u := SkipGap(a, c0, eos, delim, b0, s, done, t);
    last, cur, done', t' := ChopField(a, c0, delim, b0, s, done, u);
  }

  lemma ChopStarts(b: string, s: string, delim: string)
    requires Stands(b, 0, s)
    ensures Chopping(b, b, 0, s, delim, [], s)
  {
    assert b[..0] == [] && [] + Fields(s, delim) == Fields(s, delim);
  }

  /** The loop of ChopAscizzOnDelim. */
  method ChopAll(a: array<char>, eos0: nat, delim: string, ghost s: string)
    returns (ghost cur: nat, ghost done: seq<string>, ghost t: string)
    requires Stands(a[..], 0, s) && NUL !in delim && eos0 == |s| + 2
    modifies a
    ensures Chopping(a[..], old(a[..]), cur, s, delim, done, t)
    ensures t == [] || (t[0] !in delim && Run(t, delim, false) == |t|)
  {
    ghost var b0 := a[..];
    var c0: nat, eos := 0, eos0;
    ChopStarts(b0, s, delim);
    done, t := [], s;
    var last := false;
    while !last
      invariant Chopping(a[..], b0, c0, s, delim, done, t) && eos == c0 + |t| + 2
      invariant last ==> t == [] || (t[0] !in delim && Run(t, delim, false) == |t|)
      decreases |t|, if last then 0 else 1
    {
      last, c0, eos, done, t := ChopOnce(a, c0, eos, delim, b0, s, done, t);
    }
    cur := c0;
  }

  /** ChopAscizzOnDelim: the buffer is left holding exactly the fields, each followed by one NUL, and one more NUL;
      nothing behind the text's two NULs is touched. */
  method ChopAscizzOnDelim(a: array<char>, delim: string, ghost s: string)
    requires Stands(a[..], 0, s) && NUL !in delim
    modifies a
    ensures |Encode(Fields(s, delim))| <= |s| + 2 && a[..][..|Encode(Fields(s, delim))|] == Encode(Fields(s, delim))
    ensures a[..][|s| + 2..] == old(a[..])[|s| + 2..]
  {
    var eos := Eos(a, 0, s);
    ghost var b0 := a[..];
    ghost var cur, done, t := ChopAll(a, eos + 2, delim, s);
    Chopped(a[..], b0, cur, s, delim, done, t);
  }

  // ---------- walking over the parts ----------

  /** Where field k starts. */
  function Offset(fs: seq<string>, k: nat): nat
    requires k <= |fs|
  {
    |Terminated(fs[..k])|
  }

  lemma {:induction false} EncodeSplit(fs: seq<string>, k: nat)
    requires k <= |fs|
    ensures Encode(fs) == Terminated(fs[..k]) + Encode(fs[k..])
    decreases k
  {
    if k == 0 {
      assert fs[0..] == fs && Terminated(fs[..0]) == [];
    } else {
      EncodeSplit(fs[1..], k - 1);
      assert fs[1..][..k - 1] == fs[..k][1..] && fs[1..][k - 1..] == fs[k..] && fs[..k][0] == fs[0];
      Regroup(fs[0] + [NUL], Terminated(fs[1..][..k - 1]), Encode(fs[k..]));
    }
  }

  lemma StandsBetween(e: string, pre: string, f: string, rest: string)
    requires e == pre + (f + [NUL] + rest) && |rest| > 0
    ensures var o := |pre|; o + |f| + 1 < |e| && e[o..o + |f|] == f && e[o + |f|] == NUL
  {}

  lemma OffsetNext(fs: seq<string>, k: nat)
    requires k < |fs|
    ensures Offset(fs, k + 1) == Offset(fs, k) + |fs[k]| + 1
  {
    assert fs[..k + 1] == fs[..k] + [fs[k]];
    TerminatedConcat(fs[..k], [fs[k]]);
    TerminatedOne(fs[k]);
  }

  /** Field k, and the NUL behind it. */
  lemma FieldStandsAt(fs: seq<string>, k: nat)
    requires k < |fs|
    ensures var e, o := Encode(fs), Offset(fs, k);
      && o + |fs[k]| + 1 < |e| && e[o..o + |fs[k]|] == fs[k] && e[o + |fs[k]|] == NUL
      && Offset(fs, k + 1) == o + |fs[k]| + 1
  {
    EncodeSplit(fs, k);
    OffsetNext(fs, k);
    EncodeNonEmpty(fs[k + 1..]);
    HeadTail(fs[k..]);
    EncodeCons(fs[k], fs[k + 1..]);
    assert fs[k..][0] == fs[k] && fs[k..][1..] == fs[k + 1..];
    StandsBetween(Encode(fs), Terminated(fs[..k]), fs[k], Encode(fs[k + 1..]));
  }

  lemma EncodeNonEmpty(fs: seq<string>)
    ensures |Encode(fs)| > 0
  {}

  lemma EncodeStarts(fs: seq<string>, k: nat)
    requires k <= |fs| && (k < |fs| ==> fs[k] != [])
    ensures Offset(fs, k) < |Encode(fs)| && Encode(fs)[Offset(fs, k)] == if k < |fs| then fs[k][0] else NUL
  {
    EncodeSplit(fs, k);
    EncodeNonEmpty(fs[k..]);
    if k < |fs| {
      assert fs[k..][0] == fs[k] && Encode(fs[k..])[0] == fs[k][0];
    } else {
      assert fs[k..] == [];
    }
  }

  /** No field of a text without NUL is empty or holds a NUL. */
  lemma {:induction false} FieldsAreStrings(s: string, delim: string)
    requires forall i :: 0 <= i < |s| ==> s[i] != NUL
    ensures Strings(Fields(s, delim))
    decreases |s|
  {
    var g, t := SplitAtGap(s, delim);
    NoFieldsInNothing(t, delim);
    NulFreeParts(g, t);
    if t != [] {
      var f, rest := SplitAtField(t, delim);
      NulFreeParts(f, rest);
      FieldsAreStrings(rest, delim);
      StringsCons(f, Fields(rest, delim));
    }
  }

  lemma NulFreeParts(a: string, b: string)
    requires forall i :: 0 <= i < |a + b| ==> (a + b)[i] != NUL
    ensures (forall i :: 0 <= i < |a| ==> a[i] != NUL) && (forall i :: 0 <= i < |b| ==> b[i] != NUL)
  {
    assert forall i :: 0 <= i < |a| ==> a[i] == (a + b)[i];
    assert forall i :: 0 <= i < |b| ==> b[i] == (a + b)[|a| + i];
  }

  lemma StringsCons(f: string, fs: seq<string>)
    requires IsString(f) && Strings(fs)
    ensures Strings([f] + fs)
  {}

  ghost predicate Strings(fs: seq<string>) {
    forall k :: 0 <= k < |fs| ==> IsString(fs[k])
  }

  ghost predicate IsString(f: string) {
    f != [] && forall i :: 0 <= i < |f| ==> f[i] != NUL
  }

  lemma PrefixSlice(h: string, e: string, i: nat, j: nat)
    requires |e| <= |h| && h[..|e|] == e && i <= j < |e|
    ensures h[i..j] == e[i..j] && h[j] == e[j]
  {
    assert h[..|e|][i..j] == h[i..j];
  }

  /** DicedOnDelimString: the fields of a text as C strings in one buffer. */
  class DicedOnDelimString {
    const heapString: array<char>
    ghost const fields: seq<string>

    ghost predicate Valid()
      reads heapString
    {
      && |Encode(fields)| <= heapString.Length && heapString[..][..|Encode(fields)|] == Encode(fields)
      && Strings(fields)
    }

    constructor (src: string, delims: string)
      requires NUL !in delims && forall i :: 0 <= i < |src| ==> src[i] != NUL
      ensures Valid() && fields == Fields(src, delims) && fresh(heapString)
    {
      var a := new char[|src| + 2](i => if 0 <= i < |src| then src[i] else NUL);
      heapString := a;
      fields := Fields(src, delims);
      new;
      assert a[..][0..|src| + 2] == src + [NUL, NUL];
      FieldsAreStrings(src, delims);
      ChopAscizzOnDelim(a, delims, src);
    }

    /** GetNext: the start of the first field, or of the field after the one at cur; -1 if there is none. */
    method GetNext(cur: int, ghost k: nat) returns (rv: int)
      requires Valid() && (if cur < 0 then k == 0 else 0 < k <= |fields| && cur == Offset(fields, k - 1))
      ensures rv == if k < |fields| then Offset(fields, k) else -1
    {
      ghost var e := Encode(fields);
      EncodeStarts(fields, k);
      if cur < 0 {
        assert heapString[0] == e[0];
        return if heapString[0] != NUL then 0 else -1;
      }
      FieldStandsAt(fields, k - 1);
      var end := EndOf(cur, fields[k - 1]);
      rv := end + 1;
      assert heapString[rv] == e[rv];
      if heapString[rv] == NUL {
        rv := -1;
      }
    }

    method EndOf(cur: nat, ghost f: string) returns (end: nat)
      requires cur + |f| < heapString.Length && heapString[cur..cur + |f|] == f && heapString[cur + |f|] == NUL
      requires IsString(f)
      ensures end == cur + |f|
    {
      end := cur;
      assert forall i {:trigger f[i]} :: 0 <= i < |f| ==> heapString[cur + i] == f[i];
      assert f[0] != NUL;
      while heapString[end] != NUL
        invariant cur <= end <= cur + |f| && (end < cur + |f| ==> heapString[end] != NUL)
        decreases cur + |f| - end
      {
        end := end + 1;
        assert end < cur + |f| ==> f[end - cur] != NUL;
      }
    }

    /** The C string at the start of field k. */
    method At(cur: nat, ghost k: nat) returns (s: string)
      requires Valid() && k < |fields| && cur == Offset(fields, k)
      ensures s == fields[k]
    {
      FieldStandsAt(fields, k);
      PrefixSlice(heapString[..], Encode(fields), cur, cur + |fields[k]|);
      assert heapString[..][cur..cur + |fields[k]|] == heapString[cur..cur + |fields[k]|];
      var end := EndOf(cur, fields[k]);
      s := heapString[cur..end];
    }
  }
}
