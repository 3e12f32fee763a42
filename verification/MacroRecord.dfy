/** Recording commands as macro text (SaveCMDInMacroRecordFbuf, ARG::record): replaying the text gives the commands
    back. */
module MacroRecord {
  import opened Wrappers
  import opened MacroText

  /** Literal quotes are doubled. */
  function Escaped(c: char): string {
    if c == QUOTE then [QUOTE, QUOTE] else [c]
  }

  /** What one command adds to the text, with a literal open or not. */
  function Emitted(open: bool, t: Token): string {
    match t
    case Lit(c) => (if open then "" else [' ', QUOTE]) + Escaped(c)
    case Name(n) => (if open then [QUOTE, ' '] else [' ']) + n
  }

  function Close(open: bool): string {
    if open then [QUOTE] else []
  }

  /** The finished text of a stream of commands. */
  function Text(open: bool, ts: seq<Token>): string
    decreases |ts|
  {
    if ts == [] then Close(open) else Emitted(open, ts[0]) + Text(ts[0].Lit?, ts[1..])
  }

  function EndsOpen(open: bool, ts: seq<Token>): bool {
    if ts == [] then open else ts[|ts| - 1].Lit?
  }

  /** The text of a stream without the closing quote. */
  function Body(open: bool, ts: seq<Token>): string
    decreases |ts|
  {
    if ts == [] then [] else Emitted(open, ts[0]) + Body(ts[0].Lit?, ts[1..])
  }

  lemma {:induction false} TextCloses(open: bool, ts: seq<Token>)
    ensures Text(open, ts) == Body(open, ts) + Close(EndsOpen(open, ts))
    decreases |ts|
  {
    if ts != [] {
      TextCloses(ts[0].Lit?, ts[1..]);
      assert EndsOpen(open, ts) == EndsOpen(ts[0].Lit?, ts[1..]);
      Assoc(Emitted(open, ts[0]), Body(ts[0].Lit?, ts[1..]), Close(EndsOpen(open, ts)));
    }
  }

  lemma Assoc(a: string, b: string, c: string)
    ensures (a + b) + c == a + (b + c)
  {}

  lemma {:induction false} BodyGrows(open: bool, ts: seq<Token>, t: Token)
    ensures Body(open, ts + [t]) == Body(open, ts) + Emitted(EndsOpen(open, ts), t)
    decreases |ts|
  {
    var us := ts + [t];
    if ts == [] {
      assert us[1..] == [];
    } else {
      assert us[0] == ts[0] && us[1..] == ts[1..] + [t];
      BodyGrows(ts[0].Lit?, ts[1..], t);
      assert EndsOpen(open, ts) == EndsOpen(ts[0].Lit?, ts[1..]);
      Assoc(Emitted(open, ts[0]), Body(ts[0].Lit?, ts[1..]), Emitted(EndsOpen(open, ts), t));
    }
  }

  /** The record buffer's last line and the recording state. */
  class MacroRecorder {
    var st: string
    var inDQuote: bool
    ghost var head: string
    ghost var recorded: seq<Token>

    ghost predicate Valid()
      reads this
    {
      st == head + Body(false, recorded) && inDQuote == EndsOpen(false, recorded)
    }

    /** ARG::record, starting. */
    constructor (macroName: string)
      ensures Valid() && head == macroName + ":=" && recorded == []
    {
      st := macroName + ":=";
      inDQuote := false;
      head, recorded := macroName + ":=", [];
    }

    method SaveGraphic(ch: char)
      modifies this`st, this`inDQuote
      ensures st == old(st) + Emitted(old(inDQuote), Lit(ch)) && inDQuote
    {
      var lbufNew := [];
      if !inDQuote {
        lbufNew := [' ', QUOTE];
        inDQuote := true;
      }
      if ch == QUOTE {
        lbufNew := lbufNew + [QUOTE];
      }
      lbufNew := lbufNew + [ch];
      assert lbufNew == Emitted(old(inDQuote), Lit(ch));
      st := st + lbufNew;
    }

    method SaveName(n: string)
      modifies this`st, this`inDQuote
      ensures st == old(st) + Emitted(old(inDQuote), Name(n)) && !inDQuote
    {
      Assoc(st, if inDQuote then [QUOTE, ' '] else [' '], n);
      if inDQuote {
        st := st + [QUOTE, ' '];
        inDQuote := false;
      } else {
        st := st + [' '];
      }
      st := st + n;
    }

    /** SaveCMDInMacroRecordFbuf, on a line without right margin. */
    method SaveCMD(cmd: Token)
      requires Valid()
      modifies this`st, this`inDQuote, this`recorded
      ensures Valid() && recorded == old(recorded) + [cmd]
    {
      BodyGrows(false, recorded, cmd);
      Assoc(head, Body(false, recorded), Emitted(inDQuote, cmd));
      match cmd {
        case Lit(ch) => SaveGraphic(ch);
        case Name(n) => SaveName(n);
      }
      recorded := recorded + [cmd];
    }

    /** ARG::record, ending. */
    method Finish()
      requires Valid()
      modifies this`st, this`inDQuote
      ensures st == head + Text(false, recorded)
    {
      TextCloses(false, recorded);
      Assoc(head, Body(false, recorded), Close(inDQuote));
      if inDQuote {
        inDQuote := false;
        st := st + [QUOTE];
      }
    }
  }

  // ---------- replaying ----------

  /** A command name as it can be told apart in macro text. */
  predicate Spellable(n: string) {
    n != "" && n[0] != QUOTE && n[0] != '<' && forall i :: 0 <= i < |n| ==> !IsBlank(n[i])
  }

  ghost predicate AllSpellable(ts: seq<Token>) {
    forall i :: 0 <= i < |ts| && ts[i].Name? ==> Spellable(ts[i].s)
  }

  lemma SeekOne(s: string)
    requires s != "" && !IsBlank(s[0])
    ensures Seek([' '] + s) == Seek(s)
    ensures Seek(s) == if s[0] == QUOTE then Scan(s[1..], true) else Scan(s, false)
  {
    var b := [' '] + s;
    assert b[1..] == s && FirstNonBlankOrEnd(s) == 0 && FirstNonBlankOrEnd(b) == 1;
  }

  /** Reading the escaped form of a literal character, then whatever follows. */
  lemma ReadEscaped(c: char, rest: string)
    requires rest != ""
    ensures NextToken(Scan(Escaped(c) + rest, true)) == (Some(Lit(c)), Advanced(Scan(rest, true)))
    ensures !NonEscapedQuote(Escaped(c) + rest)
    ensures c != QUOTE ==> !Doubled(Escaped(c) + rest)
  {
    var s := Escaped(c) + rest;
    if c == QUOTE {
      assert s[2..] == rest;
    } else {
      assert s[1..] == rest;
    }
  }

  lemma ReadWord(s: string, n: nat)
    requires 0 < n <= |s| && s[0] != '<' && (n < |s| ==> IsBlank(s[n])) && forall i :: 0 <= i < n ==> !IsBlank(s[i])
    ensures NextToken(Scan(s, false)) == (Some(Name(s[..n])), Advanced(Scan(s[n..], false)))
  {
    WordEnds(s, n);
  }

  lemma ReadSpelled(n: string, rest: string)
    requires Spellable(n) && (rest != "" ==> rest[0] == ' ')
    ensures NextToken(Scan(n + rest, false)) == (Some(Name(n)), Advanced(Scan(rest, false)))
  {
    var s := n + rest;
    assert forall i :: 0 <= i < |n| ==> s[i] == n[i];
    assert s[..|n|] == n && s[|n|..] == rest;
    ReadWord(s, |n|);
  }

  lemma GapShape(ts: seq<Token>)
    ensures Text(false, ts) != "" ==> Text(false, ts)[0] == ' '
  {}

  lemma OpenShape(ts: seq<Token>)
    ensures Text(true, ts) != ""
  {
    if ts != [] {
      assert |Emitted(true, ts[0])| > 0;
    }
  }

  lemma AllSpellableTail(ts: seq<Token>)
    requires AllSpellable(ts) && ts != []
    ensures (ts[0].Name? ==> Spellable(ts[0].s)) && AllSpellable(ts[1..])
  {}

  /** From where a literal or a gap between names goes on, the tokens read are exactly those written. */
  lemma {:induction false} TextReads(open: bool, ts: seq<Token>)
    requires AllSpellable(ts)
    ensures Tokens(Advanced(Scan(Text(open, ts), open))) == ts
    decreases |ts|
  {
    if ts == [] {
      EndReads(open);
    } else {
      AllSpellableTail(ts);
      TextReads(ts[0].Lit?, ts[1..]);
      ConsReads(open, ts[0], ts[1..]);
      Unfolds(open, ts);
    }
  }

  lemma Unfolds(open: bool, ts: seq<Token>)
    requires ts != []
    ensures [ts[0]] + ts[1..] == ts && Text(open, ts) == Emitted(open, ts[0]) + Text(ts[0].Lit?, ts[1..])
  {}

  lemma ConsReads(open: bool, t: Token, ts: seq<Token>)
    requires (t.Name? ==> Spellable(t.s)) && Tokens(Advanced(Scan(Text(t.Lit?, ts), t.Lit?))) == ts
    ensures Tokens(Advanced(Scan(Emitted(open, t) + Text(t.Lit?, ts), open))) == [t] + ts
  {
    StepReads(open, t, ts);
    TokensFrom(Advanced(Scan(Emitted(open, t) + Text(t.Lit?, ts), open)), t, Advanced(Scan(Text(t.Lit?, ts), t.Lit?)));
  }

  lemma StepReads(open: bool, t: Token, ts: seq<Token>)
    requires t.Name? ==> Spellable(t.s)
    ensures NextToken(Advanced(Scan(Emitted(open, t) + Text(t.Lit?, ts), open))) ==
      (Some(t), Advanced(Scan(Text(t.Lit?, ts), t.Lit?)))
  {
    GapShape(ts);
    OpenShape(ts);
    HeadReads(open, t, Text(t.Lit?, ts));
  }

  lemma TokensFrom(s: Scan, t: Token, s': Scan)
    requires Settled(s) && Settled(s') && NextToken(s) == (Some(t), s')
    ensures Tokens(s) == [t] + Tokens(s')
  {}

  lemma EndReads(open: bool)
    ensures Tokens(Advanced(Scan(Close(open), open))) == []
  {
    assert Close(true)[1..] == "";
  }

  /** Where the scanner stands at a command's text: at the name, or at the literal character. */
  lemma AtLit(open: bool, c: char, rest: string)
    requires rest != ""
    ensures Advanced(Scan(Emitted(open, Lit(c)) + rest, open)) == Scan(Escaped(c) + rest, true)
  {
    var s, e := Emitted(open, Lit(c)) + rest, Escaped(c) + rest;
    if open {
      ReadEscaped(c, rest);
      assert s == e;
    } else {
      var q := [QUOTE] + e;
      assert s == [' '] + q && q[1..] == e;
      SeekOne(q);
    }
  }

  lemma AtName(open: bool, n: string, rest: string)
    requires Spellable(n)
    ensures Advanced(Scan(Emitted(open, Name(n)) + rest, open)) == Scan(n + rest, false)
  {
    var m := n + rest;
    assert m[0] == n[0];
    if open {
      Assoc([QUOTE, ' '], n, rest);
      AtOpenName(m);
    } else {
      Assoc([' '], n, rest);
      AtClosedName(m);
    }
  }

  lemma AtOpenName(m: string)
    requires m != "" && !IsBlank(m[0]) && m[0] != QUOTE
    ensures Advanced(Scan([QUOTE, ' '] + m, true)) == Scan(m, false)
  {
    var s := [QUOTE, ' '] + m;
    assert s[1..] == [' '] + m && NonEscapedQuote(s);
    SeekOne(m);
  }

  lemma AtClosedName(m: string)
    requires m != "" && !IsBlank(m[0]) && m[0] != QUOTE
    ensures Advanced(Scan([' '] + m, false)) == Scan(m, false)
  {
    SeekOne(m);
  }

  lemma HeadReads(open: bool, t: Token, rest: string)
    requires t.Name? ==> Spellable(t.s) && (rest != "" ==> rest[0] == ' ')
    requires t.Lit? ==> rest != ""
    ensures NextToken(Advanced(Scan(Emitted(open, t) + rest, open))) == (Some(t), Advanced(Scan(rest, t.Lit?)))
  {
    match t
    case Lit(c) =>
      AtLit(open, c, rest);
      ReadEscaped(c, rest);
    case Name(n) =>
      AtName(open, n, rest);
      ReadSpelled(n, rest);
  }

  /** Recording, closing and replaying is the identity on streams of literal characters and command names. */
  lemma ReplayRestores(ts: seq<Token>)
    requires AllSpellable(ts)
    ensures Tokens(Start(Loaded(Text(false, ts), false))) == ts
  {
    TextReads(false, ts);
    TrimLeavesStart(ts);
  }

  lemma {:induction false} TextEnds(open: bool, ts: seq<Token>)
    requires AllSpellable(ts) && (open || ts != [])
    ensures var s := Text(open, ts); s != "" && !IsBlank(s[|s| - 1])
    decreases |ts|
  {
    if ts != [] {
      var rest := Text(ts[0].Lit?, ts[1..]);
      if ts[0].Lit? || ts[1..] != [] {
        assert AllSpellable(ts[1..]);
        TextEnds(ts[0].Lit?, ts[1..]);
        var s := Text(open, ts);
        assert s[|s| - 1] == rest[|rest| - 1];
      } else {
        var n := ts[0].s;
        assert rest == "" && Spellable(n);
        assert Text(open, ts) == Emitted(open, ts[0]);
      }
    }
  }

  lemma SeekIgnoresBlanks(s: string)
    ensures Seek(SkipBlanks(s)) == Seek(s)
  {
    assert SkipBlanks(SkipBlanks(s)) == SkipBlanks(s);
  }

  lemma TrimLeavesStart(ts: seq<Token>)
    requires AllSpellable(ts)
    ensures Start(Loaded(Text(false, ts), false)) == Advanced(Scan(Text(false, ts), false))
  {
    var s := Text(false, ts);
    if ts != [] {
      TextEnds(false, ts);
      var t := SkipBlanks(s);
      assert t != "" && t[|t| - 1] == s[|s| - 1];
      assert Trim(s) == t;
    }
    SeekIgnoresBlanks(s);
  }
}
