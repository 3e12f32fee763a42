/** Macro text and its tokenizer (macro.cpp): names separated by blanks, quoted literals with doubled quotes. */
module MacroText {
  import opened Wrappers

  const QUOTE: char := '\"'

  predicate IsBlank(c: char) {
    c == ' ' || c == '\t'
  }

  /** FirstNonBlankOrEnd. */
  function FirstNonBlankOrEnd(s: string): (n: nat)
    ensures n <= |s| && (n < |s| ==> !IsBlank(s[n]))
    ensures forall i :: 0 <= i < n ==> IsBlank(s[i])
  {
    if s == [] || !IsBlank(s[0]) then 0 else 1 + FirstNonBlankOrEnd(s[1..])
  }

  /** FirstBlankOrEnd. */
  function FirstBlankOrEnd(s: string): (n: nat)
    ensures n <= |s| && (n < |s| ==> IsBlank(s[n]))
    ensures forall i :: 0 <= i < n ==> !IsBlank(s[i])
  {
    if s == [] || IsBlank(s[0]) then 0 else 1 + FirstBlankOrEnd(s[1..])
  }

  lemma WordEnds(s: string, n: nat)
    requires n <= |s| && (n < |s| ==> IsBlank(s[n])) && forall i :: 0 <= i < n ==> !IsBlank(s[i])
    ensures FirstBlankOrEnd(s) == n
  {}

  lemma BlanksEnd(s: string, n: nat)
    requires n <= |s| && (n < |s| ==> !IsBlank(s[n])) && forall i :: 0 <= i < n ==> IsBlank(s[i])
    ensures FirstNonBlankOrEnd(s) == n
  {}

  predicate IsSuffix(a: string, b: string): (r: bool)
    ensures r ==> |a| <= |b|
  {
    a == b || (b != [] && IsSuffix(a, b[1..]))
  }

  lemma {:induction false} SuffixTrans(a: string, b: string, c: string)
    requires IsSuffix(a, b) && IsSuffix(b, c)
    ensures IsSuffix(a, c)
    decreases |c|
  {
    if b != c {
      SuffixTrans(a, b, c[1..]);
    }
  }

  lemma {:induction false} DropIsSuffix(s: string, n: nat)
    requires n <= |s|
    ensures IsSuffix(s[n..], s)
    decreases n
  {
    if n > 0 {
      assert s[n..] == s[1..][n - 1..];
      DropIsSuffix(s[1..], n - 1);
    }
  }

  lemma {:induction false} SuffixMeans(a: string, b: string)
    ensures IsSuffix(a, b) <==> |a| <= |b| && a == b[|b| - |a|..]
    decreases |b|
  {
    if a != b && b != [] {
      SuffixMeans(a, b[1..]);
      if |a| < |b| {
        assert b[|b| - |a|..] == b[1..][|b| - 1 - |a|..];
      }
    }
  }

  function SkipBlanks(s: string): (r: string)
    ensures IsSuffix(r, s) && (r != [] ==> !IsBlank(r[0]))
  {
    DropIsSuffix(s, FirstNonBlankOrEnd(s));
    s[FirstNonBlankOrEnd(s)..]
  }

  function SkipWord(s: string): (r: string)
    ensures IsSuffix(r, s) && (s != [] && !IsBlank(s[0]) ==> |r| < |s|)
  {
    DropIsSuffix(s, FirstBlankOrEnd(s));
    s[FirstBlankOrEnd(s)..]
  }

  function RTrim(s: string): (r: string)
    ensures |r| <= |s| && r == s[..|r|] && (r != [] ==> !IsBlank(r[|r| - 1]))
  {
    if s == [] || !IsBlank(s[|s| - 1]) then s else RTrim(s[..|s| - 1])
  }

  /** trim. */
  function Trim(s: string): (r: string)
    ensures r == "" || !IsBlank(r[0])
  {
    var t := SkipBlanks(s);
    var r := RTrim(t);
    assert r != "" ==> r[0] == t[0];
    r
  }

  // ---------- what the tokenizer does, as a function of what remains ----------

  /** What remains to be read, and whether it starts inside a quoted literal. */
  datatype Scan = Scan(rest: string, quoted: bool)

  /** One token: a command name (or branch, or label), or one character of a literal. */
  datatype Token = Lit(c: char) | Name(s: string)

  predicate NonEscapedQuote(s: string) {
    s != [] && s[0] == QUOTE && (|s| == 1 || s[1] != QUOTE)
  }

  predicate Doubled(s: string) {
    |s| >= 2 && s[0] == QUOTE && s[1] == QUOTE
  }

  /** The position at the next name, or behind the next opening quote. */
  function Seek(s: string): Scan {
    var r := SkipBlanks(s);
    if r != [] && r[0] == QUOTE then Scan(r[1..], true) else Scan(r, false)
  }

  function Advanced(s: Scan): Scan {
    if !s.quoted then Seek(s.rest)
    else if NonEscapedQuote(s.rest) then Seek(s.rest[1..])
    else s
  }

  /** Past any prompt directives. */
  function SkipPrompts(s: string): (r: string)
    ensures IsSuffix(r, s) && (r != [] ==> r[0] != '<')
    decreases |s|
  {
    if s != [] && s[0] == '<' then
      SuffixTrans(SkipBlanks(SkipWord(s)), SkipWord(s), s);
      SuffixTrans(SkipPrompts(SkipBlanks(SkipWord(s))), SkipBlanks(SkipWord(s)), s);
      SkipPrompts(SkipBlanks(SkipWord(s)))
    else s
  }

  /** Behind the next character of a literal, escaped or not. */
  function BehindChar(s: string): string
    requires s != []
  {
    if Doubled(s) then s[2..] else s[1..]
  }

  /** GetNextToken: the next token, if any, and what remains behind it. */
  function NextToken(s: Scan): (Option<Token>, Scan) {
    if s.rest == [] then (None, s)
    else if s.quoted then (Some(Lit(s.rest[0])), Advanced(Scan(BehindChar(s.rest), true)))
    else
      var r := SkipPrompts(s.rest);
      if r == [] then (None, Scan(r, false))
      else (Some(Name(r[..FirstBlankOrEnd(r)])), Advanced(Scan(SkipWord(r), false)))
  }

  lemma SeekSuffix(s: string)
    ensures IsSuffix(Seek(s).rest, s)
  {
    if SkipBlanks(s) != [] {
      TailIsSuffix(SkipBlanks(s), s);
    }
  }

  lemma TailIsSuffix(r: string, s: string)
    requires r != [] && IsSuffix(r, s)
    ensures IsSuffix(r[1..], s)
  {
    DropIsSuffix(r, 1);
    SuffixTrans(r[1..], r, s);
  }

  lemma AdvancedSuffix(s: Scan)
    ensures IsSuffix(Advanced(s).rest, s.rest)
  {
    SeekSuffix(s.rest);
    if NonEscapedQuote(s.rest) {
      SeekSuffix(s.rest[1..]);
      DropIsSuffix(s.rest, 1);
      SuffixTrans(Seek(s.rest[1..]).rest, s.rest[1..], s.rest);
    }
  }

  /** Between tokens an unquoted position is never at a blank: each token then takes at least one character. */
  predicate Settled(s: Scan) {
    s.quoted || s.rest == [] || !IsBlank(s.rest[0])
  }

  lemma CharShortens(s: string)
    requires s != []
    ensures IsSuffix(Advanced(Scan(BehindChar(s), true)).rest, s) && |Advanced(Scan(BehindChar(s), true)).rest| < |s|
  {
    AdvancedSuffix(Scan(BehindChar(s), true));
    DropIsSuffix(s, if Doubled(s) then 2 else 1);
    SuffixTrans(Advanced(Scan(BehindChar(s), true)).rest, BehindChar(s), s);
  }

  lemma NameShortens(s: string)
    requires s != [] && !IsBlank(s[0])
    ensures IsSuffix(Advanced(Scan(SkipWord(s), false)).rest, s) && |Advanced(Scan(SkipWord(s), false)).rest| < |s|
  {
    AdvancedSuffix(Scan(SkipWord(s), false));
    SuffixTrans(Advanced(Scan(SkipWord(s), false)).rest, SkipWord(s), s);
  }

  /** Every token shortens what remains, and leaves a suffix of it. */
  lemma NextTokenShortens(s: Scan)
    requires Settled(s)
    ensures IsSuffix(NextToken(s).1.rest, s.rest) && Settled(NextToken(s).1)
    ensures NextToken(s).0.Some? ==> |NextToken(s).1.rest| < |s.rest|
    ensures NextToken(s).0.None? ==> NextToken(s).1.rest == []
  {
    if s.rest != [] {
      if s.quoted {
        CharShortens(s.rest);
      } else {
        var r := SkipPrompts(s.rest);
        SkipPromptsSettles(s.rest);
        if r != [] {
          NameShortens(r);
          SuffixTrans(NextToken(s).1.rest, r, s.rest);
        }
      }
    }
  }

  lemma {:induction false} SkipPromptsSettles(s: string)
    requires s == [] || !IsBlank(s[0])
    ensures SkipPrompts(s) == [] || !IsBlank(SkipPrompts(s)[0])
    decreases |s|
  {
    if s != [] && s[0] == '<' {
      SkipPromptsSettles(SkipBlanks(SkipWord(s)));
    }
  }

  /** All tokens of what remains. */
  function Tokens(s: Scan): seq<Token>
    requires Settled(s)
    decreases |s.rest|
  {
    NextTokenShortens(s);
    var (got, s') := NextToken(s);
    match got
    case None => []
    case Some(t) => [t] + Tokens(s')
  }

  /** Where the tokenizer starts on a macro text. */
  function Start(text: string): (s: Scan)
    ensures Settled(s)
  {
    Advanced(Scan(text, false))
  }

  // ---------- branching ----------

  function Lower(c: char): char {
    if 'A' <= c <= 'Z' then (c as int + 32) as char else c
  }

  /** eqi. */
  predicate EqualFold(a: string, b: string) {
    |a| == |b| && forall i :: 0 <= i < |a| ==> Lower(a[i]) == Lower(b[i])
  }

  /** A token that marks the label ">name". */
  predicate Marks(t: Token, dest: string) {
    t.Name? && |t.s| > 1 && t.s[0] == ':' && EqualFold(dest, t.s[1..])
  }

  /** The loop of BranchToLabel: the position behind the first marking token. */
  function FindLabel(s: Scan, dest: string): Option<Scan>
    requires Settled(s)
    decreases |s.rest|
  {
    NextTokenShortens(s);
    var (got, s') := NextToken(s);
    match got
    case None => None
    case Some(t) => if Marks(t, dest) then Some(s') else FindLabel(s', dest)
  }

  /** In terms of the tokens: the search stops right behind the first token that marks the label, if there is one. */
  ghost predicate Found(ts: seq<Token>, dest: string, r: Option<Scan>) {
    match r
    case None => forall t :: t in ts ==> !Marks(t, dest)
    case Some(s) =>
      Settled(s) && exists k: nat ::
        k < |ts| && Marks(ts[k], dest) && (forall i :: 0 <= i < k ==> !Marks(ts[i], dest)) && Tokens(s) == ts[k + 1..]
  }

  lemma {:induction false} FindLabelFinds(s: Scan, dest: string)
    requires Settled(s)
    ensures Found(Tokens(s), dest, FindLabel(s, dest))
    decreases |s.rest|
  {
    NextTokenShortens(s);
    var (got, s') := NextToken(s);
    if got.Some? {
      var ts, ts' := Tokens(s), Tokens(s');
      assert ts == [got.value] + ts' && ts[1..] == ts';
      if Marks(got.value, dest) {
        assert Marks(ts[0], dest) && Tokens(s') == ts[0 + 1..];
      } else {
        FindLabelFinds(s', dest);
        if FindLabel(s, dest).Some? {
          var r := FindLabel(s', dest).value;
          var k: nat :| k < |ts'| && Marks(ts'[k], dest) && (forall i :: 0 <= i < k ==> !Marks(ts'[i], dest))
            && Tokens(r) == ts'[k + 1..];
          assert forall i :: 0 <= i < k + 1 ==> ts[i] == if i == 0 then got.value else ts'[i - 1];
          assert ts[k + 1] == ts'[k] && ts[k + 1 + 1..] == ts'[k + 1..];
        }
      }
    }
  }

  // ---------- the entry of the macro stack ----------

  /** What Ctor makes of a source text. */
  function Loaded(src: string, wrapStringLiteral: bool): (text: string)
    ensures text == "" || !IsBlank(text[0])
  {
    if wrapStringLiteral then [QUOTE] + src + [QUOTE] else Trim(src)
  }

  class MacroRuntimeStkEntry {
    var macroText: string
    var remain: string
    var variableMacro: bool
    var breakOutHere: bool
    var insideQuot2dString: bool
    const slot: nat

    constructor (slot: nat)
      ensures this.slot == slot && At() == Scan("", false)
    {
      this.slot := slot;
      macroText, remain, variableMacro, breakOutHere, insideQuot2dString := "", "", false, false, false;
    }

    ghost function At(): Scan
      reads this`remain, this`insideQuot2dString
    {
      Scan(remain, insideQuot2dString)
    }

    /** Between calls what remains is a settled suffix of the text, which does not start with a blank. */
    ghost predicate Valid()
      reads this
    {
      IsSuffix(remain, macroText) && Settled(At()) && (macroText == "" || !IsBlank(macroText[0]))
    }

    method Clear()
      modifies this
      ensures macroText == "" && At() == Scan("", false) && !variableMacro && !breakOutHere
    {
      macroText, remain, variableMacro, breakOutHere, insideQuot2dString := "", "", false, false, false;
    }

    method ClearIsBreak() returns (rv: bool)
      modifies this
      ensures rv == old(breakOutHere) && Valid()
    {
      rv := breakOutHere;
      Clear();
    }

    /** Ctor: the text is trimmed, or wrapped as one quoted literal. */
    method Ctor(src: string, breaks: bool, variable: bool, wrapStringLiteral: bool)
      modifies this
      ensures Valid() && macroText == Loaded(src, wrapStringLiteral) && At() == Start(macroText)
      ensures breakOutHere == breaks && variableMacro == variable
    {
      breakOutHere, variableMacro := breaks, variable;
      Load(Loaded(src, wrapStringLiteral));
    }

    method Load(text: string)
      requires text == "" || !IsBlank(text[0])
      modifies this`macroText, this`remain, this`insideQuot2dString
      ensures Valid() && macroText == text && At() == Start(text)
    {
      macroText := text;
      remain := text;
      insideQuot2dString := false;
      AdvancedSuffix(Scan(text, false));
      Advance();
    }

    method ToNextToken()
      modifies this`remain, this`insideQuot2dString
      requires !insideQuot2dString
      ensures At() == Seek(old(remain))
    {
      remain := remain[FirstNonBlankOrEnd(remain)..];
      if remain != [] && remain[0] == QUOTE {
        insideQuot2dString := true;
        remain := remain[1..];
      }
    }

    method Advance()
      modifies this`remain, this`insideQuot2dString
      ensures At() == Advanced(old(At()))
    {
      if insideQuot2dString {
        if NonEscapedQuote(remain) {
          insideQuot2dString := false;
          remain := remain[1..];
          ToNextToken();
        }
      } else {
        ToNextToken();
      }
    }

    method SkipPromptDirectives()
      modifies this`remain
      ensures remain == SkipPrompts(old(remain))
    {
      while remain != [] && remain[0] == '<'
        invariant SkipPrompts(remain) == SkipPrompts(old(remain))
        decreases |remain|
      {
        remain := remain[FirstBlankOrEnd(remain)..];
        remain := remain[FirstNonBlankOrEnd(remain)..];
      }
    }

    method GetNextToken() returns (got: Option<Token>)
      requires Valid()
      modifies this`remain, this`insideQuot2dString
      ensures Valid() && (got, At()) == NextToken(old(At()))
      ensures got.Some? ==> |remain| < |old(remain)|
    {
      ghost var s0 := At();
      NextTokenShortens(s0);
      SuffixTrans(NextToken(s0).1.rest, remain, macroText);
      if remain == [] {
        return None;
      }
      if insideQuot2dString {
        if Doubled(remain) {
          remain := remain[1..];
        }
        got := Some(Lit(remain[0]));
        remain := remain[1..];
      } else {
        SkipPromptDirectives();
        if remain == [] {
          return None;
        }
        var token := remain[..FirstBlankOrEnd(remain)];
        remain := remain[|token|..];
        got := Some(Name(token));
      }
      Advance();
    }

    /** BranchToLabel. The search restarts at the text, but inside or outside a literal as the branch left off. */
    method BranchToLabel(brTok: string) returns (found: bool)
      requires Valid() && brTok != ""
      modifies this`remain, this`insideQuot2dString
      ensures Valid() && Settled(Scan(macroText, old(insideQuot2dString)))
      ensures FindLabel(Scan(macroText, old(insideQuot2dString)), brTok[1..]) == if found then Some(At()) else None
    {
      var dest := brTok[1..];
      ghost var goal := FindLabel(Scan(macroText, insideQuot2dString), dest);
      remain := macroText;
      var got := GetNextToken();
      while got.Some?
        invariant Valid() && goal == Search(got, At(), dest)
        decreases |remain|, got.Some?
      {
        if Marks(got.value, dest) {
          return true;
        }
        got := GetNextToken();
      }
      found := false;
    }
  }

  /** The search right after a token was read. */
  function Search(got: Option<Token>, s: Scan, dest: string): Option<Scan>
    requires Settled(s)
  {
    match got
    case None => None
    case Some(t) => if Marks(t, dest) then Some(s) else FindLabel(s, dest)
  }
}
