/** Comments and continuations of assignment lines (ExtractAssignableText), assignment itself, and the whole way of a
    recorded macro: written, extracted, assigned, replayed. */
module MacroAssign {
  import opened MacroText
  import opened MacroRecord

  const COMMENT: char := '#'
  const CONTINUES: char := '\\'

  // ---------- the rule ----------

  /** Whether an even number of quotes precedes position n. */
  predicate Even(s: string, n: nat)
    requires n <= |s|
    decreases n
  {
    n == 0 || (if s[n - 1] == QUOTE then !Even(s, n - 1) else Even(s, n - 1))
  }

  /** A comment starts at a # at the start or behind a blank, with an even number of quotes before it. */
  predicate CommentAt(s: string, i: nat) {
    i < |s| && s[i] == COMMENT && (i == 0 || IsBlank(s[i - 1])) && Even(s, i)
  }

  /** The position of the first comment, or the end. */
  ghost predicate IsCut(s: string, n: nat) {
    && n <= |s| && (n < |s| ==> CommentAt(s, n))
    && forall i :: 0 <= i < n ==> !CommentAt(s, i)
  }

  /** The last non-blank position before n, or -1. */
  function LastNonBlank(s: string, n: nat): (p: int)
    requires n <= |s|
    ensures -1 <= p < n && (p >= 0 ==> !IsBlank(s[p])) && forall i :: p < i < n ==> IsBlank(s[i])
    decreases n
  {
    if n == 0 then -1 else if IsBlank(s[n - 1]) then LastNonBlank(s, n - 1) else n - 1
  }

  /** A continuation mark is a backslash behind a blank, unless the word before is such a mark itself. */
  predicate ContinuationAt(s: string, j: int)
    requires j < |s|
    decreases if j < 0 then 0 else j
  {
    j > 0 && s[j] == CONTINUES && IsBlank(s[j - 1]) && !ContinuationAt(s, LastNonBlank(s, j))
  }

  /** The line goes on below: the last word before any comment is a continuation mark. */
  predicate GoesOn(s: string, n: nat)
    requires n <= |s|
  {
    ContinuationAt(s, LastNonBlank(s, n))
  }

  predicate AllBlank(s: string) {
    forall i :: 0 <= i < |s| ==> IsBlank(s[i])
  }

  /** The text before the cut; if nothing is cut off, a continuation mark goes too, with one blank before it. */
  function Kept(s: string, n: nat): string
    requires n <= |s|
  {
    if GoesOn(s, n) && n == |s| then s[..LastNonBlank(s, n) - 1] else s[..n]
  }

  /** The rule for comments and continuations; an all-blank text becomes empty. */
  ghost predicate Extracts(s: string, n: nat, rv: string, continues: bool) {
    IsCut(s, n) && continues == GoesOn(s, n) && rv == if AllBlank(Kept(s, n)) then "" else Kept(s, n)
  }

  /** There is only one way to follow the rule. */
  lemma ExtractsOnce(s: string, n: nat, rv: string, continues: bool, n': nat, rv': string, continues': bool)
    requires Extracts(s, n, rv, continues) && Extracts(s, n', rv', continues')
    ensures n == n' && rv == rv' && continues == continues'
  {
    assert n < n' ==> CommentAt(s, n);
    assert n' < n ==> CommentAt(s, n');
  }

  // ---------- the state machine ----------

  datatype State = OutsideQuote | InQuote | PrevCharBlank | ContCharSeen

  function QuoteState(s: string, n: nat): State
    requires n <= |s|
  {
    if Even(s, n) then OutsideQuote else InQuote
  }

  /** The state after n characters. */
  function StateAt(s: string, n: nat): State
    requires n <= |s|
  {
    if n == 0 then OutsideQuote
    else if ContinuationAt(s, LastNonBlank(s, n)) then ContCharSeen
    else if IsBlank(s[n - 1]) then PrevCharBlank
    else QuoteState(s, n)
  }

  lemma BlanksKeepParity(s: string, i: nat, n: nat)
    requires i <= n <= |s| && forall k :: i <= k < n ==> s[k] != QUOTE
    ensures Even(s, n) == Even(s, i)
    decreases n
  {
    if i < n {
      BlanksKeepParity(s, i, n - 1);
    }
  }

  method ExtractAssignableText(src: string) returns (rv: string, continues: bool)
    ensures exists cut: nat :: Extracts(src, cut, rv, continues)
  {
    var stateWhereBlankLastSeen := OutsideQuote;
    var state := OutsideQuote;
    var chIsBlank := true;
    var earlyTerm, continuationChar := |src|, |src|;
    var it: nat := 0;
    while it < |src|
      invariant it <= |src| && earlyTerm == |src|
      invariant forall i :: 0 <= i < it ==> !CommentAt(src, i)
      invariant chIsBlank <==> it == 0 || IsBlank(src[it - 1])
      invariant state == StateAt(src, it)
      invariant chIsBlank || state == ContCharSeen ==> stateWhereBlankLastSeen == QuoteState(src, it)
      invariant state == ContCharSeen ==> continuationChar == LastNonBlank(src, it)
    {
      if src[it] == COMMENT && chIsBlank && stateWhereBlankLastSeen == OutsideQuote {
        earlyTerm := it;
        break;
      }
      chIsBlank := IsBlank(src[it]);
      match state {
        case OutsideQuote =>
          if chIsBlank {
            stateWhereBlankLastSeen := state;
            state := PrevCharBlank;
          } else if src[it] == QUOTE {
            state := InQuote;
          }
        case InQuote =>
          if chIsBlank {
            stateWhereBlankLastSeen := state;
            state := PrevCharBlank;
          } else if src[it] == QUOTE {
            state := OutsideQuote;
          }
        case PrevCharBlank =>
          if src[it] == CONTINUES {
            state := ContCharSeen;
            continuationChar := it;
          } else if !chIsBlank {
            state := AfterBlank(src[it], stateWhereBlankLastSeen);
          }
        case ContCharSeen =>
          if !chIsBlank {
            state := AfterBlank(src[it], stateWhereBlankLastSeen);
          }
      }
      it := it + 1;
    }
    continues := state == ContCharSeen;
    if continues && earlyTerm == |src| {
      earlyTerm := continuationChar - 1;
    }
    rv := src[..earlyTerm];
    if AllBlank(rv) {
      rv := "";
    }
    assert Extracts(src, it, rv, continues);
  }

  /** The state behind a non-blank character that follows a blank or a continuation mark. */
  function AfterBlank(c: char, before: State): State {
    if c == QUOTE then (if before == InQuote then OutsideQuote else InQuote) else before
  }

  /** Without comment and without continuation mark at its end, a line with any text is kept as it is. */
  lemma PlainLineKept(s: string, cut: nat, rv: string, continues: bool)
    requires Extracts(s, cut, rv, continues) && !AllBlank(s)
    requires (forall i :: 0 <= i < |s| ==> !CommentAt(s, i)) && !GoesOn(s, |s|)
    ensures rv == s && !continues
  {
    assert cut < |s| ==> CommentAt(s, cut);
    assert s[..|s|] == s;
  }

  /** A backslash as a word of its own at the end makes the line go on: what is kept is exactly what stands before it
      and the one blank in front of it. */
  lemma MarkedLineKept(t: string, b: char, m: string, cut: nat, rv: string, continues: bool)
    requires IsBlank(b) && AllBlank(m) && Extracts(t + [b, CONTINUES] + m, cut, rv, continues)
    requires forall i :: 0 <= i < |t| && t[i] == CONTINUES ==> !AllBlank(t[i + 1..])
    requires var s := t + [b, CONTINUES] + m; forall i :: 0 <= i < |s| ==> !CommentAt(s, i)
    ensures continues && rv == if AllBlank(t) then "" else t
  {
    var s := t + [b, CONTINUES] + m;
    assert cut < |s| ==> CommentAt(s, cut);
    MarkIsLast(s, t, b, m);
    NoMarkBefore(s, t, b);
    assert Kept(s, |s|) == s[..|t|] == t;
  }

  lemma MarkIsLast(s: string, t: string, b: char, m: string)
    requires s == t + [b, CONTINUES] + m && AllBlank(m)
    ensures LastNonBlank(s, |s|) == |t| + 1 && s[|t| + 1] == CONTINUES && s[|t|] == b && s[..|t|] == t
  {
    assert forall i :: |t| + 2 <= i < |s| ==> s[i] == m[i - |t| - 2];
    LastIs(s, |s|, |t| + 1);
  }

  lemma {:induction false} LastIs(s: string, n: nat, p: nat)
    requires p < n <= |s| && !IsBlank(s[p]) && forall i :: p < i < n ==> IsBlank(s[i])
    ensures LastNonBlank(s, n) == p
    decreases n
  {
    if p < n - 1 {
      LastIs(s, n - 1, p);
    }
  }

  lemma NoMarkBefore(s: string, t: string, b: char)
    requires |s| > |t| + 1 && s[..|t|] == t && s[|t|] == b && IsBlank(b)
    requires forall i :: 0 <= i < |t| && t[i] == CONTINUES ==> !AllBlank(t[i + 1..])
    ensures !ContinuationAt(s, LastNonBlank(s, |t| + 1))
  {
    var p := LastNonBlank(s, |t| + 1);
    if p >= 0 {
      BlankBehind(s, t, p);
    }
  }

  lemma BlankBehind(s: string, t: string, p: nat)
    requires |t| < |s| && s[..|t|] == t && p < |t| && forall i :: p < i <= |t| ==> IsBlank(s[i])
    ensures s[p] == t[p] && AllBlank(t[p + 1..])
  {
    assert s[p] == s[..|t|][p];
    assert forall i :: p < i < |t| ==> t[i] == s[..|t|][i];
    var u := t[p + 1..];
    assert forall i :: 0 <= i < |u| ==> u[i] == t[p + 1 + i];
  }

  /** Before a comment everything is kept, blanks included. */
  lemma CommentCut(t: string, c: string, cut: nat, rv: string, continues: bool)
    requires (t == "" || IsBlank(t[|t| - 1])) && Extracts(t + [COMMENT] + c, cut, rv, continues)
    requires var s := t + [COMMENT] + c; Even(s, |t|) && forall i :: 0 <= i < |t| ==> !CommentAt(s, i)
    ensures rv == if AllBlank(t) then "" else t
  {
    var s := t + [COMMENT] + c;
    assert CommentAt(s, |t|);
    assert cut < |t| ==> CommentAt(s, cut);
    assert s[..|t|] == t;
  }

  // ---------- assigning ----------

  datatype Assignment = Blank | NoColon | Macro(name: string, text: string) | Setting(name: string, value: string)

  function FirstColon(s: string): (k: nat)
    ensures k <= |s| && (k < |s| ==> s[k] == ':') && forall i :: 0 <= i < k ==> s[i] != ':'
  {
    if s == "" || s[0] == ':' then 0 else 1 + FirstColon(s[1..])
  }

  /** AssignStrOk_: which macro, or which switch or key, is to be given which text. */
  function Parsed(src: string): Assignment {
    ParsedTrimmed(SkipBlanks(src))
  }

  function ParsedTrimmed(s: string): Assignment {
    if s == "" then Blank
    else if FirstColon(s) == |s| then NoColon
    else Assigned(RTrim(s[..FirstColon(s)]), RTrim(SkipBlanks(s[FirstColon(s) + 1..])))
  }

  function Assigned(name: string, value: string): Assignment {
    if value != "" && value[0] == '=' then Macro(name, SkipBlanks(value[1..])) else Setting(name, value)
  }

  // ---------- the whole way of a recorded macro ----------

  /** Names that an assignment line does not take for something else. */
  predicate Plain(n: string) {
    && Spellable(n) && n[0] != COMMENT && n != [CONTINUES]
    && forall i :: 0 <= i < |n| ==> n[i] != QUOTE
  }

  ghost predicate AllPlain(ts: seq<Token>) {
    forall i :: 0 <= i < |ts| && ts[i].Name? ==> Plain(ts[i].s)
  }

  predicate MacroName(n: string) {
    Plain(n) && forall i :: 0 <= i < |n| ==> n[i] != ':'
  }

  /** e stands in s from position i on. */
  predicate Sits(s: string, i: nat, e: string) {
    i + |e| <= |s| && forall k {:trigger e[k]} :: 0 <= k < |e| ==> s[i + k] == e[k]
  }

  /** One command's text holds no comment, and leaves the parity as the open literal says. */
  lemma LitHasNoComment(s: string, i: nat, open: bool, c: char)
    requires Sits(s, i, Emitted(open, Lit(c))) && Even(s, i) == !open
    ensures forall k :: i <= k < i + |Emitted(open, Lit(c))| ==> !CommentAt(s, k)
    ensures !Even(s, i + |Emitted(open, Lit(c))|)
  {
    var e, d := Emitted(open, Lit(c)), if open then 0 else 2;
    var j := i + d;
    if !open {
      assert e[0] == ' ' && e[1] == QUOTE;
      assert s[i] == ' ' && s[i + 1] == QUOTE && Even(s, i + 1);
    }
    assert !Even(s, j);
    assert e[d] == c && (c == QUOTE ==> e[d + 1] == QUOTE);
    assert s[j] == c;
    if c == QUOTE {
      assert s[j + 1] == QUOTE && Even(s, j + 1) && !Even(s, j + 2);
    } else {
      assert !Even(s, j + 1);
    }
  }

  lemma NameHasNoComment(s: string, i: nat, open: bool, n: string)
    requires Plain(n) && Sits(s, i, Emitted(open, Name(n))) && Even(s, i) == !open
    ensures forall k :: i <= k < i + |Emitted(open, Name(n))| ==> !CommentAt(s, k)
    ensures Even(s, i + |Emitted(open, Name(n))|)
  {
    var e, d := Emitted(open, Name(n)), if open then 2 else 1;
    var j := i + d;
    assert e[0] == (if open then QUOTE else ' ') && (open ==> e[1] == ' ');
    assert s[i] == e[0] && (open ==> s[i + 1] == e[1]);
    assert open ==> Even(s, i + 1);
    assert Even(s, j);
    forall k | 0 <= k < |n|
      ensures s[j + k] == n[k]
    {
      assert e[d + k] == n[k];
    }
    BlanksKeepParity(s, j, j + |n|) by {
      assert forall k :: j <= k < j + |n| ==> s[k] == n[k - j];
    }
    forall k | j <= k < j + |n|
      ensures !CommentAt(s, k)
    {
      assert s[k] == n[k - j] && (k > j ==> s[k - 1] == n[k - 1 - j]);
    }
  }

  lemma PlacedBehind(s: string, pre: string, e: string, rest: string)
    requires s == pre + (e + rest)
    ensures Sits(s, |pre|, e) && s == (pre + e) + rest
  {}

  lemma {:induction false} TextHasNoComment(s: string, pre: string, open: bool, ts: seq<Token>)
    requires AllPlain(ts) && s == pre + Text(open, ts) && Even(s, |pre|) == !open
    ensures forall k :: |pre| <= k < |s| ==> !CommentAt(s, k)
    decreases |ts|
  {
    if ts == [] {
      CloseHasNoComment(s, pre, open);
    } else {
      var t, e := ts[0], Emitted(open, ts[0]);
      AllPlainTail(ts);
      Unfolds(open, ts);
      PlacedBehind(s, pre, e, Text(t.Lit?, ts[1..]));
      TokenHasNoComment(s, |pre|, open, t);
      TextHasNoComment(s, pre + e, t.Lit?, ts[1..]);
      NoneBetween(s, |pre|, |pre| + |e|);
    }
  }

  lemma CloseHasNoComment(s: string, pre: string, open: bool)
    requires s == pre + Close(open)
    ensures forall k :: |pre| <= k < |s| ==> !CommentAt(s, k)
  {
    assert open ==> s[|pre|] == QUOTE;
  }

  lemma NoneBetween(s: string, i: nat, j: nat)
    requires i <= j <= |s|
    requires (forall k :: i <= k < j ==> !CommentAt(s, k)) && (forall k :: j <= k < |s| ==> !CommentAt(s, k))
    ensures forall k :: i <= k < |s| ==> !CommentAt(s, k)
  {}

  lemma TokenHasNoComment(s: string, i: nat, open: bool, t: Token)
    requires Plainly(t) && Sits(s, i, Emitted(open, t)) && Even(s, i) == !open
    ensures forall k :: i <= k < i + |Emitted(open, t)| ==> !CommentAt(s, k)
    ensures Even(s, i + |Emitted(open, t)|) == !t.Lit?
  {
    match t
    case Lit(c) => LitHasNoComment(s, i, open, c);
    case Name(n) => NameHasNoComment(s, i, open, n);
  }

  lemma AllPlainTail(ts: seq<Token>)
    requires AllPlain(ts) && ts != []
    ensures Plainly(ts[0]) && AllPlain(ts[1..])
  {}

  predicate Plainly(t: Token) {
    t.Name? ==> Plain(t.s)
  }

  lemma {:induction false} TextEndsPlainly(open: bool, ts: seq<Token>)
    requires AllPlain(ts) && (open || ts != [])
    ensures var s := Text(open, ts);
      s != "" && !IsBlank(s[|s| - 1]) && (s[|s| - 1] == CONTINUES ==> |s| > 1 && !IsBlank(s[|s| - 2]))
    decreases |ts|
  {
    if ts != [] {
      var rest, s := Text(ts[0].Lit?, ts[1..]), Text(open, ts);
      assert s == Emitted(open, ts[0]) + rest;
      if ts[0].Lit? || ts[1..] != [] {
        assert AllPlain(ts[1..]);
        TextEndsPlainly(ts[0].Lit?, ts[1..]);
        assert s[|s| - 1] == rest[|rest| - 1];
        assert |rest| > 1 ==> s[|s| - 2] == rest[|rest| - 2];
      } else {
        var n := ts[0].s;
        assert rest == "" && Plain(n) && s[|s| - 1] == n[|n| - 1];
        assert |n| > 1 ==> s[|s| - 2] == n[|n| - 2];
      }
    }
  }

  ghost function Line(macroName: string, ts: seq<Token>): string {
    macroName + ":=" + Text(false, ts)
  }

  lemma LineHasNoComment(macroName: string, ts: seq<Token>)
    requires MacroName(macroName) && AllPlain(ts)
    ensures forall i :: 0 <= i < |Line(macroName, ts)| ==> !CommentAt(Line(macroName, ts), i)
  {
    var s, pre := Line(macroName, ts), macroName + ":=";
    assert forall i :: 0 <= i < |pre| ==> s[i] == pre[i] && s[i] != QUOTE && !IsBlank(s[i]);
    assert s[0] == macroName[0];
    BlanksKeepParity(s, 0, |pre|);
    TextHasNoComment(s, pre, false, ts);
  }

  lemma LineDoesNotGoOn(macroName: string, ts: seq<Token>)
    requires MacroName(macroName) && AllPlain(ts)
    ensures !GoesOn(Line(macroName, ts), |Line(macroName, ts)|)
  {
    var s, text := Line(macroName, ts), Text(false, ts);
    if ts == [] {
      assert s[|s| - 1] == '=';
    } else {
      TextEndsPlainly(false, ts);
      assert s[|s| - 1] == text[|text| - 1];
      assert |text| > 1 ==> s[|s| - 2] == text[|text| - 2];
    }
    assert LastNonBlank(s, |s|) == |s| - 1;
  }

  lemma RTrimKeeps(s: string)
    requires s != "" && !IsBlank(s[|s| - 1])
    ensures RTrim(s) == s
  {}

  lemma NameOfLine(macroName: string, text: string)
    requires MacroName(macroName)
    ensures var s := macroName + ":=" + text;
      SkipBlanks(s) == s && FirstColon(s) == |macroName| && s[..|macroName|] == macroName
        && s[|macroName| + 1..] == "=" + text
  {
    var s, k := macroName + ":=" + text, |macroName|;
    assert s[0] == macroName[0];
    BlanksEnd(s, 0);
    assert forall i :: 0 <= i < k ==> s[i] == macroName[i];
    assert s[k] == ':';
  }

  lemma ValueOfLine(text: string)
    requires text != "" ==> !IsBlank(text[|text| - 1])
    ensures RTrim(SkipBlanks("=" + text)) == "=" + text && ("=" + text)[1..] == text
  {
    var v := "=" + text;
    BlanksEnd(v, 0);
    assert SkipBlanks(v) == v;
    assert text != "" ==> v[|v| - 1] == text[|text| - 1];
    RTrimKeeps(v);
  }

  lemma ParsedMacro(s: string, k: nat, name: string, value: string)
    requires k == FirstColon(s) < |s| && name == RTrim(s[..k]) && value == RTrim(SkipBlanks(s[k + 1..]))
    requires value != "" && value[0] == '='
    ensures ParsedTrimmed(s) == Macro(name, SkipBlanks(value[1..]))
  {
    assert ParsedTrimmed(s) == Assigned(name, value);
  }

  lemma LineParses(macroName: string, ts: seq<Token>)
    requires MacroName(macroName) && AllPlain(ts)
    ensures Parsed(Line(macroName, ts)) == Macro(macroName, SkipBlanks(Text(false, ts)))
  {
    var text := Text(false, ts);
    NameOfLine(macroName, text);
    RTrimKeeps(macroName);
    if ts != [] {
      TextEndsPlainly(false, ts);
    }
    ValueOfLine(text);
    ParsedMacro(Line(macroName, ts), |macroName|, macroName, "=" + text);
  }

  /** A line without an equals sign behind the first colon sets a switch or key. */
  lemma SettingParses(name: string, value: string)
    requires name != "" && !IsBlank(name[0]) && !IsBlank(name[|name| - 1])
    requires forall i :: 0 <= i < |name| ==> name[i] != ':'
    requires value != "" && !IsBlank(value[0]) && !IsBlank(value[|value| - 1]) && value[0] != '='
    ensures Parsed(name + ":" + value) == Setting(name, value)
  {
    var s, k := name + ":" + value, |name|;
    BlanksEnd(s, 0);
    assert forall i :: 0 <= i < k ==> s[i] == name[i];
    assert s[k] == ':' && FirstColon(s) == k;
    assert s[..k] == name && s[k + 1..] == value;
    BlanksEnd(value, 0);
    RTrimKeeps(name);
    RTrimKeeps(value);
  }

  /** A line of blanks, and a line without colon. */
  lemma LinesWithout(s: string)
    ensures Parsed(s) == Blank <==> AllBlank(s)
    ensures Parsed(s) == NoColon <==> !AllBlank(s) && forall i :: 0 <= i < |s| ==> s[i] != ':'
  {
    var n, t := FirstNonBlankOrEnd(s), SkipBlanks(s);
    assert forall i :: n <= i < |s| ==> s[i] == t[i - n];
    assert t != "" ==> t[0] == s[n];
  }

  /** Record any stream of literal characters and command names into a macro, close it, and let the line be extracted
      and assigned: the macro's text replays exactly the stream. */
  lemma RecordAssignReplay(macroName: string, ts: seq<Token>, cut: nat, rv: string, continues: bool)
    requires MacroName(macroName) && AllPlain(ts) && Extracts(Line(macroName, ts), cut, rv, continues)
    ensures !continues && Parsed(rv).Macro? && Parsed(rv).name == macroName
    ensures Tokens(Start(Loaded(Parsed(rv).text, false))) == ts
  {
    var s := Line(macroName, ts);
    LineHasNoComment(macroName, ts);
    LineDoesNotGoOn(macroName, ts);
    assert s[0] == macroName[0];
    PlainLineKept(s, cut, rv, continues);
    LineParses(macroName, ts);
    assert AllSpellable(ts);
    ReplayRestores(ts);
    assert SkipBlanks(SkipBlanks(Text(false, ts))) == SkipBlanks(Text(false, ts));
  }
}
