/** What reading a macro text means, character by character: which token is a label, what a search for it finds in any
    recorded macro, and what becomes of blanks and prompt directives. */
module MacroLabels {
  import opened Wrappers
  import opened MacroText
  import opened MacroRecord
  import opened MacroBranch

  // ---------- labels ----------

  /** The same character, or the other case of the same letter. */
  predicate SameLetter(a: char, b: char) {
    || a == b
    || ('a' <= a <= 'z' && 'A' <= b <= 'Z' && a - 'a' == b - 'A')
    || ('A' <= a <= 'Z' && 'a' <= b <= 'z' && a - 'A' == b - 'a')
  }

  /** A colon, then as many characters as the destination, each the same or the other case of the same letter. */
  predicate IsLabel(t: Token, dest: string) {
    && t.Name? && |t.s| == 1 + |dest| && dest != "" && t.s[0] == ':'
    && forall i :: 0 <= i < |dest| ==> SameLetter(t.s[1 + i], dest[i])
  }

  lemma LowerMeans(a: char, b: char)
    ensures Lower(a) == Lower(b) <==> SameLetter(a, b)
  {}

  /** A token marks a destination exactly if it is its label; a label of another length never does. */
  lemma MarksMeans(t: Token, dest: string)
    ensures Marks(t, dest) <==> IsLabel(t, dest)
  {
    if t.Name? && |t.s| == 1 + |dest| && dest != "" {
      assert forall i :: 0 <= i < |dest| ==> t.s[1..][i] == t.s[1 + i];
      forall i | 0 <= i < |dest|
        ensures Lower(dest[i]) == Lower(t.s[1..][i]) <==> SameLetter(t.s[1 + i], dest[i])
      {
        LowerMeans(t.s[1 + i], dest[i]);
      }
    }
  }

  /** r stands right behind the first label of the destination; or there is none. */
  ghost predicate BehindFirst(ts: seq<Token>, dest: string, r: Option<Scan>) {
    && (r.None? <==> forall i :: 0 <= i < |ts| ==> !IsLabel(ts[i], dest))
    && forall k :: 0 <= k < |ts| && IsLabel(ts[k], dest) && (forall i :: 0 <= i < k ==> !IsLabel(ts[i], dest)) ==>
      r.Some? && Settled(r.value) && Tokens(r.value) == ts[k + 1..]
  }

  /** In any recorded macro the search stops right behind the first label of the destination, wherever it stands among
      names, literals and longer or shorter labels; without one it fails. */
  lemma SearchInRecorded(ts: seq<Token>, dest: string)
    requires AllSpellable(ts)
    ensures BehindFirst(ts, dest, FindLabel(Start(Loaded(Text(false, ts), false)), dest))
  {
    var s := Start(Loaded(Text(false, ts), false));
    ReplayRestores(ts);
    FindLabelFinds(s, dest);
    forall t
      ensures Marks(t, dest) <==> IsLabel(t, dest)
    {
      MarksMeans(t, dest);
    }
    assert forall i :: 0 <= i < |ts| ==> ts[i] in ts;
  }

  /** The same for a branch: BranchToLabel starts at the text itself, and finds the first label if the macro starts with
      a name and the branch is not directly followed by a literal. */
  lemma BranchInRecorded(ts: seq<Token>, dest: string)
    requires AllSpellable(ts) && ts != [] && ts[0].Name?
    ensures BehindFirst(ts, dest, FindLabel(Scan(Loaded(Text(false, ts), false), false), dest))
  {
    var text := Loaded(Text(false, ts), false);
    ReplayRestores(ts);
    assert NextToken(Start(text)).0 == Some(ts[0]);
    RestartIsFresh(text, false);
    SearchInRecorded(ts, dest);
  }

  /** Examples: case does not matter, length does. */
  lemma LabelExamples()
    ensures Marks(Name(":>ABC"), ">abc") && !Marks(Name(":>a"), ">abc") && !Marks(Name(":>abcd"), ">abc")
  {
    MarksMeans(Name(":>ABC"), ">abc");
    MarksMeans(Name(":>a"), ">abc");
    MarksMeans(Name(":>abcd"), ">abc");
  }

  // ---------- blanks and prompt directives ----------

  predicate Blanks(s: string) {
    forall i :: 0 <= i < |s| ==> IsBlank(s[i])
  }

  predicate Solid(s: string) {
    forall i :: 0 <= i < |s| ==> !IsBlank(s[i])
  }

  /** A prompt directive in front of a token is skipped, with the blanks behind it and nothing else; at the end of the
      text nothing is left. */
  lemma DirectiveSkipped(d: string, b: string, r: string)
    requires d != "" && d[0] == '<' && Solid(d) && Blanks(b) && (r != "" ==> b != "" && !IsBlank(r[0]))
    ensures NextToken(Scan(d + b + r, false)) == NextToken(Scan(r, false))
  {
    var s := d + b + r;
    WordEnds(s, |d|);
    assert SkipWord(s) == b + r;
    BlanksEnd(b + r, |b|);
    assert SkipBlanks(b + r) == r;
    assert SkipPrompts(s) == SkipPrompts(r);
  }

  /** Any other text loses the blanks at its ends, and nothing else. */
  lemma TrimMeans(a: string, t: string, b: string)
    requires Blanks(a) && Blanks(b) && (t != "" ==> !IsBlank(t[0]) && !IsBlank(t[|t| - 1]))
    ensures Loaded(a + t + b, false) == t
  {
    var s := a + t + b;
    if t == "" {
      BlanksEnd(s, |s|);
      assert SkipBlanks(s) == "";
    } else {
      BlanksEnd(s, |a|);
      assert SkipBlanks(s) == t + b;
      RTrimMeans(t, b);
    }
  }

  lemma {:induction false} RTrimMeans(t: string, b: string)
    requires t != "" && !IsBlank(t[|t| - 1]) && Blanks(b)
    ensures RTrim(t + b) == t
    decreases |b|
  {
    if b == "" {
      assert t + b == t;
    } else {
      var c := b[..|b| - 1];
      assert (t + b)[..|t + b| - 1] == t + c;
      RTrimMeans(t, c);
    }
  }
}
