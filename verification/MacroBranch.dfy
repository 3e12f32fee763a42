/** What BranchToLabel finds, and when it goes wrong. */
module MacroBranch {
  import opened Wrappers
  import opened MacroText

  /** The search starts like a fresh run exactly if the branch is not directly followed by a literal and the text does
      not start with one. */
  lemma RestartIsFresh(text: string, quoted: bool)
    requires text != "" && !IsBlank(text[0])
    ensures Scan(text, quoted) == Start(text) <==> !quoted && text[0] != QUOTE
  {
    assert FirstNonBlankOrEnd(text) == 0;
    assert SkipBlanks(text) == text;
  }

  /** Then it stops right behind the first token that marks the label, outside any literal, or reports that there is
      none. */
  lemma BranchFinds(text: string, dest: string)
    requires text == "" || (!IsBlank(text[0]) && text[0] != QUOTE)
    ensures Found(Tokens(Start(text)), dest, FindLabel(Scan(text, false), dest))
  {
    if text != "" {
      RestartIsFresh(text, false);
    }
    FindLabelFinds(Start(text), dest);
  }

  // ---------- where it goes wrong ----------

  /** A name of n characters, then one blank, then no blank. */
  lemma ReadName(s: string, n: nat)
    requires 0 < n < |s| - 1 && !IsBlank(s[n + 1]) && IsBlank(s[n]) && s[0] != '<'
    requires forall i :: 0 <= i < n ==> !IsBlank(s[i])
    ensures NextToken(Scan(s, false)) ==
      (Some(Name(s[..n])), if s[n + 1] == QUOTE then Scan(s[n + 2..], true) else Scan(s[n + 1..], false))
  {
    WordEnds(s, n);
    BlanksEnd(s[n..], 1);
    assert SkipWord(s) == s[n..] && SkipBlanks(s[n..]) == s[n + 1..];
  }

  lemma ReadLastName(s: string)
    requires s != "" && s[0] != '<' && forall i :: 0 <= i < |s| ==> !IsBlank(s[i])
    ensures NextToken(Scan(s, false)) == (Some(Name(s)), Scan("", false))
  {
    WordEnds(s, |s|);
    assert SkipWord(s) == "" && s[..|s|] == s;
  }

  /** A character of a literal that neither is a quote nor stands before one. */
  lemma ReadChar(s: string)
    requires s != "" && s[0] != QUOTE && (|s| > 1 ==> s[1] != QUOTE)
    ensures NextToken(Scan(s, true)) == (Some(Lit(s[0])), Scan(s[1..], true))
  {}

  /** The last character of a literal, with a blank and a name behind it, or a name right behind it. */
  lemma ReadLastChar(s: string, n: nat)
    requires 2 <= n <= 3 && |s| > n && s[0] != QUOTE && s[1] == QUOTE
    requires (n == 3 ==> IsBlank(s[2])) && !IsBlank(s[n]) && s[n] != QUOTE
    ensures NextToken(Scan(s, true)) == (Some(Lit(s[0])), Scan(s[n..], false))
  {
    assert s[1..][1..] == s[2..];
    BlanksEnd(s[2..], n - 2);
    assert s[2..][n - 2..] == s[n..];
  }

  /** The last character of a literal that ends the text. */
  lemma ReadFinalChar(s: string)
    requires |s| == 2 && s[0] != QUOTE && s[1] == QUOTE
    ensures NextToken(Scan(s, true)) == (Some(Lit(s[0])), Scan("", false))
  {
    assert s[1..][1..] == "";
  }

  lemma SearchGoesOn(s: Scan, t: Token, s': Scan, dest: string)
    requires Settled(s) && Settled(s') && NextToken(s) == (Some(t), s')
    ensures FindLabel(s, dest) == if Marks(t, dest) then Some(s') else FindLabel(s', dest)
  {}

  /** n characters of a literal go by without marking anything. */
  lemma {:induction false} SearchSkips(s: string, n: nat, dest: string)
    requires n < |s| && forall i :: 0 <= i <= n ==> s[i] != QUOTE
    ensures FindLabel(Scan(s, true), dest) == FindLabel(Scan(s[n..], true), dest)
    decreases n
  {
    if n > 0 {
      ReadChar(s);
      SearchGoesOn(Scan(s, true), Lit(s[0]), Scan(s[1..], true), dest);
      SearchSkips(s[1..], n - 1, dest);
      assert s[1..][n - 1..] == s[n..];
    } else {
      assert s[0..] == s;
    }
  }

  /** t is the text w, letter by letter. */
  predicate Spells(t: string, w: string) {
    |t| == |w| && forall i :: 0 <= i < |w| ==> t[i] == w[i]
  }

  lemma Dropped(t: string, w: string, n: nat, v: string)
    requires Spells(t, w) && n <= |w| && v == w[n..]
    ensures Spells(t[n..], v)
  {}

  /** The last character of a literal that ends the text ends the search. */
  lemma CharEndsSearch(s: string, dest: string)
    requires |s| == 2 && s[0] != QUOTE && s[1] == QUOTE
    ensures FindLabel(Scan(s, true), dest) == None
  {
    ReadFinalChar(s);
    SearchGoesOn(Scan(s, true), Lit(s[0]), Scan("", false), dest);
  }

  /** So does a last name that is no label. */
  lemma NameEndsSearch(s: string, dest: string)
    requires s != "" && s[0] != '<' && s[0] != ':' && forall i :: 0 <= i < |s| ==> !IsBlank(s[i])
    ensures FindLabel(Scan(s, false), dest) == None
  {
    ReadLastName(s);
    SearchGoesOn(Scan(s, false), Name(s), Scan("", false), dest);
  }

  /** The last character of a literal leads the search out of it. */
  lemma CharLeavesLiteral(s: string, n: nat, dest: string)
    requires 2 <= n <= 3 && |s| > n && s[0] != QUOTE && s[1] == QUOTE
    requires (n == 3 ==> IsBlank(s[2])) && !IsBlank(s[n]) && s[n] != QUOTE
    ensures FindLabel(Scan(s, true), dest) == FindLabel(Scan(s[n..], false), dest)
  {
    ReadLastChar(s, n);
    SearchGoesOn(Scan(s, true), Lit(s[0]), Scan(s[n..], false), dest);
  }

  /** A first name that marks the label ends the search. */
  lemma NameIsFound(s: string, n: nat, dest: string)
    requires 1 < n < |s| - 1 && !IsBlank(s[n + 1]) && IsBlank(s[n]) && s[0] == ':' && s[1..n] == dest
    requires forall i :: 0 <= i < n ==> !IsBlank(s[i])
    ensures FindLabel(Scan(s, false), dest).Some?
  {
    ReadName(s, n);
    assert s[..n][1..] == dest;
    var s' := NextToken(Scan(s, false)).1;
    SearchGoesOn(Scan(s, false), Name(s[..n]), s', dest);
  }

  lemma NoLabelBeforeEnd(lit: string, dest: string)
    requires Spells(lit, ":>a \"") && Spells(dest, ">a")
    ensures FindLabel(Scan(lit, true), dest) == None
    ensures FindLabel(Scan(lit, false), dest).Some?
  {
    SearchSkips(lit, 3, dest);
    CharEndsSearch(lit[3..], dest);
    NameIsFound(lit, 3, dest);
  }

  lemma FreshSearch(text: string, dest: string)
    requires Spells(text, "=>a \":>a \"") && Spells(dest, ">a")
    ensures NextToken(Start(text)) == (Some(Name(text[..3])), Scan(text[5..], true))
    ensures FindLabel(Start(text), dest) == None
  {
    RestartIsFresh(text, false);
    ReadName(text, 3);
    Dropped(text, "=>a \":>a \"", 5, ":>a \"");
    NoLabelBeforeEnd(text[5..], dest);
    SearchGoesOn(Start(text), Name(text[..3]), Scan(text[5..], true), dest);
  }

  lemma QuotedSearch(text: string, dest: string)
    requires Spells(text, "=>a \":>a \"") && Spells(dest, ">a")
    ensures FindLabel(Scan(text, true), dest).Some?
  {
    SearchSkips(text, 3, dest);
    Dropped(text, "=>a \":>a \"", 3, " \":>a \"");
    QuotedSearchEnds(text[3..], dest);
  }

  lemma QuotedSearchEnds(text: string, dest: string)
    requires Spells(text, " \":>a \"") && Spells(dest, ">a")
    ensures FindLabel(Scan(text, true), dest).Some?
  {
    CharLeavesLiteral(text, 2, dest);
    Dropped(text, " \":>a \"", 2, ":>a \"");
    NoLabelBeforeEnd(text[2..], dest);
  }

  /** A branch directly followed by a literal:  =>a ":>a "  . The search takes names for literals and literals for
      names; it finds a label where a fresh run has none. */
  lemma BranchBeforeLiteral(text: string, dest: string)
    requires Spells(text, "=>a \":>a \"") && Spells(dest, ">a")
    ensures NextToken(Start(text)) == (Some(Name(text[..3])), Scan(text[5..], true)) && text[1..3] == dest
    ensures FindLabel(Start(text), dest) == None
    ensures FindLabel(Scan(text, true), dest).Some?
  {
    FreshSearch(text, dest);
    QuotedSearch(text, dest);
  }

  lemma FreshSearchFromLiteral(text: string, dest: string)
    requires Spells(text, "\" :>a \" =>a") && Spells(dest, ">a")
    ensures FindLabel(Start(text), dest) == None
  {
    StartsInLiteral(text);
    Dropped(text, "\" :>a \" =>a", 1, " :>a \" =>a");
    LiteralSearch(text[1..], dest);
  }

  lemma StartsInLiteral(text: string)
    requires text != "" && text[0] == QUOTE
    ensures Start(text) == Scan(text[1..], true)
  {
    BlanksEnd(text, 0);
  }

  lemma LiteralSearch(text: string, dest: string)
    requires Spells(text, " :>a \" =>a") && Spells(dest, ">a")
    ensures FindLabel(Scan(text, true), dest) == None
  {
    SearchSkips(text, 4, dest);
    Dropped(text, " :>a \" =>a", 4, " \" =>a");
    NoLabelInBranch(text[4..], dest);
  }

  lemma NoLabelInBranch(text: string, dest: string)
    requires Spells(text, " \" =>a") && Spells(dest, ">a")
    ensures FindLabel(Scan(text, true), dest) == None
  {
    CharLeavesLiteral(text, 3, dest);
    NameEndsSearch(text[3..], dest);
  }

  lemma UnquotedSearchFromLiteral(text: string, dest: string)
    requires Spells(text, "\" :>a \" =>a") && Spells(dest, ">a")
    ensures FindLabel(Scan(text, false), dest).Some?
  {
    QuoteAsName(text, dest);
    assert Spells(text[2..], ":>a \" =>a") by {
      Dropped(text, "\" :>a \" =>a", 2, ":>a \" =>a");
    }
    LabelFound(text[2..], dest);
  }

  lemma QuoteAsName(text: string, dest: string)
    requires |text| > 2 && text[0] == QUOTE && IsBlank(text[1]) && !IsBlank(text[2]) && text[2] != QUOTE
    ensures FindLabel(Scan(text, false), dest) == FindLabel(Scan(text[2..], false), dest)
  {
    ReadName(text, 1);
    SearchGoesOn(Scan(text, false), Name(text[..1]), Scan(text[2..], false), dest);
  }

  lemma LabelFound(text: string, dest: string)
    requires Spells(text, ":>a \" =>a") && Spells(dest, ">a")
    ensures FindLabel(Scan(text, false), dest).Some?
  {
    NameIsFound(text, 3, dest);
  }

  /** A text that starts with a literal:  " :>a " =>a  . The search takes its quote for a name and the literal for a
      label. */
  lemma BranchInTextStartingWithLiteral(text: string, dest: string)
    requires Spells(text, "\" :>a \" =>a") && Spells(dest, ">a")
    ensures FindLabel(Start(text), dest) == None
    ensures FindLabel(Scan(text, false), dest).Some?
  {
    FreshSearchFromLiteral(text, dest);
    UnquotedSearchFromLiteral(text, dest);
  }
}
