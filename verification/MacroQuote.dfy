/** Pushing a text as one quoted literal (PushVariableMacro): exactly which texts are typed as they are. */
module MacroQuote {
  import opened MacroText

  /** The characters of a text, as literal characters. */
  function Lits(s: string): (ts: seq<Token>)
    ensures |ts| == |s| && forall i :: 0 <= i < |s| ==> ts[i] == Lit(s[i])
  {
    seq(|s|, i requires 0 <= i < |s| => Lit(s[i]))
  }

  lemma LitsCons(s: string)
    requires s != ""
    ensures Lits(s) == [Lit(s[0])] + Lits(s[1..])
  {}

  lemma {:induction false} TokensBound(s: Scan)
    requires Settled(s)
    ensures |Tokens(s)| <= |s.rest|
    decreases |s.rest|
  {
    NextTokenShortens(s);
    if NextToken(s).0.Some? {
      TokensBound(NextToken(s).1);
    }
  }

  /** Where the tokenizer is behind a character of a literal that goes on with u and its closing quote. */
  function Inside(u: string): (s: Scan)
    ensures Settled(s)
  {
    Advanced(Scan(u + [QUOTE], true))
  }

  lemma OneCharacter(x: string)
    requires x != ""
    ensures Settled(Advanced(Scan(BehindChar(x), true)))
    ensures Tokens(Scan(x, true)) == [Lit(x[0])] + Tokens(Advanced(Scan(BehindChar(x), true)))
  {}

  /** A single character that is no doubled quote. */
  lemma PlainCharacter(u: string)
    requires u != "" && (u[0] == QUOTE ==> |u| > 1 && u[1] != QUOTE)
    ensures Tokens(Scan(u + [QUOTE], true)) == [Lit(u[0])] + Tokens(Inside(u[1..]))
  {
    var x := u + [QUOTE];
    OneCharacter(x);
    assert x[1..] == u[1..] + [QUOTE];
  }

  /** A doubled quote is typed once. */
  lemma DoubledCharacter(w: string)
    ensures Tokens(Scan([QUOTE, QUOTE] + w, true)) == [Lit(QUOTE)] + Tokens(Advanced(Scan(w, true)))
  {
    var x := [QUOTE, QUOTE] + w;
    OneCharacter(x);
    assert x[2..] == w;
  }

  /** Behind the first of two quotes that stand together the second one is never typed as well. */
  lemma DoubledLoses(w: string)
    ensures Tokens(Inside(w)) != [Lit(QUOTE)] + Lits(w)
  {
    var x := w + [QUOTE];
    if NonEscapedQuote(x) {
      SeekSuffix(x[1..]);
      TokensBound(Inside(w));
    } else if x[0] == QUOTE {
      var y := x[2..];
      assert x == [QUOTE, QUOTE] + y;
      DoubledCharacter(y);
      AdvancedSuffix(Scan(y, true));
      TokensBound(Advanced(Scan(y, true)));
    } else {
      OneCharacter(x);
      assert Tokens(Inside(w))[0] == Lit(x[0]);
    }
  }

  /** Behind a character, a single quote before the last place ends the literal. */
  lemma SingleLoses(u: string)
    requires |u| > 1 && u[0] == QUOTE && u[1] != QUOTE
    ensures Tokens(Inside(u)) != Lits(u)
  {
    var x := u + [QUOTE];
    var v := x[1..];
    assert x[1] == u[1] && v[0] == u[1] && NonEscapedQuote(x) && Inside(u) == Seek(v);
    if IsBlank(v[0]) {
      SeekSuffix(v);
      assert SkipBlanks(v) != v;
      assert |Seek(v).rest| < |v|;
      TokensBound(Seek(v));
    } else {
      BlanksEnd(v, 0);
      assert Seek(v) == Scan(v, false);
      assert Tokens(Seek(v)) == [] || Tokens(Seek(v))[0].Name?;
    }
  }

  predicate QuoteOnlyLast(u: string) {
    forall i :: 0 <= i < |u| - 1 ==> u[i] != QUOTE
  }

  lemma QuoteOnlyLastTail(u: string)
    requires u != ""
    ensures QuoteOnlyLast(u) <==> (|u| > 1 ==> u[0] != QUOTE) && QuoteOnlyLast(u[1..])
  {
    assert forall i :: 0 <= i < |u[1..]| ==> u[1..][i] == u[i + 1];
    assert forall i :: 1 <= i < |u| ==> u[i] == u[1..][i - 1];
  }

  lemma {:induction false} InsideTypes(u: string)
    ensures Tokens(Inside(u)) == Lits(u) <==> QuoteOnlyLast(u)
    decreases |u|
  {
    var x := u + [QUOTE];
    if u == "" {
      assert Inside(u) == Scan("", false);
      assert Tokens(Inside(u)) == [];
    } else {
      LitsCons(u);
      QuoteOnlyLastTail(u);
      if u[0] != QUOTE {
        assert Inside(u) == Scan(x, true);
        PlainCharacter(u);
        ConsSame(Lit(u[0]), Tokens(Inside(u[1..])), Lits(u[1..]));
        InsideTypes(u[1..]);
      } else if |u| == 1 {
        LastQuote(u);
      } else if u[1] == QUOTE {
        TwoQuotes(u);
        assert Inside(u) == Scan(x, true);
      } else {
        SingleLoses(u);
      }
    }
  }

  lemma LastQuote(u: string)
    requires u == [QUOTE]
    ensures Inside(u) == Scan(u + [QUOTE], true) && Tokens(Scan(u + [QUOTE], true)) == Lits(u)
  {
    assert u + [QUOTE] == [QUOTE, QUOTE] + "";
    DoubledCharacter("");
  }

  lemma TwoQuotes(u: string)
    requires |u| > 1 && u[0] == QUOTE && u[1] == QUOTE
    ensures Tokens(Scan(u + [QUOTE], true)) != Lits(u)
  {
    var w := u[2..];
    assert u + [QUOTE] == [QUOTE, QUOTE] + (w + [QUOTE]);
    DoubledCharacter(w + [QUOTE]);
    DoubledLoses(w);
    LitsTwice(u, w);
    ConsDiffers(Lit(QUOTE), Tokens(Inside(w)), [Lit(QUOTE)] + Lits(w));
  }

  lemma LitsTwice(u: string, w: string)
    requires |u| > 1 && u[0] == QUOTE && u[1] == QUOTE && w == u[2..]
    ensures Lits(u) == [Lit(QUOTE)] + ([Lit(QUOTE)] + Lits(w))
  {}

  lemma ConsDiffers(t: Token, a: seq<Token>, b: seq<Token>)
    requires a != b
    ensures [t] + a != [t] + b
  {
    assert ([t] + a)[1..] == a && ([t] + b)[1..] == b;
  }

  /** The first character of a literal is typed even if it is a quote, unless another one follows. */
  lemma LiteralTypes(src: string)
    requires src != ""
    ensures Tokens(Scan(src + [QUOTE], true)) == Lits(src) <==>
      !(|src| > 1 && src[0] == QUOTE && src[1] == QUOTE) && QuoteOnlyLast(src[1..])
  {
    if src == [QUOTE] {
      LastQuote(src);
    } else if |src| > 1 && src[0] == QUOTE && src[1] == QUOTE {
      TwoQuotes(src);
    } else {
      LitsCons(src);
      PlainCharacter(src);
      ConsSame(Lit(src[0]), Tokens(Inside(src[1..])), Lits(src[1..]));
      InsideTypes(src[1..]);
    }
  }

  lemma ConsSame(t: Token, a: seq<Token>, b: seq<Token>)
    ensures [t] + a == [t] + b <==> a == b
  {
    if a != b {
      ConsDiffers(t, a, b);
    }
  }

  /** A text pushed as one literal is typed as it is if and only if it is not empty, has no quote strictly inside, and
      is not just two quotes: quotes are not doubled when the text is wrapped. */
  lemma WrappedExactly(src: string)
    ensures Tokens(Start(Loaded(src, true))) == Lits(src) <==>
      src != "" && src != [QUOTE, QUOTE] && forall i :: 0 < i < |src| - 1 ==> src[i] != QUOTE
  {
    WrappedStarts(src);
    if src == "" {
      OneCharacter(src + [QUOTE]);
    } else {
      LiteralTypes(src);
      InnerQuotes(src);
    }
  }

  lemma InnerQuotes(src: string)
    requires src != ""
    ensures !(|src| > 1 && src[0] == QUOTE && src[1] == QUOTE) && QuoteOnlyLast(src[1..]) <==>
      src != [QUOTE, QUOTE] && forall i :: 0 < i < |src| - 1 ==> src[i] != QUOTE
  {
    var u := src[1..];
    assert forall i :: 0 <= i < |u| ==> u[i] == src[i + 1];
    assert forall i :: 1 <= i < |src| ==> src[i] == u[i - 1];
  }

  lemma WrappedStarts(src: string)
    ensures Start(Loaded(src, true)) == Scan(src + [QUOTE], true)
  {
    var text := Loaded(src, true);
    BlanksEnd(text, 0);
    assert text[1..] == src + [QUOTE] && SkipBlanks(text) == text;
  }
}
