/** Which characters a pattern can use as literals (lib/search/glob.c): exactly when the translation of a
    character, bare or behind a backslash, finds that character and nothing else. */
module GlobLiterals {
  import opened Glob
  import opened GlobMeaning
  import opened Regex
  import opened Sequences
  import opened Wrappers

  /** What an entire-line search for the text gets to see. */
  function Searched(text: string): Option<Re> {
    ParseRegex(Anchored(GlobToRegex(text), true))
  }

  /** The search for the text finds the line w, as it should, if and only if w is the character. */
  ghost predicate FindsJust(text: string, c: char) {
    Searched(text).Some? && forall w :: NewlineFree(w) ==> (Finds(Searched(text).value, w) <==> w == [c])
  }

  lemma BareText(c: char)
    ensures GlobToRegex([c]) == Emit(c, false, false).0
  {
    assert [c] + "" == [c];
    TranslateCons(c, "", false, false);
    assert Emit(c, false, false).0 + "" == Emit(c, false, false).0;
  }

  lemma EscapedText(c: char)
    ensures GlobToRegex(['\\', c]) == ['\\'] + Emit(c, true, false).0
  {
    assert ['\\'] + [c] == ['\\', c] && [c] + "" == [c];
    TranslateCons('\\', [c], false, false);
    TranslateCons(c, "", true, false);
    assert Emit(c, true, false).0 + "" == Emit(c, true, false).0;
  }

  lemma EndSeq()
    ensures ParseSeq("$") == Some(Parsed(Cat(LineEnd, Eps), ""))
  {
    assert "$"[1..] == "" && ParseSeq("") == Some(Parsed(Eps, ""));
  }

  /** What the anchored text parses to, from what the text in front of "$" does. */
  lemma AnchoredParse(x: string)
    requires NoRepeat(x + "$") && x != "" && x[0] != '|' && x[0] != ')'
    ensures ParseSeq(x + "$") == None ==> ParseRegex("^" + x + "$") == None
    ensures ParseSeq(x + "$").Some? && ParseSeq(x + "$").value.rest == "" ==>
              ParseRegex("^" + x + "$") == Some(Cat(LineStart, ParseSeq(x + "$").value.re))
    ensures ParseSeq(x + "$").Some? && ParseSeq(x + "$").value.rest != "" && ParseSeq(x + "$").value.rest[0] == ')' ==>
              ParseRegex("^" + x + "$") == None
  {
    hide ParseSeq, NoRepeat;
    HatParse(x + "$");
    Assoc("^", x, "$");
  }

  lemma HatParse(t: string)
    requires NoRepeat(t)
    ensures ParseSeq("^" + t) == match ParseSeq(t)
                                 case None => None
                                 case Some(p) => Some(Parsed(Cat(LineStart, p.re), p.rest))
  {
    var u := "^" + t;
    assert u[1..] == t;
    assert ParseAtom(u) == Some(Parsed(LineStart, t));
    assert Repeated(Parsed(LineStart, t)) == Parsed(LineStart, t);
  }

  // ----- the characters that work -----

  lemma ProperWorks(c: char, escaped: bool)
    requires ProperSign(Char(c, escaped), false)
    ensures FindsJust(SignText(Char(c, escaped)), c)
  {
    var g := [Single(Char(c, escaped))];
    assert g[1..] == [];
    var text := SignText(Char(c, escaped));
    assert Text(g) == text by { assert text + "" == text; }
    EntireLineSearch(g, "");
    forall w | NewlineFree(w)
      ensures Finds(GlobRe(g, true), w) <==> w == [c]
    {
      EntireLineSearchOfLine(g, w);
      OneLiteral(c, escaped, w);
    }
  }

  lemma OneLiteral(c: char, escaped: bool, w: string)
    ensures GlobMatches([Single(Char(c, escaped))], w) <==> w == [c]
  {
    var s := Char(c, escaped);
    assert [Single(s)][1..] == [] && [s][1..] == [];
    assert forall u: string :: SignsMatch([s], u) <==> u == [c] by {
      forall u: string
        ensures SignsMatch([s], u) <==> u == [c]
      {
        if u != "" { assert SignsMatch([s], u) <==> u[0] == c && u[1..] == ""; }
      }
    }
    if GlobMatches([Single(s)], w) {
      var k: nat :| k <= |w| && ItemMatches(Single(s), w[..k]) && GlobMatches([Single(s)][1..], w[k..]);
      assert w == w[..k] + w[k..];
    }
    if w == [c] {
      assert w[..1] == [c] && w[1..] == "";
      assert ItemMatches(Single(s), w[..1]) && GlobMatches([], w[1..]);
    }
  }

  // ----- the characters that do not -----

  /** A line other than the character is found. */
  lemma FoundElse(text: string, c: char, re: Re, w: string, j: nat)
    requires Searched(text) == Some(re) && NewlineFree(w) && w != [c] && j <= |w| && Matches(re, w, 0, j)
    ensures !FindsJust(text, c)
  {
    assert Finds(re, w);
  }

  lemma MatchDollarSign()
    ensures Matches(Cat(LineStart, Cat(Lit('$'), Eps)), "$", 0, 1)
  {
    CatJoin(Lit('$'), Eps, "$", 0, 1, 1);
    CatJoin(LineStart, Cat(Lit('$'), Eps), "$", 0, 0, 1);
  }

  lemma BareBackslash()
    ensures !FindsJust(['\\'], '\\')
  {
    hide Matches, FindsJust, GlobToRegex, ParseRegex;
    BareText('\\');
    assert ParseSeq("") == Some(Parsed(Eps, "")) && "\\$" + "" == "\\$";
    ParseEscaped('$', "");
    assert ['\\', '$'] + "" == "\\" + "$";
    AnchoredParse("\\");
    MatchDollarSign();
    FoundElse(['\\'], '\\', Cat(LineStart, Cat(Lit('$'), Eps)), "$", 1);
  }

  lemma BareBracket()
    ensures !FindsJust(['['], '[')
  {
    BareText('[');
    assert ParseSeq("[$") == None;
    AnchoredParse("[");
  }

  lemma BareBar()
    ensures !FindsJust(['|'], '|')
  {
    BareText('|');
    EndSeq();
    var re := Or(Cat(LineStart, Eps), Cat(LineEnd, Eps));
    assert "^|$"[1..] == "|$" && "|$"[1..] == "$";
    assert ParseSeq("|$") == Some(Parsed(Eps, "|$"));
    ParseSeqStep("^|$", Parsed(LineStart, "|$"));
    assert ParseAlt("$") == ParseSeq("$");
    assert "^" + "|" + "$" == "^|$";
    CatJoin(LineStart, Eps, "", 0, 0, 0);
    FoundElse(['|'], '|', re, "", 0);
  }

  lemma BareBraces()
    ensures !FindsJust(['{'], '{') && !FindsJust(['}'], '}')
  {
    hide FindsJust;
    OpenBrace();
    CloseBrace();
  }

  lemma OpenBrace()
    ensures !FindsJust(['{'], '{')
  {
    hide ParseRegex, GlobToRegex;
    BareText('{');
    EndSeq();
    assert "($"[1..] == "$" && ParseAlt("$") == ParseSeq("$");
    assert ParseSeq("($") == None;
    AnchoredParse("(");
  }

  lemma CloseBrace()
    ensures !FindsJust(['}'], '}')
  {
    hide GlobToRegex;
    BareText('}');
    var u := "^)$";
    assert u[1..] == ")$" && ParseSeq(")$") == Some(Parsed(Eps, ")$"));
    ParseSeqStep(u, Parsed(LineStart, ")$"));
    assert "^" + ")" + "$" == u;
  }

  lemma AnyTextMatchesNothing()
    ensures GlobMatches([Single(AnyText)], "")
  {
    var g := [Single(AnyText)];
    assert g[1..] == [] && [AnyText][1..] == [] && ""[..0] == "" && ""[0..] == "";
    assert SignsMatch([], "");
    assert SignsMatch([AnyText], "");
    assert ItemMatches(g[0], ""[..0]) && GlobMatches(g[1..], ""[0..]);
  }

  lemma AnyCharMatchesA()
    ensures GlobMatches([Single(AnyChar)], "a")
  {
    var h := [Single(AnyChar)];
    assert h[1..] == [] && [AnyChar][1..] == [] && "a"[..1] == "a" && "a"[1..] == "";
    assert SignsMatch([AnyChar], "a");
    assert ItemMatches(h[0], "a"[..1]) && GlobMatches(h[1..], "a"[1..]);
  }

  /** A bare wildcard finds more. */
  lemma BareWildcard(s: Sign, c: char, w: string)
    requires (s == AnyText && c == '*') || (s == AnyChar && c == '?')
    requires GlobMatches([Single(s)], w) && NewlineFree(w) && w != [c]
    ensures !FindsJust([c], c)
  {
    hide GlobMatches, Finds, NewlineFree, ParseRegex, GlobToRegex;
    var g := [Single(s)];
    assert g[1..] == [] && SignText(s) + "" == SignText(s);
    assert Text(g) == [c];
    EntireLineSearchOfLine(g, w);
    EntireLineSearch(g, w);
  }

  lemma BareWildcards()
    ensures !FindsJust(['*'], '*') && !FindsJust(['?'], '?')
  {
    hide GlobMatches, FindsJust;
    AnyTextMatchesNothing();
    BareWildcard(AnyText, '*', "");
    AnyCharMatchesA();
    BareWildcard(AnyChar, '?', "a");
  }

  /** The letters and digits whose meaning behind a backslash is modelled. */
  predicate Understood(c: char) {
    ControlOf(c).Some? || IsClass(c)
  }

  /** Behind a backslash such a letter or digit is another character or a class of characters. */
  lemma EscapedAlnum(c: char)
    requires IsAlnum(c) && Understood(c)
    ensures !FindsJust(['\\', c], c)
  {
    hide FindsJust, GlobToRegex, ParseRegex;
    EscapedText(c);
    EndSeq();
    var x := ['\\', c];
    assert ['\\'] + [c] == x;
    assert (x + "$")[1..] == [c] + "$" && ([c] + "$")[1..] == "$";
    AnchoredParse(x);
    if ControlOf(c).Some? {
      var lit := ControlOf(c).value;
      ParseSeqStep(x + "$", Parsed(Lit(lit), "$"));
      ControlIsElse(c, Cat(LineEnd, Eps));
    } else {
      ParseSeqStep(x + "$", Parsed(Class(c), "$"));
      ClassFindsElse(c);
    }
  }

  lemma ControlIsElse(c: char, re: Re)
    requires IsAlnum(c) && ControlOf(c).Some?
    requires Searched(['\\', c]) == Some(Cat(LineStart, Cat(Lit(ControlOf(c).value), re)))
    ensures !FindsJust(['\\', c], c)
  {
    hide Finds, Searched;
    var lit := ControlOf(c).value;
    assert lit != c && NewlineFree([c]);
    NotFoundWithout(lit, re, [c]);
  }

  /** A character of the class that is not its letter. */
  function OtherOf(kind: char): char {
    if kind == 'd' || kind == 'w' then '0' else if kind == 's' then ' ' else if kind == 'W' then '-' else 'a'
  }

  lemma ClassFindsElse(c: char)
    requires IsClass(c) && Searched(['\\', c]) == Some(Cat(LineStart, Cat(Class(c), Cat(LineEnd, Eps))))
    ensures !FindsJust(['\\', c], c)
  {
    hide FindsJust, Searched;
    var w, re := [OtherOf(c)], Cat(LineEnd, Eps);
    CatJoin(LineEnd, Eps, w, 1, 1, 1);
    CatJoin(Class(c), re, w, 0, 1, 1);
    CatJoin(LineStart, Cat(Class(c), re), w, 0, 0, 1);
    FoundElse(['\\', c], c, Cat(LineStart, Cat(Class(c), re)), w, 1);
  }

  /** Behind a backslash the translator puts a backslash all the same: what is escaped then is the first
      backslash, and c means what it means in a regular expression. */
  lemma DoubleBackslash(c: char)
    requires TranslatorEscapes(c)
    ensures GlobToRegex(['\\', c]) == "\\\\" + [c] && NoRepeat("\\\\" + [c] + "$")
  {
    EscapedText(c);
    assert ['\\'] + ['\\', c] == "\\\\" + [c];
  }

  lemma MatchBackslashes()
    ensures var b := Lit('\\');
            Matches(Cat(LineStart, Cat(Cat(b, Star(b)), Cat(LineEnd, Eps))), "\\", 0, 1)
  {
    var b := Lit('\\');
    CatJoin(b, Star(b), "\\", 0, 1, 1);
    CatJoin(LineEnd, Eps, "\\", 1, 1, 1);
    CatJoin(Cat(b, Star(b)), Cat(LineEnd, Eps), "\\", 0, 1, 1);
    CatJoin(LineStart, Cat(Cat(b, Star(b)), Cat(LineEnd, Eps)), "\\", 0, 0, 1);
  }

  lemma EscapedPlus()
    ensures !FindsJust("\\+", '+')
  {
    hide Matches, FindsJust, GlobToRegex, ParseRegex;
    DoubleBackslash('+');
    EndSeq();
    var x := "\\\\+";
    var b := Lit('\\');
    var u := x + "$";
    assert u == "\\\\+$" && u[1..] == "\\+$" && u[1..][1..] == "+$" && "+$"[1..] == "$";
    assert ParseAtom(u) == Some(Parsed(b, "+$"));
    assert ParseSeq(u) == Some(Parsed(Cat(Cat(b, Star(b)), Cat(LineEnd, Eps)), ""));
    AnchoredParse(x);
    assert "\\\\" + ['+'] == x;
    MatchBackslashes();
    FoundElse("\\+", '+', Cat(LineStart, Cat(Cat(b, Star(b)), Cat(LineEnd, Eps))), "\\", 1);
  }

  /** A backslash, then what rest parses to. */
  lemma BackslashThen(c: char)
    requires TranslatorEscapes(c) && c != '+' && ParseSeq([c] + "$").Some?
    ensures var p := ParseSeq([c] + "$").value;
            && (p.rest == "" ==> Searched(['\\', c]) == Some(Cat(LineStart, Cat(Lit('\\'), p.re))))
            && (p.rest != "" && p.rest[0] == ')' ==> Searched(['\\', c]) == None)
  {
    DoubleBackslash(c);
    var x := "\\\\" + [c];
    ParseEscaped('\\', [c] + "$");
    assert ['\\', '\\'] + ([c] + "$") == x + "$";
    AnchoredParse(x);
  }

  lemma MatchBackslashA()
    ensures Matches(Cat(LineStart, Cat(Lit('\\'), Cat(Any, Cat(LineEnd, Eps)))), "\\a", 0, 2)
  {
    var re := Cat(Any, Cat(LineEnd, Eps));
    CatJoin(LineEnd, Eps, "\\a", 2, 2, 2);
    CatJoin(Any, Cat(LineEnd, Eps), "\\a", 1, 2, 2);
    CatJoin(Lit('\\'), re, "\\a", 0, 1, 2);
    CatJoin(LineStart, Cat(Lit('\\'), re), "\\a", 0, 0, 2);
  }

  lemma EscapedDot()
    ensures !FindsJust("\\.", '.')
  {
    hide Matches, FindsJust, GlobToRegex, ParseSeq, Searched;
    EndSeq();
    ParseDot("$");
    BackslashThen('.');
    var re := Cat(Any, Cat(LineEnd, Eps));
    MatchBackslashA();
    FoundElse("\\.", '.', Cat(LineStart, Cat(Lit('\\'), re)), "\\a", 2);
  }

  lemma MatchBackslash()
    ensures Matches(Cat(LineStart, Cat(Lit('\\'), Cat(LineEnd, Cat(LineEnd, Eps)))), "\\", 0, 1)
  {
    var re := Cat(LineEnd, Cat(LineEnd, Eps));
    CatJoin(LineEnd, Eps, "\\", 1, 1, 1);
    CatJoin(LineEnd, Cat(LineEnd, Eps), "\\", 1, 1, 1);
    CatJoin(Lit('\\'), re, "\\", 0, 1, 1);
    CatJoin(LineStart, Cat(Lit('\\'), re), "\\", 0, 0, 1);
  }

  lemma EscapedDollar()
    ensures !FindsJust("\\$", '$')
  {
    hide Matches, FindsJust, GlobToRegex, ParseSeq, Searched;
    EndSeq();
    assert "$$"[1..] == "$";
    ParseSeqStep("$$", Parsed(LineEnd, "$"));
    assert ['$'] + "$" == "$$";
    BackslashThen('$');
    var re := Cat(LineEnd, Cat(LineEnd, Eps));
    MatchBackslash();
    FoundElse("\\$", '$', Cat(LineStart, Cat(Lit('\\'), re)), "\\", 1);
  }

  lemma EscapedCaret()
    ensures !FindsJust("\\^", '^')
  {
    EndSeq();
    assert "^$"[1..] == "$";
    ParseSeqStep("^$", Parsed(LineStart, "$"));
    BackslashThen('^');
    var re := Cat(LineStart, Cat(LineEnd, Eps));
    assert !Finds(Cat(LineStart, Cat(Lit('\\'), re)), "^") by { NotFoundWithout('\\', re, "^"); }
    assert NewlineFree("^") && "^" == ['^'];
  }

  lemma NotFoundWithout(lit: char, re: Re, w: string)
    requires lit !in w
    ensures !Finds(Cat(LineStart, Cat(Lit(lit), re)), w)
  {
    forall i: nat, j: nat | i <= j <= |w|
      ensures !Matches(Cat(LineStart, Cat(Lit(lit), re)), w, i, j)
    {
      if Matches(Cat(LineStart, Cat(Lit(lit), re)), w, i, j) {
        var m := CatSplit(LineStart, Cat(Lit(lit), re), w, i, j);
        CatLitMatches(lit, re, w, m, j);
      }
    }
  }

  lemma EscapedParentheses()
    ensures !FindsJust("\\(", '(') && !FindsJust("\\)", ')')
  {
    assert ParseSeq(")$") == Some(Parsed(Eps, ")$"));
    BackslashThen(')');
    EndSeq();
    DoubleBackslash('(');
    var u := "\\\\($";
    assert u[1..] == "\\($" && u[1..][1..] == "($" && "($"[1..] == "$" && ParseAlt("$") == ParseSeq("$");
    assert ParseAtom(u) == Some(Parsed(Lit('\\'), "($"));
    assert ParseSeq("($") == None;
    assert ParseSeq(u) == None;
    assert "\\\\" + ['('] == "\\\\(" && "\\\\(" + "$" == u;
    AnchoredParse("\\\\(");
  }

  lemma ProperIs(c: char, escaped: bool)
    ensures ProperSign(Char(c, escaped), false) <==>
            if escaped then !IsAlnum(c) && c !in "+.$()^" else c !in "\\[|*?{}"
  {
  }

  /** A character works as a literal if and only if it is written as the proper patterns write it: bare,
      unless it is a backslash, a bracket, a bar or a sign of the pattern language; behind a backslash,
      unless it has a meaning there, as some letters and digits do, or the translator escapes it by itself.
      Of the letters and digits behind a backslash only those are decided whose meaning is modelled; where
      there is no expression here, the text has an unclosed bracket or parenthesis, or one too many. */
  lemma LiteralWorksIffProper(c: char, escaped: bool)
    requires escaped && IsAlnum(c) ==> Understood(c)
    ensures FindsJust(SignText(Char(c, escaped)), c) <==> ProperSign(Char(c, escaped), false)
    ensures ProperSign(Char(c, escaped), false) <==>
            if escaped then !IsAlnum(c) && c !in "+.$()^" else c !in "\\[|*?{}"
  {
    hide FindsJust;
    ProperIs(c, escaped);
    if ProperSign(Char(c, escaped), false) {
      ProperWorks(c, escaped);
    } else if !escaped {
      BareBackslash();
      BareBracket();
      BareBar();
      BareBraces();
      BareWildcards();
    } else if IsAlnum(c) {
      EscapedAlnum(c);
    } else {
      EscapedPlus();
      EscapedDot();
      EscapedDollar();
      EscapedCaret();
      EscapedParentheses();
    }
  }
}
