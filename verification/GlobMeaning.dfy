/** The regular expression that a shell pattern is translated to matches what the pattern matches. */
module GlobMeaning {
  import opened Glob
  import opened Regex
  import opened Sequences
  import opened Wrappers

  // ----- the text that is emitted, sign by sign -----

  function SignRegex(s: Sign, inside: bool): (r: string)
    ensures r != ""
  {
    match s
    case Char(c, escaped) => if escaped || TranslatorEscapes(c) then ['\\', c] else [c]
    case AnyText => if inside then ".*" else "(.*)"
    case AnyChar => if inside then "." else "(.)"
  }

  function SignsRegex(ss: seq<Sign>, inside: bool): string {
    if ss == [] then "" else SignRegex(ss[0], inside) + SignsRegex(ss[1..], inside)
  }

  function AltsRegex(alts: seq<seq<Sign>>): string {
    if alts == [] then ""
    else SignsRegex(alts[0], true) + if |alts| == 1 then "" else "|" + AltsRegex(alts[1..])
  }

  function ItemRegex(i: Item): string {
    match i
    case Single(s) => SignRegex(s, false)
    case Choice(alts) => "(" + AltsRegex(alts) + ")"
  }

  function ItemsRegex(g: seq<Item>): string {
    if g == [] then "" else ItemRegex(g[0]) + ItemsRegex(g[1..])
  }

  lemma TranslateCons(c: char, t: string, escaped: bool, inside: bool)
    ensures var out := Emit(c, escaped, inside);
            Translated([c] + t, escaped, inside) == out.0 + Translated(t, c == '\\' && !escaped, out.1)
  {
    assert ([c] + t)[1..] == t;
  }

  lemma TranslateEscapedChar(c: char, t: string, inside: bool)
    requires ProperSign(Char(c, true), inside)
    ensures Translated(['\\', c] + t, false, inside) == ['\\', c] + Translated(t, false, inside)
  {
    TranslateCons('\\', [c] + t, false, inside);
    TranslateCons(c, t, true, inside);
    Assoc("\\", [c], t);
    Assoc("\\", [c], Translated(t, false, inside));
    assert "\\" + [c] == ['\\', c];
  }

  /** Between signs a backslash run is even, so nothing there counts as escaped. */
  lemma TranslateSign(sign: Sign, t: string, inside: bool)
    requires ProperSign(sign, inside)
    ensures Translated(SignText(sign) + t, false, inside) == SignRegex(sign, inside) + Translated(t, false, inside)
  {
    match sign
    case Char(c, escaped) =>
      if escaped { TranslateEscapedChar(c, t, inside); } else { TranslateCons(c, t, false, inside); }
    case AnyText => TranslateCons('*', t, false, inside);
    case AnyChar => TranslateCons('?', t, false, inside);
  }

  lemma {:induction false} TranslateSigns(ss: seq<Sign>, t: string, inside: bool)
    requires ProperSigns(ss, inside)
    ensures Translated(SignsText(ss) + t, false, inside) == SignsRegex(ss, inside) + Translated(t, false, inside)
  {
    if ss == [] {
      assert "" + t == t;
    } else {
      var more := SignsText(ss[1..]);
      Assoc(SignText(ss[0]), more, t);
      TranslateSign(ss[0], more + t, inside);
      TranslateSigns(ss[1..], t, inside);
      Assoc(SignRegex(ss[0], inside), SignsRegex(ss[1..], inside), Translated(t, false, inside));
    }
  }

  lemma {:induction false} TranslateAlts(alts: seq<seq<Sign>>, t: string)
    requires alts != [] && forall k :: 0 <= k < |alts| ==> ProperSigns(alts[k], true)
    ensures Translated(AltsText(alts) + t, false, true) == AltsRegex(alts) + Translated(t, false, true)
  {
    var x, a := SignsText(alts[0]), SignsRegex(alts[0], true);
    if |alts| == 1 {
      assert AltsText(alts) == x && AltsRegex(alts) == a;
      TranslateSigns(alts[0], t, true);
    } else {
      var y, b, c := AltsText(alts[1..]), AltsRegex(alts[1..]), Translated(t, false, true);
      Assoc(x, "," + y, t);
      Assoc(",", y, t);
      TranslateSigns(alts[0], "," + (y + t), true);
      TranslateCons(',', y + t, false, true);
      TranslateAlts(alts[1..], t);
      Assoc("|", b, c);
      Assoc(a, "|" + b, c);
    }
  }

  lemma TranslateChoice(alts: seq<seq<Sign>>, t: string)
    requires alts != [] && forall k :: 0 <= k < |alts| ==> ProperSigns(alts[k], true)
    ensures Translated("{" + AltsText(alts) + "}" + t, false, false)
              == "(" + AltsRegex(alts) + ")" + Translated(t, false, false)
  {
    var y, b, c := AltsText(alts), AltsRegex(alts), Translated(t, false, false);
    Assoc("{" + y, "}", t);
    Assoc("{", y, "}" + t);
    TranslateCons('{', y + ("}" + t), false, false);
    TranslateAlts(alts, "}" + t);
    TranslateCons('}', t, false, true);
    Assoc("(" + b, ")", c);
    Assoc("(", b, ")" + c);
  }

  lemma {:induction false} TranslateItems(g: seq<Item>)
    requires Proper(g)
    ensures GlobToRegex(Text(g)) == ItemsRegex(g)
  {
    if g == [] {
    } else {
      TranslateItems(g[1..]);
      match g[0]
      case Single(s) => TranslateSign(s, Text(g[1..]), false);
      case Choice(alts) => TranslateChoice(alts, Text(g[1..]));
    }
  }

  // ----- parsing what was emitted -----

  function SignRe(s: Sign, inside: bool): Re {
    match s
    case Char(c, _) => Lit(c)
    case AnyText => if inside then Star(Any) else Group(Cat(Star(Any), Eps))
    case AnyChar => if inside then Any else Group(Cat(Any, Eps))
  }

  function SignsRe(ss: seq<Sign>, inside: bool, tail: Re): Re {
    if ss == [] then tail else Cat(SignRe(ss[0], inside), SignsRe(ss[1..], inside, tail))
  }

  function AltsRe(alts: seq<seq<Sign>>): Re
    requires alts != []
  {
    var first := SignsRe(alts[0], true, Eps);
    if |alts| == 1 then first else Or(first, AltsRe(alts[1..]))
  }

  ghost function ItemRe(i: Item): Re
    requires ProperItem(i)
  {
    match i
    case Single(s) => SignRe(s, false)
    case Choice(alts) => Group(AltsRe(alts))
  }

  ghost function ItemsRe(g: seq<Item>, tail: Re): Re
    requires Proper(g)
  {
    if g == [] then tail else Cat(ItemRe(g[0]), ItemsRe(g[1..], tail))
  }

  /** ParseSeq reads x as the expression re and then goes on with t. */
  ghost predicate ReadsAs(x: string, re: Re, t: string)
    requires ParseSeq(t).Some?
  {
    ParseSeq(x + t) == Some(Parsed(Cat(re, ParseSeq(t).value.re), ParseSeq(t).value.rest))
  }

  /** "(" body ")" where body is read as one atom. */
  lemma ParseWild(body: string, atom: Re, t: string)
    requires NoRepeat(t) && ParseSeq(t).Some? && ParseSeq(body + (")" + t)) == Some(Parsed(Cat(atom, Eps), ")" + t))
    ensures ReadsAs("(" + body + ")", Group(Cat(atom, Eps)), t)
  {
    Assoc(body, ")", t);
    ParseGroup(body, Cat(atom, Eps), t);
    Assoc("(" + body, ")", t);
    Assoc("(", body, ")" + t);
  }

  lemma ParseWildText(t: string)
    requires NoRepeat(t) && ParseSeq(t).Some?
    ensures ReadsAs("(.*)", Group(Cat(Star(Any), Eps)), t)
  {
    var u := ")" + t;
    assert ParseSeq(u) == Some(Parsed(Eps, u));
    ParseDotStar(u);
    ParseWild(".*", Star(Any), t);
    assert "(" + ".*" + ")" == "(.*)";
  }

  lemma ParseWildChar(t: string)
    requires NoRepeat(t) && ParseSeq(t).Some?
    ensures ReadsAs("(.)", Group(Cat(Any, Eps)), t)
  {
    var u := ")" + t;
    assert ParseSeq(u) == Some(Parsed(Eps, u));
    ParseDot(u);
    ParseWild(".", Any, t);
    assert "(" + "." + ")" == "(.)";
  }

  lemma ParseSign(s: Sign, inside: bool, t: string)
    requires ProperSign(s, inside) && NoRepeat(t) && ParseSeq(t).Some?
    ensures ReadsAs(SignRegex(s, inside), SignRe(s, inside), t)
    ensures NoRepeat(SignRegex(s, inside) + t)
  {
    match s
    case Char(c, escaped) =>
      if escaped || TranslatorEscapes(c) { ParseEscaped(c, t); } else { ParsePlain(c, t); }
    case AnyText => if inside { ParseDotStar(t); } else { ParseWildText(t); }
    case AnyChar => if inside { ParseDot(t); } else { ParseWildChar(t); }
  }

  lemma {:induction false} ParseSigns(ss: seq<Sign>, inside: bool, t: string)
    requires ProperSigns(ss, inside) && NoRepeat(t) && ParseSeq(t).Some?
    ensures NoRepeat(SignsRegex(ss, inside) + t)
    ensures ParseSeq(SignsRegex(ss, inside) + t)
         == Some(Parsed(SignsRe(ss, inside, ParseSeq(t).value.re), ParseSeq(t).value.rest))
  {
    if ss == [] {
      assert "" + t == t;
    } else {
      var more := SignsRegex(ss[1..], inside);
      ParseSigns(ss[1..], inside, t);
      ParseSign(ss[0], inside, more + t);
      Assoc(SignRegex(ss[0], inside), more, t);
    }
  }

  lemma {:induction false} ParseAlts(alts: seq<seq<Sign>>, t: string)
    requires alts != [] && forall k :: 0 <= k < |alts| ==> ProperSigns(alts[k], true)
    ensures ParseAlt(AltsRegex(alts) + (")" + t)) == Some(Parsed(AltsRe(alts), ")" + t))
  {
    var x := SignsRegex(alts[0], true);
    if |alts| == 1 {
      var u := ")" + t;
      assert AltsRegex(alts) == x;
      assert ParseSeq(u) == Some(Parsed(Eps, u));
      ParseSigns(alts[0], true, u);
    } else {
      var y := AltsRegex(alts[1..]);
      var u := "|" + (y + (")" + t));
      assert ParseSeq(u) == Some(Parsed(Eps, u));
      ParseSigns(alts[0], true, u);
      ParseAlts(alts[1..], t);
      assert u[1..] == y + (")" + t);
      Assoc(x, "|" + y, ")" + t);
      Assoc("|", y, ")" + t);
    }
  }

  lemma ParseItem(i: Item, t: string)
    requires ProperItem(i) && NoRepeat(t) && ParseSeq(t).Some?
    ensures ReadsAs(ItemRegex(i), ItemRe(i), t)
    ensures NoRepeat(ItemRegex(i) + t)
  {
    match i
    case Single(s) => ParseSign(s, false, t);
    case Choice(alts) =>
      var y := AltsRegex(alts);
      ParseAlts(alts, t);
      Assoc(y, ")", t);
      ParseGroup(y, AltsRe(alts), t);
      Assoc("(" + y, ")", t);
      Assoc("(", y, ")" + t);
  }

  lemma {:induction false} ParseItems(g: seq<Item>, t: string)
    requires Proper(g) && NoRepeat(t) && ParseSeq(t).Some?
    ensures NoRepeat(ItemsRegex(g) + t)
    ensures ParseSeq(ItemsRegex(g) + t) == Some(Parsed(ItemsRe(g, ParseSeq(t).value.re), ParseSeq(t).value.rest))
  {
    if g == [] {
      assert "" + t == t;
    } else {
      var more := ItemsRegex(g[1..]);
      ParseItems(g[1..], t);
      ParseItem(g[0], more + t);
      Assoc(ItemRegex(g[0]), more, t);
    }
  }

  /** The anchors that an entire-line search puts around the translated text. */
  function Anchored(t: string, entireLine: bool): string {
    if entireLine then "^" + t + "$" else t
  }

  ghost function GlobRe(g: seq<Item>, entireLine: bool): Re
    requires Proper(g)
  {
    if entireLine then Cat(LineStart, ItemsRe(g, Cat(LineEnd, Eps))) else ItemsRe(g, Eps)
  }

  lemma ParseAnchored(x: string, re: Re)
    requires ParseSeq(x + "$") == Some(Parsed(re, "")) && NoRepeat(x + "$")
    ensures ParseRegex("^" + x + "$") == Some(Cat(LineStart, re))
  {
    var u := "^" + (x + "$");
    assert u[1..] == x + "$";
    ParseSeqStep(u, Parsed(LineStart, x + "$"));
    Assoc("^", x, "$");
  }

  lemma ParseGlob(g: seq<Item>, entireLine: bool)
    requires Proper(g)
    ensures ParseRegex(Anchored(GlobToRegex(Text(g)), entireLine)) == Some(GlobRe(g, entireLine))
  {
    TranslateItems(g);
    var x := ItemsRegex(g);
    if entireLine {
      assert ParseSeq("$") == Some(Parsed(Cat(LineEnd, Eps), "")) by {
        assert "$"[1..] == "" && ParseSeq("") == Some(Parsed(Eps, ""));
      }
      ParseItems(g, "$");
      ParseAnchored(x, ItemsRe(g, Cat(LineEnd, Eps)));
    } else {
      ParseItems(g, "");
      assert x + "" == x;
    }
  }

  // ----- the same strings -----

  lemma SingleSign(s: Sign, u: string)
    ensures SignsMatch([s], u) <==> match s
                                    case Char(c, _) => u == [c]
                                    case AnyChar => |u| == 1
                                    case AnyText => true
  {
    assert [s][1..] == [];
    if u != "" { assert u == [u[0]] + u[1..]; }
    assert u[|u|..] == "";
  }

  lemma SignsCons(s: Sign, ss: seq<Sign>, w: string)
    ensures SignsMatch([s] + ss, w)
       <==> exists k: nat :: k <= |w| && SignsMatch([s], w[..k]) && SignsMatch(ss, w[k..])
  {
    assert ([s] + ss)[1..] == ss;
    forall k: nat | k <= |w|
      ensures SignsMatch([s], w[..k]) <==> match s
                                           case Char(c, _) => k == 1 && w[0] == c
                                           case AnyChar => k == 1
                                           case AnyText => true
    {
      SingleSign(s, w[..k]);
    }
    if w != "" { assert w[..1] == [w[0]]; }
  }

  lemma SignMeaning(s: Sign, inside: bool, w: string, i: nat, j: nat)
    requires i <= j <= |w|
    ensures Matches(SignRe(s, inside), w, i, j) <==> SignsMatch([s], w[i..j])
  {
    SingleSign(s, w[i..j]);
    match s
    case Char(c, _) =>
      assert i < j ==> w[i..j][0] == w[i];
    case AnyChar =>
      if !inside { GroupMeaning(Any, w, i, j); }
    case AnyText =>
      StarAny(w, i, j);
      if !inside { GroupMeaning(Star(Any), w, i, j); }
  }

  lemma GroupMeaning(r: Re, w: string, i: nat, j: nat)
    requires i <= j <= |w|
    ensures Matches(Group(Cat(r, Eps)), w, i, j) <==> Matches(r, w, i, j)
  {
    if Matches(Cat(r, Eps), w, i, j) {
      var m := CatSplit(r, Eps, w, i, j);
    }
    if Matches(r, w, i, j) {
      assert Matches(Eps, w, j, j);
    }
  }

  lemma Slice(w: string, i: nat, k: nat, m: nat)
    requires i <= k <= m <= |w|
    ensures w[i..m][..k - i] == w[i..k] && w[i..m][k - i..] == w[k..m]
  {
  }

  /** ss matches w from i to some point, and tail goes on from there to j. */
  ghost predicate SignsThen(ss: seq<Sign>, tail: Re, w: string, i: nat, j: nat)
    requires i <= j <= |w|
  {
    exists m: nat :: i <= m <= j && SignsMatch(ss, w[i..m]) && Matches(tail, w, m, j)
  }

  lemma {:induction false} SignsMeaning(ss: seq<Sign>, inside: bool, tail: Re, w: string, i: nat, j: nat)
    requires i <= j <= |w|
    ensures Matches(SignsRe(ss, inside, tail), w, i, j) <==> SignsThen(ss, tail, w, i, j)
    decreases ss
  {
    if ss == [] {
      assert w[i..i] == "";
    } else {
      if Matches(SignsRe(ss, inside, tail), w, i, j) {
        SignsForward(ss, inside, tail, w, i, j);
      }
      if SignsThen(ss, tail, w, i, j) {
        SignsBackward(ss, inside, tail, w, i, j);
      }
    }
  }

  lemma {:induction false} SignsForward(ss: seq<Sign>, inside: bool, tail: Re, w: string, i: nat, j: nat)
    requires i <= j <= |w| && ss != [] && Matches(SignsRe(ss, inside, tail), w, i, j)
    ensures SignsThen(ss, tail, w, i, j)
    decreases ss, 0
  {
    var s, rest := ss[0], ss[1..];
    var m1 := CatSplit(SignRe(s, inside), SignsRe(rest, inside, tail), w, i, j);
    SignMeaning(s, inside, w, i, m1);
    SignsMeaning(rest, inside, tail, w, m1, j);
    var m: nat :| m1 <= m <= j && SignsMatch(rest, w[m1..m]) && Matches(tail, w, m, j);
    var u := w[i..m];
    Slice(w, i, m1, m);
    SignsCons(s, rest, u);
    assert [s] + rest == ss;
  }

  lemma SignsThenSplit(ss: seq<Sign>, tail: Re, w: string, i: nat, j: nat) returns (p: nat, m: nat)
    requires i <= j <= |w| && ss != [] && SignsThen(ss, tail, w, i, j)
    ensures i <= p <= m <= j && SignsMatch([ss[0]], w[i..p]) && SignsMatch(ss[1..], w[p..m]) && Matches(tail, w, m, j)
  {
    hide SignsMatch, Matches;
    m :| i <= m <= j && SignsMatch(ss, w[i..m]) && Matches(tail, w, m, j);
    var u := w[i..m];
    assert [ss[0]] + ss[1..] == ss;
    SignsCons(ss[0], ss[1..], u);
    var k: nat :| k <= |u| && SignsMatch([ss[0]], u[..k]) && SignsMatch(ss[1..], u[k..]);
    p := i + k;
    Slice(w, i, p, m);
  }

  lemma {:induction false} SignsBackward(ss: seq<Sign>, inside: bool, tail: Re, w: string, i: nat, j: nat)
    requires i <= j <= |w| && ss != [] && SignsThen(ss, tail, w, i, j)
    ensures Matches(SignsRe(ss, inside, tail), w, i, j)
    decreases ss, 0
  {
    var p, m := SignsThenSplit(ss, tail, w, i, j);
    SignMeaning(ss[0], inside, w, i, p);
    SignsMeaning(ss[1..], inside, tail, w, p, j);
    CatJoin(SignRe(ss[0], inside), SignsRe(ss[1..], inside, tail), w, i, p, j);
  }

  lemma {:induction false} AltsMeaning(alts: seq<seq<Sign>>, w: string, i: nat, j: nat)
    requires alts != [] && i <= j <= |w|
    ensures Matches(AltsRe(alts), w, i, j) <==> AnyAltMatches(alts, w[i..j])
  {
    SignsMeaning(alts[0], true, Eps, w, i, j);
    assert SignsThen(alts[0], Eps, w, i, j) <==> SignsMatch(alts[0], w[i..j]) by {
      assert Matches(Eps, w, j, j);
    }
    if |alts| > 1 {
      AltsMeaning(alts[1..], w, i, j);
    } else {
      assert !AnyAltMatches(alts[1..], w[i..j]);
    }
  }

  lemma ItemMeaning(it: Item, w: string, i: nat, j: nat)
    requires ProperItem(it) && i <= j <= |w|
    ensures Matches(ItemRe(it), w, i, j) <==> ItemMatches(it, w[i..j])
  {
    match it
    case Single(s) => SignMeaning(s, false, w, i, j);
    case Choice(alts) => AltsMeaning(alts, w, i, j);
  }

  /** g matches w from i to some point, and tail goes on from there to j. */
  ghost predicate ItemsThen(g: seq<Item>, tail: Re, w: string, i: nat, j: nat)
    requires i <= j <= |w|
  {
    exists m: nat :: i <= m <= j && GlobMatches(g, w[i..m]) && Matches(tail, w, m, j)
  }

  lemma {:induction false} ItemsMeaning(g: seq<Item>, tail: Re, w: string, i: nat, j: nat)
    requires Proper(g) && i <= j <= |w|
    ensures Matches(ItemsRe(g, tail), w, i, j) <==> ItemsThen(g, tail, w, i, j)
    decreases g
  {
    if g == [] {
      assert w[i..i] == "";
    } else {
      if Matches(ItemsRe(g, tail), w, i, j) {
        ItemsForward(g, tail, w, i, j);
      }
      if ItemsThen(g, tail, w, i, j) {
        ItemsBackward(g, tail, w, i, j);
      }
    }
  }

  lemma GlobSplit(g: seq<Item>, u: string) returns (k: nat)
    requires g != [] && GlobMatches(g, u)
    ensures k <= |u| && ItemMatches(g[0], u[..k]) && GlobMatches(g[1..], u[k..])
  {
    k :| k <= |u| && ItemMatches(g[0], u[..k]) && GlobMatches(g[1..], u[k..]);
  }

  lemma {:induction false} ItemsForward(g: seq<Item>, tail: Re, w: string, i: nat, j: nat)
    requires Proper(g) && i <= j <= |w| && g != [] && Matches(ItemsRe(g, tail), w, i, j)
    ensures ItemsThen(g, tail, w, i, j)
    decreases g, 0
  {
    var m1 := CatSplit(ItemRe(g[0]), ItemsRe(g[1..], tail), w, i, j);
    ItemMeaning(g[0], w, i, m1);
    ItemsMeaning(g[1..], tail, w, m1, j);
    var m: nat :| m1 <= m <= j && GlobMatches(g[1..], w[m1..m]) && Matches(tail, w, m, j);
    var u := w[i..m];
    Slice(w, i, m1, m);
    assert GlobMatches(g, u);
  }

  lemma ItemsThenSplit(g: seq<Item>, tail: Re, w: string, i: nat, j: nat) returns (p: nat, m: nat)
    requires i <= j <= |w| && g != [] && ItemsThen(g, tail, w, i, j)
    ensures i <= p <= m <= j && ItemMatches(g[0], w[i..p]) && GlobMatches(g[1..], w[p..m]) && Matches(tail, w, m, j)
  {
    m := ItemsThenEnd(g, tail, w, i, j);
    var u := w[i..m];
    var k := GlobSplit(g, u);
    p := i + k;
    Slice(w, i, p, m);
  }

  lemma ItemsThenEnd(g: seq<Item>, tail: Re, w: string, i: nat, j: nat) returns (m: nat)
    requires i <= j <= |w| && ItemsThen(g, tail, w, i, j)
    ensures i <= m <= j && GlobMatches(g, w[i..m]) && Matches(tail, w, m, j)
  {
    m :| i <= m <= j && GlobMatches(g, w[i..m]) && Matches(tail, w, m, j);
  }

  lemma {:induction false} ItemsBackward(g: seq<Item>, tail: Re, w: string, i: nat, j: nat)
    requires Proper(g) && i <= j <= |w| && g != [] && ItemsThen(g, tail, w, i, j)
    ensures Matches(ItemsRe(g, tail), w, i, j)
    decreases g, 0
  {
    var p, m := ItemsThenSplit(g, tail, w, i, j);
    ItemMeaning(g[0], w, i, p);
    ItemsMeaning(g[1..], tail, w, p, j);
    CatJoin(ItemRe(g[0]), ItemsRe(g[1..], tail), w, i, p, j);
  }

  // ----- the theorems -----

  /** An entire-line search finds w exactly when the pattern matches w up to the newline that may end it. */
  lemma EntireLineSearch(g: seq<Item>, w: string)
    requires Proper(g)
    ensures ParseRegex(Anchored(GlobToRegex(Text(g)), true)) == Some(GlobRe(g, true))
    ensures Finds(GlobRe(g, true), w) <==> exists m: nat :: m <= |w| && EndsLine(w, m) && GlobMatches(g, w[..m])
  {
    ParseGlob(g, true);
    var end := Cat(LineEnd, Eps);
    if Finds(GlobRe(g, true), w) {
      var i: nat, j: nat :| i <= j <= |w| && Matches(GlobRe(g, true), w, i, j);
      var i' := CatSplit(LineStart, ItemsRe(g, end), w, i, j);
      ItemsMeaning(g, end, w, 0, j);
      var m: nat :| m <= j && GlobMatches(g, w[0..m]) && Matches(end, w, m, j);
      var m' := CatSplit(LineEnd, Eps, w, m, j);
      assert w[0..m] == w[..m];
    }
    if m: nat :| m <= |w| && EndsLine(w, m) && GlobMatches(g, w[..m]) {
      assert w[0..m] == w[..m];
      CatJoin(LineEnd, Eps, w, m, m, m);
      ItemsMeaning(g, end, w, 0, m);
      CatJoin(LineStart, ItemsRe(g, end), w, 0, 0, m);
    }
  }

  ghost predicate NewlineFree(w: string) {
    forall i :: 0 <= i < |w| ==> !IsNewline([w[i]])
  }

  lemma NewlineHead(w: string, m: nat)
    requires m < |w|
    ensures IsNewline(w[m..]) ==> IsNewline([w[m]])
  {
    assert w[m..][0] == w[m];
  }

  /** On text without newlines the search is the pattern. */
  lemma EntireLineSearchOfLine(g: seq<Item>, w: string)
    requires Proper(g) && NewlineFree(w)
    ensures Finds(GlobRe(g, true), w) <==> GlobMatches(g, w)
  {
    EntireLineSearch(g, w);
    forall m: nat | m <= |w|
      ensures EndsLine(w, m) <==> m == |w|
    {
      if m < |w| { NewlineHead(w, m); }
    }
    assert w[..|w|] == w;
  }

  /** Without anchors the search looks for the pattern anywhere in w. */
  lemma SubstringSearch(g: seq<Item>, w: string)
    requires Proper(g)
    ensures ParseRegex(Anchored(GlobToRegex(Text(g)), false)) == Some(GlobRe(g, false))
    ensures Finds(GlobRe(g, false), w) <==> exists i: nat, j: nat :: i <= j <= |w| && GlobMatches(g, w[i..j])
  {
    ParseGlob(g, false);
    if Finds(GlobRe(g, false), w) {
      var i: nat, j: nat :| i <= j <= |w| && Matches(GlobRe(g, false), w, i, j);
      ItemsMeaning(g, Eps, w, i, j);
      assert GlobMatches(g, w[i..j]);
    }
    if i: nat, j: nat :| i <= j <= |w| && GlobMatches(g, w[i..j]) {
      ItemsMeaning(g, Eps, w, i, j);
      assert Matches(Eps, w, j, j);
      assert ItemsThen(g, Eps, w, i, j);
    }
  }

  // ----- what goes through raw is not a literal any more -----

  lemma TranslateBar()
    ensures GlobToRegex("a|b") == "a|b"
  {
    TranslateCons('b', "", false, false);
    TranslateCons('|', "b", false, false);
    TranslateCons('a', "|b", false, false);
  }

  lemma ParseBar()
    ensures ParseRegex("^a|b$") == Some(Or(Cat(LineStart, Cat(Lit('a'), Eps)), Cat(Lit('b'), Cat(LineEnd, Eps))))
  {
    assert ParseSeq("$") == Some(Parsed(Cat(LineEnd, Eps), "")) by {
      assert "$"[1..] == "" && ParseSeq("") == Some(Parsed(Eps, ""));
    }
    ParsePlain('b', "$");
    assert ParseSeq("|b$") == Some(Parsed(Eps, "|b$"));
    ParsePlain('a', "|b$");
    assert "^a|b$"[1..] == ['a'] + "|b$" && "|b$"[1..] == ['b'] + "$";
    ParseSeqStep("^a|b$", Parsed(LineStart, "a|b$"));
  }

  /** "|" becomes an alternative that tears the anchors apart: "a|b" finds "ax". */
  lemma BarIsNotLiteral()
    ensures var re := ParseRegex(Anchored(GlobToRegex("a|b"), true));
            re.Some? && Finds(re.value, "ax")
  {
    TranslateBar();
    ParseBar();
    assert "^" + "a|b" + "$" == "^a|b$";
    var left, right := Cat(LineStart, Cat(Lit('a'), Eps)), Cat(Lit('b'), Cat(LineEnd, Eps));
    CatJoin(Lit('a'), Eps, "ax", 0, 1, 1);
    CatJoin(LineStart, Cat(Lit('a'), Eps), "ax", 0, 0, 1);
    assert Matches(Or(left, right), "ax", 0, 1);
  }
}
