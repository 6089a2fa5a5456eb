/** Which texts stand for themselves when they are taken as regular expressions. */
module RegexLiterals {
  import opened Regex
  import opened Sequences
  import opened Wrappers

  ghost predicate Occurs(s: string, w: string) {
    exists i: nat, j: nat :: i <= j <= |w| && w[i..j] == s
  }

  lemma SpellFinds(s: string, w: string)
    ensures Finds(Spell(s, Eps), w) <==> Occurs(s, w)
  {
    if Finds(Spell(s, Eps), w) {
      var i: nat, j: nat :| i <= j <= |w| && Matches(Spell(s, Eps), w, i, j);
      SpellMatches(s, w, i, j);
    }
    if i: nat, j: nat :| i <= j <= |w| && w[i..j] == s {
      SpellMatches(s, w, i, j);
    }
  }

  /** No character of the text is one that means something in a regular expression. */
  predicate IsLiteral(text: string) {
    forall i :: 0 <= i < |text| ==> !IsMeta(text[i])
  }

  lemma {:induction false} ParseText(text: string, t: string, tail: Re)
    requires ParseSeq(t) == Some(Parsed(tail, "")) && NoRepeat(t)
    requires IsLiteral(text)
    ensures ParseSeq(text + t) == Some(Parsed(Spell(text, tail), "")) && NoRepeat(text + t)
  {
    hide ParseSeq, IsMeta;
    if text == "" {
      assert text + t == t;
    } else {
      MetaRepeats(text[0]);
      ParseText(text[1..], t, tail);
      ParsePlain(text[0], text[1..] + t);
      assert text + t == [text[0]] + (text[1..] + t);
    }
  }

  lemma MetaRepeats(c: char)
    ensures !IsMeta(c) ==> c != '*' && c != '+'
  {
  }

  // ----- how much an expression has to match -----

  /** No less than the length of a shortest match, if there is a match at all. */
  function Size(r: Re): nat {
    match r
    case Lit(_) => 1
    case Any => 1
    case Class(_) => 1
    case Cat(a, b) => Size(a) + Size(b)
    case Or(a, b) => if Size(a) <= Size(b) then Size(b) else Size(a)
    case Group(a) => Size(a)
    case _ => 0
  }

  /** Literals, and dots that match any character. */
  function Dots(s: string): Re {
    if s == "" then Eps else Cat(if s[0] == '.' then Any else Lit(s[0]), Dots(s[1..]))
  }

  predicate LiteralOrDot(s: string) {
    forall i :: 0 <= i < |s| ==> s[i] == '.' || !IsMeta(s[i])
  }

  /** The expression is no longer than its text, and shorter unless it is all literals and dots. */
  predicate Fair(t: string, p: Parsed) {
    |p.rest| <= |t| &&
    var n := |t| - |p.rest|;
    Size(p.re) <= n && (Size(p.re) == n ==> p.re == Dots(t[..n]) && LiteralOrDot(t[..n]))
  }

  lemma {:induction false} AltIsFair(t: string)
    requires ParseAlt(t).Some?
    ensures Fair(t, ParseAlt(t).value)
    decreases |t|, 2
  {
    SeqIsFair(t);
    var p := ParseSeq(t).value;
    if p.rest == "" || p.rest[0] != '|' {
    } else {
      AltIsFair(p.rest[1..]);
    }
  }

  lemma {:induction false} SeqIsFair(t: string)
    requires ParseSeq(t).Some?
    ensures Fair(t, ParseSeq(t).value)
    decreases |t|, 1
  {
    hide ParseAlt, ParseAtom, IsMeta;
    if t == "" || t[0] == '|' || t[0] == ')' {
    } else {
      var p := ParseAtom(t).value;
      var q := Repeated(p);
      AtomIsFair(t);
      SeqIsFair(q.rest);
      var s := ParseSeq(q.rest).value;
      var n := |t| - |s.rest|;
      if Size(q.re) + Size(s.re) == n {
        assert t[..n] == [t[0]] + q.rest[..n - 1];
        assert t[..n][1..] == q.rest[..n - 1];
      }
    }
  }

  lemma {:induction false} AtomIsFair(t: string)
    requires t != "" && t[0] != '|' && t[0] != ')' && ParseAtom(t).Some?
    ensures var q := Repeated(ParseAtom(t).value);
            var n := |t| - |q.rest|;
            && Size(q.re) <= n
            && (Size(q.re) == n ==>
                  q.rest == t[1..] && (if t[0] == '.' then q.re == Any else q.re == Lit(t[0]) && !IsMeta(t[0])))
    decreases |t|, 0
  {
    if t[0] == '(' {
      AltIsFair(t[1..]);
    }
  }

  // ----- a short match -----

  predicate EndsInNewline(t: string) {
    t == "" || IsNewline(t)
  }

  /** What ends a line still does without a part of it. */
  lemma LessNewline(s: string, m: string, t: string)
    requires EndsInNewline(s + m + t)
    ensures EndsInNewline(s + t)
  {
    var w := s + m + t;
    if m == "" {
      assert s + m + t == s + t;
    } else if |w| == 2 {
      assert w == "\r\n";
      if |s + t| == 1 {
        assert s + t == [w[0]] || s + t == [w[1]] by { assert s == "" || s == [w[0]] || s == w; }
      }
    }
  }

  ghost predicate Thinner(m: string, m': string) {
    |m'| <= |m| && forall s, t :: EndsInNewline(s + m + t) ==> EndsInNewline(s + m' + t)
  }

  ghost predicate Calm(v: string, v': string) {
    forall s :: EndsInNewline(s + v) ==> EndsInNewline(s + v')
  }

  lemma SplitExists(a: Re, b: Re, w: string, i: nat, j: nat)
    requires i <= j <= |w| && Matches(Cat(a, b), w, i, j)
    ensures exists m: nat :: i <= m <= j && Matches(a, w, i, m) && Matches(b, w, m, j)
  {
    var m := CatSplit(a, b, w, i, j);
  }

  ghost function SplitPoint(a: Re, b: Re, w: string, i: nat, j: nat): (m: nat)
    requires i <= j <= |w| && Matches(Cat(a, b), w, i, j)
    ensures i <= m <= j && Matches(a, w, i, m) && Matches(b, w, m, j)
  {
    SplitExists(a, b, w, i, j);
    var m: nat :| i <= m <= j && Matches(a, w, i, m) && Matches(b, w, m, j);
    m
  }

  /** A match without its repetitions. */
  ghost function Short(r: Re, w: string, i: nat, j: nat): string
    requires i <= j <= |w| && Matches(r, w, i, j)
  {
    match r
    case Cat(a, b) => var m := SplitPoint(a, b, w, i, j); Short(a, w, i, m) + Short(b, w, m, j)
    case Or(a, b) => if Matches(a, w, i, j) then Short(a, w, i, j) else Short(b, w, i, j)
    case Group(a) => Short(a, w, i, j)
    case Star(_) => ""
    case _ => w[i..j]
  }

  lemma ThinnerConcat(a: string, a': string, b: string, b': string)
    requires Thinner(a, a') && Thinner(b, b')
    ensures Thinner(a + b, a' + b')
  {
    hide EndsInNewline;
    forall s, t | EndsInNewline(s + (a + b) + t)
      ensures EndsInNewline(s + (a' + b') + t)
    {
      assert s + (a + b) + t == s + a + (b + t);
      assert s + a' + (b + t) == (s + a') + b + t;
      assert (s + a') + b' + t == s + (a' + b') + t;
    }
  }

  lemma ThinnerCalm(m: string, m': string, v: string, v': string)
    requires Thinner(m, m') && Calm(v, v')
    ensures Calm(m + v, m' + v')
  {
    hide EndsInNewline;
    forall s | EndsInNewline(s + (m + v))
      ensures EndsInNewline(s + (m' + v'))
    {
      assert s + (m + v) == (s + m) + v;
      assert (s + m) + v' == s + m + v';
      assert s + m' + v' == s + (m' + v');
    }
  }

  lemma ThinnerNothing(m: string)
    ensures Thinner(m, m) && Thinner(m, "")
  {
    hide EndsInNewline;
    forall s, t | EndsInNewline(s + m + t)
      ensures EndsInNewline(s + "" + t)
    {
      LessNewline(s, m, t);
      assert s + "" + t == s + t;
    }
  }

  lemma {:induction false} ShortIsThin(r: Re, w: string, i: nat, j: nat)
    requires i <= j <= |w| && Matches(r, w, i, j)
    ensures Thinner(w[i..j], Short(r, w, i, j)) && |Short(r, w, i, j)| <= Size(r)
  {
    hide Thinner;
    match r
    case Cat(a, b) =>
      var m := SplitPoint(a, b, w, i, j);
      ShortIsThin(a, w, i, m);
      ShortIsThin(b, w, m, j);
      ThinnerConcat(w[i..m], Short(a, w, i, m), w[m..j], Short(b, w, m, j));
      assert w[i..m] + w[m..j] == w[i..j];
    case Or(a, b) => if Matches(a, w, i, j) { ShortIsThin(a, w, i, j); } else { ShortIsThin(b, w, i, j); }
    case Group(a) => ShortIsThin(a, w, i, j);
    case _ => ThinnerNothing(w[i..j]);
  }

  /** The short match is a match in every place that is like the old one. */
  lemma {:induction false} ShortMatches(r: Re, w: string, i: nat, j: nat, u: string, v: string)
    requires i <= j <= |w| && Matches(r, w, i, j) && (i == 0 ==> u == "") && Calm(w[j..], v)
    ensures var m := Short(r, w, i, j); Matches(r, u + m + v, |u|, |u| + |m|)
  {
    hide Thinner, Calm, IsNewline, InClass, Size;
    var short := Short(r, w, i, j);
    var here := u + short + v;
    match r
    case Cat(a, b) =>
      var m := SplitPoint(a, b, w, i, j);
      var x, y := Short(a, w, i, m), Short(b, w, m, j);
      ShortIsThin(a, w, i, m);
      ShortIsThin(b, w, m, j);
      EmptyThinner(w[i..m], x);
      ThinnerCalm(w[m..j], y, w[j..], v);
      assert w[m..j] + w[j..] == w[m..];
      ShortMatches(a, w, i, m, u, y + v);
      ShortMatches(b, w, m, j, u + x, v);
      assert u + x + (y + v) == here && (u + x) + y + v == here;
      CatJoin(a, b, here, |u|, |u + x|, |u| + |short|);
    case Or(a, b) => if Matches(a, w, i, j) { ShortMatches(a, w, i, j, u, v); } else { ShortMatches(b, w, i, j, u, v); }
    case Group(a) => ShortMatches(a, w, i, j, u, v);
    case Lit(c) => assert here[|u|] == short[0];
    case Class(k) => assert here[|u|] == short[0];
    case LineEnd =>
      CalmEnd(w[j..], v);
      assert here[|u|..] == v;
    case _ =>
  }

  lemma EmptyThinner(m: string, m': string)
    requires Thinner(m, m')
    ensures |m'| <= |m|
  {
  }

  lemma CalmEnd(v: string, v': string)
    requires Calm(v, v') && EndsInNewline(v)
    ensures EndsInNewline(v')
  {
    assert "" + v == v && "" + v' == v';
  }

  lemma CalmNothing(v: string)
    ensures Calm(v, "")
  {
    hide EndsInNewline;
    forall s | EndsInNewline(s + v)
      ensures EndsInNewline(s + "")
    {
      assert s + v == s + v + "";
      LessNewline(s, v, "");
    }
  }

  /** What an expression finds at all it finds in a text no longer than its size. */
  lemma FindsShort(r: Re, w: string) returns (m: string)
    requires Finds(r, w)
    ensures Finds(r, m) && |m| <= Size(r)
  {
    var i: nat, j: nat :| i <= j <= |w| && Matches(r, w, i, j);
    m := Short(r, w, i, j);
    ShortIsThin(r, w, i, j);
    CalmNothing(w[j..]);
    ShortMatches(r, w, i, j, "", "");
    assert "" + m + "" == m;
  }

  // ----- the theorem -----

  lemma {:induction false} DotsMatch(s: string, w: string, i: nat)
    requires i <= |w| && |w| - i == |s| && forall k :: 0 <= k < |s| ==> s[k] == '.' || s[k] == w[i + k]
    ensures Matches(Dots(s), w, i, |w|)
    decreases |s|
  {
    if s == "" {
    } else {
      assert forall k :: 0 <= k < |s[1..]| ==> s[1..][k] == s[k + 1];
      DotsMatch(s[1..], w, i + 1);
      var a := if s[0] == '.' then Any else Lit(s[0]);
      assert Matches(a, w, i, i + 1) by { assert s[0] == '.' || s[0] == w[i + 0]; }
      CatJoin(a, Dots(s[1..]), w, i, i + 1, |w|);
    }
  }

  lemma OccursInItself(x: string, w: string)
    ensures Occurs(x, x)
    ensures Occurs(x, w) ==> |x| <= |w| && (|x| == |w| ==> x == w)
  {
    assert x[0..|x|] == x;
    if Occurs(x, w) {
      var i: nat, j: nat :| i <= j <= |w| && w[i..j] == x;
      if |x| == |w| { assert w[0..|w|] == w; }
    }
  }

  /** A text that is an expression is found in just the texts that contain it if and only if no character of it
      means something in an expression. */
  lemma FindsItselfIff(x: string)
    requires ParseRegex(x).Some?
    ensures (forall w :: Finds(ParseRegex(x).value, w) <==> Occurs(x, w)) <==> IsLiteral(x)
  {
    hide ParseAlt, ParseSeq, Finds, Occurs, IsLiteral;
    var re := ParseRegex(x).value;
    if IsLiteral(x) {
      LiteralParses(x);
      forall w
        ensures Finds(re, w) <==> Occurs(x, w)
      {
        SpellFinds(x, w);
      }
    }
    if forall w :: Finds(re, w) <==> Occurs(x, w) {
      OccursInItself(x, x);
      var m := FindsShort(re, x);
      OccursInItself(x, m);
      AltIsFair(x);
      assert x[..|x|] == x;
      var w := seq(|x|, k requires 0 <= k < |x| => if x[k] == '.' then 'o' else x[k]);
      DotsFound(x, w);
      OccursInItself(x, w);
      NoDotIsLiteral(x, w);
    }
  }

  lemma LiteralParses(x: string)
    requires IsLiteral(x)
    ensures ParseRegex(x) == Some(Spell(x, Eps))
  {
    assert ParseSeq("") == Some(Parsed(Eps, ""));
    ParseText(x, "", Eps);
    assert x + "" == x;
  }

  lemma DotsFound(x: string, w: string)
    requires |w| == |x| && forall k :: 0 <= k < |x| ==> w[k] == if x[k] == '.' then 'o' else x[k]
    ensures Finds(Dots(x), w)
  {
    DotsMatch(x, w, 0);
  }

  lemma NoDotIsLiteral(x: string, w: string)
    requires x == w && LiteralOrDot(x) && forall k :: 0 <= k < |x| ==> w[k] == if x[k] == '.' then 'o' else x[k]
    ensures IsLiteral(x)
  {
  }
}
