/** The regular expressions that the search translators emit: a parser for their text and what they match. */
module Regex {
  import Numbers
  import opened Wrappers

  datatype Re =
    | Eps
    | Lit(c: char)
    | Any
    | Class(kind: char)
    | LineStart
    | LineEnd
    | Cat(first: Re, second: Re)
    | Or(left: Re, right: Re)
    | Star(body: Re)
    | Group(inner: Re)

  // ----- text to expression -----

  predicate IsAlnum(c: char) { Numbers.IsDigit(c) || 'a' <= c <= 'z' || 'A' <= c <= 'Z' }

  predicate IsHexDigit(c: char) { Numbers.IsDigit(c) || 'a' <= c <= 'f' || 'A' <= c <= 'F' }

  function HexValue(c: char): (v: nat)
    requires IsHexDigit(c)
    ensures v < 16
  {
    if Numbers.IsDigit(c) then (c - '0') as nat
    else if 'a' <= c <= 'f' then (c - 'a') as nat + 10
    else (c - 'A') as nat + 10
  }

  /** Characters that do not stand for themselves outside a backslash escape. */
  predicate IsMeta(c: char) {
    || c == '\\' || c == '^' || c == '$' || c == '.' || c == '[' || c == '|'
    || c == '(' || c == ')' || c == '*' || c == '+' || c == '?' || c == '{'
  }

  datatype Parsed = Parsed(re: Re, rest: string)

  function ParseAlt(t: string): (r: Option<Parsed>)
    ensures r.Some? ==> |r.value.rest| <= |t|
    decreases |t|, 2
  {
    match ParseSeq(t)
    case None => None
    case Some(p) =>
      if p.rest != "" && p.rest[0] == '|' then
        match ParseAlt(p.rest[1..])
        case None => None
        case Some(q) => Some(Parsed(Or(p.re, q.re), q.rest))
      else Some(p)
  }

  function ParseSeq(t: string): (r: Option<Parsed>)
    ensures r.Some? ==> |r.value.rest| <= |t|
    ensures r.Some? ==> r.value.rest == "" || r.value.rest[0] == '|' || r.value.rest[0] == ')'
    decreases |t|, 1
  {
    if t == "" || t[0] == '|' || t[0] == ')' then Some(Parsed(Eps, t))
    else
      match ParseAtom(t)
      case None => None
      case Some(p) =>
        var q := Repeated(p);
        match ParseSeq(q.rest)
        case None => None
        case Some(s) => Some(Parsed(Cat(q.re, s.re), s.rest))
  }

  /** An atom and the repetition sign behind it, if any; a second sign is left to fail. */
  function Repeated(p: Parsed): (q: Parsed)
    ensures |q.rest| <= |p.rest|
  {
    if p.rest != "" && p.rest[0] == '*' then Parsed(Star(p.re), p.rest[1..])
    else if p.rest != "" && p.rest[0] == '+' then Parsed(Cat(p.re, Star(p.re)), p.rest[1..])
    else p
  }

  /** The classes that are written with a letter, for the characters of ASCII. */
  predicate InClass(kind: char, c: char) {
    if kind == 'd' then Numbers.IsDigit(c)
    else if kind == 'w' then IsAlnum(c) || c == '_'
    else if kind == 's' then c == ' ' || '\t' <= c <= '\r'
    else if kind == 'D' then !Numbers.IsDigit(c)
    else if kind == 'W' then !(IsAlnum(c) || c == '_')
    else !(c == ' ' || '\t' <= c <= '\r')
  }

  predicate IsClass(c: char) {
    c == 'd' || c == 'w' || c == 's' || c == 'D' || c == 'W' || c == 'S'
  }

  /** The character that a backslash makes of a letter, or of the digit 0. */
  function ControlOf(c: char): Option<char> {
    if c == 'n' then Some('\n')
    else if c == 't' then Some('\t')
    else if c == 'r' then Some('\r')
    else if c == 'f' then Some('\U{000C}')
    else if c == 'a' then Some('\U{0007}')
    else if c == 'e' then Some('\U{001B}')
    else if c == '0' then Some('\0')
    else None
  }

  /** A backslash in front of a letter or a digit. Those that are not modelled are outside the fragment. */
  function ParseEscape(t: string): (r: Option<Parsed>)
    requires t != ""
    ensures r.Some? ==> |r.value.rest| < |t|
  {
    if t[0] == 'x' && |t| > 2 && IsHexDigit(t[1]) && IsHexDigit(t[2])
    then Some(Parsed(Lit((16 * HexValue(t[1]) + HexValue(t[2])) as char), t[3..]))
    else if t[0] == '0' && |t| > 1 && '0' <= t[1] <= '7' then None
    else if ControlOf(t[0]).Some? then Some(Parsed(Lit(ControlOf(t[0]).value), t[1..]))
    else if IsClass(t[0]) then Some(Parsed(Class(t[0]), t[1..]))
    else None
  }

  function ParseAtom(t: string): (r: Option<Parsed>)
    requires t != ""
    ensures r.Some? ==> |r.value.rest| < |t|
    decreases |t|, 0
  {
    var c, rest := t[0], t[1..];
    if c == '(' then
      match ParseAlt(rest)
      case None => None
      case Some(p) => if p.rest != "" && p.rest[0] == ')' then Some(Parsed(Group(p.re), p.rest[1..])) else None
    else if c == '.' then Some(Parsed(Any, rest))
    else if c == '^' then Some(Parsed(LineStart, rest))
    else if c == '$' then Some(Parsed(LineEnd, rest))
    else if c == '\\' then
      if rest == "" then None
      else if !IsAlnum(rest[0]) then Some(Parsed(Lit(rest[0]), rest[1..]))
      else ParseEscape(rest)
    else if IsMeta(c) then None
    else Some(Parsed(Lit(c), rest))
  }

  /** None for text that is no expression, or that is outside the fragment. */
  function ParseRegex(t: string): Option<Re> {
    match ParseAlt(t)
    case None => None
    case Some(p) => if p.rest == "" then Some(p.re) else None
  }

  // ----- what an expression matches -----

  /** A newline sequence, any of those that the search engine is told to accept. */
  predicate IsNewline(w: string) {
    w == "\r\n" || (|w| == 1 && w[0] in "\n\r\U{000B}\U{000C}\U{0085}\U{2028}\U{2029}")
  }

  /** "$" matches at the very end and in front of a newline that ends the text. */
  predicate EndsLine(w: string, i: nat)
    requires i <= |w|
  {
    i == |w| || IsNewline(w[i..])
  }

  /** r matches the part of w from i to j; "." takes every character, newlines included. */
  ghost predicate Matches(r: Re, w: string, i: nat, j: nat)
    requires i <= j <= |w|
    decreases r, j - i
  {
    match r
    case Eps => i == j
    case Lit(c) => j == i + 1 && w[i] == c
    case Any => j == i + 1
    case Class(k) => j == i + 1 && InClass(k, w[i])
    case LineStart => i == j == 0
    case LineEnd => i == j && EndsLine(w, i)
    case Cat(a, b) => exists m: nat :: i <= m <= j && Matches(a, w, i, m) && Matches(b, w, m, j)
    case Or(a, b) => Matches(a, w, i, j) || Matches(b, w, i, j)
    case Star(a) => i == j || exists m: nat :: i < m <= j && Matches(a, w, i, m) && Matches(r, w, m, j)
    case Group(a) => Matches(a, w, i, j)
  }

  /** The engine reports a match somewhere in w. */
  ghost predicate Finds(r: Re, w: string) {
    exists i: nat, j: nat :: i <= j <= |w| && Matches(r, w, i, j)
  }

  lemma {:induction false} StarAny(w: string, i: nat, j: nat)
    requires i <= j <= |w|
    ensures Matches(Star(Any), w, i, j)
    decreases j - i
  {
    if i == j {
    } else {
      StarAny(w, i + 1, j);
      assert Matches(Any, w, i, i + 1);
    }
  }

  // ----- one parsing step at a time -----

  /** Text that cannot be taken for a repetition sign. */
  predicate NoRepeat(t: string) {
    t == "" || (t[0] != '*' && t[0] != '+')
  }

  /** A sequence that begins with the atom p.re, followed by no repetition sign. */
  lemma ParseSeqStep(u: string, p: Parsed)
    requires u != "" && u[0] != '|' && u[0] != ')' && ParseAtom(u) == Some(p)
    requires NoRepeat(p.rest) && ParseSeq(p.rest).Some?
    ensures ParseSeq(u) == Some(Parsed(Cat(p.re, ParseSeq(p.rest).value.re), ParseSeq(p.rest).value.rest))
  {
  }

  /** c stands for itself when it is not a metacharacter. */
  lemma ParsePlain(c: char, t: string)
    requires !IsMeta(c) && NoRepeat(t) && ParseSeq(t).Some?
    ensures ParseSeq([c] + t) == Some(Parsed(Cat(Lit(c), ParseSeq(t).value.re), ParseSeq(t).value.rest))
  {
    assert ([c] + t)[1..] == t;
    ParseSeqStep([c] + t, Parsed(Lit(c), t));
  }

  lemma ParseEscaped(c: char, t: string)
    requires !IsAlnum(c) && NoRepeat(t) && ParseSeq(t).Some?
    ensures ParseSeq(['\\', c] + t) == Some(Parsed(Cat(Lit(c), ParseSeq(t).value.re), ParseSeq(t).value.rest))
  {
    var u := ['\\', c] + t;
    assert u[1..] == [c] + t;
    assert u[1..][1..] == t;
    ParseSeqStep(u, Parsed(Lit(c), t));
  }

  lemma ParseHex(h: char, l: char, t: string)
    requires IsHexDigit(h) && IsHexDigit(l) && NoRepeat(t) && ParseSeq(t).Some?
    ensures var p, c := ParseSeq(t).value, (16 * HexValue(h) + HexValue(l)) as char;
            ParseSeq(['\\', 'x', h, l] + t) == Some(Parsed(Cat(Lit(c), p.re), p.rest))
  {
    var u := ['\\', 'x', h, l] + t;
    assert u[1..] == ['x', h, l] + t;
    assert u[1..][3..] == t;
    ParseSeqStep(u, Parsed(Lit((16 * HexValue(h) + HexValue(l)) as char), t));
  }

  lemma DotAtom(t: string)
    ensures ParseAtom("." + t) == Some(Parsed(Any, t))
  {
    assert ("." + t)[1..] == t;
  }

  lemma ParseDot(t: string)
    requires NoRepeat(t) && ParseSeq(t).Some?
    ensures ParseSeq("." + t) == Some(Parsed(Cat(Any, ParseSeq(t).value.re), ParseSeq(t).value.rest))
  {
    hide ParseAtom;
    DotAtom(t);
    ParseSeqStep("." + t, Parsed(Any, t));
  }

  lemma ParseDotStar(t: string)
    requires ParseSeq(t).Some?
    ensures ParseSeq(".*" + t) == Some(Parsed(Cat(Star(Any), ParseSeq(t).value.re), ParseSeq(t).value.rest))
  {
    hide ParseAtom;
    var u := ".*" + t;
    assert u == "." + ("*" + t) && ("*" + t)[1..] == t;
    DotAtom("*" + t);
    assert Repeated(Parsed(Any, "*" + t)) == Parsed(Star(Any), t);
  }

  lemma ParseGroup(body: string, re: Re, t: string)
    requires ParseAlt(body + ")" + t) == Some(Parsed(re, ")" + t))
    requires NoRepeat(t) && ParseSeq(t).Some?
    ensures var p := ParseSeq(t).value;
            ParseSeq("(" + (body + ")" + t)) == Some(Parsed(Cat(Group(re), p.re), p.rest))
  {
    var u := "(" + (body + ")" + t);
    assert u[1..] == body + ")" + t;
    assert (")" + t)[1..] == t;
  }

  /** The sequence of literals that spell s, in front of tail. */
  function Spell(s: string, tail: Re): Re {
    if s == "" then tail else Cat(Lit(s[0]), Spell(s[1..], tail))
  }

  lemma CatSplit(a: Re, b: Re, w: string, i: nat, j: nat) returns (m: nat)
    requires i <= j <= |w| && Matches(Cat(a, b), w, i, j)
    ensures i <= m <= j && Matches(a, w, i, m) && Matches(b, w, m, j)
  {
    m :| i <= m <= j && Matches(a, w, i, m) && Matches(b, w, m, j);
  }

  lemma CatJoin(a: Re, b: Re, w: string, i: nat, m: nat, j: nat)
    requires i <= m <= j <= |w| && Matches(a, w, i, m) && Matches(b, w, m, j)
    ensures Matches(Cat(a, b), w, i, j)
  {
  }

  lemma CatLitMatches(c: char, r: Re, w: string, i: nat, j: nat)
    requires i <= j <= |w|
    ensures Matches(Cat(Lit(c), r), w, i, j) <==> i < j && w[i] == c && Matches(r, w, i + 1, j)
  {
    if Matches(Cat(Lit(c), r), w, i, j) {
      var m := CatSplit(Lit(c), r, w, i, j);
    }
    if i < j && w[i] == c && Matches(r, w, i + 1, j) {
      assert Matches(Lit(c), w, i, i + 1);
    }
  }

  lemma {:induction false} SpellMatches(s: string, w: string, i: nat, j: nat)
    requires i <= j <= |w|
    ensures Matches(Spell(s, Eps), w, i, j) <==> w[i..j] == s
    decreases s
  {
    if s == "" {
    } else if i == j {
      CatLitMatches(s[0], Spell(s[1..], Eps), w, i, j);
    } else {
      CatLitMatches(s[0], Spell(s[1..], Eps), w, i, j);
      SpellMatches(s[1..], w, i + 1, j);
      assert w[i..j] == [w[i]] + w[i + 1..j];
    }
  }
}
