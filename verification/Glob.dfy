/** Shell patterns and their translation to regular expressions (lib/search/glob.c). */
module Glob {
  import opened Regex
  import opened Sequences

  // ----- patterns -----

  /** A sign of a pattern; a literal may be written behind a backslash. */
  datatype Sign =
    | Char(c: char, escaped: bool)
    | AnyText
    | AnyChar

  /** Choices in braces do not nest. */
  datatype Item =
    | Single(sign: Sign)
    | Choice(alts: seq<seq<Sign>>)

  /** How a pattern is written. */
  function Text(g: seq<Item>): string {
    if g == [] then ""
    else (match g[0]
          case Single(s) => SignText(s)
          case Choice(alts) => "{" + AltsText(alts) + "}") + Text(g[1..])
  }

  function SignText(s: Sign): string {
    match s
    case Char(c, escaped) => if escaped then ['\\', c] else [c]
    case AnyText => "*"
    case AnyChar => "?"
  }

  function SignsText(ss: seq<Sign>): string {
    if ss == [] then "" else SignText(ss[0]) + SignsText(ss[1..])
  }

  function AltsText(alts: seq<seq<Sign>>): string {
    if alts == [] then ""
    else SignsText(alts[0]) + if |alts| == 1 then "" else "," + AltsText(alts[1..])
  }

  /** Characters in front of which the translator puts a backslash. */
  predicate TranslatorEscapes(c: char) {
    c == '+' || c == '.' || c == '$' || c == '(' || c == ')' || c == '^'
  }

  /** The signs of the pattern language. */
  predicate IsSign(c: char) {
    c == '*' || c == '?' || c == ',' || c == '{' || c == '}'
  }

  /** An escaped character is one that may be escaped; a bare one is no sign of the pattern language
      and none of those that the translator lets through to the regular expression. */
  predicate ProperSign(s: Sign, inside: bool) {
    match s
    case Char(c, escaped) =>
      if escaped then !IsAlnum(c) && !TranslatorEscapes(c)
      else c != '\\' && c != '[' && c != '|' && (IsSign(c) ==> c == ',' && !inside)
    case AnyText => true
    case AnyChar => true
  }

  ghost predicate ProperSigns(ss: seq<Sign>, inside: bool) {
    forall i :: 0 <= i < |ss| ==> ProperSign(ss[i], inside)
  }

  ghost predicate ProperItem(i: Item) {
    match i
    case Single(s) => ProperSign(s, false)
    case Choice(alts) => alts != [] && forall k :: 0 <= k < |alts| ==> ProperSigns(alts[k], true)
  }

  ghost predicate Proper(g: seq<Item>) {
    forall i :: 0 <= i < |g| ==> ProperItem(g[i])
  }

  /** What a pattern matches, read directly. */
  ghost predicate SignsMatch(ss: seq<Sign>, w: string)
    decreases ss
  {
    if ss == [] then w == ""
    else
      match ss[0]
      case Char(c, _) => w != "" && w[0] == c && SignsMatch(ss[1..], w[1..])
      case AnyChar => w != "" && SignsMatch(ss[1..], w[1..])
      case AnyText => exists k: nat :: k <= |w| && SignsMatch(ss[1..], w[k..])
  }

  ghost predicate AnyAltMatches(alts: seq<seq<Sign>>, w: string) {
    alts != [] && (SignsMatch(alts[0], w) || AnyAltMatches(alts[1..], w))
  }

  ghost predicate ItemMatches(i: Item, w: string) {
    match i
    case Single(s) => SignsMatch([s], w)
    case Choice(alts) => AnyAltMatches(alts, w)
  }

  ghost predicate GlobMatches(g: seq<Item>, w: string)
    decreases g
  {
    if g == [] then w == ""
    else exists k: nat :: k <= |w| && ItemMatches(g[0], w[..k]) && GlobMatches(g[1..], w[k..])
  }

  // ----- the translation, as a function of the text -----

  /** What is appended for the character c, and whether the scan is inside a group behind it. */
  function Emit(c: char, escaped: bool, inside: bool): (string, bool) {
    if IsSign(c) && !escaped then
      if c == '*' then (if inside then ".*" else "(.*)", inside)
      else if c == '?' then (if inside then "." else "(.)", inside)
      else if c == ',' then (if inside then "|" else ",", inside)
      else if c == '{' then ("(", true)
      else (")", false)
    else if TranslatorEscapes(c) then (['\\', c], inside)
    else ([c], inside)
  }

  /** The rest t of a text; escaped says that an odd run of backslashes stands in front of it. */
  function Translated(t: string, escaped: bool, inside: bool): string {
    if t == "" then ""
    else
      var out := Emit(t[0], escaped, inside);
      out.0 + Translated(t[1..], t[0] == '\\' && !escaped, out.1)
  }

  function GlobToRegex(s: string): string {
    Translated(s, false, false)
  }

  /** Length of the run of backslashes that ends in front of position p. */
  function BackslashRun(s: string, p: nat): (n: nat)
    requires p <= |s|
    ensures n <= p
  {
    if p > 0 && s[p - 1] == '\\' then 1 + BackslashRun(s, p - 1) else 0
  }

  /** strutils_is_char_escaped. */
  method IsCharEscaped(str: string, current: nat) returns (b: bool)
    requires current <= |str|
    ensures b <==> BackslashRun(str, current) % 2 == 1
  {
    var numEsc, k := 0, current;
    while k > 0 && str[k - 1] == '\\'
      invariant 0 <= k <= current && numEsc + BackslashRun(str, k) == BackslashRun(str, current)
    {
      numEsc := numEsc + 1;
      k := k - 1;
    }
    b := numEsc % 2 == 1;
  }

  method GlobTranslateToRegex(str: string) returns (buff: string)
    ensures buff == GlobToRegex(str)
  {
    hide Translated, BackslashRun;
    buff := "";
    var insideGroup := false;
    assert str[0..] == str;
    NoBackslashYet(str);
    for loop := 0 to |str|
      invariant buff + Translated(str[loop..], BackslashRun(str, loop) % 2 == 1, insideGroup) == GlobToRegex(str)
    {
      ghost var before, odd := buff, BackslashRun(str, loop) % 2 == 1;
      ghost var out := Emit(str[loop], odd, insideGroup);
      ghost var rest := Translated(str[loop + 1..], BackslashRun(str, loop + 1) % 2 == 1, out.1);
      TranslatedStep(str, loop, insideGroup);
      var c := str[loop];
      var escaped := false;
      if IsSign(c) {
        escaped := IsCharEscaped(str, loop);
      }
      if c == '*' && !escaped {
        buff := buff + if insideGroup then ".*" else "(.*)";
      } else if c == '?' && !escaped {
        buff := buff + if insideGroup then "." else "(.)";
      } else if c == ',' && !escaped {
        buff := buff + if insideGroup then "|" else ",";
      } else if c == '{' && !escaped {
        buff := buff + "(";
        insideGroup := true;
      } else if c == '}' && !escaped {
        buff := buff + ")";
        insideGroup := false;
      } else if TranslatorEscapes(c) {
        buff := buff + ['\\', c];
      } else {
        buff := buff + [c];
      }
      Assoc(before, out.0, rest);
    }
    NothingLeft(str, BackslashRun(str, |str|) % 2 == 1, insideGroup);
    assert buff + "" == buff;
  }

  lemma NoBackslashYet(str: string)
    ensures BackslashRun(str, 0) == 0
    ensures "" + Translated(str, false, false) == GlobToRegex(str)
  {
  }

  lemma NothingLeft(str: string, escaped: bool, inside: bool)
    ensures Translated(str[|str|..], escaped, inside) == ""
  {
  }

  /** One character of the text. */
  lemma TranslatedStep(str: string, loop: nat, inside: bool)
    requires loop < |str|
    ensures var odd := BackslashRun(str, loop) % 2 == 1;
            var out := Emit(str[loop], odd, inside);
            Translated(str[loop..], odd, inside)
              == out.0 + Translated(str[loop + 1..], BackslashRun(str, loop + 1) % 2 == 1, out.1)
  {
    hide Emit;
    assert str[loop..][1..] == str[loop + 1..];
  }
}
