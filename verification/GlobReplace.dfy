/** Replacement by shell pattern: "*" and "?" in the replacement stand for what the wildcards of the
    search pattern matched (lib/search/glob.c, with the expansion of lib/search/regex.c). */
module GlobReplace {
  import opened Numbers
  import opened Regex
  import opened RegexReplace
  import opened ReplaceEscapes
  import opened ReplaceMeaning
  import opened Sequences
  import opened Wrappers

  // ----- the translation of a replacement, as a function of its text -----

  /** What is appended for the character c, the wildcards counted behind it, and whether a backslash is open. */
  function Emitted(c: char, cnt: nat, escaped: bool): (string, nat, bool) {
    if escaped then ([c], cnt, false)
    else if c == '\\' then ("\\", cnt, true)
    else if c == '*' || c == '?' then (['\\', CountChar(cnt + 1)], cnt + 1, false)
    else if c == '&' then ("\\&", cnt, false)
    else ([c], cnt, false)
  }

  /** The rest t of a replacement, behind cnt wildcards; escaped says that a backslash is open. */
  function Replacement(t: string, cnt: nat, escaped: bool): string {
    if t == "" then ""
    else
      var out := Emitted(t[0], cnt, escaped);
      out.0 + Replacement(t[1..], out.1, out.2)
  }

  /** The counter is a character that starts at '0'. */
  function CountChar(n: nat): char {
    (('0' as int + n) % 256) as char
  }

  method TranslateReplaceGlobToRegex(str: string) returns (buff: string)
    ensures buff == Replacement(str, 0, false)
  {
    buff := "";
    var cnt, escapedMode := 0, false;
    assert str[0..] == str;
    for i := 0 to |str|
      invariant buff + Replacement(str[i..], cnt, escapedMode) == Replacement(str, 0, false)
    {
      var c := str[i];
      ghost var before, out := buff, Emitted(c, cnt, escapedMode);
      assert str[i..][1..] == str[i + 1..];
      Assoc(before, out.0, Replacement(str[i + 1..], out.1, out.2));
      if c == '\\' && !escapedMode {
        escapedMode := true;
        buff := buff + "\\";
        continue;
      }
      var pre := "";
      if (c == '*' || c == '?') && !escapedMode {
        pre := "\\";
        cnt := cnt + 1;
        c := CountChar(cnt);
      } else if c == '&' && !escapedMode {
        pre := "\\";
      }
      buff := buff + (pre + [c]);
      escapedMode := false;
      assert pre + [c] == out.0;
    }
  }

  // ----- replacements -----

  /** The parts of a replacement: a character by its number is in hexadecimal or octal digits, and a group may be named
      by its decimal number. */
  datatype Part =
    | Plain(c: char)
    | Escaped(c: char)
    | Wild(star: bool)
    | Hex(digits: string)
    | Oct(digits: string)
    | Name(digits: string)

  function PartText(p: Part): string {
    match p
    case Plain(c) => [c]
    case Escaped(c) => ['\\', c]
    case Wild(star) => if star then "*" else "?"
    case Hex(d) => "\\x{" + d + "}"
    case Oct(d) => "\\{" + d + "}"
    case Name(d) => "${" + d + "}"
  }

  function PartsText(ps: seq<Part>): string {
    if ps == [] then "" else PartText(ps[0]) + PartsText(ps[1..])
  }

  ghost predicate ProperPart(p: Part) {
    match p
    case Plain(c) => c != '\\' && c != '*' && c != '?'
    case Escaped(c) => c != 'x' && c != '{'
    case Wild(_) => true
    case Hex(d) => AllWithin(Hexadecimal, d)
    case Oct(d) => AllWithin(Octal, d) && d != ""
    case Name(d) => AllDigits(d) && d != "" && Value(d) < WRAP / 2
  }

  ghost predicate AllProper(ps: seq<Part>) {
    forall i :: 0 <= i < |ps| ==> ProperPart(ps[i])
  }

  /** No "${" with the beginning of a number, all written plainly. */
  predicate NoGroupName(ps: seq<Part>) {
    |ps| < 3 ||
    (!(ps[0] == Plain('$') && ps[1] == Plain('{') && ps[2].Plain? && '0' <= ps[2].c <= '?') && NoGroupName(ps[1..]))
  }

  /** What a part stands for, if the next wildcard is number n. The translator escapes "&". */
  function PieceOf(p: Part, n: nat): (r: Piece)
    requires ProperPart(p)
    ensures !r.Beyond? && (r.Ordinary? ==> p == Plain(r.c))
  {
    match p
    case Plain(c) => if c == '&' then Literal("&") else Ordinary(c)
    case Wild(_) => GroupNumber(n)
    case Hex(d) => Number(NumberOf(d, Hexadecimal) % WRAP)
    case Oct(d) => Number(NumberOf(d, Octal) % WRAP)
    case Name(d) => GroupNumber(Value(d))
    case Escaped(c) =>
      if IsDigit(c) then GroupNumber(DigitValue(c))
      else if ControlCharacter(c).Some? then Number(ControlCharacter(c).value as nat)
      else if CaseSwitch(c) then Switch(c)
      else Literal([c])
  }

  function PiecesOf(ps: seq<Part>, n: nat): (r: seq<Piece>)
    requires AllProper(ps)
    ensures |r| == |ps| && forall i :: 0 <= i < |ps| ==> !r[i].Beyond?
  {
    if ps == [] then [] else [PieceOf(ps[0], n)] + PiecesOf(ps[1..], if ps[0].Wild? then n + 1 else n)
  }

  /** No \u, \l or \E stands directly behind a plain character. */
  ghost predicate ProperParts(ps: seq<Part>) {
    AllProper(ps) && NoGroupName(ps) && Separate(PiecesOf(ps, 1), false)
  }

  /** The groups that are named by a number are below n. */
  ghost predicate NamedBelow(p: Part, n: nat) {
    match p
    case Escaped(c) => IsDigit(c) ==> DigitValue(c) < n
    case Name(d) => AllDigits(d) ==> Value(d) < n
    case _ => true
  }

  ghost predicate AllBelow(ps: seq<Part>, n: nat) {
    forall i :: 0 <= i < |ps| ==> NamedBelow(ps[i], n)
  }

  function Wilds(ps: seq<Part>): nat {
    if ps == [] then 0 else (if ps[0].Wild? then 1 else 0) + Wilds(ps[1..])
  }

  lemma {:induction false} PiecesBelow(ps: seq<Part>, n: nat, bound: nat)
    requires AllProper(ps) && AllBelow(ps, bound) && n + Wilds(ps) <= bound
    ensures NamesBelow(PiecesOf(ps, n), bound)
  {
    hide PieceOf, NamedBelow, ProperPart;
    if ps == [] {
    } else {
      PieceBelow(ps[0], n, bound);
      PiecesBelow(ps[1..], if ps[0].Wild? then n + 1 else n, bound);
    }
  }

  lemma PieceBelow(p: Part, n: nat, bound: nat)
    requires ProperPart(p) && NamedBelow(p, bound) && (p.Wild? ==> n < bound)
    ensures var r := PieceOf(p, n); r.GroupNumber? ==> r.k < bound
  {
    hide Value;
  }

  /** The replacement with its wildcards turned into the groups 1, 2 and so on, and every character and every group
      in full with the conversions in front of it. */
  function Substituted(ps: seq<Part>, m: Found): string
    requires AllProper(ps) && AllBelow(ps, |m.groups|) && Wilds(ps) < |m.groups|
  {
    PiecesBelow(ps, 1, |m.groups|);
    Meaning(PiecesOf(ps, 1), NO_TRANSFORM, m).text
  }

  // ----- the translation of the parts -----

  /** What a part is translated to, behind cnt wildcards. */
  function PartRegex(p: Part, cnt: nat): string {
    match p
    case Plain(c) => if c == '&' then "\\&" else [c]
    case Wild(_) => ['\\', CountChar(cnt + 1)]
    case _ => PartText(p)
  }

  function PartsRegex(ps: seq<Part>, cnt: nat): string {
    if ps == [] then "" else PartRegex(ps[0], cnt) + PartsRegex(ps[1..], if ps[0].Wild? then cnt + 1 else cnt)
  }

  lemma ReplaceCons(c: char, t: string, cnt: nat, escaped: bool)
    ensures var out := Emitted(c, cnt, escaped);
            Replacement([c] + t, cnt, escaped) == out.0 + Replacement(t, out.1, out.2)
  {
    assert ([c] + t)[1..] == t;
  }

  lemma {:induction false} ReplaceRun(s: string, t: string, cnt: nat)
    requires forall i :: 0 <= i < |s| ==> s[i] != '\\' && s[i] != '*' && s[i] != '?' && s[i] != '&'
    ensures Replacement(s + t, cnt, false) == s + Replacement(t, cnt, false)
  {
    hide Replacement;
    if s == "" {
      assert s + t == t && s + Replacement(t, cnt, false) == Replacement(t, cnt, false);
    } else {
      ReplaceRun(s[1..], t, cnt);
      ReplaceCons(s[0], s[1..] + t, cnt, false);
      assert s + t == [s[0]] + (s[1..] + t);
      assert s + Replacement(t, cnt, false) == [s[0]] + (s[1..] + Replacement(t, cnt, false));
    }
  }

  lemma ReplaceEscaped(c: char, t: string, cnt: nat)
    ensures Replacement(['\\', c] + t, cnt, false) == ['\\', c] + Replacement(t, cnt, false)
  {
    hide Replacement;
    ReplaceCons('\\', [c] + t, cnt, false);
    ReplaceCons(c, t, cnt, true);
    assert ['\\', c] + t == ['\\'] + ([c] + t);
    assert ['\\', c] + Replacement(t, cnt, false) == "\\" + ([c] + Replacement(t, cnt, false));
  }

  lemma TranslatePart(p: Part, t: string, cnt: nat)
    requires ProperPart(p)
    ensures Replacement(PartText(p) + t, cnt, false)
         == PartRegex(p, cnt) + Replacement(t, if p.Wild? then cnt + 1 else cnt, false)
  {
    hide Replacement, CountChar, Value;
    BracedText(p);
    match p
    case Plain(c) => ReplaceCons(c, t, cnt, false);
    case Wild(star) => ReplaceCons(if star then '*' else '?', t, cnt, false);
    case Escaped(c) => ReplaceEscaped(c, t, cnt);
    case Hex(d) => TranslateBraced('x', "{" + d + "}", t, cnt);
    case Oct(d) => TranslateBraced('{', d + "}", t, cnt);
    case Name(d) => ReplaceRun("${" + d + "}", t, cnt);
  }

  lemma BracedText(p: Part)
    ensures p.Hex? ==> PartText(p) == ['\\', 'x'] + ("{" + p.digits + "}")
    ensures p.Oct? ==> PartText(p) == ['\\', '{'] + (p.digits + "}")
  {
  }

  lemma TranslateBraced(c: char, s: string, t: string, cnt: nat)
    requires forall i :: 0 <= i < |s| ==> s[i] != '\\' && s[i] != '*' && s[i] != '?' && s[i] != '&'
    ensures Replacement(['\\', c] + s + t, cnt, false) == ['\\', c] + s + Replacement(t, cnt, false)
  {
    hide Replacement;
    ReplaceEscaped(c, s + t, cnt);
    ReplaceRun(s, t, cnt);
    Assoc(['\\', c], s, t);
    Assoc(['\\', c], s, Replacement(t, cnt, false));
  }

  lemma {:induction false} TranslateParts(ps: seq<Part>, cnt: nat)
    requires AllProper(ps)
    ensures Replacement(PartsText(ps), cnt, false) == PartsRegex(ps, cnt)
  {
    if ps == [] {
    } else {
      hide Replacement, PartRegex, PartText, ProperPart;
      TranslatePart(ps[0], PartsText(ps[1..]), cnt);
      TranslateParts(ps[1..], if ps[0].Wild? then cnt + 1 else cnt);
    }
  }

  // ----- the pieces of the translation -----

  /** The text in front of it is no "$" that makes a group name with the text t. */
  predicate SafeAfterDollar(t: string) {
    |t| < 2 || t[0] != '{' || !('0' <= t[1] <= '?')
  }

  lemma RegexStart(ps: seq<Part>, cnt: nat, t: string)
    requires AllProper(ps)
    requires |ps| > 1 && ps[0] == Plain('{') ==> !(ps[1].Plain? && '0' <= ps[1].c <= '?')
    requires t == "" || t[0] == '\\'
    ensures SafeAfterDollar(PartsRegex(ps, cnt) + t)
  {
    hide PartRegex, ProperPart;
    var u := PartsRegex(ps, cnt) + t;
    if ps == [] {
      assert u == t;
    } else {
      PartBegins(ps[0], cnt);
      assert u[0] == PartRegex(ps[0], cnt)[0];
      if ps[0] == Plain('{') {
        assert u[1..] == PartsRegex(ps[1..], cnt) + t;
        if |ps| > 1 {
          PartBegins(ps[1], cnt);
          assert u[1] == u[1..][0] == PartRegex(ps[1], cnt)[0];
        }
      }
    }
  }

  lemma PartBegins(p: Part, cnt: nat)
    requires ProperPart(p)
    ensures PartRegex(p, cnt) != "" && (p == Plain('{') ==> PartRegex(p, cnt) == "{")
    ensures PartRegex(p, cnt)[0]
         == if p.Plain? && p.c != '&' then p.c else if p.Name? then '$' else '\\'
  {
    hide CountChar, Value;
  }

  /** What may stand behind a part: the translation of others, and then the end or a backslash. */
  lemma SafeBehind(ps: seq<Part>, cnt: nat, t: string)
    requires AllProper(ps) && NoGroupName(ps) && ps != [] && (t == "" || t[0] == '\\')
    ensures ps[0] == Plain('$') ==> SafeAfterDollar(PartsRegex(ps[1..], cnt) + t)
  {
    hide ProperPart;
    if ps[0] == Plain('$') { RegexStart(ps[1..], cnt, t); }
  }

  lemma PiecesOfPart(p: Part, cnt: nat, u: string)
    requires ProperPart(p) && (p.Wild? ==> cnt < 9) && (p == Plain('$') ==> SafeAfterDollar(u))
    ensures Pieces(PartRegex(p, cnt) + u, false) == [PieceOf(p, cnt + 1)] + Pieces(u, false)
  {
    hide Pieces, NumberOf, Value, Leading;
    match p
    case Plain(c) => if c == '&' { PieceOfEscape('&', u); } else { PieceOfPlain(c, u); }
    case Escaped(c) => PieceOfEscape(c, u);
    case Wild(_) => PieceOfEscape(CountChar(cnt + 1), u);
    case Hex(d) => BracedHex(d, u);
    case Oct(d) => BracedOctal(d, u);
    case Name(d) => NamedGroup(d, u);
  }

  lemma PieceOfPlain(c: char, u: string)
    requires c != '\\' && (c == '$' ==> SafeAfterDollar(u))
    ensures Pieces([c] + u, false) == [Ordinary(c)] + Pieces(u, false)
  {
    hide Pieces;
    var t := [c] + u;
    assert t[1..] == u;
    if u == "" {
      NoPieces();
      LastPiece(t, false);
    } else {
      assert Token(t, false) == (Ordinary(c), 1);
      FirstPiece(t, Ordinary(c), 1);
      OneAfter(t[..1], false);
    }
  }

  lemma PieceOfEscape(c: char, u: string)
    requires c != 'x' && c != '{'
    ensures Pieces(['\\', c] + u, false) == [PieceOf(Escaped(c), 0)] + Pieces(u, false)
  {
    hide Pieces;
    var t := ['\\', c] + u;
    assert t[1..2] == [c] && t[2..] == u;
    assert Token(t, false) == (PieceOf(Escaped(c), 0), 2);
    FirstPiece(t, PieceOf(Escaped(c), 0), 2);
    TwoAfter(t, c);
  }

  /** With at most nine wildcards, the translation is taken for just what the parts stand for. */
  lemma {:induction false} PiecesOfParts(ps: seq<Part>, cnt: nat, t: string)
    requires AllProper(ps) && NoGroupName(ps) && cnt + Wilds(ps) <= 9 && (t == "" || t[0] == '\\')
    ensures Pieces(PartsRegex(ps, cnt) + t, false) == PiecesOf(ps, cnt + 1) + Pieces(t, false)
  {
    hide Pieces, PieceOf, PartRegex, ProperPart;
    if ps == [] {
      assert PartsRegex(ps, cnt) + t == t && [] + Pieces(t, false) == Pieces(t, false);
    } else {
      var p, rest := ps[0], ps[1..];
      var cnt' := if p.Wild? then cnt + 1 else cnt;
      var u := PartsRegex(rest, cnt') + t;
      Assoc(PartRegex(p, cnt), PartsRegex(rest, cnt'), t);
      SafeBehind(ps, cnt', t);
      PiecesOfPart(p, cnt, u);
      PiecesOfParts(rest, cnt', t);
      Assoc([PieceOf(p, cnt + 1)], PiecesOf(rest, cnt' + 1), Pieces(t, false));
    }
  }

  // ----- the groups that the translation names -----

  lemma PlainNames(c: char, u: string)
    requires c != '\\' && (c == '$' ==> SafeAfterDollar(u))
    ensures MaxName([c] + u, false) == MaxName(u, false)
  {
    hide MaxName;
    var t := [c] + u;
    assert t[1..] == u;
    MaxNameStep(t, false);
    MaxNameStep(u, false);
    if |t| >= 2 { BareToken(t); }
  }

  lemma NameNames(d: string, u: string)
    requires AllDigits(d) && d != "" && Value(d) < WRAP / 2
    ensures MaxName("${" + d + "}" + u, false) == Greater(Value(d), MaxName(u, false))
  {
    hide MaxName, Leading, Value, LeadingDigits;
    var t := "${" + d + "}" + u;
    assert t[2..] == d + ("}" + u) && t[1..] == ("{" + d + "}") + u;
    LeadingAll(d, "}" + u, GroupName);
    assert t[2..2 + |d|] == d && d + "" == d;
    AtolOfDigits(d, "");
    MaxNameStep(t, false);
    PlainNamesNothing("{" + d + "}", u);
  }

  lemma PartNames(p: Part, cnt: nat, u: string, bound: nat)
    requires ProperPart(p) && NamedBelow(p, bound) && (p == Plain('$') ==> SafeAfterDollar(u))
    requires bound > 0 && (p.Wild? ==> bound >= 10 || cnt + 1 < bound)
    ensures MaxName(PartRegex(p, cnt) + u, false) <= Greater(bound - 1, MaxName(u, false))
  {
    hide MaxName, Value;
    BracedText(p);
    match p
    case Plain(c) => if c == '&' { EscapeNames(c, u); } else { PlainNames(c, u); }
    case Escaped(c) => EscapeNames(c, u);
    case Wild(_) => EscapeNames(CountChar(cnt + 1), u);
    case Hex(d) => BracedNames('x', "{" + d + "}", u);
    case Oct(d) => BracedNames('{', d + "}", u);
    case Name(d) => NameNames(d, u);
  }

  lemma {:induction false} PartsName(ps: seq<Part>, cnt: nat, bound: nat)
    requires AllProper(ps) && NoGroupName(ps) && AllBelow(ps, bound)
    requires bound > 0 && (bound >= 10 || cnt + Wilds(ps) < bound)
    ensures MaxName(PartsRegex(ps, cnt), false) < bound
  {
    hide MaxName, PartRegex, NamedBelow, ProperPart;
    if ps == [] {
      MaxNameStep("", false);
    } else {
      var cnt' := if ps[0].Wild? then cnt + 1 else cnt;
      var u := PartsRegex(ps[1..], cnt');
      SafeBehind(ps, cnt', "");
      assert u + "" == u;
      PartNames(ps[0], cnt, u, bound);
      PartsName(ps[1..], cnt', bound);
    }
  }

  // ----- replacements as they are meant -----

  lemma {:induction false} MeaningDone(ps: seq<Piece>, f: Flags, m: Found)
    requires NamesBelow(ps, |m.groups|) && forall i :: 0 <= i < |ps| ==> !ps[i].Beyond?
    ensures Meaning(ps, f, m).end == Done
    decreases |ps|
  {
    hide Intended;
    if ps == [] {
    } else {
      MeaningDone(ps[1..], Intended(ps[0], f, m).1, m);
    }
  }

  /** The match has all groups that the parts name, of which there may be no more than the program has room for. */
  ghost predicate Enough(ps: seq<Part>, m: Found) {
    Wilds(ps) < |m.groups| && AllBelow(ps, |m.groups|) && AllBelow(ps, NUM_REPLACE_ARGS + 1)
  }

  lemma TextExpands(ps: seq<Part>, m: Found)
    requires AllProper(ps) && NoGroupName(ps) && Wilds(ps) <= 9 && Enough(ps, m)
    ensures NamesBelow(PiecesOf(ps, 1), |m.groups|)
    ensures Expand(Replacement(PartsText(ps), 0, false), m) == Expanded(PiecesOf(ps, 1), "", NO_TRANSFORM, m)
  {
    hide Pieces, Expanded, Replacement, PartRegex, PartText, NamedBelow, ProperPart, PieceOf, MaxName;
    var t := PartsRegex(ps, 0);
    TranslateParts(ps, 0);
    PiecesOfParts(ps, 0, "");
    NoPieces();
    assert t + "" == t && PiecesOf(ps, 1) + [] == PiecesOf(ps, 1);
    PartsName(ps, 0, if |m.groups| < NUM_REPLACE_ARGS + 1 then |m.groups| else NUM_REPLACE_ARGS + 1);
    PiecesBelow(ps, 1, |m.groups|);
  }

  /** With at most nine wildcards the expansion puts the text of group n where the n-th wildcard of the replacement
      stood, or where it is named, converts what is behind a case switch, and leaves everything else as written, if
      and only if there are conversions for every text that is appended at once, and none changes what is in front. */
  lemma ReplacementExpands(ps: seq<Part>, m: Found)
    requires ProperParts(ps) && Wilds(ps) <= 9 && Enough(ps, m)
    ensures NamesBelow(PiecesOf(ps, 1), |m.groups|)
    ensures var e := Expand(Replacement(PartsText(ps), 0, false), m);
            && e.end == Done && |e.text| <= |Substituted(ps, m)|
            && (e.text == Substituted(ps, m) <==> AllRight(PiecesOf(ps, 1), "", NO_TRANSFORM, m))
  {
    hide Expand, Expanded, Meaning, AllRight, Separate, PieceOf, NamedBelow, ProperPart;
    TextExpands(ps, m);
    MeaningDone(PiecesOf(ps, 1), NO_TRANSFORM, m);
    NothingCased("", NO_TRANSFORM);
    ExpandedAsMeantIff(PiecesOf(ps, 1), "", NO_TRANSFORM, m);
    assert "" + Substituted(ps, m) == Substituted(ps, m);
  }

  /** The condition on a replacement: no \u or \l without \U or \L in force stands in front of a group, or in front of
      more characters than there are of them, and no \U or \L behind characters that it would change. */
  ghost predicate SteadyParts(ps: seq<Part>)
    requires AllProper(ps)
  {
    Steady(PiecesOf(ps, 1), "", NO_TRANSFORM)
  }

  /** Then it comes out as meant with all groups. */
  lemma SteadyExpands(ps: seq<Part>, m: Found)
    requires ProperParts(ps) && Wilds(ps) <= 9 && Enough(ps, m) && SteadyParts(ps)
    ensures Expand(Replacement(PartsText(ps), 0, false), m) == Expansion(Substituted(ps, m), Done)
  {
    hide Expand, Substituted, Steady, AllRight, ProperPart, NamedBelow, PieceOf, Replacement;
    ReplacementExpands(ps, m);
    SteadyIsRight(PiecesOf(ps, 1), "", NO_TRANSFORM, NO_TRANSFORM, m);
  }

  // ----- one switch in front of a wildcard -----

  /** The parts of the two inputs below. */
  lemma InitialParts()
    ensures var initial, capital := [Escaped('u'), Wild(true)], [Escaped('L'), Escaped('u'), Wild(true)];
            && ProperParts(initial) && PartsText(initial) == "\\u*" && Wilds(initial) == 1
            && PiecesOf(initial, 1) == [Switch('u'), GroupNumber(1)]
            && ProperParts(capital) && PartsText(capital) == "\\L\\u*" && Wilds(capital) == 1
            && PiecesOf(capital, 1) == [Switch('L'), Switch('u'), GroupNumber(1)]
  {
    var wild, initial := [Wild(true)], [Escaped('u'), Wild(true)];
    var capital := [Escaped('L')] + initial;
    assert wild[1..] == [] && initial[1..] == wild && capital[1..] == initial;
    assert PiecesOf(wild, 1) == [GroupNumber(1)];
    assert PiecesOf(initial, 1) == [Switch('u'), GroupNumber(1)];
    assert PiecesOf(capital, 1) == [Switch('L'), Switch('u'), GroupNumber(1)];
    assert PartsText(wild) == "*" && PartsText(initial) == "\\u*" && PartsText(capital) == "\\L\\u*";
    var ps := PiecesOf(capital, 1);
    assert ps[1..] == PiecesOf(initial, 1) && ps[1..][1..] == [GroupNumber(1)] && ps[1..][1..][1..] == [];
  }

  /** An input: "\u*" keeps just the first character of a name. */
  lemma InitialOnly(name: string, m: Found)
    requires |m.groups| == 2 && m.groups[1] == name && name != ""
    ensures var ps := [Escaped('u'), Wild(true)];
            && PartsText(ps) == "\\u*" && ProperParts(ps) && Enough(ps, m)
            && Expand(Replacement("\\u*", 0, false), m) == Expansion([ToUpper(name[0])], Done)
            && Substituted(ps, m) == [ToUpper(name[0])] + name[1..]
  {
    hide Expand, Cased, Appended, ProperParts, PiecesOf, PartsText, Replacement;
    InitialParts();
    var ps := [Escaped('u'), Wild(true)];
    TextExpands(ps, m);
    OneConversion(name, 'u');
    SwitchFirst('u', [GroupNumber(1)], "", m);
    assert [Switch('u')] + [GroupNumber(1)] == [Switch('u'), GroupNumber(1)];
    GroupLast(Switched(NO_TRANSFORM, 'u'), m);
    CopiedWhole("", "");
  }

  /** A group at the end. */
  lemma GroupLast(f: Flags, m: Found)
    requires |m.groups| > 1
    ensures Expanded([GroupNumber(1)], "", f, m) == Expansion(Appended(m.groups[1], f).0, Done)
    ensures Meaning([GroupNumber(1)], f, m) == Expansion(Cased(m.groups[1], f).0, Done)
  {
    hide Cased;
    var ps := [GroupNumber(1)];
    assert ps[1..] == [];
    NothingAppended("", f);
    var (y, h) := Appended(m.groups[1], f);
    NothingExpanded("", h, m);
    NothingAppended(y, h);
    assert "" + y == y;
    var x := Cased(m.groups[1], f).0;
    assert x + "" == x;
  }

  /** The example of the manual: "\L\u*" makes the first letter of a name a capital and the others small. */
  lemma CapitalInitial(name: string, m: Found)
    requires |m.groups| == 2 && m.groups[1] == name
    ensures Expand(Replacement("\\L\\u*", 0, false), m)
         == Expansion(if name == "" then "" else [ToUpper(name[0])] + Small(name[1..]), Done)
  {
    hide Expand, ProperParts, PiecesOf, PartsText, Replacement, Appended;
    InitialParts();
    var ps := [Escaped('L'), Escaped('u'), Wild(true)];
    TextExpands(ps, m);
    var small := Switched(NO_TRANSFORM, 'L');
    var f := Switched(small, 'u');
    SwitchesFirst(m);
    GroupLast(f, m);
    AppendedInFullIff(name, f);
    if name == "" {
    } else {
      SmallCased(name[1..]);
    }
  }

  lemma SwitchesFirst(m: Found)
    requires |m.groups| > 1
    ensures var f := Switched(Switched(NO_TRANSFORM, 'L'), 'u');
            Expanded([Switch('L'), Switch('u'), GroupNumber(1)], "", NO_TRANSFORM, m)
              == Expanded([GroupNumber(1)], "", f, m)
  {
    var f, g := Switched(NO_TRANSFORM, 'L'), Switched(Switched(NO_TRANSFORM, 'L'), 'u');
    var ps := [Switch('L'), Switch('u'), GroupNumber(1)];
    assert ps[1..] == [Switch('u'), GroupNumber(1)] && ps[1..][1..] == [GroupNumber(1)];
    NothingAppended("", f);
    NothingAppended("", g);
    assert Prepend("", Expanded(ps[1..][1..], "", g, m)) == Expanded(ps[1..][1..], "", g, m);
    assert Prepend("", Expanded(ps[1..], "", f, m)) == Expanded(ps[1..], "", f, m);
  }

  function Small(s: string): string {
    if s == "" then "" else [ToLower(s[0])] + Small(s[1..])
  }

  lemma {:induction false} SmallCased(s: string)
    ensures Cased(s, Flags(false, true, false, false)).0 == Small(s)
  {
    if s == "" {
    } else {
      SmallCased(s[1..]);
    }
  }

  // ----- more than nine wildcards -----

  lemma {:induction false} WildsConcat(a: seq<Part>, b: seq<Part>)
    ensures Wilds(a + b) == Wilds(a) + Wilds(b)
  {
    if a == [] {
      assert a + b == b;
    } else {
      assert (a + b)[1..] == a[1..] + b;
      WildsConcat(a[1..], b);
    }
  }

  lemma {:induction false} PartsRegexConcat(a: seq<Part>, b: seq<Part>, cnt: nat)
    ensures PartsRegex(a + b, cnt) == PartsRegex(a, cnt) + PartsRegex(b, cnt + Wilds(a))
  {
    hide PartRegex;
    if a == [] {
      assert a + b == b;
      assert "" + PartsRegex(b, cnt) == PartsRegex(b, cnt);
    } else {
      var cnt' := if a[0].Wild? then cnt + 1 else cnt;
      assert (a + b)[1..] == a[1..] + b;
      PartsRegexConcat(a[1..], b, cnt');
      Assoc(PartRegex(a[0], cnt), PartsRegex(a[1..], cnt'), PartsRegex(b, cnt + Wilds(a)));
    }
  }

  lemma {:induction false} NoNameInPrefix(a: seq<Part>, b: seq<Part>)
    requires NoGroupName(a + b)
    ensures NoGroupName(a)
  {
    if |a| >= 3 {
      assert (a + b)[1..] == a[1..] + b && (a + b)[0] == a[0] && (a + b)[1] == a[1] && (a + b)[2] == a[2];
      NoNameInPrefix(a[1..], b);
    }
  }

  /** What is written for some pieces is written in front of a colon that stands behind them as well. */
  lemma {:induction false} ColonBehind(ps: seq<Piece>, more: seq<Piece>, pending: string, f: Flags, m: Found)
    requires NamesBelow(ps, |m.groups|) && NamesBelow(ps + ([Literal(":")] + more), |m.groups|)
    requires forall i :: 0 <= i < |ps| ==> !ps[i].Beyond?
    ensures Expanded(ps, pending, f, m).end == Done
    ensures Expanded(ps, pending, f, m).text + ":" <= Expanded(ps + ([Literal(":")] + more), pending, f, m).text
    decreases |ps|
  {
    hide Appended, Written;
    var colon := [Literal(":")] + more;
    var all := ps + colon;
    if ps == [] {
      assert all == colon;
      var (x, g) := Appended(pending, f);
      ExpandedStep("", Literal(":"), more, pending, f, m);
      ColonWritten(g, m);
      Begins(Expanded(colon, pending, f, m));
    } else {
      var p := ps[0];
      assert all[0] == p && all[1..] == ps[1..] + colon;
      assert forall i :: 0 <= i < |all| - 1 ==> all[1..][i] == all[i + 1];
      if p.Ordinary? {
        ColonBehind(ps[1..], more, pending + [p.c], f, m);
      } else {
        var (x, g) := Appended(pending, Ahead(p, f));
        var (y, h) := Written(p, g, m);
        ColonBehind(ps[1..], more, "", h, m);
        Assoc(x + y, Expanded(ps[1..], "", h, m).text, ":");
        PrefixBehind(x + y, Expanded(ps[1..], "", h, m).text + ":", Expanded(all[1..], "", h, m).text);
      }
    }
  }

  lemma ColonWritten(f: Flags, m: Found)
    ensures Written(Literal(":"), f, m).0 == ":"
  {
    AppendedInFullIff(":", f);
    CasedOne(':', f);
  }

  lemma PrefixBehind(x: string, s: string, t: string)
    requires s <= t
    ensures x + s <= x + t
  {
  }

  /** The tenth wildcard is replaced by a colon, the character behind '9', in every replacement: what comes of
      the text in front of it comes first, and then the colon. */
  lemma TenthWildcard(before: seq<Part>, star: bool, after: seq<Part>, m: Found)
    requires var ps := before + [Wild(star)] + after;
             AllProper(ps) && NoGroupName(ps) && AllBelow(ps, |m.groups|) && AllBelow(ps, NUM_REPLACE_ARGS + 1)
    requires Wilds(before) == 9 && |m.groups| >= 10
    ensures var e := Expand(Replacement(PartsText(before), 0, false), m);
            && e.end == Done
            && e.text + ":" <= Expand(Replacement(PartsText(before + [Wild(star)] + after), 0, false), m).text
  {
    hide Expanded, Replacement, Pieces, PartRegex, PartText, ProperPart, NamedBelow, NoGroupName, PieceOf, MaxName;
    var ps, more := before + [Wild(star)] + after, [Wild(star)] + after;
    assert ps == before + more && more[1..] == after;
    Slices(before, star, after, m);
    NoNameInPrefix(before, more);
    TextExpands(before, m);
    TranslateParts(ps, 0);
    PartsRegexConcat(before, more, 0);
    var rest := PartsRegex(after, 10);
    var colon := ['\\', ':'] + rest;
    assert PartsRegex(more, 9) == colon by { TenthIsColon(star); }
    PiecesOfParts(before, 0, colon);
    PieceOfEscape(':', rest);
    ColonPiece();
    PartsName(ps, 0, if |m.groups| < NUM_REPLACE_ARGS + 1 then |m.groups| else NUM_REPLACE_ARGS + 1);
    NamesAreCounted(PartsRegex(ps, 0), false, |m.groups|);
    ColonBehind(PiecesOf(before, 1), Pieces(rest, false), "", NO_TRANSFORM, m);
  }

  lemma ColonPiece()
    ensures PieceOf(Escaped(':'), 0) == Literal(":")
  {
  }

  lemma TenthIsColon(star: bool)
    ensures PartRegex(Wild(star), 9) == ['\\', ':']
  {
  }

  lemma Slices(before: seq<Part>, star: bool, after: seq<Part>, m: Found)
    requires var ps := before + [Wild(star)] + after;
             AllProper(ps) && AllBelow(ps, |m.groups|) && AllBelow(ps, NUM_REPLACE_ARGS + 1)
    ensures AllProper(before) && AllBelow(before, |m.groups|) && AllBelow(before, NUM_REPLACE_ARGS + 1)
  {
    hide ProperPart, NamedBelow;
    var ps := before + [Wild(star)] + after;
    assert forall i :: 0 <= i < |before| ==> before[i] == ps[i];
  }

  // ----- what a replacement with more wildcards depends on -----

  /** The expansion uses no groups but those that are named. */
  lemma {:induction false} ExpandedUses(ps: seq<Piece>, pending: string, f: Flags, m: Found, m': Found, n: nat)
    requires NamesBelow(ps, n) && n <= |m.groups| && n <= |m'.groups| && m.isUtf8 == m'.isUtf8
    requires m.groups[..n] == m'.groups[..n]
    ensures Expanded(ps, pending, f, m) == Expanded(ps, pending, f, m')
    decreases |ps|
  {
    hide Appended;
    if ps == [] || ps[0].Beyond? {
    } else if ps[0].Ordinary? {
      ExpandedUses(ps[1..], pending + [ps[0].c], f, m, m', n);
    } else {
      if ps[0].GroupNumber? { assert m.groups[ps[0].k] == m.groups[..n][ps[0].k] == m'.groups[ps[0].k]; }
      var (x, g) := Appended(pending, Ahead(ps[0], f));
      var (y, h) := Written(ps[0], g, m);
      ExpandedUses(ps[1..], "", h, m, m', n);
    }
  }

  /** How long a piece should be. */
  function LengthOf(p: Piece, m: Found): nat
    requires p.GroupNumber? ==> p.k < |m.groups|
  {
    if p.Number? then |Encoded(p.code, m.isUtf8)| else |TextOf(p, m)|
  }

  /** A group that is used somewhere and has a character more makes the meaning longer. */
  lemma {:induction false} MeaningGrows(ps: seq<Piece>, f: Flags, f': Flags, m: Found, m': Found, k: nat)
    requires NamesBelow(ps, |m.groups|) && |m.groups| == |m'.groups| && m.isUtf8 == m'.isUtf8 && k < |m.groups|
    requires forall i :: 0 <= i < |ps| ==> !ps[i].Beyond?
    requires forall i :: 0 <= i < |m.groups| ==> |m'.groups[i]| == |m.groups[i]| + if i == k then 1 else 0
    ensures |Meaning(ps, f, m).text| <= |Meaning(ps, f', m').text|
    ensures GroupNumber(k) in ps ==> |Meaning(ps, f, m).text| < |Meaning(ps, f', m').text|
    decreases |ps|
  {
    hide Encoded, Cased;
    if ps == [] {
    } else {
      assert |Intended(ps[0], f, m).0| == LengthOf(ps[0], m) && |Intended(ps[0], f', m').0| == LengthOf(ps[0], m');
      MeaningGrows(ps[1..], Intended(ps[0], f, m).1, Intended(ps[0], f', m').1, m, m', k);
      assert ps == [ps[0]] + ps[1..];
    }
  }

  /** The n-th wildcard stands for group n. */
  lemma {:induction false} WildIsNamed(ps: seq<Part>, n: nat, k: nat)
    requires AllProper(ps) && n <= k < n + Wilds(ps)
    ensures GroupNumber(k) in PiecesOf(ps, n)
  {
    hide ProperPart;
    var all := PiecesOf(ps, n);
    if ps[0].Wild? && n == k {
      assert all[0] == GroupNumber(k);
    } else {
      var n' := if ps[0].Wild? then n + 1 else n;
      WildIsNamed(ps[1..], n', k);
      assert all[1..] == PiecesOf(ps[1..], n');
      assert forall i :: 0 <= i < |all| - 1 ==> all[1..][i] == all[i + 1];
    }
  }

  /** With more than nine wildcards group 10 is meant, but the expansion does not depend on it. */
  lemma TenthIsIgnored(ps: seq<Part>) returns (m: Found)
    requires ProperParts(ps) && AllBelow(ps, 10) && Wilds(ps) > 9
    ensures |m.groups| == Wilds(ps) + 1 && AllBelow(ps, |m.groups|)
    ensures Expand(Replacement(PartsText(ps), 0, false), m) != Expansion(Substituted(ps, m), Done)
  {
    hide Replacement, Expanded, Pieces, Meaning, MaxName, ProperPart, PieceOf, Separate, NoGroupName, NamedBelow,
      PartRegex, PartText;
    var n := Wilds(ps) + 1;
    var empty, longer := Found(seq(n, _ => ""), false), Found(seq(n, i => if i == 10 then "." else ""), false);
    var t := PartsRegex(ps, 0);
    TranslateParts(ps, 0);
    BelowMore(ps, n);
    PartsName(ps, 0, 10);
    NamesAreCounted(t, false, 10);
    assert empty.groups[..10] == longer.groups[..10];
    ExpandedUses(Pieces(t, false), "", NO_TRANSFORM, empty, longer, 10);
    PiecesBelow(ps, 1, n);
    WildIsNamed(ps, 1, 10);
    MeaningGrows(PiecesOf(ps, 1), NO_TRANSFORM, NO_TRANSFORM, empty, longer, 10);
    assert |Substituted(ps, empty)| < |Substituted(ps, longer)|;
    assert Expand(t, empty) == Expand(t, longer);
    m := if Expand(t, empty) == Expansion(Substituted(ps, empty), Done) then longer else empty;
  }

  lemma BelowMore(ps: seq<Part>, n: nat)
    requires AllBelow(ps, 10) && n >= 10
    ensures AllBelow(ps, n)
  {
    hide Value;
  }

  /** A replacement that names no group beyond 9 by a number comes out as meant with all groups if and only if it
      has at most nine wildcards and its conversions are steady. */
  lemma NineIsTheMost(ps: seq<Part>)
    requires ProperParts(ps) && AllBelow(ps, 10)
    ensures (forall m: Found :: |m.groups| >= 10 && |m.groups| > Wilds(ps) ==>
               AllBelow(ps, |m.groups|)
               && Expand(Replacement(PartsText(ps), 0, false), m) == Expansion(Substituted(ps, m), Done))
       <==> Wilds(ps) <= 9 && SteadyParts(ps)
  {
    hide Expand, Substituted, Replacement, PartsText, AllRight, Steady, ProperPart, PieceOf, NamedBelow, Separate;
    if Wilds(ps) > 9 {
      var m := TenthIsIgnored(ps);
    } else if SteadyParts(ps) {
      forall m: Found | |m.groups| >= 10 && |m.groups| > Wilds(ps)
        ensures AllBelow(ps, |m.groups|)
        ensures Expand(Replacement(PartsText(ps), 0, false), m) == Expansion(Substituted(ps, m), Done)
      {
        BelowMore(ps, |m.groups|);
        BelowMore(ps, NUM_REPLACE_ARGS + 1);
        SteadyExpands(ps, m);
      }
    } else {
      var m := Found(seq(10, _ => "..."), false);
      BelowMore(ps, NUM_REPLACE_ARGS + 1);
      ReplacementExpands(ps, m);
      if AllRight(PiecesOf(ps, 1), "", NO_TRANSFORM, m) { RightIsSteady(PiecesOf(ps, 1), "", NO_TRANSFORM, m); }
      assert |m.groups| >= 10;
    }
  }

  // ----- ten asterisks -----

  function Stars(n: nat): seq<Part> {
    if n == 0 then [] else [Wild(true)] + Stars(n - 1)
  }

  function Joined(gs: seq<string>): string {
    if gs == [] then "" else gs[0] + Joined(gs[1..])
  }

  function Groups(n: nat, k: nat): seq<Piece> {
    if n == 0 then [] else [GroupNumber(k)] + Groups(n - 1, k + 1)
  }

  lemma {:induction false} StarsAre(n: nat, k: nat)
    ensures Wilds(Stars(n)) == n && PartsText(Stars(n)) == seq(n, _ => '*')
    ensures AllProper(Stars(n)) && NoGroupName(Stars(n)) && PiecesOf(Stars(n), k) == Groups(n, k)
  {
    if n > 0 {
      StarsAre(n - 1, k + 1);
      assert Stars(n)[1..] == Stars(n - 1);
    }
  }

  lemma {:induction false} StarsRegex(n: nat, cnt: nat)
    ensures PartsRegex(Stars(n + 1), cnt) == PartsRegex(Stars(n), cnt) + PartRegex(Wild(true), cnt + n)
  {
    hide PartRegex;
    if n == 0 {
      assert Stars(1) == [Wild(true)] + [] && Stars(1)[1..] == [];
      assert "" + PartRegex(Wild(true), cnt) == PartRegex(Wild(true), cnt) == PartRegex(Wild(true), cnt) + "";
    } else {
      StarsRegex(n - 1, cnt + 1);
      assert Stars(n)[1..] == Stars(n - 1) && Stars(n + 1)[1..] == Stars(n);
      Assoc(PartRegex(Wild(true), cnt), PartsRegex(Stars(n - 1), cnt + 1), PartRegex(Wild(true), cnt + n));
    }
  }

  lemma GroupFirst(k: nat, more: seq<Piece>, m: Found)
    requires k < |m.groups| && NamesBelow(more, |m.groups|)
    ensures NamesBelow([GroupNumber(k)] + more, |m.groups|)
    ensures Expanded([GroupNumber(k)] + more, "", NO_TRANSFORM, m)
         == Prepend(m.groups[k], Expanded(more, "", NO_TRANSFORM, m))
  {
    var all := [GroupNumber(k)] + more;
    assert all[1..] == more && all[0] == GroupNumber(k);
    assert Appended("", NO_TRANSFORM) == ("", NO_TRANSFORM) && "" + m.groups[k] == m.groups[k];
  }

  lemma {:induction false} GroupsExpanded(n: nat, k: nat, m: Found)
    requires k + n <= |m.groups|
    ensures NamesBelow(Groups(n, k) + [Literal(":")], |m.groups|)
    ensures Expanded(Groups(n, k) + [Literal(":")], "", NO_TRANSFORM, m)
         == Expansion(Joined(m.groups[k..k + n]) + ":", Done)
  {
    var all := Groups(n, k) + [Literal(":")];
    if n == 0 {
      assert all == [Literal(":")] && all[1..] == [];
      NothingExpanded("", NO_TRANSFORM, m);
      assert "" + ":" + "" == ":";
    } else {
      hide Expanded;
      GroupsExpanded(n - 1, k + 1, m);
      var more := Groups(n - 1, k + 1) + [Literal(":")];
      assert all == [GroupNumber(k)] + more;
      GroupFirst(k, more, m);
      assert m.groups[k..k + n][1..] == m.groups[k + 1..k + n];
      Assoc(m.groups[k], Joined(m.groups[k + 1..k + n]), ":");
    }
  }

  /** An input: with ten asterisks the tenth group is not used, and a colon stands in its place. */
  lemma TenAsterisks(m: Found)
    requires |m.groups| > 10
    ensures Expand(Replacement("**********", 0, false), m) == Expansion(Joined(m.groups[1..10]) + ":", Done)
  {
    hide Expanded, Replacement, Stars, Groups, Pieces, PartsRegex, PartsText, PartRegex, Wilds, NoGroupName, ProperPart,
      Joined, MaxName;
    StarsAre(9, 1);
    StarsAre(10, 1);
    StarsRegex(9, 0);
    assert PartsText(Stars(10)) == "**********";
    TranslateParts(Stars(10), 0);
    TenthIsColon(true);
    PiecesOfParts(Stars(9), 0, "\\:");
    PieceOfEscape(':', "");
    ColonPiece();
    NoPieces();
    assert "\\:" + "" == "\\:" && ['\\', ':'] == "\\:" && [Literal(":")] + [] == [Literal(":")];
    assert AllBelow(Stars(10), 10) by { StarsBelow(10); }
    PartsName(Stars(10), 0, 10);
    GroupsExpanded(9, 1, m);
  }

  lemma {:induction false} StarsBelow(n: nat)
    ensures AllBelow(Stars(n), 10)
  {
    if n > 0 { StarsBelow(n - 1); }
  }
}
