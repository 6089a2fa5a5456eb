/** The expansion of a replacement text with the groups of a match (lib/search/regex.c). Characters are bytes. */
module RegexReplace {
  import opened Numbers
  import Glob
  import opened Regex
  import opened Sequences
  import opened Wrappers

  // ----- case conversions -----

  /** The conversions in force: of all that follows, and of the next character, which are the stronger. */
  datatype Flags = Flags(upper: bool, lower: bool, nextUpper: bool, nextLower: bool)

  const NO_TRANSFORM := Flags(false, false, false, false)

  function ToUpper(c: char): char {
    if 'a' <= c <= 'z' then (c as int - 32) as char else c
  }

  function ToLower(c: char): char {
    if 'A' <= c <= 'Z' then (c as int + 32) as char else c
  }

  function CasedChar(c: char, f: Flags): (char, Flags) {
    if f.nextUpper then (ToUpper(c), f.(nextUpper := false))
    else if f.nextLower then (ToLower(c), f.(nextLower := false))
    else if f.upper then (ToUpper(c), f)
    else if f.lower then (ToLower(c), f)
    else (c, f)
  }

  /** A text with its conversions, every character of it. */
  function Cased(s: string, f: Flags): (r: (string, Flags))
    ensures |r.0| == |s|
  {
    if s == "" then ("", f)
    else
      var (c, g) := CasedChar(s[0], f);
      var (rest, h) := Cased(s[1..], g);
      ([c] + rest, h)
  }

  /** What the loop of the program writes: a character for which no conversion is left goes nowhere. */
  function Converted(s: string, f: Flags): (string, Flags) {
    if s == "" || f == NO_TRANSFORM then ("", f)
    else
      var (c, g) := CasedChar(s[0], f);
      var (rest, h) := Converted(s[1..], g);
      ([c] + rest, h)
  }

  /** What one call appends. */
  function Appended(s: string, f: Flags): (string, Flags) {
    if f == NO_TRANSFORM then (s, f) else Converted(s, f)
  }

  method ProcessAppendStr(dest: string, from: string, flags: Flags) returns (r: string, f: Flags)
    ensures r == dest + Appended(from, flags).0 && f == Appended(from, flags).1
  {
    if flags == NO_TRANSFORM {
      return dest + from, flags;
    }
    r, f := dest, flags;
    assert from[0..] == from;
    for loop := 0 to |from|
      invariant r + Converted(from[loop..], f).0 == dest + Converted(from, flags).0
      invariant Converted(from[loop..], f).1 == Converted(from, flags).1
    {
      var c := from[loop];
      assert from[loop..][1..] == from[loop + 1..];
      ghost var before, rest := r, Converted(from[loop + 1..], CasedChar(c, f).1).0;
      Assoc(before, [CasedChar(c, f).0], rest);
      if f.nextUpper {
        f := f.(nextUpper := false);
        r := r + [ToUpper(c)];
      } else if f.nextLower {
        f := f.(nextLower := false);
        r := r + [ToLower(c)];
      } else if f.upper {
        r := r + [ToUpper(c)];
      } else if f.lower {
        r := r + [ToLower(c)];
      }
    }
  }

  lemma {:induction false} CasedConcat(s: string, t: string, f: Flags)
    ensures Cased(s + t, f) == (Cased(s, f).0 + Cased(t, Cased(s, f).1).0, Cased(t, Cased(s, f).1).1)
  {
    if s == "" {
      assert s + t == t && "" + Cased(t, f).0 == Cased(t, f).0;
    } else {
      var (c, g) := CasedChar(s[0], f);
      assert (s + t)[1..] == s[1..] + t;
      CasedConcat(s[1..], t, g);
      Assoc([c], Cased(s[1..], g).0, Cased(t, Cased(s[1..], g).1).0);
    }
  }

  lemma {:induction false} CasedAsWritten(s: string)
    ensures Cased(s, NO_TRANSFORM) == (s, NO_TRANSFORM)
  {
    if s == "" {
    } else {
      CasedAsWritten(s[1..]);
      assert [s[0]] + s[1..] == s;
    }
  }

  /** A conversion of all that follows is in force. */
  predicate Lasting(f: Flags) {
    f.upper || f.lower
  }

  /** How many characters the conversions of one character are for. */
  function Ones(f: Flags): nat {
    (if f.nextUpper then 1 else 0) + (if f.nextLower then 1 else 0)
  }

  /** There is a conversion for each of n characters, or none at all. */
  predicate Covers(f: Flags, n: nat) {
    f == NO_TRANSFORM || Lasting(f) || n <= Ones(f)
  }

  /** One call uses up the conversions as it should. It writes the text in full if and only if none is in force,
      or a lasting one, or the text is no longer than there are conversions of one character; else it writes
      just as many characters as those. */
  lemma AppendedInFullIff(s: string, f: Flags)
    ensures Appended(s, f).1 == Cased(s, f).1
    ensures Appended(s, f).0 == Cased(s, f).0 <==> Covers(f, |s|)
    ensures !Covers(f, |s|) ==> Appended(s, f).0 == Cased(s, f).0[..Ones(f)]
  {
    if f == NO_TRANSFORM {
      CasedAsWritten(s);
    } else {
      ConvertedIs(s, f);
    }
  }

  lemma {:induction false} ConvertedIs(s: string, f: Flags)
    ensures Converted(s, f).1 == Cased(s, f).1
    ensures Lasting(f) ==> Converted(s, f) == Cased(s, f)
    ensures !Lasting(f) ==> Converted(s, f).0 == Cased(s, f).0[..if |s| <= Ones(f) then |s| else Ones(f)]
  {
    if s == "" {
    } else if f == NO_TRANSFORM {
      CasedAsWritten(s);
    } else {
      ConvertedIs(s[1..], CasedChar(s[0], f).1);
    }
  }

  predicate CaseSwitch(c: char) {
    c == 'U' || c == 'u' || c == 'L' || c == 'l' || c == 'E'
  }

  function Switched(f: Flags, c: char): Flags {
    match c
    case 'U' => f.(upper := true, lower := false)
    case 'u' => f.(nextUpper := true)
    case 'L' => f.(upper := false, lower := true)
    case 'l' => f.(nextLower := true)
    case 'E' => NO_TRANSFORM
    case _ => f
  }

  // ----- characters given by their number -----

  datatype Digits = Octal | Hexadecimal | GroupName

  /** The digits of a group name are the sixteen characters from '0' on. */
  predicate Within(d: Digits, c: char) {
    match d
    case Octal => '0' <= c <= '7'
    case Hexadecimal => IsHexDigit(c)
    case GroupName => '0' <= c <= '?'
  }

  /** How many digits s starts with. */
  function Leading(s: string, d: Digits): (n: nat)
    ensures n <= |s| && (forall i :: 0 <= i < n ==> Within(d, s[i])) && (n < |s| ==> !Within(d, s[n]))
  {
    if s == "" || !Within(d, s[0]) then 0 else Leading(s[1..], d) + 1
  }

  const WRAP := 0x1_0000_0000

  ghost predicate AllWithin(d: Digits, s: string) {
    forall i :: 0 <= i < |s| ==> Within(d, s[i])
  }

  /** The number that octal or hexadecimal digits denote. */
  function NumberOf(s: string, d: Digits): nat
    requires d != GroupName && AllWithin(d, s)
  {
    if s == "" then 0
    else NumberOf(s[..|s| - 1], d) * (if d == Octal then 8 else 16) + HexValue(s[|s| - 1])
  }

  function ControlCharacter(c: char): Option<char> {
    match c
    case 'n' => Some('\n')
    case 't' => Some('\t')
    case 'v' => Some('\U{000B}')
    case 'b' => Some('\U{0008}')
    case 'r' => Some('\r')
    case 'f' => Some('\U{000C}')
    case 'a' => Some('\U{0007}')
    case _ => None
  }

  /** The bytes of a character: its number cut to a byte, or what should be UTF-8. */
  function Encoded(c: nat, isUtf8: bool): string {
    if c < 0x80 || !isUtf8 then [(c % 256) as char]
    else if c < 0x800 then [(0xC0 + c / 0x40) as char, (0x80 + c % 0x40) as char]
    else if c < 0x1_0000 then
      [(0xE0 + c / 0x1000) as char, (0x80 + c / 0x40 % 0x40) as char, (0x80 + c % 0x40) as char]
    else if c < 0x10_FFFF then
      [(0xF0 + c / 0x1_0000 % 0x10) as char, (0x80 + c / 0x1000 % 0x40) as char, (0x80 + c / 0x40 % 0x40) as char,
       (0x80 + c % 0x40) as char]
    else ""
  }

  // ----- the pieces of a replacement -----

  /** What the program takes a place of the replacement for. An ordinary character is kept for later; behind an
      escape that runs over the end of the text, and for a group number of more than 31 bits, nothing is said. */
  datatype Piece =
    | Ordinary(c: char)
    | Literal(text: string)
    | Number(code: nat)
    | Switch(c: char)
    | GroupNumber(k: nat)
    | Beyond

  /** The match: its groups, with the whole of it as number 0, and whether the text is UTF-8. */
  datatype Found = Found(groups: seq<string>, isUtf8: bool)

  /** What follows a backslash: an escape sequence, a text that stands for itself, or neither, where the length
      counts the digits that were passed. */
  datatype Sight = Sequence(len: nat) | AsIs(len: nat) | Passed(len: nat)

  function EscSeq(t: string): (r: Sight)
    requires |t| >= 2
    ensures r.len <= |t| && (!r.Passed? ==> r.len >= 2)
  {
    if |t| > 2 && t[1] == '{' then
      var n := 2 + Leading(t[2..], Octal);
      if n < |t| && t[n] == '}' then Sequence(n + 1) else Passed(n)
    else if |t| > 2 && t[1] == 'x' then
      if t[2] == '{' then
        var n := 3 + Leading(t[3..], Hexadecimal);
        if n < |t| && t[n] == '}' then Sequence(n + 1) else Passed(n)
      else if !IsHexDigit(t[2]) then AsIs(2)
      else Sequence(if |t| > 3 && IsHexDigit(t[3]) then 4 else 3)
    else if ControlCharacter(t[1]).Some? then Sequence(2)
    else Passed(0)
  }

  /** What is written for an escape sequence, given without its backslash. */
  function SequencePiece(from: string): (p: Piece)
    ensures p.Number? || p.Literal?
  {
    var s := if from != "" && from[0] == '{' then from[1..] else from;
    if s == "" then Literal("")
    else if s[0] == 'x' then
      var d := if |s| > 1 && s[1] == '{' then s[2..] else s[1..];
      Number(NumberOf(d[..Leading(d, Hexadecimal)], Hexadecimal) % WRAP)
    else if Within(Octal, s[0]) then Number(NumberOf(s[..Leading(s, Octal)], Octal) % WRAP)
    else if ControlCharacter(s[0]).Some? then Number(ControlCharacter(s[0]).value as nat)
    else Literal(from)
  }

  /** atoi: the conversion to an int keeps the last 32 bits. */
  function Atoi(s: string): int {
    var n := Atol(s) % WRAP;
    if n < WRAP / 2 then n else n - WRAP
  }

  /** "${" with a digit of a group name. */
  predicate NamesGroup(t: string) {
    |t| > 2 && t[0] == '$' && t[1] == '{' && Within(GroupName, t[2])
  }

  /** The piece that t starts with, and its length; escaped says that an odd run of backslashes stands in front
      of t. */
  function Token(t: string, escaped: bool): (r: (Piece, nat))
    requires |t| >= 2
    ensures 1 <= r.1 <= |t|
  {
    if NamesGroup(t) then
      var n := Leading(t[2..], GroupName);
      if escaped then (Literal(""), 1)
      else if 2 + n >= |t| || t[2 + n] != '}' then (Literal(t[1..n]), n)
      else
        var k := Atoi(t[2..2 + n]);
        (if k >= 0 then GroupNumber(k) else Beyond, n + 3)
    else if t[0] != '\\' then (Ordinary(t[0]), 1)
    else if escaped then (Literal(""), 1)
    else if IsDigit(t[1]) then (GroupNumber(DigitValue(t[1])), 2)
    else
      match EscSeq(t)
      case Sequence(n) => (SequencePiece(t[1..n]), n)
      case AsIs(n) => (Literal(t[1..n]), n)
      case Passed(n) =>
        if CaseSwitch(t[1]) then (Switch(t[1]), 2)
        else if n + 2 <= |t| then (Literal(t[1..n + 2]), n + 2)
        else (Beyond, 1)
  }

  /** Whether an odd run of backslashes ends with s. */
  function EscapedAfter(s: string, escaped: bool): bool {
    if s == "" then escaped else EscapedAfter(s[1..], s[0] == '\\' && !escaped)
  }

  /** The last character is always an ordinary one. */
  function Pieces(t: string, escaped: bool): seq<Piece>
    decreases |t|
  {
    if t == "" then []
    else if |t| == 1 then [Ordinary(t[0])]
    else
      var (p, n) := Token(t, escaped);
      if p.Beyond? then [p] else [p] + Pieces(t[n..], EscapedAfter(t[..n], escaped))
  }

  // ----- the groups that are named -----

  function Greater(m: nat, n: nat): nat {
    if m < n then n else m
  }

  /** The group that is named at the beginning of t, 0 if there is none. */
  function NameAt(t: string, escaped: bool): nat
    requires |t| >= 2
  {
    if escaped then 0
    else if t[0] == '\\' && IsDigit(t[1]) then DigitValue(t[1])
    else if t[0] == '$' && t[1] == '{' then
      var n := Leading(t[2..], GroupName);
      if 2 + n < |t| && t[2 + n] == '}' && Atoi(t[2..2 + n]) > 0 then Atoi(t[2..2 + n]) else 0
    else 0
  }

  /** The biggest number of a group that is named anywhere. */
  function MaxName(t: string, escaped: bool): nat {
    if |t| <= 1 then 0 else Greater(NameAt(t, escaped), MaxName(t[1..], t[0] == '\\' && !escaped))
  }

  const NUM_REPLACE_ARGS := 64

  /** The match has all groups that t names. */
  predicate GroupsThere(t: string, m: Found) {
    MaxName(t, false) < |m.groups| && MaxName(t, false) <= NUM_REPLACE_ARGS
  }

  ghost predicate NamesBelow(ps: seq<Piece>, n: nat) {
    forall i :: 0 <= i < |ps| ==> (ps[i].GroupNumber? ==> ps[i].k < n)
  }

  /** No piece names a group that was not counted: the test of the group number in the main loop cannot fail. */
  lemma {:induction false} NamesAreCounted(t: string, escaped: bool, n: nat)
    ensures MaxName(t, escaped) < n ==> NamesBelow(Pieces(t, escaped), n)
    decreases |t|
  {
    hide Token, MaxName;
    if MaxName(t, escaped) < n && |t| >= 2 {
      var (p, k) := Token(t, escaped);
      TokenIsCounted(t, escaped);
      RestIsCounted(t, escaped, k);
      NamesAreCounted(t[k..], EscapedAfter(t[..k], escaped), n);
    }
  }

  lemma TokenIsCounted(t: string, escaped: bool)
    requires |t| >= 2
    ensures var p := Token(t, escaped).0; p.GroupNumber? ==> p.k <= NameAt(t, escaped) <= MaxName(t, escaped)
  {
    hide Leading, EscSeq, Atoi;
  }

  lemma {:induction false} RestIsCounted(t: string, escaped: bool, k: nat)
    requires k <= |t|
    ensures MaxName(t[k..], EscapedAfter(t[..k], escaped)) <= MaxName(t, escaped)
    decreases k
  {
    hide NameAt;
    if k == 0 {
      assert t[0..] == t;
    } else {
      assert t[..k][1..] == t[1..][..k - 1] && t[k..] == t[1..][k - 1..];
      RestIsCounted(t[1..], t[0] == '\\' && !escaped, k - 1);
    }
  }

  // ----- the expansion -----

  datatype End = Done | NoGroup | Unsaid

  /** The text so far, and whether it is all: a group may not be there, where the program gives no text, or
      nothing may be said of what follows. */
  datatype Expansion = Expansion(text: string, end: End)

  function Prepend(x: string, e: Expansion): Expansion {
    e.(text := x + e.text)
  }

  /** A switch is in force at once. */
  function Ahead(p: Piece, f: Flags): Flags {
    if p.Switch? then Switched(f, p.c) else f
  }

  /** The text of a piece, before conversions. */
  function TextOf(p: Piece, m: Found): string
    requires p.GroupNumber? ==> p.k < |m.groups|
  {
    match p
    case Ordinary(c) => [c]
    case Literal(text) => text
    case GroupNumber(k) => m.groups[k]
    case _ => ""
  }

  /** What is written for a piece that is no ordinary character, with the conversions that are then in force. */
  function Written(p: Piece, f: Flags, m: Found): (string, Flags)
    requires p.GroupNumber? ==> p.k < |m.groups|
  {
    if p.Number? then (Encoded(p.code, m.isUtf8), f) else Appended(TextOf(p, m), f)
  }

  /** The pieces behind ordinary characters that are not written yet. Those are written with the conversions that
      are in force after what comes next. */
  function Expanded(ps: seq<Piece>, pending: string, f: Flags, m: Found): Expansion
    requires NamesBelow(ps, |m.groups|)
  {
    if ps == [] then Expansion(Appended(pending, f).0, Done)
    else if ps[0].Ordinary? then Expanded(ps[1..], pending + [ps[0].c], f, m)
    else if ps[0].Beyond? then Expansion(Appended(pending, f).0, Unsaid)
    else
      var (x, g) := Appended(pending, Ahead(ps[0], f));
      var (y, h) := Written(ps[0], g, m);
      Prepend(x + y, Expanded(ps[1..], "", h, m))
  }

  function Expand(t: string, m: Found): Expansion {
    NamesAreCounted(t, false, |m.groups|);
    if GroupsThere(t, m) then Expanded(Pieces(t, false), "", NO_TRANSFORM, m) else Expansion("", NoGroup)
  }

  lemma PrependTwice(x: string, y: string, e: Expansion)
    ensures Prepend(x, Prepend(y, e)) == Prepend(x + y, e)
  {
    Assoc(x, y, e.text);
  }

  // ----- the loops of the program -----

  predicate Odd(str: string, i: nat)
    requires i <= |str|
  {
    Glob.BackslashRun(str, i) % 2 == 1
  }

  lemma {:induction false} OddAfter(str: string, i: nat, j: nat)
    requires i <= j <= |str|
    ensures EscapedAfter(str[i..j], Odd(str, i)) == Odd(str, j)
    decreases j - i
  {
    if i < j {
      assert str[i..j][1..] == str[i + 1..j];
      OddAfter(str, i + 1, j);
    }
  }

  /** Passes digits. */
  method PassDigits(str: string, start: nat, d: Digits) returns (i: nat)
    requires start <= |str|
    ensures i == start + Leading(str[start..], d) <= |str|
  {
    i := start;
    while i < |str| && Within(d, str[i])
      invariant start <= i <= |str| && i + Leading(str[i..], d) == start + Leading(str[start..], d)
    {
      assert str[i..][1..] == str[i + 1..];
      i := i + 1;
    }
  }

  method ReplaceHandleEscSeq(str: string, pos: nat) returns (r: Sight)
    requires pos + 1 < |str|
    ensures r == EscSeq(str[pos..])
  {
    ghost var t := str[pos..];
    assert t[2..] == str[pos + 2..];
    var c := str[pos + 1];
    if |str| > pos + 2 {
      if c == '{' {
        var i := PassDigits(str, pos + 2, Octal);
        if i < |str| && str[i] == '}' { return Sequence(i + 1 - pos); }
        return Passed(i - pos);
      }
      if c == 'x' {
        c := str[pos + 2];
        if c == '{' {
          assert t[3..] == str[pos + 3..];
          var i := PassDigits(str, pos + 3, Hexadecimal);
          if i < |str| && str[i] == '}' { return Sequence(i + 1 - pos); }
          return Passed(i - pos);
        } else if !IsHexDigit(c) {
          return AsIs(2);
        } else if |str| > pos + 3 && IsHexDigit(str[pos + 3]) {
          return Sequence(4);
        }
        return Sequence(3);
      }
    }
    if ControlCharacter(c).Some? { return Sequence(2); }
    return Passed(0);
  }

  /** What the program finds at a place: a group has its number as an int. */
  datatype Kind = NothingSpecial | ReplaceFlag | EscapeSeq | Capture(k: int)

  /** What kind and length say of the piece. */
  predicate Stands(kind: Kind, len: nat, t: string, escaped: bool)
    requires |t| >= 2
  {
    var (p, n) := Token(t, escaped);
    match kind
    case NothingSpecial =>
      if len == 0 then p == Ordinary(t[0]) && n == 1
      else if len <= |t| then p == Literal(t[1..len]) && n == len
      else p == Beyond
    case ReplaceFlag => p.Switch? && n == len
    case EscapeSeq => len <= |t| && len >= 2 && p == SequencePiece(t[1..len]) && n == len
    case Capture(k) => if k >= 0 then p == GroupNumber(k) && n == len else p == Beyond
  }

  method ProcessReplaceStr(str: string, pos: nat, flags: Flags) returns (kind: Kind, len: nat, f: Flags)
    requires pos + 1 < |str|
    ensures Stands(kind, len, str[pos..], Odd(str, pos))
    ensures f == Ahead(Token(str[pos..], Odd(str, pos)).0, flags)
  {
    hide Leading, EscSeq, Atoi;
    ghost var t := str[pos..];
    var escaped := Glob.IsCharEscaped(str, pos);
    if |str| > pos + 2 && str[pos] == '$' && str[pos + 1] == '{' && Within(GroupName, str[pos + 2]) {
      assert NamesGroup(t);
      if escaped { return NothingSpecial, 1, flags; }
      assert t[2..] == str[pos + 2..];
      var i := PassDigits(str, pos + 2, GroupName);
      SomeLeading(t[2..], GroupName);
      len := i - pos - 2;
      if i == |str| || str[i] != '}' { return NothingSpecial, len, flags; }
      assert str[pos + 2..i] == t[2..2 + len];
      return Capture(Atoi(str[pos + 2..i])), len + 3, flags;
    }
    if str[pos] != '\\' { return NothingSpecial, 0, flags; }
    if escaped { return NothingSpecial, 1, flags; }
    if IsDigit(str[pos + 1]) { return Capture(DigitValue(str[pos + 1])), 2, flags; }
    var sight := ReplaceHandleEscSeq(str, pos);
    match sight
    case Sequence(n) => return EscapeSeq, n, flags;
    case AsIs(n) => return NothingSpecial, n, flags;
    case Passed(n) =>
      var c := str[pos + 1];
      if CaseSwitch(c) { return ReplaceFlag, 2, Switched(flags, c); }
      return NothingSpecial, n + 2, flags;
  }

  lemma SomeLeading(s: string, d: Digits)
    requires s != "" && Within(d, s[0])
    ensures Leading(s, d) > 0
  {
  }

  /** The number of the digits at i, cut to 32 bits. */
  method ReadNumber(from: string, start: nat, d: Digits) returns (c: nat)
    requires d != GroupName && start <= |from|
    ensures var s := from[start..]; c == NumberOf(s[..Leading(s, d)], d) % WRAP
  {
    hide NumberOf, OneMore, Leading;
    ghost var s := from[start..];
    var i := start;
    c := 0;
    NoDigits(d);
    LeadingStep(from, i, d);
    while i < |from| && Within(d, from[i])
      invariant start <= i <= |from| && i - start + Leading(from[i..], d) == Leading(s, d)
      invariant c == NumberOf(s[..i - start], d) % WRAP
    {
      LeadingStep(from, i, d);
      OneDigit(s[..i - start], from[i], d);
      assert s[..i - start + 1] == s[..i - start] + [from[i]];
      c := OneMore(c, from[i], d);
      i := i + 1;
    }
    LeadingStep(from, i, d);
  }

  lemma LeadingStep(s: string, i: nat, d: Digits)
    requires i <= |s|
    ensures Leading(s[i..], d) == if i < |s| && Within(d, s[i]) then 1 + Leading(s[i + 1..], d) else 0
  {
    if i < |s| { assert s[i..][1..] == s[i + 1..]; }
  }

  /** A digit more, in 32 bits. */
  function OneMore(n: nat, c: char, d: Digits): nat
    requires d != GroupName && Within(d, c)
  {
    (n * (if d == Octal then 8 else 16) + HexValue(c)) % WRAP
  }

  lemma NoDigits(d: Digits)
    requires d != GroupName
    ensures NumberOf("", d) == 0
  {
  }

  lemma OneDigit(s: string, c: char, d: Digits)
    requires d != GroupName && AllWithin(d, s) && Within(d, c)
    ensures NumberOf(s + [c], d) % WRAP == OneMore(NumberOf(s, d) % WRAP, c, d)
  {
    NumberSnoc(s, c, d);
    var n := NumberOf(s, d);
    Wrapped(n, if d == Octal then 8 else 16, HexValue(c));
  }

  lemma Wrapped(n: nat, b: nat, v: nat)
    ensures (n % WRAP * b + v) % WRAP == (n * b + v) % WRAP
  {
    var q, r := n / WRAP, n % WRAP;
    assert n * b == q * b * WRAP + r * b;
    Multiples(q * b, r * b + v);
  }

  lemma NumberSnoc(s: string, c: char, d: Digits)
    requires d != GroupName && AllWithin(d, s) && Within(d, c)
    ensures NumberOf(s + [c], d) == NumberOf(s, d) * (if d == Octal then 8 else 16) + HexValue(c)
  {
    assert (s + [c])[..|s|] == s;
  }

  lemma Multiples(k: nat, n: nat)
    ensures (k * WRAP + n) % WRAP == n % WRAP
  {
    var q := n / WRAP;
    assert k * WRAP + n == (k + q) * WRAP + n % WRAP;
  }

  /** Appends what an escape sequence stands for, given without its backslash. */
  method ProcessEscapeSequence(dest: string, from: string, flags: Flags, isUtf8: bool)
    returns (r: string, f: Flags)
    ensures (r, f) == var (y, h) := Written(SequencePiece(from), flags, Found([], isUtf8)); (dest + y, h)
  {
    hide Leading, NumberOf, Encoded, Appended;
    if from == "" {
      NothingAppended(dest, flags);
      return dest, flags;
    }
    var i := if from[0] == '{' then 1 else 0;
    if i >= |from| {
      NothingAppended(dest, flags);
      return dest, flags;
    }
    ghost var s := from[i..];
    var c;
    if from[i] == 'x' {
      i := i + 1;
      if i < |from| && from[i] == '{' { i := i + 1; }
      assert from[i..] == if |s| > 1 && s[1] == '{' then s[2..] else s[1..];
      c := ReadNumber(from, i, Hexadecimal);
    } else if Within(Octal, from[i]) {
      c := ReadNumber(from, i, Octal);
    } else {
      match ControlCharacter(from[i])
      case Some(d) => c := d as nat;
      case None =>
        r, f := ProcessAppendStr(dest, from, flags);
        return;
    }
    return dest + Encoded(c, isUtf8), flags;
  }

  lemma NothingAppended(dest: string, f: Flags)
    ensures Appended("", f) == ("", f) && dest + "" == dest
  {
  }

  method GetMaxNumOfReplaceTokens(str: string) returns (maxToken: nat)
    requires str != ""
    ensures maxToken == MaxName(str, false)
  {
    hide Leading, Atoi, Glob.BackslashRun;
    maxToken := 0;
    assert str[0..] == str && !Odd(str, 0) by { Glob.NoBackslashYet(str); }
    for loop := 0 to |str| - 1
      invariant Greater(maxToken, MaxName(str[loop..], Odd(str, loop))) == MaxName(str, false)
    {
      ghost var t := str[loop..];
      assert t[1..] == str[loop + 1..] && t[2..] == str[loop + 2..];
      OddAfter(str, loop, loop + 1);
      OneAfter(str[loop..loop + 1], Odd(str, loop));
      if str[loop] == '\\' && IsDigit(str[loop + 1]) {
        var escaped := Glob.IsCharEscaped(str, loop);
        if !escaped && maxToken < DigitValue(str[loop + 1]) {
          maxToken := DigitValue(str[loop + 1]);
        }
      } else if str[loop] == '$' && str[loop + 1] == '{' {
        var escaped := Glob.IsCharEscaped(str, loop);
        if !escaped {
          var i := PassDigits(str, loop + 2, GroupName);
          if i < |str| && str[i] == '}' {
            var tmpToken := Atoi(str[loop + 2..i]);
            assert str[loop + 2..i] == t[2..2 + Leading(t[2..], GroupName)];
            if maxToken < tmpToken { maxToken := tmpToken; }
          }
        }
      }
    }
  }

  lemma OneAfter(s: string, escaped: bool)
    requires |s| == 1
    ensures EscapedAfter(s, escaped) == (s[0] == '\\' && !escaped)
  {
  }

  /** The piece at a place, and those behind it. */
  lemma PiecesFrom(str: string, loop: nat)
    requires loop + 1 < |str|
    ensures var (p, n) := Token(str[loop..], Odd(str, loop));
            && 1 <= n <= |str| - loop && (p.Ordinary? ==> n == 1 && p.c == str[loop])
            && Pieces(str[loop..], Odd(str, loop))
               == [p] + if p.Beyond? then [] else Pieces(str[loop + n..], Odd(str, loop + n))
  {
    hide Token, Odd;
    var t := str[loop..];
    var (p, n) := Token(t, Odd(str, loop));
    OrdinaryToken(t, Odd(str, loop));
    assert t[..n] == str[loop..loop + n] && t[n..] == str[loop + n..];
    OddAfter(str, loop, loop + n);
  }

  /** The expansion of a piece, and that of the others. */
  lemma ExpandedStep(ret: string, p: Piece, more: seq<Piece>, pending: string, f: Flags, m: Found)
    requires NamesBelow([p] + more, |m.groups|)
    ensures NamesBelow(more, |m.groups|) && (p.GroupNumber? ==> p.k < |m.groups|)
    ensures var all := Prepend(ret, Expanded([p] + more, pending, f, m));
            if p.Ordinary? then all == Prepend(ret, Expanded(more, pending + [p.c], f, m))
            else if p.Beyond? then all == Expansion(ret + Appended(pending, f).0, Unsaid)
            else
              var (x, g) := Appended(pending, Ahead(p, f));
              var (y, h) := Written(p, g, m);
              all == Prepend(ret + x + y, Expanded(more, "", h, m))
  {
    hide Appended, Written;
    var ps := [p] + more;
    assert ps[0] == p && ps[1..] == more && forall i :: 0 <= i < |more| ==> more[i] == ps[i + 1];
    if !p.Ordinary? && !p.Beyond? {
      var (x, g) := Appended(pending, Ahead(p, f));
      var (y, h) := Written(p, g, m);
      PrependTwice(ret, x + y, Expanded(more, "", h, m));
      Assoc(ret, x, y);
    }
  }

  lemma OrdinaryToken(t: string, escaped: bool)
    requires |t| >= 2
    ensures var (p, n) := Token(t, escaped); p.Ordinary? ==> n == 1 && p.c == t[0]
  {
  }

  lemma Inside(s: string, i: nat, n: nat)
    requires 1 <= n && i + n <= |s|
    ensures s[i + 1..i + n] == s[i..][1..n]
  {
  }

  lemma LastText(str: string, prev: nat, loop: nat, f: Flags, m: Found)
    requires prev <= loop <= |str| <= loop + 1
    ensures NamesBelow(Pieces(str[loop..], Odd(str, loop)), |m.groups|)
    ensures Expanded(Pieces(str[loop..], Odd(str, loop)), str[prev..loop], f, m)
         == Expansion(Appended(str[prev..], f).0, Done)
  {
    hide Appended;
    if loop == |str| {
      assert str[prev..loop] == str[prev..];
    } else {
      assert str[prev..loop] + [str[loop]] == str[prev..];
      assert [Ordinary(str[loop])][1..] == [];
    }
  }

  /** The program tests each group number again in the loop; by NamesAreCounted that cannot fail. */
  method PrepareReplaceStr(str: string, m: Found) returns (r: Expansion)
    requires str != ""
    ensures r == Expand(str, m)
  {
    hide Token, Pieces, Expanded, Appended, Glob.BackslashRun, SequencePiece, Encoded, MaxName;
    var numReplaceTokens := GetMaxNumOfReplaceTokens(str);
    if numReplaceTokens >= |m.groups| || numReplaceTokens > NUM_REPLACE_ARGS {
      return Expansion("", NoGroup);
    }
    NamesAreCounted(str, false, |m.groups|);
    var ret, flags, prev, loop := "", NO_TRANSFORM, 0, 0;
    assert str[0..] == str && !Odd(str, 0) by { Glob.NoBackslashYet(str); }
    assert Prepend("", Expand(str, m)) == Expand(str, m);
    while loop < |str| - 1
      invariant 0 <= prev <= loop <= |str|
      invariant NamesBelow(Pieces(str[loop..], Odd(str, loop)), |m.groups|)
      invariant Prepend(ret, Expanded(Pieces(str[loop..], Odd(str, loop)), str[prev..loop], flags, m)) == Expand(str, m)
      decreases |str| - loop
    {
      PiecesFrom(str, loop);
      ghost var (p, n) := Token(str[loop..], Odd(str, loop));
      ghost var more := if p.Beyond? then [] else Pieces(str[loop + n..], Odd(str, loop + n));
      ExpandedStep(ret, p, more, str[prev..loop], flags, m);
      NothingAppended(ret, Appended(str[prev..loop], Ahead(p, flags)).1);
      ghost var (x, g) := Appended(str[prev..loop], Ahead(p, flags));
      ghost var before := ret;
      var kind, len;
      kind, len, flags := ProcessReplaceStr(str, loop, flags);
      match kind {
      case NothingSpecial =>
        if len == 0 {
          assert str[prev..loop] + [str[loop]] == str[prev..loop + 1];
          loop := loop + 1;
          continue;
        }
        ret, flags := ProcessAppendStr(ret, str[prev..loop], flags);
        if loop + len > |str| { return Expansion(ret, Unsaid); }
        Inside(str, loop, len);
        ret, flags := ProcessAppendStr(ret, str[loop + 1..loop + len], flags);
      case ReplaceFlag =>
        ret, flags := ProcessAppendStr(ret, str[prev..loop], flags);
        assert ret + "" == ret;
      case EscapeSeq =>
        ret, flags := ProcessAppendStr(ret, str[prev..loop], flags);
        Inside(str, loop, len);
        ret, flags := ProcessEscapeSequence(ret, str[loop + 1..loop + len], flags, m.isUtf8);
      case Capture(k) =>
        if k < 0 {
          ret, flags := ProcessAppendStr(ret, str[prev..loop], flags);
          return Expansion(ret, Unsaid);
        }
        ret, flags := ProcessAppendStr(ret, str[prev..loop], flags);
        ret, flags := ProcessAppendStr(ret, m.groups[k], flags);
      }
      assert len == n && (ret, flags) == var (y, h) := Written(p, g, m); (before + x + y, h);
      prev, loop := loop + len, loop + len;
      assert str[prev..loop] == "";
    }
    LastText(str, prev, loop, flags, m);
    ret, flags := ProcessAppendStr(ret, str[prev..], flags);
    r := Expansion(ret, Done);
  }
}
