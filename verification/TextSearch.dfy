/** Normal and hexadecimal search patterns and their translation to regular expressions
    (lib/search/normal.c, lib/search/srch-hex.c). */
module TextSearch {
  import opened Regex
  import opened RegexLiterals
  import opened Sequences
  import opened Wrappers

  // ----- normal search -----

  predicate NormalEscapes(c: char) {
    || c == '*' || c == '?' || c == ',' || c == '{' || c == '}' || c == '[' || c == ']' || c == '\\'
    || c == '+' || c == '.' || c == '$' || c == '(' || c == ')' || c == '^' || c == '-' || c == '|'
  }

  function NormalChar(c: char): string {
    if NormalEscapes(c) then ['\\', c] else [c]
  }

  function NormalToRegex(s: string): string {
    if s == "" then "" else NormalChar(s[0]) + NormalToRegex(s[1..])
  }

  method NormalTranslateToRegex(str: string) returns (buff: string)
    ensures buff == NormalToRegex(str)
  {
    buff := "";
    assert str[0..] == str;
    for loop := 0 to |str|
      invariant buff + NormalToRegex(str[loop..]) == NormalToRegex(str)
    {
      ghost var before := buff;
      assert str[loop..][1..] == str[loop + 1..];
      if NormalEscapes(str[loop]) {
        buff := buff + ['\\'];
      }
      buff := buff + [str[loop]];
      assert buff == before + NormalChar(str[loop]);
      Assoc(before, NormalChar(str[loop]), NormalToRegex(str[loop + 1..]));
    }
  }

  lemma {:induction false} ParseNormal(s: string)
    ensures ParseSeq(NormalToRegex(s)) == Some(Parsed(Spell(s, Eps), "")) && NoRepeat(NormalToRegex(s))
  {
    if s == "" {
    } else {
      ParseNormal(s[1..]);
      var c, t := s[0], NormalToRegex(s[1..]);
      if NormalEscapes(c) { ParseEscaped(c, t); } else { ParsePlain(c, t); }
    }
  }

  /** A normal search for any text finds exactly the texts that contain it. */
  lemma NormalSearch(s: string, w: string)
    ensures ParseRegex(NormalToRegex(s)) == Some(Spell(s, Eps))
    ensures Finds(Spell(s, Eps), w) <==> Occurs(s, w)
  {
    ParseNormal(s);
    SpellFinds(s, w);
  }

  /** Each character becomes one or two: a backslash stands in front of these and of no others. */
  lemma {:induction false} NormalText(s: string, t: string)
    ensures NormalToRegex(s + t) == NormalToRegex(s) + NormalToRegex(t)
    ensures |s| == 1 ==> NormalToRegex(s) == if s[0] in "*?,{}[]\\+.$()^-|" then "\\" + s else s
  {
    if s == "" {
      assert s + t == t;
    } else {
      assert (s + t)[1..] == s[1..] + t;
      NormalText(s[1..], t);
      Assoc(NormalChar(s[0]), NormalToRegex(s[1..]), NormalToRegex(t));
      if |s| == 1 { assert s == [s[0]] && s[1..] == ""; }
    }
  }

  // ----- hexadecimal search -----

  datatype HexErrorKind = NumOutOfRange | InvalidCharacter | UnmatchedQuotes
  datatype HexError = HexError(kind: HexErrorKind, pos: nat)

  predicate IsSpace(c: char) {
    c == ' ' || c == '\t' || c == '\n' || c == '\r' || c == '\U{000C}'
  }

  function HexChar(v: nat): (c: char)
    requires v < 16
    ensures IsHexDigit(c) && HexValue(c) == v
  {
    if v < 10 then '0' + v as char else 'A' + (v - 10) as char
  }

  /** What "\\x%02X" prints. */
  function HexByte(v: nat): string
    requires v < 256
  {
    ['\\', 'x', HexChar(v / 16), HexChar(v % 16)]
  }

  function HexRun(t: string): (n: nat)
    ensures n <= |t| && forall i :: 0 <= i < n ==> IsHexDigit(t[i])
    ensures n < |t| ==> !IsHexDigit(t[n])
  {
    if t != "" && IsHexDigit(t[0]) then 1 + HexRun(t[1..]) else 0
  }

  function HexNumber(digits: string): nat
    requires forall i :: 0 <= i < |digits| ==> IsHexDigit(digits[i])
  {
    if digits == "" then 0 else 16 * HexNumber(digits[..|digits| - 1]) + HexValue(digits[|digits| - 1])
  }

  /** strtoul for 64 bits, stored into an unsigned int of 32. */
  function Truncated(n: nat, negative: bool): nat {
    if n >= 0x1_0000_0000_0000_0000 then 0xFFFF_FFFF
    else (if negative then 0x1_0000_0000_0000_0000 - n else n) % 0x1_0000_0000
  }

  datatype Scanned = NoNumber | Number(val: nat, length: nat)

  /** Whether "0x" or "0X" stands at position k. */
  predicate PrefixAt(t: string, k: nat) {
    k + 1 < |t| && t[k] == '0' && (t[k + 1] == 'x' || t[k + 1] == 'X')
  }

  predicate SignFirst(t: string) {
    t != "" && (t[0] == '+' || t[0] == '-')
  }

  /** Length of the sign and of the prefix. */
  function HeadLength(t: string): (k: nat)
    ensures k <= |t|
  {
    var sign := if SignFirst(t) then 1 else 0;
    if PrefixAt(t, sign) then sign + 2 else sign
  }

  /** sscanf with "%x%n" on text that does not start with white space, as the GNU C library reads it:
      a sign, "0x" or "0X", digits. */
  function ScanHex(t: string): (r: Scanned)
    ensures r.Number? ==> 0 < r.length <= |t|
  {
    var k := HeadLength(t);
    var n := HexRun(t[k..]);
    if n == 0 && k < 2 then NoNumber
    else Number(Truncated(HexNumber(t[k..][..n]), t[0] == '-'), k + n)
  }

  /** The text in front of the closing quote, backslashes resolved, and how much was read up to it. */
  function Unquote(t: string): (r: (string, nat))
    ensures r.1 <= |t|
  {
    if t == "" || t[0] == '"' then ("", 0)
    else if t[0] == '\\' && |t| > 1 then
      var r := Unquote(t[2..]); ([t[1]] + r.0, r.1 + 2)
    else
      var r := Unquote(t[1..]); ([t[0]] + r.0, r.1 + 1)
  }

  function Prepend(x: string, r: Result<string, HexError>): Result<string, HexError> {
    match r
    case Ok(y) => Ok(x + y)
    case Err(_) => r
  }

  /** One token at the start of t, which stands at position pos: the text it adds and its length. */
  function HexToken(t: string, pos: nat): (r: Result<(string, nat), HexError>)
    requires t != ""
    ensures r.Ok? ==> 0 < r.value.1 <= |t|
  {
    match ScanHex(t)
    case Number(val, n) =>
      if val > 255 then Err(HexError(NumOutOfRange, pos)) else Ok((HexByte(val), n))
    case NoNumber =>
      if t[0] == '"' then
        var (text, n) := Unquote(t[1..]);
        if n == |t| - 1 then Err(HexError(UnmatchedQuotes, pos)) else Ok((text, n + 2))
      else Err(HexError(InvalidCharacter, pos))
  }

  /** The rest t of a pattern, which starts at position pos. */
  function HexFrom(t: string, pos: nat): Result<string, HexError>
    decreases |t|
  {
    if t == "" then Ok("")
    else if IsSpace(t[0]) then HexFrom(t[1..], pos + 1)
    else
      match HexToken(t, pos)
      case Ok(token) => Prepend(token.0, HexFrom(t[token.1..], pos + token.1))
      case Err(e) => Err(e)
  }

  function HexToRegex(s: string): Result<string, HexError> {
    HexFrom(s, 0)
  }

  lemma HexSkipsSpace(str: string, loop: nat)
    requires loop < |str| && IsSpace(str[loop])
    ensures HexFrom(str[loop..], loop) == HexFrom(str[loop + 1..], loop + 1)
  {
    assert str[loop..][1..] == str[loop + 1..];
  }

  lemma HexTakesToken(str: string, loop: nat)
    requires loop < |str| && !IsSpace(str[loop])
    ensures HexFrom(str[loop..], loop) == match HexToken(str[loop..], loop)
                                          case Ok(v) => Prepend(v.0, HexFrom(str[loop + v.1..], loop + v.1))
                                          case Err(e) => Err(e)
  {
    var r := HexToken(str[loop..], loop);
    if r.Ok? { assert str[loop..][r.value.1..] == str[loop + r.value.1..]; }
  }

  method ReadToken(str: string, loop: nat) returns (r: Result<(string, nat), HexError>)
    requires loop < |str| && '\0' !in str
    ensures r == HexToken(str[loop..], loop)
  {
    var scan := ScanHex(str[loop..]);
    if scan.Number? {
      if scan.val > 255 {
        return Err(HexError(NumOutOfRange, loop));
      }
      return Ok((HexByte(scan.val), scan.length));
    }
    if str[loop] == '"' {
      var text, loop2 := ReadQuoted(str, loop + 1);
      assert str[loop..][1..] == str[loop + 1..];
      if loop2 == |str| {
        return Err(HexError(UnmatchedQuotes, loop));
      }
      return Ok((text, loop2 + 1 - loop));
    }
    r := Err(HexError(InvalidCharacter, loop));
  }

  /** The state of the translation: buff holds the output for the first part of str, the rest is to come. */
  ghost predicate HexHalfway(str: string, loop: nat, buff: string) {
    loop <= |str| && Prepend(buff, HexFrom(str[loop..], loop)) == HexToRegex(str)
  }

  lemma HalfwaySpace(str: string, loop: nat, buff: string)
    requires HexHalfway(str, loop, buff) && loop < |str| && IsSpace(str[loop])
    ensures HexHalfway(str, loop + 1, buff)
  {
    HexSkipsSpace(str, loop);
  }

  lemma HalfwayToken(str: string, loop: nat, buff: string)
    requires HexHalfway(str, loop, buff) && loop < |str| && !IsSpace(str[loop])
    ensures match HexToken(str[loop..], loop)
            case Ok(v) => HexHalfway(str, loop + v.1, buff + v.0)
            case Err(e) => HexToRegex(str) == Err(e)
  {
    hide HexToken;
    HexTakesToken(str, loop);
    match HexToken(str[loop..], loop)
    case Ok(v) => PrependTwice(buff, v.0, HexFrom(str[loop + v.1..], loop + v.1));
    case Err(e) =>
  }

  /** One turn of the loop: white space, or a token with its output. */
  method HexTurn(str: string, loop0: nat, buff0: string) returns (error: Option<HexError>, loop: nat, buff: string)
    requires '\0' !in str && loop0 < |str| && HexHalfway(str, loop0, buff0)
    ensures error.None? ==> loop0 < loop && HexHalfway(str, loop, buff)
    ensures error.Some? ==> HexToRegex(str) == Err(error.value)
  {
    hide HexFrom, HexHalfway, ScanHex;
    error, loop, buff := None, loop0, buff0;
    if IsSpace(str[loop]) {
      HalfwaySpace(str, loop, buff);
      loop := loop + 1;
      while loop < |str| && IsSpace(str[loop])
        invariant loop0 < loop && HexHalfway(str, loop, buff)
      {
        HalfwaySpace(str, loop, buff);
        loop := loop + 1;
      }
    } else {
      var token := ReadToken(str, loop);
      HalfwayToken(str, loop, buff);
      match token
      case Ok(v) => loop, buff := loop + v.1, buff + v.0;
      case Err(e) => error := Some(e);
    }
  }

  method HexTranslateToRegex(str: string) returns (r: Result<string, HexError>)
    requires '\0' !in str
    ensures r == HexToRegex(str)
  {
    var buff, loop, error := "", 0, None;
    HexStart(str);
    while loop < |str| && error.None?
      invariant error.None? ==> HexHalfway(str, loop, buff)
      invariant error.Some? ==> HexToRegex(str) == Err(error.value)
      decreases error.None?, |str| - loop
    {
      error, loop, buff := HexTurn(str, loop, buff);
    }
    if error.Some? { return Err(error.value); }
    HexEnd(str, buff);
    r := Ok(buff);
  }

  lemma HexStart(str: string)
    ensures HexHalfway(str, 0, "")
  {
    assert str[0..] == str;
    PrependNothing(HexFrom(str, 0));
  }

  lemma HexEnd(str: string, buff: string)
    requires HexHalfway(str, |str|, buff)
    ensures HexToRegex(str) == Ok(buff)
  {
    assert str[|str|..] == "" && buff + "" == buff;
  }

  lemma PrependNothing(r: Result<string, HexError>)
    ensures Prepend("", r) == r
  {
    if r.Ok? { assert "" + r.value == r.value; }
  }

  lemma PrependTwice(x: string, y: string, r: Result<string, HexError>)
    ensures Prepend(x, Prepend(y, r)) == Prepend(x + y, r)
  {
    if r.Ok? { Assoc(x, y, r.value); }
  }

  method ReadQuoted(str: string, start: nat) returns (text: string, loop2: nat)
    requires start <= |str|
    ensures text == Unquote(str[start..]).0 && loop2 == start + Unquote(str[start..]).1
  {
    text, loop2 := "", start;
    while loop2 < |str|
      invariant start <= loop2 <= |str|
      invariant text + Unquote(str[loop2..]).0 == Unquote(str[start..]).0
      invariant loop2 + Unquote(str[loop2..]).1 == start + Unquote(str[start..]).1
      decreases |str| - loop2
    {
      if str[loop2] == '"' { break; }
      ghost var u, before := str[loop2..], text;
      if str[loop2] == '\\' && loop2 + 1 < |str| {
        loop2 := loop2 + 1;
      }
      text := text + [str[loop2]];
      loop2 := loop2 + 1;
      assert str[loop2..] == u[loop2 - (|str| - |u|)..];
      Assoc(before, [str[loop2 - 1]], Unquote(str[loop2..]).0);
    }
    assert text + "" == text;
  }

  // ----- well-formed hexadecimal patterns -----

  /** A character between quotes, as it is or behind a backslash. */
  datatype Letter = Letter(c: char, escaped: bool)

  datatype Token =
    | Num(prefix: string, digits: string)
    | Quoted(letters: seq<Letter>)

  function RawText(ls: seq<Letter>): string {
    if ls == [] then "" else (if ls[0].escaped then ['\\', ls[0].c] else [ls[0].c]) + RawText(ls[1..])
  }

  function Chars(ls: seq<Letter>): (r: string)
    ensures |r| == |ls| && forall i :: 0 <= i < |ls| ==> r[i] == ls[i].c
  {
    if ls == [] then "" else [ls[0].c] + Chars(ls[1..])
  }

  /** A quote and a backslash stand behind a backslash; everything else may. */
  predicate ProperQuoted(ls: seq<Letter>) {
    forall i :: 0 <= i < |ls| ==> (ls[i].escaped || (ls[i].c != '"' && ls[i].c != '\\'))
  }

  /** A token and the white space behind it. */
  datatype Piece = Piece(token: Token, gap: string)

  function TokenText(t: Token): string {
    match t
    case Num(prefix, digits) => prefix + digits
    case Quoted(ls) => "\"" + RawText(ls) + "\""
  }

  function PatternText(ps: seq<Piece>): string {
    if ps == [] then "" else TokenText(ps[0].token) + (ps[0].gap + PatternText(ps[1..]))
  }

  predicate ProperToken(t: Token) {
    match t
    case Num(prefix, digits) =>
      && (prefix == "" || prefix == "0x" || prefix == "0X")
      && digits != "" && (forall i :: 0 <= i < |digits| ==> IsHexDigit(digits[i])) && HexNumber(digits) <= 255
    case Quoted(ls) => ProperQuoted(ls)
  }

  /** White space: blanks, tabs, newlines, carriage returns and form feeds. */
  predicate AllSpace(s: string) {
    forall i :: 0 <= i < |s| ==> s[i] in " \t\n\r\U{000C}"
  }

  /** Numbers in byte range and quoted text of any characters; white space separates a number from the next. */
  ghost predicate ProperPattern(ps: seq<Piece>) {
    forall i :: 0 <= i < |ps| ==>
      && ProperToken(ps[i].token)
      && AllSpace(ps[i].gap)
      && (ps[i].token.Num? && i + 1 < |ps| && ps[i + 1].token.Num? ==> ps[i].gap != "")
  }

  function TokenBytes(t: Token): string
    requires ProperToken(t)
  {
    match t
    case Num(_, digits) => [HexNumber(digits) as char]
    case Quoted(ls) => Chars(ls)
  }

  /** The bytes that a pattern denotes. */
  ghost function Denoted(ps: seq<Piece>): string
    requires ProperPattern(ps)
  {
    if ps == [] then "" else TokenBytes(ps[0].token) + Denoted(ps[1..])
  }

  lemma {:induction false} HexRunIs(digits: string, t: string)
    requires (forall i :: 0 <= i < |digits| ==> IsHexDigit(digits[i])) && (t == "" || !IsHexDigit(t[0]))
    ensures HexRun(digits + t) == |digits|
  {
    if digits == "" {
      assert "" + t == t;
    } else {
      assert (digits + t)[1..] == digits[1..] + t;
      HexRunIs(digits[1..], t);
    }
  }

  /** What may follow a number. */
  predicate NumberEnds(t: string) {
    t == "" || (!IsHexDigit(t[0]) && t[0] != 'x' && t[0] != 'X')
  }

  lemma HeadIs(prefix: string, digits: string, t: string)
    requires ProperToken(Num(prefix, digits)) && NumberEnds(t)
    ensures var u := prefix + (digits + t);
            u != "" && u[0] != '-' && !IsSpace(u[0]) && HeadLength(u) == |prefix|
  {
    var u := prefix + (digits + t);
    if prefix == "" {
      assert u == digits + t;
      assert u[0] == digits[0];
      assert |u| > 1 ==> u[1] == if |digits| > 1 then digits[1] else t[0];
    } else {
      assert u[0] == '0' && u[1] == prefix[1];
    }
  }

  lemma TruncatedSmall(n: nat)
    requires n <= 255
    ensures Truncated(n, false) == n
  {
  }

  lemma NoHexDigit(t: string)
    requires NumberEnds(t)
    ensures t == "" || !IsHexDigit(t[0])
  {
  }

  /** A number, as far as something that cannot belong to it. */
  lemma ScanNum(prefix: string, digits: string, t: string)
    requires ProperToken(Num(prefix, digits)) && NumberEnds(t)
    ensures ScanHex(prefix + (digits + t)) == Number(HexNumber(digits), |prefix| + |digits|)
  {
    hide HeadLength, HexRun, HexNumber, Truncated, NumberEnds, ScanHex;
    var u := prefix + (digits + t);
    NoHexDigit(t);
    HeadIs(prefix, digits, t);
    HexRunIs(digits, t);
    assert u[|prefix|..] == digits + t;
    ScanFrom(u, |prefix|, digits, t);
    TruncatedSmall(HexNumber(digits));
  }

  lemma ScanFrom(u: string, k: nat, digits: string, t: string)
    requires k == HeadLength(u) && u[k..] == digits + t && HexRun(digits + t) == |digits| > 0
    requires forall i :: 0 <= i < |digits| ==> IsHexDigit(digits[i])
    ensures ScanHex(u) == Number(Truncated(HexNumber(digits), u[0] == '-'), k + |digits|)
  {
    hide HeadLength, HexRun, HexNumber, Truncated;
    assert (digits + t)[..|digits|] == digits;
  }

  lemma {:induction false} UnquoteIs(ls: seq<Letter>, t: string)
    requires ProperQuoted(ls)
    ensures Unquote(RawText(ls) + ("\"" + t)) == (Chars(ls), |RawText(ls)|)
  {
    var end := "\"" + t;
    if ls == [] {
      assert "" + end == end;
    } else {
      var c, more := ls[0].c, RawText(ls[1..]);
      UnquoteIs(ls[1..], t);
      if ls[0].escaped {
        Assoc(['\\', c], more, end);
        UnquoteEscaped(c, more + end);
      } else {
        Assoc([c], more, end);
        UnquoteBare(c, more + end);
      }
    }
  }

  lemma UnquoteBare(c: char, t: string)
    requires c != '"' && c != '\\'
    ensures Unquote([c] + t) == ([c] + Unquote(t).0, Unquote(t).1 + 1)
  {
    assert ([c] + t)[1..] == t;
  }

  lemma UnquoteEscaped(c: char, t: string)
    ensures Unquote(['\\', c] + t) == ([c] + Unquote(t).0, Unquote(t).1 + 2)
  {
    assert (['\\', c] + t)[2..] == t;
  }

  /** What a token adds to the regular expression. */
  function TokenRegex(t: Token): string
    requires ProperToken(t)
  {
    match t
    case Num(_, digits) => HexByte(HexNumber(digits))
    case Quoted(ls) => Chars(ls)
  }

  lemma ReadNum(prefix: string, digits: string, t: string, pos: nat)
    requires ProperToken(Num(prefix, digits)) && NumberEnds(t)
    ensures HexToken(prefix + (digits + t), pos) == Ok((HexByte(HexNumber(digits)), |prefix| + |digits|))
  {
    ScanNum(prefix, digits, t);
    HeadIs(prefix, digits, t);
  }

  lemma ReadText(ls: seq<Letter>, t: string, pos: nat)
    requires ProperQuoted(ls)
    ensures HexToken("\"" + (RawText(ls) + ("\"" + t)), pos) == Ok((Chars(ls), |RawText(ls)| + 2))
  {
    hide Unquote, RawText;
    var u := "\"" + (RawText(ls) + ("\"" + t));
    assert u[0] == '"' && u[1..] == RawText(ls) + ("\"" + t);
    UnquoteIs(ls, t);
    assert HeadLength(u) == 0 && u[0..] == u && HexRun(u) == 0;
  }

  lemma QuotedText(ls: seq<Letter>, t: string)
    ensures TokenText(Quoted(ls)) + t == "\"" + (RawText(ls) + ("\"" + t))
    ensures (TokenText(Quoted(ls)) + t)[0] == '"'
  {
  }

  lemma ReadProperToken(tok: Token, t: string, pos: nat)
    requires ProperToken(tok) && (tok.Num? ==> NumberEnds(t))
    ensures TokenText(tok) + t != "" && !IsSpace((TokenText(tok) + t)[0])
    ensures HexToken(TokenText(tok) + t, pos) == Ok((TokenRegex(tok), |TokenText(tok)|))
  {
    hide HexToken, HeadLength;
    match tok
    case Num(prefix, digits) =>
      Assoc(prefix, digits, t);
      HeadIs(prefix, digits, t);
      ReadNum(prefix, digits, t, pos);
    case Quoted(ls) =>
      QuotedText(ls, t);
      ReadText(ls, t, pos);
  }

  lemma {:induction false} HexSkipsGap(gap: string, t: string, pos: nat)
    requires AllSpace(gap)
    ensures HexFrom(gap + t, pos) == HexFrom(t, pos + |gap|)
  {
    if gap == "" {
      assert gap + t == t;
    } else {
      assert (gap + t)[1..] == gap[1..] + t;
      HexSkipsGap(gap[1..], t, pos + 1);
    }
  }

  lemma HexReadsPiece(tok: Token, gap: string, more: string, pos: nat)
    requires ProperToken(tok) && (tok.Num? ==> NumberEnds(gap + more))
    requires AllSpace(gap)
    ensures HexFrom(TokenText(tok) + (gap + more), pos)
         == Prepend(TokenRegex(tok), HexFrom(more, pos + |TokenText(tok)| + |gap|))
  {
    hide HexToken, TokenText, ProperToken, HexNumber;
    var x := TokenText(tok);
    ReadProperToken(tok, gap + more, pos);
    HexSkipsGap(gap, more, pos + |x|);
    assert (x + (gap + more))[|x|..] == gap + more;
  }

  ghost function PatternRegex(ps: seq<Piece>): string
    requires ProperPattern(ps)
  {
    if ps == [] then "" else TokenRegex(ps[0].token) + PatternRegex(ps[1..])
  }

  lemma {:induction false} HexReadsPattern(ps: seq<Piece>, pos: nat)
    requires ProperPattern(ps)
    ensures HexFrom(PatternText(ps), pos) == Ok(PatternRegex(ps))
    decreases |ps|
  {
    hide HexToken, TokenText;
    if ps == [] {
    } else {
      var tok, gap, more := ps[0].token, ps[0].gap, PatternText(ps[1..]);
      if tok.Num? { GapEnds(ps); }
      HexReadsPiece(tok, gap, more, pos);
      HexReadsPattern(ps[1..], pos + |TokenText(tok)| + |gap|);
    }
  }

  /** A number is followed by white space, a quote or nothing. */
  lemma GapEnds(ps: seq<Piece>)
    requires ProperPattern(ps) && ps != [] && ps[0].token.Num?
    ensures NumberEnds(ps[0].gap + PatternText(ps[1..]))
  {
  }

  predicate LiteralToken(t: Token) {
    t.Quoted? ==> IsLiteral(Chars(t.letters))
  }

  ghost predicate LiteralPattern(ps: seq<Piece>) {
    forall i :: 0 <= i < |ps| ==> LiteralToken(ps[i].token)
  }

  lemma ParseToken(tok: Token, t: string, tail: Re)
    requires ProperToken(tok) && LiteralToken(tok) && ParseSeq(t) == Some(Parsed(tail, "")) && NoRepeat(t)
    ensures ParseSeq(TokenRegex(tok) + t) == Some(Parsed(Spell(TokenBytes(tok), tail), ""))
    ensures NoRepeat(TokenRegex(tok) + t)
  {
    match tok
    case Num(_, digits) =>
      var v := HexNumber(digits);
      ParseHex(HexChar(v / 16), HexChar(v % 16), t);
      assert TokenBytes(tok)[1..] == "";
    case Quoted(ls) => ParseText(Chars(ls), t, tail);
  }

  lemma {:induction false} SpellConcat(a: string, b: string, tail: Re)
    ensures Spell(a + b, tail) == Spell(a, Spell(b, tail))
  {
    if a == "" {
      assert a + b == b;
    } else {
      assert (a + b)[1..] == a[1..] + b;
      SpellConcat(a[1..], b, tail);
    }
  }

  lemma {:induction false} ParsePattern(ps: seq<Piece>)
    requires ProperPattern(ps) && LiteralPattern(ps)
    ensures ParseSeq(PatternRegex(ps)) == Some(Parsed(Spell(Denoted(ps), Eps), "")) && NoRepeat(PatternRegex(ps))
    decreases |ps|
  {
    hide TokenRegex, ParseAtom, TokenBytes;
    if ps == [] {
    } else {
      ParsePattern(ps[1..]);
      ParseToken(ps[0].token, PatternRegex(ps[1..]), Spell(Denoted(ps[1..]), Eps));
      SpellConcat(TokenBytes(ps[0].token), Denoted(ps[1..]), Eps);
    }
  }

  /** A hexadecimal pattern is read to its end. If its quoted texts have no character that means something
      in a regular expression, searching for it finds exactly the texts that contain the bytes it denotes. */
  lemma HexSearch(lead: string, ps: seq<Piece>, w: string)
    requires ProperPattern(ps) && AllSpace(lead)
    ensures HexToRegex(lead + PatternText(ps)) == Ok(PatternRegex(ps))
    ensures LiteralPattern(ps) ==>
              && ParseRegex(PatternRegex(ps)) == Some(Spell(Denoted(ps), Eps))
              && (Finds(Spell(Denoted(ps), Eps), w) <==> Occurs(Denoted(ps), w))
  {
    hide HexToken, HexFrom, PatternText, PatternRegex, Denoted, Finds, Occurs, ParseSeq;
    HexSkipsGap(lead, PatternText(ps), 0);
    HexReadsPattern(ps, |lead|);
    if LiteralPattern(ps) {
      ParsePattern(ps);
      SpellFinds(Denoted(ps), w);
    }
  }

  // ----- patterns that are not well formed -----

  /** A hexadecimal digit, or a sign and a hexadecimal digit. */
  predicate StartsNumber(t: string) {
    t != "" && (IsHexDigit(t[0]) || (|t| > 1 && (t[0] == '+' || t[0] == '-') && IsHexDigit(t[1])))
  }

  /** Neither white space nor the start of a number or of quoted text. */
  predicate InvalidHere(t: string) {
    t != "" && t[0] !in " \t\n\r\U{000C}" && t[0] != '"' && !StartsNumber(t)
  }

  /** A quote that no other quote closes. */
  ghost predicate Unclosed(t: string) {
    t != "" && t[0] == '"' && forall ls, more :: ProperQuoted(ls) ==> t != "\"" + (RawText(ls) + ("\"" + more))
  }

  lemma NumberStarts(t: string)
    ensures ScanHex(t).NoNumber? <==> !StartsNumber(t)
  {
    var k := HeadLength(t);
    if k == 0 {
      assert t[0..] == t;
    } else if k == 1 && |t| > 1 {
      assert t[1..][0] == t[1];
    }
  }

  /** What was read up to the closing quote, as letters. */
  function Letters(t: string): seq<Letter> {
    if t == "" || t[0] == '"' then []
    else if t[0] == '\\' && |t| > 1 then [Letter(t[1], true)] + Letters(t[2..])
    else [Letter(t[0], false)] + Letters(t[1..])
  }

  /** One character or two are read. */
  lemma UnquoteStep(t: string) returns (k: nat)
    requires t != "" && t[0] != '"'
    ensures 1 <= k <= 2 && k <= |t| && Unquote(t).1 == Unquote(t[k..]).1 + k
    ensures RawText(Letters(t)) == t[..k] + RawText(Letters(t[k..]))
    ensures ProperQuoted(Letters(t[k..])) ==> Unquote(t).1 < |t| ==> ProperQuoted(Letters(t))
  {
    k := if t[0] == '\\' && |t| > 1 then 2 else 1;
    assert Letters(t)[1..] == Letters(t[k..]);
    if t == "\\" { assert t[1..] == ""; }
  }

  lemma {:induction false} UnquoteStops(t: string)
    requires Unquote(t).1 < |t|
    ensures var n := Unquote(t).1; ProperQuoted(Letters(t)) && t == RawText(Letters(t)) + ("\"" + t[n + 1..])
    decreases |t|
  {
    hide RawText, ProperQuoted, Unquote, Letters;
    if t[0] == '"' {
      NothingUnquoted(t);
      assert t == "" + ("\"" + t[1..]);
    } else {
      var k := UnquoteStep(t);
      var u := t[k..];
      UnquoteStops(u);
      var n := Unquote(u).1;
      assert t == t[..k] + u && t[k + n + 1..] == u[n + 1..];
      Assoc(t[..k], RawText(Letters(u)), "\"" + u[n + 1..]);
    }
  }

  lemma NothingUnquoted(t: string)
    requires t != "" && t[0] == '"'
    ensures Unquote(t).1 == 0 && RawText(Letters(t)) == "" && ProperQuoted(Letters(t))
  {
  }

  lemma UnclosedReadsOn(t: string)
    requires t != "" && t[0] == '"'
    ensures Unclosed(t) <==> Unquote(t[1..]).1 == |t| - 1
  {
    hide Unquote, RawText, Letters;
    var u := t[1..];
    var n := Unquote(u).1;
    assert t == "\"" + u;
    if n < |u| {
      UnquoteStops(u);
    } else {
      forall ls, more | ProperQuoted(ls) ensures t != "\"" + (RawText(ls) + ("\"" + more)) {
        UnquoteIs(ls, more);
        var v := RawText(ls) + ("\"" + more);
        assert ("\"" + v)[1..] == v && |v| == |RawText(ls)| + 1 + |more|;
      }
    }
  }

  /** When a place that is not white space is an error, and which one. */
  lemma TokenErrors(t: string, pos: nat)
    requires t != "" && !IsSpace(t[0])
    ensures HexToken(t, pos) == Err(HexError(InvalidCharacter, pos)) <==> InvalidHere(t)
    ensures HexToken(t, pos) == Err(HexError(UnmatchedQuotes, pos)) <==> Unclosed(t)
    ensures HexToken(t, pos).Err? ==> HexToken(t, pos).error.pos == pos
    ensures HexToken(t, pos).Err? && HexToken(t, pos).error.kind == NumOutOfRange ==> StartsNumber(t)
  {
    hide ScanHex, Unquote, Unclosed;
    NumberStarts(t);
    if t[0] == '"' {
      UnclosedReadsOn(t);
    } else {
      NotUnclosed(t);
    }
  }

  lemma NotUnclosed(t: string)
    requires t == "" || t[0] != '"'
    ensures !Unclosed(t)
  {
  }

  /** The place that an error names is in the pattern, and what stands there is wrong in just that way. */
  lemma {:induction false} ErrorIsThere(t: string, pos: nat)
    requires HexFrom(t, pos).Err?
    ensures var e := HexFrom(t, pos).error;
            && pos <= e.pos < pos + |t|
            && var bad := t[e.pos - pos..];
               match e.kind
               case InvalidCharacter => InvalidHere(bad)
               case UnmatchedQuotes => Unclosed(bad)
               case NumOutOfRange => StartsNumber(bad)
    decreases |t|
  {
    hide HexToken, InvalidHere, Unclosed, StartsNumber;
    var e := HexFrom(t, pos).error;
    if IsSpace(t[0]) {
      ErrorIsThere(t[1..], pos + 1);
      assert t[1..][e.pos - pos - 1..] == t[e.pos - pos..];
    } else {
      TokenErrors(t, pos);
      match HexToken(t, pos)
      case Ok(token) =>
        ErrorIsThere(t[token.1..], pos + token.1);
        assert t[token.1..][e.pos - pos - token.1..] == t[e.pos - pos..];
      case Err(_) =>
        assert t[0..] == t;
    }
  }

  /** Whatever follows a well-formed pattern, the pattern is read first. */
  lemma {:induction false} HexReadsFront(ps: seq<Piece>, t: string, pos: nat)
    requires ProperPattern(ps) && (ps != [] && ps[|ps| - 1].token.Num? && ps[|ps| - 1].gap == "" ==> NumberEnds(t))
    ensures HexFrom(PatternText(ps) + t, pos) == Prepend(PatternRegex(ps), HexFrom(t, pos + |PatternText(ps)|))
    decreases |ps|
  {
    hide HexToken, TokenText, ProperToken, TokenRegex, HexFrom, NumberEnds, Prepend;
    if ps == [] {
      assert "" + t == t;
      PrependNothing(HexFrom(t, pos));
    } else {
      var tok, gap, more := ps[0].token, ps[0].gap, PatternText(ps[1..]);
      var x := TokenText(tok);
      if tok.Num? { FrontEnds(ps, t); }
      HexReadsPiece(tok, gap, more + t, pos);
      Assoc(x, gap + more, t);
      Assoc(gap, more, t);
      HexReadsFront(ps[1..], t, pos + |x| + |gap|);
      PrependTwice(TokenRegex(tok), PatternRegex(ps[1..]), HexFrom(t, pos + |PatternText(ps)|));
    }
  }

  lemma FrontEnds(ps: seq<Piece>, t: string)
    requires ProperPattern(ps) && ps != [] && ps[0].token.Num?
    requires ps[|ps| - 1].token.Num? && ps[|ps| - 1].gap == "" ==> NumberEnds(t)
    ensures NumberEnds(ps[0].gap + (PatternText(ps[1..]) + t))
  {
    var gap, more := ps[0].gap, PatternText(ps[1..]);
    if gap != "" {
      assert (gap + (more + t))[0] == gap[0];
    } else if |ps| > 1 {
      QuotedText(ps[1].token.letters, ps[1].gap + PatternText(ps[1..][1..]));
      assert (gap + (more + t))[0] == more[0] == '"';
    } else {
      assert gap + (more + t) == t;
    }
  }

  /** A sign, or none, and a prefix, or none. */
  predicate IsHead(sign: string, prefix: string) {
    && (sign == "" || sign == "+" || sign == "-")
    && (prefix == "" || prefix == "0x" || prefix == "0X")
  }

  function NumberText(sign: string, prefix: string, digits: string, t: string): string {
    sign + (prefix + (digits + t))
  }

  lemma HeadSigned(sign: string, prefix: string, digits: string, t: string)
    requires IsHead(sign, prefix) && NumberEnds(t)
    requires digits != "" && forall i :: 0 <= i < |digits| ==> IsHexDigit(digits[i])
    ensures var u := NumberText(sign, prefix, digits, t);
            u != "" && (u[0] == '-' <==> sign == "-") && !IsSpace(u[0]) && HeadLength(u) == |sign| + |prefix|
  {
    var v := prefix + (digits + t);
    var u := sign + v;
    if prefix == "" {
      assert v == digits + t && u[|sign|] == digits[0];
      assert |v| > 1 ==> u[|sign| + 1] == v[1] == if |digits| > 1 then digits[1] else t[0];
    } else {
      assert u[|sign|] == v[0] == '0' && u[|sign| + 1] == v[1] == prefix[1];
    }
  }

  /** A number of any size, with or without a sign. */
  lemma ScanSigned(sign: string, prefix: string, digits: string, t: string)
    requires IsHead(sign, prefix) && NumberEnds(t)
    requires digits != "" && forall i :: 0 <= i < |digits| ==> IsHexDigit(digits[i])
    ensures ScanHex(NumberText(sign, prefix, digits, t))
         == Number(Truncated(HexNumber(digits), sign == "-"), |sign| + |prefix| + |digits|)
  {
    hide IsHead, HexNumber, HexRun, Truncated, ScanHex, HeadLength, NumberEnds;
    var u := NumberText(sign, prefix, digits, t);
    NoHexDigit(t);
    HeadSigned(sign, prefix, digits, t);
    HexRunIs(digits, t);
    assert u[|sign| + |prefix|..] == digits + t;
    ScanFrom(u, |sign| + |prefix|, digits, t);
  }

  lemma HexFront(lead: string, ps: seq<Piece>, t: string)
    requires ProperPattern(ps) && AllSpace(lead)
    requires ps != [] && ps[|ps| - 1].token.Num? && ps[|ps| - 1].gap == "" ==> NumberEnds(t)
    ensures HexToRegex(lead + (PatternText(ps) + t))
         == Prepend(PatternRegex(ps), HexFrom(t, |lead| + |PatternText(ps)|))
  {
    hide HexToken, PatternText, PatternRegex, HexFrom;
    HexSkipsGap(lead, PatternText(ps) + t, 0);
    HexReadsFront(ps, t, |lead|);
  }

  /** What comes of a pattern that is well formed as far as something that is not. */
  lemma HexErrors(lead: string, ps: seq<Piece>, t: string)
    requires ProperPattern(ps) && AllSpace(lead)
    requires ps != [] && ps[|ps| - 1].token.Num? && ps[|ps| - 1].gap == "" ==> NumberEnds(t)
    ensures var s, pos := lead + (PatternText(ps) + t), |lead| + |PatternText(ps)|;
            && (InvalidHere(t) ==> HexToRegex(s) == Err(HexError(InvalidCharacter, pos)))
            && (Unclosed(t) ==> HexToRegex(s) == Err(HexError(UnmatchedQuotes, pos)))
  {
    hide HexToken, PatternText, PatternRegex, InvalidHere, Unclosed;
    HexFront(lead, ps, t);
    if InvalidHere(t) || Unclosed(t) {
      NoSpaceHere(t);
      TokenErrors(t, |lead| + |PatternText(ps)|);
    }
  }

  lemma NoSpaceHere(t: string)
    requires InvalidHere(t) || Unclosed(t)
    ensures t != "" && !IsSpace(t[0])
  {
  }

  lemma EndsAtSign(ps: seq<Piece>, sign: string, prefix: string, digits: string, t: string)
    requires ps != [] && ps[|ps| - 1].token.Num? ==> ps[|ps| - 1].gap != "" || sign != ""
    requires IsHead(sign, prefix)
    ensures ps != [] && ps[|ps| - 1].token.Num? && ps[|ps| - 1].gap == "" ==>
              NumberEnds(NumberText(sign, prefix, digits, t))
  {
    if sign != "" { assert NumberText(sign, prefix, digits, t)[0] == sign[0]; }
  }

  lemma HexTakesNumber(u: string, pos: nat, val: nat, n: nat, front: string)
    requires u != "" && !IsSpace(u[0]) && ScanHex(u) == Number(val, n) && n <= |u|
    ensures Prepend(front, HexFrom(u, pos)) == if val > 255 then Err(HexError(NumOutOfRange, pos))
                                               else Prepend(front + HexByte(val), HexFrom(u[n..], pos + n))
  {
    hide ScanHex, HexByte;
    if val <= 255 { PrependTwice(front, HexByte(val), HexFrom(u[n..], pos + n)); }
  }

  lemma NumberFrom(sign: string, prefix: string, digits: string, t: string, pos: nat, front: string)
    requires IsHead(sign, prefix) && NumberEnds(t)
    requires digits != "" && forall i :: 0 <= i < |digits| ==> IsHexDigit(digits[i])
    ensures var val := Truncated(HexNumber(digits), sign == "-");
            Prepend(front, HexFrom(NumberText(sign, prefix, digits, t), pos)) ==
            if val > 255 then Err(HexError(NumOutOfRange, pos))
            else Prepend(front + HexByte(val), HexFrom(t, pos + |sign| + |prefix| + |digits|))
  {
    hide IsHead, HexNumber, HexRun, Truncated, ScanHex, HeadLength, NumberEnds, HexFrom, HexByte, Prepend;
    var u, n := NumberText(sign, prefix, digits, t), |sign| + |prefix| + |digits|;
    HeadSigned(sign, prefix, digits, t);
    ScanSigned(sign, prefix, digits, t);
    assert n <= |u| && u[n..] == t;
    HexTakesNumber(u, pos, Truncated(HexNumber(digits), sign == "-"), n, front);
  }

  /** A number with or without a sign, of any size, behind a well-formed pattern is out of range if the last
      32 bits of what 64 bits make of it are more than a byte, and is read otherwise. */
  lemma HexNumberErrors(lead: string, ps: seq<Piece>, sign: string, prefix: string, digits: string, t: string)
    requires ProperPattern(ps) && AllSpace(lead)
    requires ps != [] && ps[|ps| - 1].token.Num? ==> ps[|ps| - 1].gap != "" || sign != ""
    requires IsHead(sign, prefix) && NumberEnds(t)
    requires digits != "" && forall i :: 0 <= i < |digits| ==> IsHexDigit(digits[i])
    ensures var val := Truncated(HexNumber(digits), sign == "-");
            var r, pos := HexToRegex(lead + (PatternText(ps) + NumberText(sign, prefix, digits, t))),
                          |lead| + |PatternText(ps)|;
            && (val > 255 ==> r == Err(HexError(NumOutOfRange, pos)))
            && (val <= 255 ==>
                  r == Prepend(PatternRegex(ps) + HexByte(val), HexFrom(t, pos + |sign| + |prefix| + |digits|)))
  {
    hide *;
    var u, pos := NumberText(sign, prefix, digits, t), |lead| + |PatternText(ps)|;
    EndsAtSign(ps, sign, prefix, digits, t);
    HexFront(lead, ps, u);
    NumberFrom(sign, prefix, digits, t, pos, PatternRegex(ps));
  }

  /** A prefix without digits is the number 0. */
  lemma BarePrefix(sign: string, x: char, t: string, pos: nat)
    requires IsHead(sign, "0x") && (x == 'x' || x == 'X') && (t == "" || !IsHexDigit(t[0]))
    ensures HexFrom(sign + (['0', x] + t), pos) == Prepend("\\x00", HexFrom(t, pos + |sign| + 2))
  {
    hide IsHexDigit;
    var u := sign + (['0', x] + t);
    BareScan(sign, x, t);
    assert u[|sign| + 2..] == t;
    HexTakesNumber(u, pos, 0, |sign| + 2, "");
    PrependNothing(HexFrom(u, pos));
    assert HexByte(0) == "\\x00" && "" + "\\x00" == "\\x00";
  }

  lemma BareScan(sign: string, x: char, t: string)
    requires IsHead(sign, "0x") && (x == 'x' || x == 'X') && (t == "" || !IsHexDigit(t[0]))
    ensures var u := sign + (['0', x] + t); ScanHex(u) == Number(0, |sign| + 2) && u != "" && !IsSpace(u[0])
  {
    var u := sign + (['0', x] + t);
    assert u[|sign|] == '0' && u[|sign| + 1] == x;
    assert u[|sign| + 2..] == t;
    assert HeadLength(u) == |sign| + 2 && HexRun(t) == 0;
    assert t[..0] == "";
  }

  // ----- what quoted text means -----

  /** The text between quotes is put into the expression with its backslashes resolved. If none of its
      characters means something there, it is an expression; and if it is one, it is found in just the texts
      that contain it if and only if that is so. */
  lemma QuotedIsLiteralIff(ls: seq<Letter>)
    requires ProperQuoted(ls)
    ensures var x := Chars(ls);
            && HexToRegex("\"" + RawText(ls) + "\"") == Ok(x)
            && (IsLiteral(x) ==> ParseRegex(x).Some?)
            && (ParseRegex(x).Some? ==>
                  ((forall w :: Finds(ParseRegex(x).value, w) <==> Occurs(x, w)) <==> IsLiteral(x)))
  {
    hide HexToken, RawText, ParseSeq, IsLiteral, Finds, Occurs;
    var x := Chars(ls);
    QuotedText(ls, "");
    ReadText(ls, "", 0);
    assert TokenText(Quoted(ls)) + "" == TokenText(Quoted(ls));
    WholeToken(TokenText(Quoted(ls)), x);
    if IsLiteral(x) { LiteralParses(x); }
    if ParseRegex(x).Some? { FindsItselfIff(x); }
  }

  lemma EmptySeq()
    ensures ParseSeq("") == Some(Parsed(Eps, ""))
  {
  }

  lemma WholeToken(t: string, x: string)
    requires t != "" && t[0] == '"' && HexToken(t, 0) == Ok((x, |t|))
    ensures HexToRegex(t) == Ok(x)
  {
    hide HexToken;
    assert t[|t|..] == "" && HexFrom("", |t|) == Ok("") && x + "" == x;
  }

  /** A dot between quotes is any character: "a.b" finds "axb". */
  lemma QuotedDot()
    ensures HexToRegex("\"a.b\"") == Ok("a.b")
    ensures ParseRegex("a.b") == Some(Cat(Lit('a'), Cat(Any, Cat(Lit('b'), Eps))))
    ensures Finds(Cat(Lit('a'), Cat(Any, Cat(Lit('b'), Eps))), "axb") && !Occurs("a.b", "axb")
  {
    DotText();
    DotParse();
    DotFinds();
  }

  lemma DotText()
    ensures HexToRegex("\"a.b\"") == Ok("a.b")
  {
    hide HexToRegex, Unquote;
    var ls := [Letter('a', false), Letter('.', false), Letter('b', false)];
    assert ls[1..] == [Letter('.', false), Letter('b', false)] && ls[1..][1..] == [Letter('b', false)];
    assert ls[1..][1..][1..] == [];
    assert Chars(ls) == "a.b" && RawText(ls) == "a.b";
    assert "\"" + "a.b" + "\"" == "\"a.b\"";
    QuotedIsLiteralIff(ls);
  }

  lemma DotParse()
    ensures ParseRegex("a.b") == Some(Cat(Lit('a'), Cat(Any, Cat(Lit('b'), Eps))))
  {
    EmptySeq();
    ParsePlain('b', "");
    assert ['b'] + "" == "b" && "." + "b" == ".b" && ['a'] + ".b" == "a.b";
    ParseDot("b");
    ParsePlain('a', ".b");
  }

  lemma DotFinds()
    ensures Finds(Cat(Lit('a'), Cat(Any, Cat(Lit('b'), Eps))), "axb") && !Occurs("a.b", "axb")
  {
    CatJoin(Lit('b'), Eps, "axb", 2, 3, 3);
    CatJoin(Any, Cat(Lit('b'), Eps), "axb", 1, 2, 3);
    CatJoin(Lit('a'), Cat(Any, Cat(Lit('b'), Eps)), "axb", 0, 1, 3);
    assert forall i: nat, j: nat :: i <= j <= 3 && "axb"[i..j] == "a.b" ==> i == 0 && j == 3;
    assert "axb"[0..3][1] == 'x' && "a.b"[1] == '.';
  }

  /** The range check comes after the number was cut to 32 bits, so a number beyond the byte range is
      let through if and only if 64 bits hold it and its last 32 bits are in range. */
  lemma RangeCheck(digits: string)
    requires digits != "" && forall i :: 0 <= i < |digits| ==> IsHexDigit(digits[i])
    ensures var n := HexNumber(digits);
            var val := if n < 0x1_0000_0000_0000_0000 then n % 0x1_0000_0000 else 0xFFFF_FFFF;
            && HexToRegex(digits) == (if val <= 255 then Ok(HexByte(val)) else Err(HexError(NumOutOfRange, 0)))
            && (n > 255 && HexToRegex(digits).Ok? <==> 255 < n < 0x1_0000_0000_0000_0000 && n % 0x1_0000_0000 <= 255)
  {
    hide HexNumber, HexByte, HexRun, HeadLength, ScanHex, HexFrom, HexToRegex;
    UnsignedText(digits);
    NumberFrom("", "", digits, "", 0, "");
    PrependNothing(HexFrom(digits, 0));
    var val := Truncated(HexNumber(digits), false);
    if val <= 255 { assert ("" + HexByte(val)) + "" == HexByte(val); }
    EmptyPattern(digits, |digits|);
  }

  lemma UnsignedText(digits: string)
    ensures NumberText("", "", digits, "") == digits
  {
    assert digits + "" == digits && "" + digits == digits;
  }

  /** With a minus sign the last 32 bits of the negative number count: "-ffffffff" passes for the byte 1. */
  lemma MinusRange(digits: string)
    requires digits != "" && forall i :: 0 <= i < |digits| ==> IsHexDigit(digits[i])
    ensures var n: int := HexNumber(digits);
            var val := if n < 0x1_0000_0000_0000_0000 then -n % 0x1_0000_0000 else 0xFFFF_FFFF;
            HexToRegex("-" + digits) == if val <= 255 then Ok(HexByte(val)) else Err(HexError(NumOutOfRange, 0))
  {
    hide HexNumber, HexByte, HexRun, HeadLength, ScanHex, HexFrom, HexToRegex, Truncated;
    MinusText(digits);
    NumberFrom("-", "", digits, "", 0, "");
    PrependNothing(HexFrom("-" + digits, 0));
    var val := Truncated(HexNumber(digits), true);
    NegativeCut(HexNumber(digits));
    if val <= 255 { assert ("" + HexByte(val)) + "" == HexByte(val); }
    EmptyPattern("-" + digits, 1 + |digits|);
  }

  lemma NegativeCut(n: nat)
    ensures var m: int := n;
            Truncated(n, true) == if m < 0x1_0000_0000_0000_0000 then -m % 0x1_0000_0000 else 0xFFFF_FFFF
  {
  }

  lemma MinusText(digits: string)
    ensures NumberText("-", "", digits, "") == "-" + digits
  {
    assert digits + "" == digits && "" + digits == digits;
  }

  lemma EmptyPattern(t: string, pos: nat)
    ensures HexFrom("", pos) == Ok("") && HexToRegex(t) == HexFrom(t, 0)
  {
  }

  /** "100000041" passes for the byte 41. */
  lemma BigNumberWraps()
    ensures HexToRegex("100000041") == Ok("\\x41")
  {
    hide HexNumber, HexToRegex;
    HexNumberOfBig();
    var d := "100000041";
    assert forall i :: 0 <= i < 9 ==> IsHexDigit(d[i]);
    RangeCheck(d);
    assert HexByte(0x41) == "\\x41";
  }

  lemma HexAppend(s: string, c: char)
    requires IsHexDigit(c) && forall i :: 0 <= i < |s| ==> IsHexDigit(s[i])
    ensures HexNumber(s + [c]) == 16 * HexNumber(s) + HexValue(c)
  {
    assert (s + [c])[..|s|] == s;
  }

  lemma HexNumberOfBig()
    ensures HexNumber("100000041") == 0x1_0000_0041
  {
    hide HexNumber;
    HexAppend("", '1');
    HexAppend("1", '0');
    HexAppend("10", '0');
    HexAppend("100", '0');
    HexAppend("1000", '0');
    HexAppend("10000", '0');
    HexAppend("100000", '0');
    HexAppend("1000000", '4');
    HexAppend("10000004", '1');
    NoDigits();
    assert "" + ['1'] == "1" && "1" + ['0'] == "10" && "10" + ['0'] == "100" && "100" + ['0'] == "1000";
    assert "1000" + ['0'] == "10000" && "10000" + ['0'] == "100000" && "100000" + ['0'] == "1000000";
    assert "1000000" + ['4'] == "10000004" && "10000004" + ['1'] == "100000041";
  }

  lemma NoDigits()
    ensures HexNumber("") == 0
  {
  }
}
