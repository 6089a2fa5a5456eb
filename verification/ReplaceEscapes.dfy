/** Which characters of a replacement text come out as they are written, and which by their number
    (lib/search/regex.c). */
module ReplaceEscapes {
  import opened Numbers
  import opened Regex
  import opened RegexReplace
  import opened ReplaceMeaning
  import opened Sequences
  import opened Wrappers

  // ----- characters behind a backslash -----

  /** A piece that is no ordinary character, at the beginning. */
  lemma FirstWritten(t: string, p: Piece, n: nat, m: Found)
    requires |t| >= 2 && Token(t, false) == (p, n) && (p.Literal? || p.Number? || p.GroupNumber?)
    requires GroupsThere(t, m) && GroupsThere(t[n..], m) && !EscapedAfter(t[..n], false)
    ensures p.GroupNumber? ==> p.k < |m.groups|
    ensures Expand(t, m) == Prepend(Written(p, NO_TRANSFORM, m).0, Expand(t[n..], m))
  {
    hide Token, MaxName, EscapedAfter, Pieces, Encoded;
    FirstPiece(t, p, n);
    var rest := Pieces(t[n..], false);
    NamesAreCounted(t, false, |m.groups|);
    NamesAreCounted(t[n..], false, |m.groups|);
    ExpandedStep("", p, rest, "", NO_TRANSFORM, m);
    assert ([p] + rest)[0] == p;
    assert Appended("", NO_TRANSFORM) == ("", NO_TRANSFORM) && "" + "" == "";
    var (y, h) := Written(p, NO_TRANSFORM, m);
    assert h == NO_TRANSFORM && "" + "" + y == y;
    assert Prepend("", Expand(t, m)) == Expand(t, m);
  }

  lemma {:induction false} LeadingAll(d: string, rest: string, k: Digits)
    requires AllWithin(k, d) && (rest == "" || !Within(k, rest[0]))
    ensures Leading(d + rest, k) == |d|
  {
    if d == "" {
      assert d + rest == rest;
    } else {
      assert (d + rest)[1..] == d[1..] + rest;
      LeadingAll(d[1..], rest, k);
    }
  }

  lemma {:induction false} EndsWithout(s: string, escaped: bool)
    requires s != "" && s[|s| - 1] != '\\'
    ensures !EscapedAfter(s, escaped)
  {
    if |s| == 1 {
      OneAfter(s, escaped);
    } else {
      EndsWithout(s[1..], s[0] == '\\' && !escaped);
    }
  }

  /** Hexadecimal digits in braces behind "\x" are the number of a character, in 32 bits. */
  lemma BracedHex(d: string, t: string)
    requires AllWithin(Hexadecimal, d)
    ensures Pieces("\\x{" + d + "}" + t, false) == [Number(NumberOf(d, Hexadecimal) % 0x1_0000_0000)] + Pieces(t, false)
  {
    hide NumberOf, Leading;
    var u, n := "\\x{" + d + "}" + t, |d| + 4;
    assert u[3..] == d + ("}" + t);
    LeadingAll(d, "}" + t, Hexadecimal);
    assert u[n - 1] == '}' && EscSeq(u) == Sequence(n);
    var from := u[1..n];
    assert from[2..] == d + "}" && from[0] == 'x' && from[1] == '{';
    LeadingAll(d, "}", Hexadecimal);
    assert (d + "}")[..|d|] == d;
    assert Token(u, false) == (SequencePiece(from), n);
    assert u[n..] == t;
    EndsWithout(u[..n], false);
    FirstPiece(u, SequencePiece(from), n);
  }

  /** So are octal digits in braces behind a backslash, if there is one. */
  lemma BracedOctal(d: string, t: string)
    requires AllWithin(Octal, d) && d != ""
    ensures Pieces("\\{" + d + "}" + t, false) == [Number(NumberOf(d, Octal) % 0x1_0000_0000)] + Pieces(t, false)
  {
    hide NumberOf, Leading;
    var u, n := "\\{" + d + "}" + t, |d| + 3;
    assert u[2..] == d + ("}" + t);
    LeadingAll(d, "}" + t, Octal);
    assert u[n - 1] == '}' && EscSeq(u) == Sequence(n);
    var from := u[1..n];
    assert from == "{" + (d + "}");
    assert from[0] == '{' && (d + "}")[0] == d[0];
    LeadingAll(d, "}", Octal);
    assert (d + "}")[..|d|] == d;
    assert Token(u, false) == (SequencePiece(from), n);
    assert u[n..] == t;
    EndsWithout(u[..n], false);
    FirstPiece(u, SequencePiece(from), n);
  }

  /** One or two hexadecimal digits need no braces. */
  lemma BareHex(d: string, t: string)
    requires AllWithin(Hexadecimal, d) && 1 <= |d| <= 2 && (|d| == 1 && t != "" ==> !IsHexDigit(t[0]))
    ensures Pieces("\\x" + d + t, false) == [Number(NumberOf(d, Hexadecimal))] + Pieces(t, false)
  {
    hide Leading, NumberOf;
    var u, n := "\\x" + d + t, |d| + 2;
    assert u[2] == d[0] && (|u| > 3 ==> u[3] == if |d| == 2 then d[1] else t[0]);
    var from := u[1..n];
    assert from[1..] == d && d + "" == d;
    LeadingAll(d, "", Hexadecimal);
    assert d[..|d|] == d;
    SmallNumber(d);
    assert Token(u, false) == (SequencePiece(from), n);
    assert u[n..] == t;
    EndsWithout(u[..n], false);
    FirstPiece(u, SequencePiece(from), n);
  }

  lemma SmallNumber(d: string)
    requires AllWithin(Hexadecimal, d) && 1 <= |d| <= 2
    ensures NumberOf(d, Hexadecimal) % 0x1_0000_0000 == NumberOf(d, Hexadecimal) <= 255
  {
    var e := d[..|d| - 1];
    assert NumberOf(d, Hexadecimal) == NumberOf(e, Hexadecimal) * 16 + HexValue(d[|d| - 1]);
    if e != "" {
      assert e[..0] == "" && NumberOf(e, Hexadecimal) == HexValue(e[0]);
    }
  }

  /** Decimal digits in braces behind a dollar sign name a group. */
  lemma NamedGroup(d: string, t: string)
    requires AllDigits(d) && d != "" && Value(d) < 0x8000_0000
    ensures Pieces("${" + d + "}" + t, false) == [GroupNumber(Value(d))] + Pieces(t, false)
  {
    hide Leading, Value, LeadingDigits;
    var u, n := "${" + d + "}" + t, |d| + 3;
    assert u[2..] == d + ("}" + t) && u[2] == d[0];
    LeadingAll(d, "}" + t, GroupName);
    assert u[2..2 + |d|] == d && d + "" == d;
    AtolOfDigits(d, "");
    assert Token(u, false) == (GroupNumber(Value(d)), n);
    assert u[n..] == t;
    EndsWithout(u[..n], false);
    FirstPiece(u, GroupNumber(Value(d)), n);
  }

  /** The group that is named comes out as it is if the match has it and its number is at most 64; else there is no
      text at all. */
  lemma GroupAlone(d: string, m: Found)
    requires AllDigits(d) && d != "" && Value(d) < 0x8000_0000
    ensures Expand("${" + d + "}", m)
         == if Value(d) < |m.groups| && Value(d) <= 64 then Expansion(m.groups[Value(d)], Done)
            else Expansion("", NoGroup)
  {
    hide Value, Pieces, MaxName;
    var u, k := "${" + d + "}", Value(d);
    NamedGroup(d, "");
    assert u + "" == u;
    NameAlone(d);
    NoPieces();
    if GroupsThere(u, m) {
      NamesAreCounted(u, false, |m.groups|);
      assert Pieces(u, false) == [GroupNumber(k)];
      GroupExpanded(k, m);
    }
  }

  lemma GroupExpanded(k: nat, m: Found)
    requires k < |m.groups|
    ensures Expanded([GroupNumber(k)], "", NO_TRANSFORM, m) == Expansion(m.groups[k], Done)
  {
    var ps := [GroupNumber(k)];
    assert ps[1..] == [] && Appended("", NO_TRANSFORM) == ("", NO_TRANSFORM);
    NothingExpanded("", NO_TRANSFORM, m);
    assert "" + m.groups[k] + "" == m.groups[k];
  }

  lemma NameAlone(d: string)
    requires AllDigits(d) && d != "" && Value(d) < 0x8000_0000
    ensures MaxName("${" + d + "}", false) == Value(d)
  {
    hide Value, MaxName, Leading, LeadingDigits;
    var u := "${" + d + "}";
    assert u[2..] == d + "}" && u[1..] == "{" + d + "}" && u[2..2 + |d|] == d && d + "" == d;
    LeadingAll(d, "}", GroupName);
    AtolOfDigits(d, "");
    MaxNameStep(u, false);
    PlainNamesNothing("{" + d + "}", "");
    assert "{" + d + "}" + "" == "{" + d + "}";
    MaxNameStep("", false);
  }

  /** Of a number that is not below 2^31 a long keeps what it can and an int the last 32 bits, so 4294967297 names
      group 1. One that comes out negative is no name. */
  lemma BigName(d: string, t: string)
    requires AllDigits(d) && d != ""
    ensures var v := if Value(d) > 0x7FFF_FFFF_FFFF_FFFF then 0x7FFF_FFFF_FFFF_FFFF else Value(d);
            var k := v % 0x1_0000_0000;
            Pieces("${" + d + "}" + t, false) ==
            if k < 0x8000_0000 then [GroupNumber(k)] + Pieces(t, false) else [Beyond]
  {
    hide Leading, Value, LeadingDigits, Pieces;
    var u, n := "${" + d + "}" + t, |d| + 3;
    assert u[2..] == d + ("}" + t) && u[2] == d[0];
    LeadingAll(d, "}" + t, GroupName);
    assert u[2..2 + |d|] == d && d + "" == d;
    AtolOfDigits(d, "");
    var p := if Atoi(d) >= 0 then GroupNumber(Atoi(d)) else Beyond;
    assert Token(u, false) == (p, n) && u[n..] == t;
    if p == Beyond {
      FirstIsBeyond(u);
    } else {
      EndsWithout(u[..n], false);
      FirstPiece(u, p, n);
    }
  }

  lemma FirstIsBeyond(t: string)
    requires |t| >= 2 && Token(t, false).0.Beyond?
    ensures Pieces(t, false) == [Beyond]
  {
    hide Token;
  }

  /** A name may go on with a colon, a semicolon, a less, equal or greater sign or a question mark, which the
      number ends at. */
  lemma NameWithMore(d: string, e: string, t: string)
    requires AllDigits(d) && d != "" && Value(d) < 0x8000_0000
    requires e != "" && forall i :: 0 <= i < |e| ==> e[i] in ":;<=>?" || (i > 0 && IsDigit(e[i]))
    ensures Pieces("${" + (d + e) + "}" + t, false) == [GroupNumber(Value(d))] + Pieces(t, false)
  {
    hide Leading, Value, LeadingDigits;
    var f := d + e;
    var u, n := "${" + f + "}" + t, |f| + 3;
    assert u[2..] == f + ("}" + t) && u[2] == f[0] == d[0];
    assert e[0] in ":;<=>?";
    assert AllWithin(GroupName, f) by { assert forall i :: 0 <= i < |e| ==> Within(GroupName, e[i]); }
    LeadingAll(f, "}" + t, GroupName);
    assert u[2..2 + |f|] == f;
    AtolOfDigits(d, e);
    assert Token(u, false) == (GroupNumber(Value(d)), n);
    assert u[n..] == t;
    EndsWithout(u[..n], false);
    FirstPiece(u, GroupNumber(Value(d)), n);
  }

  lemma DollarParts(d: string, t: string)
    requires d != ""
    ensures var u := "${" + d + t;
            && |u| == |d| + |t| + 2 && u[0] == '$' && u[1] == '{' && u[2] == d[0] && u[2..] == d + t
            && (t != "" ==> u[2 + |d|] == t[0])
            && u[1..|d|] == ("{" + d)[..|d| - 1] && u[|d|..] == ("{" + d)[|d| - 1..] + t
  {
  }

  lemma BrokenToken(d: string, t: string)
    requires d != "" && forall i :: 0 <= i < |d| ==> d[i] in "0123456789:;<=>?"
    requires t == "" || t[0] !in "0123456789:;<=>?}"
    ensures var u := "${" + d + t; Token(u, false) == (Literal(u[1..|d|]), |d|)
  {
    hide Leading;
    DollarParts(d, t);
    assert AllWithin(GroupName, d);
    LeadingAll(d, t, GroupName);
  }

  /** A name that anything else follows than its closing brace is no name; its dollar sign is lost. */
  lemma BrokenName(d: string, t: string)
    requires d != "" && forall i :: 0 <= i < |d| ==> d[i] in "0123456789:;<=>?"
    requires t == "" || t[0] !in "0123456789:;<=>?}"
    ensures Pieces("${" + d + t, false)
         == [Literal(("{" + d)[..|d| - 1])] + Pieces(("{" + d)[|d| - 1..] + t, false)
  {
    hide Leading, Token, Pieces, EscapedAfter;
    var u := "${" + d + t;
    BrokenToken(d, t);
    DollarParts(d, t);
    NoBackslashIn(u, d);
    EndsWithout(u[..|d|], false);
    FirstPiece(u, Literal(u[1..|d|]), |d|);
  }

  lemma NoBackslashIn(u: string, d: string)
    requires d != "" && |u| >= |d| + 2 && u[0] == '$' && u[1] == '{' && u[2..|d| + 2] == d
    requires forall i :: 0 <= i < |d| ==> d[i] in "0123456789:;<=>?"
    ensures u[..|d|] != "" && u[..|d|][|d| - 1] != '\\'
  {
    if |d| > 2 { assert u[|d| - 1] == d[|d| - 3]; }
  }

  /** A backslash makes a character stand for itself, whatever follows and for all groups, if and only if it is no
      digit, no letter for a control character, no switch, and none that starts a number. */
  lemma EscapedAsWritten(c: char)
    ensures (forall t: string, m: Found :: GroupsThere(t, m) ==>
               Expand(['\\', c] + t, m) == Prepend([c], Expand(t, m)))
       <==> !IsDigit(c) && ControlCharacter(c) == None && !CaseSwitch(c) && c != 'x' && c != '{'
  {
    hide Expand, MaxName;
    if !IsDigit(c) && ControlCharacter(c) == None && !CaseSwitch(c) && c != 'x' && c != '{' {
      forall t: string, m: Found | GroupsThere(t, m)
        ensures Expand(['\\', c] + t, m) == Prepend([c], Expand(t, m))
      {
        LiteralFirst(c, t, m);
      }
    } else {
      var t := if c == 'x' then "0" else if c == '{' then "0}" else "";
      var m := Found(seq(10, _ => ""), false);
      SpecialFirst(c, t, m);
    }
  }

  lemma LiteralFirst(c: char, t: string, m: Found)
    requires !IsDigit(c) && ControlCharacter(c) == None && !CaseSwitch(c) && c != 'x' && c != '{' && GroupsThere(t, m)
    ensures Expand(['\\', c] + t, m) == Prepend([c], Expand(t, m))
  {
    hide MaxName, Expand;
    var u := ['\\', c] + t;
    assert u[2..] == t && u[1..] == [c] + t && u[1..][1..] == t;
    MaxNameStep(u, false);
    MaxNameStep(u[1..], true);
    MaxNameStep(t, false);
    TwoAfter(u, c);
    assert u[1..2] == [c];
    FirstWritten(u, Literal([c]), 2, m);
  }

  lemma SpecialFirst(c: char, t: string, m: Found)
    requires IsDigit(c) || ControlCharacter(c) != None || CaseSwitch(c) || c == 'x' || c == '{'
    requires t == if c == 'x' then "0" else if c == '{' then "0}" else ""
    requires |m.groups| == 10 && forall k :: 0 <= k < 10 ==> m.groups[k] == ""
    ensures GroupsThere(t, m) && Expand(['\\', c] + t, m) != Prepend([c], Expand(t, m))
  {
    hide MaxName, Expand, Meant, ControlCharacter;
    var u := ['\\', c] + t;
    SpecialNames(c, t, m);
    if CaseSwitch(c) {
      AroundSwitch("", c, "", m);
      assert WithSwitch("", c, "") == u && "" + "" == "";
      EmptyExpands(m);
    } else if c == 'x' || c == '{' {
      NumberedZero(c, t, m);
      assert Prepend([c], Expand(t, m)).text[0] == c;
    } else {
      assert u == ['\\', c];
      SpecialAlone(c, m);
      EmptyExpands(m);
    }
  }

  lemma SpecialNames(c: char, t: string, m: Found)
    requires t == if c == 'x' then "0" else if c == '{' then "0}" else ""
    requires |m.groups| == 10
    ensures GroupsThere(t, m) && GroupsThere(['\\', c] + t, m)
  {
    hide MaxName;
    var u := ['\\', c] + t;
    assert u[1..] == [c] + t && u[1..][1..] == t;
    MaxNameStep(u, false);
    MaxNameStep(u[1..], true);
    MaxNameStep(t, false);
    if t != "" { MaxNameStep(t[1..], false); }
  }

  lemma SpecialAlone(c: char, m: Found)
    requires (IsDigit(c) || ControlCharacter(c) != None) && GroupsThere(['\\', c], m)
    requires |m.groups| == 10 && forall k :: 0 <= k < 10 ==> m.groups[k] == ""
    ensures Expand(['\\', c], m).text != [c]
  {
    hide MaxName, Expand;
    var u := ['\\', c];
    TwoAfter(u, c);
    EmptyExpands(m);
    SpecialNames('n', "", m);
    assert u[2..] == "" && u[1..2] == [c];
    if IsDigit(c) {
      FirstWritten(u, GroupNumber(DigitValue(c)), 2, m);
    } else {
      FirstWritten(u, Number(ControlCharacter(c).value as nat), 2, m);
    }
  }

  lemma EmptyExpands(m: Found)
    requires m.groups != []
    ensures Expand("", m) == Expansion("", Done)
  {
  }

  lemma NumberedZero(c: char, t: string, m: Found)
    requires (c == 'x' && t == "0") || (c == '{' && t == "0}")
    requires GroupsThere(['\\', c] + t, m) && m.groups != []
    ensures Expand(['\\', c] + t, m) == Expansion("\0", Done)
  {
    hide MaxName, Pieces, Encoded;
    ZeroPiece(c, t);
    NumberAlone(0, m);
    assert Encoded(0, m.isUtf8) == "\0" by { ZeroByte(m.isUtf8); }
  }

  lemma ZeroByte(isUtf8: bool)
    ensures Encoded(0, isUtf8) == "\0"
  {
  }

  lemma ZeroPiece(c: char, t: string)
    requires (c == 'x' && t == "0") || (c == '{' && t == "0}")
    ensures Pieces(['\\', c] + t, false) == [Number(0)]
  {
    hide Pieces;
    assert NumberOf("0", Hexadecimal) == 0 == NumberOf("0", Octal);
    NoPieces();
    if c == 'x' {
      BareHex("0", "");
      assert "\\x" + "0" + "" == ['\\', c] + t;
    } else {
      BracedOctal("0", "");
      assert "\\{" + "0" + "}" + "" == ['\\', c] + t;
    }
  }

  lemma NoPieces()
    ensures Pieces("", false) == []
  {
  }

  lemma NumberAlone(code: nat, m: Found)
    ensures Expanded([Number(code)], "", NO_TRANSFORM, m) == Expansion(Encoded(code, m.isUtf8), Done)
  {
    hide Encoded;
    ExpandedStep("", Number(code), [], "", NO_TRANSFORM, m);
    assert [Number(code)] + [] == [Number(code)];
    assert Expanded([], "", NO_TRANSFORM, m) == Expansion("", Done);
    assert "" + "" + Encoded(code, m.isUtf8) + "" == Encoded(code, m.isUtf8);
  }

  // ----- control characters -----

  lemma EscapeNames(c: char, u: string)
    ensures MaxName(['\\', c] + u, false) == Greater(if IsDigit(c) then DigitValue(c) else 0, MaxName(u, false))
  {
    hide MaxName;
    var t := ['\\', c] + u;
    assert t[1..] == [c] + u && t[1..][1..] == u;
    MaxNameStep(t, false);
    MaxNameStep(t[1..], true);
    MaxNameStep(u, false);
  }

  lemma BracedNames(c: char, s: string, u: string)
    requires PlainText(s) && !IsDigit(c)
    ensures MaxName(['\\', c] + s + u, false) == MaxName(u, false)
  {
    hide MaxName;
    Assoc(['\\', c], s, u);
    EscapeNames(c, s + u);
    PlainNamesNothing(s, u);
  }

  /** A piece ends where x ends, if a backslash follows; escaped says that an odd run of backslashes stands in front
      of x. */
  predicate PieceEnds(x: string, escaped: bool)
    decreases |x|
  {
    if x == "" then !escaped
    else
      var (p, n) := Token(x + "\\\\", escaped);
      !p.Beyond? && n <= |x| && PieceEnds(x[n..], EscapedAfter(x[..n], escaped))
  }

  lemma {:induction false} LeadingUpTo(a: string, b: string, k: nat, d: Digits)
    requires k < |a| && k < |b| && a[..k] == b[..k] && a[k] == b[k] == '\\'
    ensures Leading(a, d) == Leading(b, d) <= k
    decreases k
  {
    if k > 0 {
      assert a[0] == a[..k][0] == b[..k][0] == b[0];
      assert a[1..][..k - 1] == a[..k][1..] && b[1..][..k - 1] == b[..k][1..];
      LeadingUpTo(a[1..], b[1..], k - 1, d);
    }
  }

  /** u and v both start with x and a backslash, and are longer. */
  ghost predicate BothFollow(u: string, v: string, k: nat) {
    && 0 < k && k + 1 < |u| && k + 1 < |v| && u[k] == v[k] == '\\'
    && forall i :: 0 <= i < k ==> u[i] == v[i]
  }

  lemma SameLeading(u: string, v: string, k: nat, i: nat, d: Digits)
    requires BothFollow(u, v, k) && i <= k
    ensures Leading(u[i..], d) == Leading(v[i..], d) <= k - i
  {
    LeadingUpTo(u[i..], v[i..], k - i, d);
  }

  lemma SameEscSeq(u: string, v: string, k: nat)
    requires BothFollow(u, v, k) && k >= 2
    ensures EscSeq(u) == EscSeq(v) && EscSeq(u).len <= k
  {
    hide Leading;
    SameLeading(u, v, k, 2, Octal);
    if k >= 3 { SameLeading(u, v, k, 3, Hexadecimal); }
  }

  lemma TokenAhead(u: string, v: string, k: nat, escaped: bool)
    requires BothFollow(u, v, k) && !Token(u, escaped).0.Beyond? && Token(u, escaped).1 <= k
    ensures Token(v, escaped) == Token(u, escaped)
  {
    hide Leading, EscSeq, SequencePiece, Atoi;
    if k >= 2 {
      SameLeading(u, v, k, 2, GroupName);
      SameEscSeq(u, v, k);
      var n := Token(u, escaped).1;
      assert u[1..n] == v[1..n];
      assert u[2..2 + Leading(u[2..], GroupName)] == v[2..2 + Leading(u[2..], GroupName)];
    }
  }

  lemma {:induction false} PiecesBefore(x: string, s: string, t: string, escaped: bool)
    requires PieceEnds(x, escaped) && |s| >= 2 && |t| >= 2 && s[0] == t[0] == '\\'
    requires Pieces(s, false) == Pieces(t, false)
    ensures Pieces(x + s, escaped) == Pieces(x + t, escaped)
    decreases |x|
  {
    hide Token, Pieces, EscapedAfter;
    if x == "" {
      assert x + s == s && x + t == t;
    } else {
      var end := x + "\\\\";
      var (p, n) := Token(end, escaped);
      TokenAhead(end, x + s, |x|, escaped);
      TokenAhead(end, x + t, |x|, escaped);
      assert (x + s)[..n] == x[..n] == (x + t)[..n];
      assert (x + s)[n..] == x[n..] + s && (x + t)[n..] == x[n..] + t;
      PiecesBefore(x[n..], s, t, EscapedAfter(x[..n], escaped));
      FirstOf(x + s, escaped);
      FirstOf(x + t, escaped);
    }
  }

  lemma FirstOf(t: string, escaped: bool)
    requires |t| >= 2
    ensures var (p, n) := Token(t, escaped);
            Pieces(t, escaped) == [p] + if p.Beyond? then [] else Pieces(t[n..], EscapedAfter(t[..n], escaped))
  {
    hide Token;
  }

  lemma {:induction false} EscapedThrough(x: string, n: nat, escaped: bool)
    requires n <= |x|
    ensures EscapedAfter(x, escaped) == EscapedAfter(x[n..], EscapedAfter(x[..n], escaped))
    decreases n
  {
    if n == 0 {
      assert x[0..] == x;
    } else {
      assert x[..n][1..] == x[1..][..n - 1] && x[n..] == x[1..][n - 1..];
      EscapedThrough(x[1..], n - 1, x[0] == '\\' && !escaped);
    }
  }

  lemma {:induction false} EndsUnescaped(x: string, escaped: bool)
    requires PieceEnds(x, escaped)
    ensures !EscapedAfter(x, escaped)
    decreases |x|
  {
    hide Token, EscapedAfter;
    if x == "" {
      NothingAfter(escaped);
    } else {
      var n := Token(x + "\\\\", escaped).1;
      EndsUnescaped(x[n..], EscapedAfter(x[..n], escaped));
      EscapedThrough(x, n, escaped);
    }
  }

  lemma NothingAfter(escaped: bool)
    ensures EscapedAfter("", escaped) == escaped
  {
  }

  lemma NameAhead(u: string, v: string, k: nat, escaped: bool)
    requires BothFollow(u, v, k)
    ensures NameAt(u, escaped) == NameAt(v, escaped)
  {
    hide Leading, Atoi;
    if k >= 2 {
      SameLeading(u, v, k, 2, GroupName);
      assert u[2..2 + Leading(u[2..], GroupName)] == v[2..2 + Leading(u[2..], GroupName)];
    }
  }

  lemma {:induction false} NamesBefore(x: string, s: string, t: string, escaped: bool)
    requires |s| >= 2 && |t| >= 2 && s[0] == t[0] == '\\'
    requires MaxName(s, EscapedAfter(x, escaped)) == MaxName(t, EscapedAfter(x, escaped))
    ensures MaxName(x + s, escaped) == MaxName(x + t, escaped)
    decreases |x|
  {
    hide MaxName, NameAt;
    if x == "" {
      assert x + s == s && x + t == t;
    } else {
      NameAhead(x + s, x + t, |x|, escaped);
      assert (x + s)[1..] == x[1..] + s && (x + t)[1..] == x[1..] + t;
      NamesBefore(x[1..], s, t, x[0] == '\\' && !escaped);
      MaxNameStep(x + s, escaped);
      MaxNameStep(x + t, escaped);
    }
  }

  /** The letters for control characters, and the hexadecimal numbers of those in ASCII. */
  predicate ControlNumber(c: char, d: string) {
    || (c == 'a' && d == "7") || (c == 'b' && d == "8") || (c == 't' && d == "9") || (c == 'n' && d == "a")
    || (c == 'v' && d == "b") || (c == 'f' && d == "c") || (c == 'r' && d == "d")
  }

  /** In every text, at a place where a piece ends, and for all matches, a letter for a control character behind a
      backslash expands to the same as the number of that character. */
  lemma ControlIsNumber(x: string, c: char, d: string, t: string, m: Found)
    requires ControlNumber(c, d) && PieceEnds(x, false)
    ensures Expand(x + (['\\', c] + t), m) == Expand(x + ("\\x{" + d + "}" + t), m)
  {
    hide MaxName, Pieces, Expanded;
    var s, u := ['\\', c] + t, "\\x{" + d + "}" + t;
    BracedHex(d, t);
    LetterPiece(c, d, t);
    PiecesBefore(x, s, u, false);
    EndsUnescaped(x, false);
    EscapeNames(c, t);
    assert "\\x{" + d + "}" == ['\\', 'x'] + ("{" + d + "}");
    BracedNames('x', "{" + d + "}", t);
    NamesBefore(x, s, u, false);
  }

  lemma LetterPiece(c: char, d: string, t: string)
    requires ControlNumber(c, d)
    ensures Pieces(['\\', c] + t, false) == [Number(NumberOf(d, Hexadecimal) % 0x1_0000_0000)] + Pieces(t, false)
  {
    hide Pieces;
    var u := ['\\', c] + t;
    assert u[1..2] == [c] && u[2..] == t && d[..0] == "";
    assert NumberOf(d, Hexadecimal) == HexValue(d[0]);
    assert Token(u, false) == (Number(NumberOf(d, Hexadecimal) % WRAP), 2);
    FirstPiece(u, Number(NumberOf(d, Hexadecimal) % WRAP), 2);
    TwoAfter(u, c);
  }

  function DigitChar(i: nat): char
    requires i < 16
  {
    "0123456789abcdef"[i]
  }

  /** Outside of UTF-8, two hexadecimal or three octal digits of a byte give just that byte. */
  lemma ByteByNumber(v: nat, m: Found)
    requires v < 256 && m.groups != [] && !m.isUtf8
    ensures Expand("\\x" + [DigitChar(v / 16), DigitChar(v % 16)], m) == Expansion([v as char], Done)
    ensures Expand("\\{" + [DigitChar(v / 64), DigitChar(v / 8 % 8), DigitChar(v % 8)] + "}", m)
         == Expansion([v as char], Done)
  {
    hide Expanded, MaxName, Pieces, NumberOf, HexValue, DigitChar;
    var h, o := [DigitChar(v / 16), DigitChar(v % 16)], [DigitChar(v / 64), DigitChar(v / 8 % 8), DigitChar(v % 8)];
    DigitsOf(v);
    BareHex(h, "");
    BracedOctal(o, "");
    NoPieces();
    NumberAlone(v, m);
    assert [Number(v)] + [] == [Number(v)];
    assert "\\x" + h + "" == "\\x" + h && "\\{" + o + "}" + "" == "\\{" + o + "}";
    NothingBehind(h, o);
  }

  lemma DigitIs(i: nat)
    requires i < 16
    ensures IsHexDigit(DigitChar(i)) && HexValue(DigitChar(i)) == i && (i < 8 ==> Within(Octal, DigitChar(i)))
    ensures DigitChar(i) != '\\' && DigitChar(i) != '$'
  {
  }

  lemma DigitsOf(v: nat)
    requires v < 256
    ensures var h := [DigitChar(v / 16), DigitChar(v % 16)];
            var o := [DigitChar(v / 64), DigitChar(v / 8 % 8), DigitChar(v % 8)];
            && AllWithin(Hexadecimal, h) && NumberOf(h, Hexadecimal) == v
            && AllWithin(Octal, o) && NumberOf(o, Octal) == v && PlainText(h) && PlainText(o)
  {
    hide HexValue, NumberOf, DigitChar;
    var a, b, c, d, e := v / 16, v % 16, v / 64, v / 8 % 8, v % 8;
    ThreeBits(v);
    PlainDigits(a, b, c, d, e);
  }

  lemma ThreeBits(v: nat)
    ensures v == v / 64 * 64 + v / 8 % 8 * 8 + v % 8
  {
    var q := v / 8;
    assert v == q * 8 + v % 8 && q == q / 8 * 8 + q % 8 && q / 8 == v / 64;
  }

  lemma PlainDigits(a: nat, b: nat, c: nat, d: nat, e: nat)
    requires a < 16 && b < 16 && c < 8 && d < 8 && e < 8
    ensures var h, o := [DigitChar(a), DigitChar(b)], [DigitChar(c), DigitChar(d), DigitChar(e)];
            && PlainText(h) && PlainText(o) && AllWithin(Hexadecimal, h) && AllWithin(Octal, o)
            && NumberOf(h, Hexadecimal) == a * 16 + b && NumberOf(o, Octal) == c * 64 + d * 8 + e
  {
    hide HexValue, NumberOf, DigitChar;
    DigitIs(a);
    DigitIs(b);
    DigitIs(c);
    DigitIs(d);
    DigitIs(e);
    TwoDigits(DigitChar(a), DigitChar(b));
    ThreeDigits(DigitChar(c), DigitChar(d), DigitChar(e));
  }

  lemma TwoDigits(a: char, b: char)
    requires IsHexDigit(a) && IsHexDigit(b)
    ensures NumberOf([a, b], Hexadecimal) == HexValue(a) * 16 + HexValue(b)
  {
    hide NumberOf, HexValue;
    NoDigits(Hexadecimal);
    NumberSnoc("", a, Hexadecimal);
    NumberSnoc([a], b, Hexadecimal);
    assert "" + [a] == [a] && [a] + [b] == [a, b];
  }

  lemma ThreeDigits(a: char, b: char, c: char)
    requires Within(Octal, a) && Within(Octal, b) && Within(Octal, c)
    ensures NumberOf([a, b, c], Octal) == HexValue(a) * 64 + HexValue(b) * 8 + HexValue(c)
  {
    hide NumberOf, HexValue;
    NoDigits(Octal);
    NumberSnoc("", a, Octal);
    NumberSnoc([a], b, Octal);
    NumberSnoc([a, b], c, Octal);
    assert "" + [a] == [a] && [a] + [b] == [a, b] && [a, b] + [c] == [a, b, c];
  }

  lemma NothingBehind(h: string, o: string)
    requires PlainText(h) && PlainText(o)
    ensures MaxName("\\x" + h, false) == 0 && MaxName("\\{" + o + "}", false) == 0
  {
    hide MaxName;
    BracedNames('x', h, "");
    BracedNames('{', o + "}", "");
    MaxNameStep("", false);
    assert ['\\', 'x'] + h + "" == "\\x" + h && ['\\', '{'] + (o + "}") + "" == "\\{" + o + "}";
  }

  // ----- texts without a backslash -----

  predicate HasGroupName(t: string) {
    t != "" && (NamesGroup(t) || HasGroupName(t[1..]))
  }

  /** A text without a backslash comes out as it is written, for all groups, if and only if no "${" with a digit of a
      group name stands in it. */
  lemma BareAsWrittenIff(t: string)
    requires '\\' !in t
    ensures (forall m: Found :: m.groups != [] ==> Expand(t, m) == Expansion(t, Done)) <==> !HasGroupName(t)
  {
    hide HasGroupName, Expanded, Pieces, MaxName, Appended;
    if !HasGroupName(t) {
      forall m: Found | m.groups != []
        ensures Expand(t, m) == Expansion(t, Done)
      {
        BarePieces(t);
        assert "" + t == t && Ordinaries(t) + [] == Ordinaries(t);
        ExpandedPlain(t, [], "", NO_TRANSFORM, m);
        NothingExpanded(t, NO_TRANSFORM, m);
        CopiedWhole(t, t);
      }
    } else {
      var m := Found(seq(NUM_REPLACE_ARGS + 1, _ => ""), false);
      if GroupsThere(t, m) {
        NamesAreCounted(t, false, |m.groups|);
        BareShrinks(t, "", m);
      }
      assert Expand(t, m) != Expansion(t, Done);
    }
  }

  lemma {:induction false} BarePieces(t: string)
    requires '\\' !in t && !HasGroupName(t)
    ensures Pieces(t, false) == Ordinaries(t) && MaxName(t, false) == 0
  {
    hide Token, MaxName, NameAt, Pieces;
    MaxNameStep(t, false);
    if |t| <= 1 {
      ShortPieces(t);
    } else {
      assert t[0] in t && forall i :: 0 <= i < |t| - 1 ==> t[1..][i] == t[i + 1];
      BarePieces(t[1..]);
      BareToken(t);
      FirstPiece(t, Ordinary(t[0]), 1);
      OneAfter(t[..1], false);
    }
  }

  lemma ShortPieces(t: string)
    requires |t| <= 1
    ensures Pieces(t, false) == Ordinaries(t) && !HasGroupName(t)
  {
    assert t != "" ==> t[1..] == "";
  }

  lemma BareToken(t: string)
    requires |t| >= 2 && t[0] != '\\' && !NamesGroup(t)
    ensures Token(t, false) == (Ordinary(t[0]), 1) && NameAt(t, false) == 0
  {
    hide Leading;
    if t[0] == '$' && t[1] == '{' {
      assert Leading(t[2..], GroupName) == 0;
      assert t[2..2] == "" && Atoi("") == 0;
    }
  }

  /** With empty groups a group name makes a text shorter. */
  lemma {:induction false} BareShrinks(t: string, pending: string, m: Found)
    requires '\\' !in t && NamesBelow(Pieces(t, false), |m.groups|)
    requires forall k :: 0 <= k < |m.groups| ==> m.groups[k] == ""
    ensures var e := Expanded(Pieces(t, false), pending, NO_TRANSFORM, m);
            |e.text| <= |pending| + |t| && (HasGroupName(t) ==> |e.text| < |pending| + |t|)
    decreases |t|
  {
    hide Token, Pieces, Expanded;
    if |t| <= 1 {
      ShortPieces(t);
      assert Ordinaries(t) + [] == Ordinaries(t);
      ExpandedPlain(t, [], pending, NO_TRANSFORM, m);
      NothingExpanded(pending + t, NO_TRANSFORM, m);
    } else {
      var (p, n) := Token(t, false);
      BareTokens(t);
      var more := if p.Beyond? then [] else Pieces(t[n..], false);
      assert Pieces(t, false) == [p] + more by { hide Expanded; SplitBare(t); }
      ExpandedStep("", p, more, pending, NO_TRANSFORM, m);
      var all := Expanded([p] + more, pending, NO_TRANSFORM, m);
      assert Prepend("", all) == all;
      if !p.Beyond? {
        assert forall i :: 0 <= i < |t| - n ==> t[n..][i] == t[i + n];
        BareShrinks(t[n..], if p.Ordinary? then pending + [p.c] else "", m);
      }
    }
  }

  lemma SplitBare(t: string)
    requires '\\' !in t && |t| >= 2
    ensures var (p, n) := Token(t, false);
            Pieces(t, false) == [p] + if p.Beyond? then [] else Pieces(t[n..], false)
  {
    hide Token;
    var (p, n) := Token(t, false);
    assert t[n - 1] in t && t[..n][n - 1] == t[n - 1];
    EndsWithout(t[..n], false);
  }

  /** What a text without a backslash may start with. */
  lemma BareTokens(t: string)
    requires |t| >= 2 && t[0] != '\\'
    ensures var (p, n) := Token(t, false);
            if NamesGroup(t) then (p.Literal? && |p.text| < n) || p.GroupNumber? || p.Beyond?
            else p == Ordinary(t[0]) && n == 1
  {
    hide Leading, Atoi;
  }

  // ----- what is not closed -----

  /** An input: behind an escaped brace that starts no number, two characters more are taken as they are. Here one
      is the backslash that would name a group. */
  lemma BraceTakesMore(m: Found)
    requires |m.groups| > 1
    ensures Expand("\\{a\\1", m) == Expansion("{a\\1", Done)
  {
    hide Pieces, Expanded, MaxName;
    var s := "\\{a\\1";
    BraceNames();
    BracePieces();
    var ps := [Literal("{a\\"), Ordinary('1')];
    ExpandedStep("", Literal("{a\\"), [Ordinary('1')], "", NO_TRANSFORM, m);
    assert [Literal("{a\\")] + [Ordinary('1')] == ps;
    ExpandedStep("", Ordinary('1'), [], "", NO_TRANSFORM, m);
    assert [Ordinary('1')] + [] == [Ordinary('1')];
    NothingExpanded("1", NO_TRANSFORM, m);
    Begins(Expanded(ps, "", NO_TRANSFORM, m));
    Begins(Expanded([Ordinary('1')], "", NO_TRANSFORM, m));
    Begins(Expanded([], "1", NO_TRANSFORM, m));
    assert "" + "" + "{a\\" == "{a\\" && "" + ['1'] == "1" && "{a\\" + "1" == s[1..];
  }

  lemma Begins(e: Expansion)
    ensures Prepend("", e) == e
  {
  }

  lemma BracePieces()
    ensures Pieces("\\{a\\1", false) == [Literal("{a\\"), Ordinary('1')]
  {
    hide Pieces;
    var s := "\\{a\\1";
    assert s[2..] == "a\\1" && s[1..4] == "{a\\" && s[4..] == "1";
    assert Leading("a\\1", Octal) == 0;
    FirstPiece(s, Literal("{a\\"), 4);
    LastPiece("1", EscapedAfter(s[..4], false));
  }

  /** A brace that starts no number takes a backslash with it if that comes second. A backslash that follows is
      then dropped. */
  lemma BraceThenBackslash(a: char, t: string)
    requires a != '\\' && a != '}' && !('0' <= a <= '7') && t != ""
    ensures Pieces("\\{" + [a, '\\'] + ("\\" + t), false)
         == [Literal("{" + [a, '\\'])] + ([Literal("")] + Pieces(t, false))
  {
    hide *;
    var u := "\\" + t;
    BraceFirst(a, u);
    assert u[1..] == t && u[..1] == "\\" && u[0] == '\\';
    OneAfter(u[..1], true);
    EscapedPiece(u);
  }

  /** So is the dollar sign of a name that follows. */
  lemma BraceThenName(a: char, t: string)
    requires a != '\\' && a != '}' && !('0' <= a <= '7')
    requires |t| >= 2 && t[0] == '{' && t[1] in "0123456789:;<=>?"
    ensures Pieces("\\{" + [a, '\\'] + ("$" + t), false)
         == [Literal("{" + [a, '\\'])] + ([Literal("")] + Pieces(t, false))
  {
    hide Pieces, EscapedAfter;
    var u := "$" + t;
    BraceFirst(a, u);
    assert u[1..] == t && u[..1] == "$" && u[2] == t[1];
    OneAfter(u[..1], true);
    EscapedPiece(u);
  }

  lemma EscapedPiece(u: string)
    requires |u| >= 2 && (u[0] == '\\' || NamesGroup(u))
    ensures Pieces(u, true) == [Literal("")] + Pieces(u[1..], EscapedAfter(u[..1], true))
  {
    hide Leading, EscSeq, Atoi;
  }

  lemma BraceFirst(a: char, u: string)
    requires a != '\\' && a != '}' && !('0' <= a <= '7')
    ensures Pieces("\\{" + [a, '\\'] + u, false) == [Literal("{" + [a, '\\'])] + Pieces(u, true)
  {
    hide Pieces, Leading;
    var s := "\\{" + [a, '\\'] + u;
    assert s[2..] == [a, '\\'] + u && s[1..4] == "{" + [a, '\\'] && s[4..] == u;
    NoneLeading(s[2..]);
    BraceToken(s);
    FirstPiece(s, Literal(s[1..4]), 4);
    EscapedByThree(s[..4]);
  }

  lemma BraceToken(s: string)
    requires |s| >= 4 && s[0] == '\\' && s[1] == '{' && s[2] != '}' && Leading(s[2..], Octal) == 0
    ensures Token(s, false) == (Literal(s[1..4]), 4)
  {
    hide Leading;
  }

  lemma NoneLeading(s: string)
    requires s != "" && !('0' <= s[0] <= '7')
    ensures Leading(s, Octal) == 0
  {
  }

  lemma EscapedByThree(s: string)
    requires |s| == 4 && s[1] != '\\' && s[2] != '\\' && s[3] == '\\'
    ensures EscapedAfter(s, false)
  {
    assert s[1..][1..] == s[2..] && s[2..][1..] == s[3..] && s[3..][1..] == "";
    OneAfter(s[3..], false);
    assert EscapedAfter(s[2..], false) == EscapedAfter(s[3..], false);
  }

  lemma LastPiece(t: string, escaped: bool)
    requires |t| == 1
    ensures Pieces(t, escaped) == [Ordinary(t[0])]
  {
  }

  lemma BraceNames()
    ensures MaxName("\\{a\\1", false) == 1
  {
    hide MaxName;
    var s := "\\{a\\1";
    assert s[1..] == "{a\\1" && "{a\\1"[1..] == "a\\1" && "a\\1"[1..] == "\\1" && "\\1"[1..] == "1";
    MaxNameStep(s, false);
    MaxNameStep("{a\\1", true);
    MaxNameStep("a\\1", false);
    MaxNameStep("\\1", false);
    MaxNameStep("1", true);
  }

  /** An input: of a group name that is not closed the dollar sign is lost. */
  lemma DollarIsLost(m: Found)
    requires m.groups != []
    ensures Expand("${1x", m) == Expansion("{1x", Done)
  {
    hide Pieces, Expanded, MaxName, Expand;
    var t := "${1x";
    assert t[2..] == "1x" && t[1..1] == "" && t[1..] == "{1x";
    OneDigitAhead();
    assert Token(t, false) == (Literal(""), 1);
    DollarNames();
    OneAfter(t[..1], false);
    FirstWritten(t, Literal(""), 1, m);
    BareAsWrittenIff("{1x");
    NoNameLeft();
  }

  lemma OneDigitAhead()
    ensures Leading("1x", GroupName) == 1
  {
    assert "1x"[1..] == "x";
  }

  lemma NoNameLeft()
    ensures !HasGroupName("{1x")
  {
    assert "{1x"[1..] == "1x" && "1x"[1..] == "x" && "x"[1..] == "";
    assert !HasGroupName("") && !HasGroupName("x") && !HasGroupName("1x");
  }

  lemma DollarNames()
    ensures MaxName("${1x", false) == MaxName("{1x", false) == 0
  {
    hide MaxName;
    var t := "${1x";
    assert t[1..] == "{1x" && t[2..] == "1x";
    OneDigitAhead();
    MaxNameStep(t, false);
    PlainNamesNothing("{1x", "");
    assert "{1x" + "" == "{1x";
    MaxNameStep("", false);
  }

  // ----- characters given by their number -----

  /** The bytes of a text that is one character of UTF-8, read as RFC 3629 says in its section 3. */
  function Utf8Character(s: string): (r: Option<nat>)
    ensures r.Some? ==> r.value <= 0x10_FFFF
  {
    var tail := forall i :: 1 <= i < |s| ==> 0x80 <= s[i] as int < 0xC0;
    if s == "" || !tail then None
    else
      var b := s[0] as nat;
      if |s| == 1 then (if b < 0x80 then Some(b) else None)
      else if |s| == 2 then (if 0xC2 <= b < 0xE0 then Some((b - 0xC0) * 0x40 + Low(s[1])) else None)
      else if |s| == 3 then
        var n := (b - 0xE0) * 0x1000 + Low(s[1]) * 0x40 + Low(s[2]);
        if 0xE0 <= b < 0xF0 && n >= 0x800 && !Surrogate(n) then Some(n) else None
      else if |s| == 4 then
        var n := (b - 0xF0) * 0x4_0000 + Low(s[1]) * 0x1000 + Low(s[2]) * 0x40 + Low(s[3]);
        if 0xF0 <= b < 0xF5 && 0x1_0000 <= n <= 0x10_FFFF then Some(n) else None
      else None
  }

  /** The numbers that UTF-8 does not encode. */
  predicate Surrogate(n: int) {
    0xD800 <= n < 0xE000
  }

  /** What a byte behind the first one holds. */
  function Low(c: char): int {
    c as int - 0x80
  }

  /** A number gives the UTF-8 of its character if it is below 0x10000, and there is one. From there on it gives that
      of another character or none, because the first of four bytes takes the number shifted by 16 and not by 18. */
  lemma EncodedReadsBack(n: nat)
    ensures Utf8Character(Encoded(n, true)) == Some(n) <==> n < 0x1_0000 && !Surrogate(n)
  {
    hide Encoded, Utf8Character;
    if n < 0x800 {
      OneOrTwoBytes(n);
    } else if n < 0x1_0000 {
      ThreeBytes(n);
    } else if n < 0x10_FFFF {
      FourBytes(n);
    } else {
      NoBytes(n);
    }
  }

  lemma OneOrTwoBytes(n: nat)
    requires n < 0x800
    ensures Utf8Character(Encoded(n, true)) == Some(n)
  {
    assert n == n / 0x40 * 0x40 + n % 0x40;
  }

  lemma ThreeBytes(n: nat)
    requires 0x800 <= n < 0x1_0000
    ensures Utf8Character(Encoded(n, true)) == if Surrogate(n) then None else Some(n)
  {
    assert n == n / 0x1000 * 0x1000 + n / 0x40 % 0x40 * 0x40 + n % 0x40;
  }

  lemma FourBytes(n: nat)
    requires 0x1_0000 <= n < 0x10_FFFF
    ensures Utf8Character(Encoded(n, true)) != Some(n)
    ensures var v := Shifted(n); Utf8Character(Encoded(n, true)) == if 0x1_0000 <= v < 0x11_0000 then Some(v) else None
  {
    SixBits(n);
    var k := n / 0x1_0000;
    assert n / 0x4_0000 == k / 4 && 1 <= k <= 16 && k % 16 != k / 4;
    var bytes := Encoded(n, true);
    assert |bytes| == 4 && bytes[0] as int == 0xF0 + k % 16;
    assert n % 0x4_0000 == n / 0x1000 % 0x40 * 0x1000 + n / 0x40 % 0x40 * 0x40 + n % 0x40;
  }

  /** The last 18 bits stay where they are, and four of the others stand two bits too high. */
  function Shifted(n: nat): nat {
    n / 0x1_0000 % 16 * 0x4_0000 + n % 0x4_0000
  }

  lemma SixBits(n: nat)
    requires n < 0x20_0000
    ensures n / 0x4_0000 < 8
    ensures n == n / 0x4_0000 * 0x4_0000 + n / 0x1000 % 0x40 * 0x1000 + n / 0x40 % 0x40 * 0x40 + n % 0x40
  {
    var a := n / 0x40;
    var b := a / 0x40;
    assert n == a * 0x40 + n % 0x40 && a == b * 0x40 + a % 0x40 && b == b / 0x40 * 0x40 + b % 0x40;
    assert n / 0x1000 == b && n / 0x4_0000 == b / 0x40;
  }

  lemma NoBytes(n: nat)
    requires n >= 0x10_FFFF
    ensures Utf8Character(Encoded(n, true)) == None
  {
  }

  /** In UTF-8 a hexadecimal number in braces gives its character if and only if it is that of a character and
      below 0x10000. */
  lemma CharacterByNumber(d: string, m: Found)
    requires AllWithin(Hexadecimal, d) && m.groups != [] && m.isUtf8
    ensures var n, e := NumberOf(d, Hexadecimal), Expand("\\x{" + d + "}", m);
            e.end == Done && (Utf8Character(e.text) == Some(n) <==> n < 0x1_0000 && !Surrogate(n))
  {
    hide NumberOf, Expand, Encoded, Utf8Character;
    HexExpands(d, m);
    EncodedReadsBack(NumberOf(d, Hexadecimal) % 0x1_0000_0000);
  }

  /** From there on it gives the character whose number has the bits above the eighteenth two places higher, or
      none; and nothing from 0x10FFFF on. */
  lemma BigNumberGives(d: string, m: Found)
    requires AllWithin(Hexadecimal, d) && m.groups != [] && m.isUtf8
    ensures var n, text := NumberOf(d, Hexadecimal), Expand("\\x{" + d + "}", m).text;
            && (0x1_0000 <= n < 0x10_FFFF ==>
                  Utf8Character(text) ==
                  if 0x1_0000 <= Shifted(n) < 0x11_0000 then Some(Shifted(n)) else None)
            && (0x10_FFFF <= n < 0x1_0000_0000 ==> text == "")
  {
    hide NumberOf, Expand, Encoded, Utf8Character, Shifted;
    HexExpands(d, m);
    var n := NumberOf(d, Hexadecimal);
    if n < 0x1_0000_0000 { assert n % 0x1_0000_0000 == n; }
    if 0x1_0000 <= n < 0x10_FFFF { FourBytes(n); }
    if 0x10_FFFF <= n { NothingEncoded(n); }
  }

  lemma NothingEncoded(n: nat)
    requires n >= 0x10_FFFF
    ensures Encoded(n, true) == ""
  {
  }

  lemma HexExpands(d: string, m: Found)
    requires AllWithin(Hexadecimal, d) && m.groups != []
    ensures Expand("\\x{" + d + "}", m) == Expansion(Encoded(NumberOf(d, Hexadecimal) % 0x1_0000_0000, m.isUtf8), Done)
  {
    hide NumberOf, MaxName, Encoded, Pieces;
    var u := "\\x{" + d + "}";
    BracedHex(d, "");
    assert u + "" == u;
    BracesNameNothing(d);
    NoPieces();
    assert [Number(NumberOf(d, Hexadecimal) % WRAP)] + [] == [Number(NumberOf(d, Hexadecimal) % WRAP)];
    NumberAlone(NumberOf(d, Hexadecimal) % WRAP, m);
  }

  lemma BracesNameNothing(d: string)
    requires AllWithin(Hexadecimal, d)
    ensures MaxName("\\x{" + d + "}", false) == 0
  {
    hide MaxName;
    var u := "\\x{" + d + "}";
    assert u[1..] == "x{" + d + "}" && u[1..][1..] == "{" + d + "}";
    MaxNameStep(u, false);
    MaxNameStep(u[1..], true);
    assert PlainText("{" + d + "}");
    PlainNamesNothing("{" + d + "}", "");
    assert "{" + d + "}" + "" == "{" + d + "}";
    MaxNameStep("", false);
  }

  /** An input: for U+1F600 the UTF-8 of U+5F600 is written. */
  lemma AnotherCharacter(m: Found)
    requires m.groups != [] && m.isUtf8
    ensures Utf8Character(Expand("\\x{1f600}", m).text) == Some(0x5_F600)
  {
    hide NumberOf, Expand, Encoded;
    HexExpands("1f600", m);
    assert "\\x{" + "1f600" + "}" == "\\x{1f600}";
    HexDigits();
    assert Encoded(0x1_F600, true) == ['\U{F1}', '\U{9F}', '\U{98}', '\U{80}'] by { FourOf(); }
  }

  lemma FourOf()
    ensures Encoded(0x1_F600, true) == ['\U{F1}', '\U{9F}', '\U{98}', '\U{80}']
  {
  }

  lemma HexDigits()
    ensures NumberOf("1f600", Hexadecimal) == 0x1_F600
  {
    var d := "1f600";
    assert d[..4] == "1f60" && d[..4][..3] == "1f6" && "1f6"[..2] == "1f" && "1f"[..1] == "1" && "1"[..0] == "";
    assert NumberOf("1", Hexadecimal) == 1 && NumberOf("1f", Hexadecimal) == 0x1F;
    assert NumberOf("1f6", Hexadecimal) == 0x1F6 && NumberOf("1f60", Hexadecimal) == 0x1F60;
  }
}
