/** Quoting a file name for the command line (lib/sub-util.c, name_quote), against what a shell makes of
    the quoted text (section 2.2.1 of the POSIX Shell Command Language). */
module NameQuote {
  import opened Sequences
  import opened Wrappers

  /** The characters that get a backslash wherever they stand. */
  predicate Quotes(c: char) {
    || c == '\'' || c == '\\' || c == '\r' || c == '\n' || c == '\t' || c == '\"' || c == ';' || c == ' '
    || c == '?' || c == '|' || c == '[' || c == ']' || c == '{' || c == '}' || c == '<' || c == '>'
    || c == '`' || c == '!' || c == '$' || c == '&' || c == '*' || c == '(' || c == ')'
  }

  /** The characters that get one at the beginning. */
  predicate QuotesFirst(c: char) {
    c == '~' || c == '#'
  }

  method NameQuote(s: string, quotePercent: bool) returns (ret: string)
    ensures ret == Quoted(s, quotePercent)
  {
    hide Mark, Rest, Quotes;
    ret := "";
    if s != "" && s[0] == '-' {
      ret := ret + "./";
    }
    StartOfQuoted(s, quotePercent);
    for i := 0 to |s|
      invariant i > 0 ==> ret != ""
      invariant Quoted(s, quotePercent) == ret + Rest(s[i..], ret == "", quotePercent)
    {
      RestNext(s, i, ret == "", quotePercent);
      Regroup(ret, Mark(s[i], ret == "", quotePercent), [s[i]], Rest(s[i + 1..], false, quotePercent));
      ret := QuoteOne(ret, s[i], quotePercent);
    }
    StartOfQuoted("", quotePercent);
    assert s[|s|..] == "";
    assert Rest("", ret == "", quotePercent) == "";
  }

  /** One turn of the loop. */
  method QuoteOne(ret: string, c: char, quotePercent: bool) returns (r: string)
    ensures r == (ret + Mark(c, ret == "", quotePercent)) + [c]
  {
    r := ret;
    if c == '%' {
      if quotePercent { r := r + "%"; }
    } else if Quotes(c) {
      r := r + "\\";
    } else if QuotesFirst(c) {
      if |r| == 0 { r := r + "\\"; }
    }
    r := r + [c];
    assert ret + "" == ret;
  }

  lemma RestNext(s: string, i: nat, start: bool, quotePercent: bool)
    requires i < |s|
    ensures Rest(s[i..], start, quotePercent) ==
              Mark(s[i], start, quotePercent) + ([s[i]] + Rest(s[i + 1..], false, quotePercent))
  {
    assert s[i..][1..] == s[i + 1..];
  }

  lemma StartOfQuoted(s: string, quotePercent: bool)
    ensures var ret := if s != "" && s[0] == '-' then "./" else "";
            Quoted(s, quotePercent) == ret + Rest(s[0..], ret == "", quotePercent)
    ensures Rest("", true, quotePercent) == Rest("", false, quotePercent) == ""
  {
    assert s[0..] == s;
  }

  lemma Regroup(a: string, b: string, c: string, d: string)
    ensures a + (b + (c + d)) == ((a + b) + c) + d
  {
  }

  /** What stands before a character. */
  function Mark(c: char, start: bool, quotePercent: bool): string {
    if c == '%' then (if quotePercent then "%" else "")
    else if Quotes(c) || (QuotesFirst(c) && start) then "\\"
    else ""
  }

  function Rest(s: string, start: bool, quotePercent: bool): string {
    if s == "" then "" else Mark(s[0], start, quotePercent) + ([s[0]] + Rest(s[1..], false, quotePercent))
  }

  /** A name that starts with '-' is taken as a path, not as an option. */
  function AsPath(s: string): string {
    if s != "" && s[0] == '-' then "./" + s else s
  }

  function Quoted(s: string, quotePercent: bool): string {
    if s != "" && s[0] == '-' then "./" + Rest(s, false, quotePercent) else Rest(s, true, quotePercent)
  }

  // ----- the shell -----

  /** The characters that must be quoted to stand for themselves. */
  predicate AlwaysSpecial(c: char) {
    || c == '|' || c == '&' || c == ';' || c == '<' || c == '>' || c == '(' || c == ')' || c == '$'
    || c == '`' || c == '\\' || c == '\"' || c == '\'' || c == ' ' || c == '\t' || c == '\n'
  }

  /** Those that have to be quoted under certain circumstances. */
  predicate SometimesSpecial(c: char) {
    c == '*' || c == '?' || c == '[' || c == '#' || c == '~' || c == '=' || c == '%'
  }

  /** The circumstances of all but the last two: patterns anywhere, comments and home directories at the
      beginning of a word. */
  predicate SpecialHere(c: char, start: bool) {
    AlwaysSpecial(c) || c == '*' || c == '?' || c == '[' || (start && (c == '#' || c == '~'))
  }

  /** What the shell takes a text for when it is one word without expansions: a backslash makes the next
      character stand for itself, and it goes away together with a newline. None if a character is
      left that the shell gives a meaning to. */
  function Word(t: string, start: bool): Option<string> {
    if t == "" then Some("")
    else if t[0] == '\\' then
      if |t| == 1 then None
      else
        match Word(t[2..], start && t[1] == '\n')
        case None => None
        case Some(w) => Some(if t[1] == '\n' then w else [t[1]] + w)
    else if SpecialHere(t[0], start) then None
    else
      match Word(t[1..], false)
      case None => None
      case Some(w) => Some([t[0]] + w)
  }

  /** Where the word stands: '=' makes an assignment of the word in front of a command, and '%' a job of
      an operand of bg, fg, jobs, kill or wait. */
  datatype Place = Operand | CommandName | JobOperand

  predicate IsLetter(c: char) {
    'a' <= c <= 'z' || 'A' <= c <= 'Z'
  }

  predicate IsNameChar(c: char) {
    IsLetter(c) || c == '_' || '0' <= c <= '9'
  }

  function NameLength(t: string): (n: nat)
    ensures n <= |t| && forall i :: 0 <= i < n ==> IsNameChar(t[i])
    ensures n < |t| ==> !IsNameChar(t[n])
  {
    if t == "" || !IsNameChar(t[0]) then 0 else NameLength(t[1..]) + 1
  }

  /** A name and '='. */
  predicate IsAssignment(t: string) {
    var n := NameLength(t);
    n > 0 && !('0' <= t[0] <= '9') && n < |t| && t[n] == '='
  }

  predicate IsReserved(t: string) {
    || t == "case" || t == "do" || t == "done" || t == "elif" || t == "else" || t == "esac" || t == "fi"
    || t == "for" || t == "if" || t == "in" || t == "then" || t == "until" || t == "while"
  }

  /** The value of the word; None if there is no word or if it means something else in its place. */
  function ShellTakes(t: string, place: Place): Option<string> {
    if t == "" then None
    else if place.CommandName? && (IsAssignment(t) || IsReserved(t)) then None
    else if place.JobOperand? && t[0] == '%' then None
    else Word(t, true)
  }

  /** Of the special characters just '=' and '%' are left bare everywhere, and '#' and '~' behind the
      beginning; of the others, only an exclamation mark, a closing bracket, braces and a carriage return get
      a mark. The mark is a backslash. */
  lemma LeftBare(c: char, start: bool)
    ensures AlwaysSpecial(c) || SometimesSpecial(c) ==>
              (Mark(c, start, false) == "" <==> c == '=' || c == '%' || (!start && (c == '#' || c == '~')))
    ensures !AlwaysSpecial(c) && !SometimesSpecial(c) ==> (Mark(c, start, false) != "" <==> c in "!]{}\r")
    ensures Mark(c, start, false) == "" || Mark(c, start, false) == "\\"
  {
    assert |"\\"| == 1;
  }

  /** A shell word never has a newline: a bare one ends it, a quoted one goes away. */
  lemma {:induction false} WordHasNoNewline(t: string, start: bool)
    ensures Word(t, start).Some? ==> '\n' !in Word(t, start).value
    decreases |t|
  {
    if t == "" {
    } else if t[0] == '\\' {
      if |t| == 1 {
      } else {
        WordHasNoNewline(t[2..], start && t[1] == '\n');
      }
    } else {
      WordHasNoNewline(t[1..], false);
    }
  }

  lemma {:induction false} RestIsWord(s: string, start: bool)
    requires '\n' !in s
    ensures Word(Rest(s, start, false), start) == Some(s)
  {
    hide Word;
    if s == "" {
      NoWord(start);
    } else {
      var c := s[0];
      assert s == [c] + s[1..];
      RestIsWord(s[1..], false);
      var tail := Rest(s[1..], false, false);
      if Quotes(c) || (start && QuotesFirst(c)) {
        EscapedNext(c, tail, s[1..], start);
      } else {
        BareNext(c, tail, s[1..], start);
        assert "" + ([c] + tail) == [c] + tail;
      }
    }
  }

  lemma NoWord(start: bool)
    ensures Word("", start) == Some("")
  {
  }

  lemma BareNext(c: char, tail: string, w: string, start: bool)
    requires !SpecialHere(c, start) && Word(tail, false) == Some(w)
    ensures Word([c] + tail, start) == Some([c] + w)
  {
    assert ([c] + tail)[1..] == tail;
  }

  lemma EscapedNext(c: char, tail: string, w: string, start: bool)
    requires c != '\n' && Word(tail, false) == Some(w)
    ensures Word("\\" + ([c] + tail), start) == Some([c] + w)
  {
    assert ("\\" + ([c] + tail))[2..] == tail;
  }

  /** The quoted text as a word of its own, without a newline in the name. */
  lemma QuotedWord(s: string)
    requires '\n' !in s
    ensures Word(Quoted(s, false), true) == Some(AsPath(s))
  {
    hide Word, Rest;
    if s != "" && s[0] == '-' {
      RestIsWord(s, false);
      DotSlash(Rest(s, false, false), s);
    } else {
      RestIsWord(s, true);
    }
  }

  lemma DotSlash(t: string, w: string)
    requires Word(t, false) == Some(w)
    ensures Word("./" + t, true) == Some("./" + w)
  {
    hide Word;
    BareNext('/', t, w, false);
    BareNext('.', ['/'] + t, ['/'] + w, true);
    assert "./" + t == ['.'] + (['/'] + t);
    assert "./" + w == ['.'] + (['/'] + w);
  }

  /** Quoting leaves the characters of names as they are. */
  lemma {:induction false} RestOfName(s: string, start: bool)
    ensures var n := NameLength(s);
            Rest(s, start, false) == s[..n] + Rest(s[n..], start && n == 0, false)
  {
    hide Rest, NameLength;
    NameLengthCons(s);
    var n := NameLength(s);
    if n == 0 {
      assert s[..0] + Rest(s[0..], start, false) == Rest(s[0..], start, false) && s[0..] == s;
    } else {
      RestOfName(s[1..], false);
      RestCons(s, start);
      assert s[n..] == s[1..][n - 1..];
      Assoc([s[0]], s[1..][..n - 1], Rest(s[n..], false, false));
      assert s[..n] == [s[0]] + s[1..][..n - 1];
    }
  }

  lemma RestCons(s: string, start: bool)
    requires s != "" && IsNameChar(s[0])
    ensures Rest(s, start, false) == [s[0]] + Rest(s[1..], false, false)
  {
    assert "" + ([s[0]] + Rest(s[1..], false, false)) == [s[0]] + Rest(s[1..], false, false);
  }

  lemma NameLengthCons(t: string)
    ensures t == "" || !IsNameChar(t[0]) ==> NameLength(t) == 0
    ensures t != "" && IsNameChar(t[0]) ==> NameLength(t) == NameLength(t[1..]) + 1
  {
  }

  lemma NameThen(a: string, b: string)
    requires (forall i :: 0 <= i < |a| ==> IsNameChar(a[i])) && (b == "" || !IsNameChar(b[0]))
    ensures NameLength(a + b) == |a|
  {
    hide NameLength;
    var n := NameLength(a + b);
    assert forall i :: 0 <= i < |a| ==> (a + b)[i] == a[i];
    assert n >= |a|;
    assert b != "" ==> (a + b)[|a|] == b[0];
  }

  /** The first character behind the name. */
  lemma BehindName(s: string, start: bool)
    requires s != "" && !IsNameChar(s[0])
    ensures var r := Rest(s, start, false);
            r != "" && !IsNameChar(r[0]) && (r[0] == '=' <==> s[0] == '=')
  {
    var r, m := Rest(s, start, false), Mark(s[0], start, false);
    assert r == m + ([s[0]] + Rest(s[1..], false, false));
    assert r[0] == if |m| == 0 then s[0] else m[0];
  }

  lemma SameName(s: string, start: bool)
    ensures var r, n := Rest(s, start, false), NameLength(s);
            && NameLength(r) == n <= |r| && r[..n] == s[..n] && (n == |s| <==> n == |r|)
            && (n < |s| && n < |r| ==> (r[n] == '=' <==> s[n] == '='))
  {
    hide Rest, NameLength;
    var n := NameLength(s);
    var tail := Rest(s[n..], start && n == 0, false);
    RestOfName(s, start);
    if n < |s| {
      BehindName(s[n..], start && n == 0);
    } else {
      EmptyRest(start && n == 0);
    }
    NameThen(s[..n], tail);
  }

  lemma QuotedAssignment(s: string)
    ensures IsAssignment(Quoted(s, false)) <==> IsAssignment(s)
    ensures IsReserved(Quoted(s, false)) <==> IsReserved(s)
  {
    hide Rest, NameLength;
    if s != "" && s[0] == '-' {
      assert ("./" + Rest(s, false, false))[0] == '.';
    } else {
      var r := Rest(s, true, false);
      SameName(s, true);
      ReservedIsName(s);
      ReservedIsName(r);
      assert r[..|r|] == r && s[..|s|] == s;
      if s != "" && NameLength(s) > 0 { assert r[0] == r[..NameLength(s)][0] && s[0] == s[..NameLength(s)][0]; }
    }
  }

  lemma ReservedIsName(t: string)
    ensures IsReserved(t) ==> NameLength(t) == |t|
  {
    hide NameLength;
    if IsReserved(t) {
      forall i | 0 <= i < |t|
        ensures IsNameChar(t[i])
      {
        if i == 0 {
        } else if i == 1 {
        } else if i == 2 {
        } else if i == 3 {
        } else {
          assert i == 4;
        }
      }
    }
  }

  lemma QuotedStart(s: string)
    requires s != ""
    ensures Quoted(s, false) != "" && (Quoted(s, false)[0] == '%' <==> s[0] == '%')
  {
    if s[0] != '-' {
      var m := Mark(s[0], true, false);
      assert Quoted(s, false) == m + ([s[0]] + Rest(s[1..], false, false));
      assert Quoted(s, false)[0] == if |m| == 0 then s[0] else m[0];
    }
  }

  /** The shell takes the quoted text for the name, or for ./ and the name if that starts with '-', if and
      only if there is a name, without a newline, and it is neither an assignment nor a reserved word in
      the place of a command, and no '%...' in that of a job: no other name keeps a character that the
      shell would give a meaning to. */
  lemma QuotedIsName(s: string, place: Place)
    ensures ShellTakes(Quoted(s, false), place) == Some(AsPath(s)) <==>
              && s != "" && '\n' !in s
              && !(place.CommandName? && (IsAssignment(s) || IsReserved(s)))
              && !(place.JobOperand? && s[0] == '%')
  {
    hide Word, Rest, IsAssignment, IsReserved;
    if s == "" {
      EmptyRest(true);
    } else {
      QuotedAssignment(s);
      QuotedStart(s);
      if '\n' in s {
        WordHasNoNewline(Quoted(s, false), true);
        var k :| 0 <= k < |s| && s[k] == '\n';
        assert AsPath(s)[if s[0] == '-' then k + 2 else k] == '\n';
      } else {
        QuotedWord(s);
      }
    }
  }

  lemma EmptyRest(start: bool)
    ensures Rest("", start, false) == ""
  {
  }

  /** What the panel's command line makes of a text before the shell gets it: a doubled percent sign is a
      percent sign. None if there is a single one, which would be a macro. */
  function Percents(t: string): Option<string> {
    if t == "" then Some("")
    else if t[0] == '%' && (|t| == 1 || t[1] != '%') then None
    else
      match Percents(if t[0] == '%' then t[2..] else t[1..])
      case None => None
      case Some(w) => Some([t[0]] + w)
  }

  /** With percent signs quoted as well, the shell gets what plain quoting gives. */
  lemma PercentsOfQuoted(s: string)
    ensures Percents(Quoted(s, true)) == Some(Quoted(s, false))
  {
    hide Percents, Rest;
    if s != "" && s[0] == '-' {
      PercentsOfRest(s, false);
      DotSlashPercents(Rest(s, false, true), Rest(s, false, false));
    } else {
      PercentsOfRest(s, true);
    }
  }

  lemma DotSlashPercents(t: string, w: string)
    requires Percents(t) == Some(w)
    ensures Percents("./" + t) == Some("./" + w)
  {
    PercentsNext('/', t, w);
    PercentsNext('.', ['/'] + t, ['/'] + w);
    assert "./" + t == ['.'] + (['/'] + t);
    assert "./" + w == ['.'] + (['/'] + w);
  }

  lemma PercentsNext(c: char, t: string, w: string)
    requires c != '%' && Percents(t) == Some(w)
    ensures Percents([c] + t) == Some([c] + w)
  {
    assert ([c] + t)[1..] == t;
  }

  lemma {:induction false} PercentsOfRest(s: string, start: bool)
    ensures Percents(Rest(s, start, true)) == Some(Rest(s, start, false))
  {
    if s == "" {
    } else {
      var c, tail := s[0], Rest(s[1..], false, true);
      PercentsOfRest(s[1..], false);
      var t := Rest(s, start, true);
      if c == '%' {
        assert t == "%" + ([c] + tail);
        assert t[0] == '%' && t[1] == '%' && t[2..] == tail;
        assert "" + ([c] + Rest(s[1..], false, false)) == [c] + Rest(s[1..], false, false);
      } else {
        PercentsOfMarked(Mark(c, start, true), c, tail);
      }
    }
  }

  lemma PercentsOfMarked(mark: string, c: char, tail: string)
    requires c != '%' && (mark == "" || mark == "\\") && Percents(tail).Some?
    ensures Percents(mark + ([c] + tail)) == Some(mark + ([c] + Percents(tail).value))
  {
    hide Percents;
    PercentsNext(c, tail, Percents(tail).value);
    if mark == "" {
      assert mark + ([c] + tail) == [c] + tail;
      assert mark + ([c] + Percents(tail).value) == [c] + Percents(tail).value;
    } else {
      PercentsNext('\\', [c] + tail, [c] + Percents(tail).value);
    }
  }
}
