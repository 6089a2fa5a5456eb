/** The file in which the positions of files are kept (lib/sub-util.c, load_file_position and
    save_file_position), as a sequence of lines. */
module FilePosition {
  import opened Numbers
  import opened Sequences
  import opened Wrappers

  const MAX_SAVED_BOOKMARKS := 10

  /** What is saved for a file; bookmarks may be NULL. */
  datatype Entry = Entry(line: int, column: int, offset: int, bookmarks: Option<seq<nat>>)

  /** What is loaded. */
  datatype Loaded = Loaded(line: int, column: int, offset: int, bookmarks: seq<nat>)

  const DEFAULTS := Loaded(1, 0, 0, [])

  // ----- the text of a line -----

  function Least(m: nat, n: nat): nat {
    if m <= n then m else n
  }

  function Marks(e: Entry): seq<nat> {
    match e.bookmarks
    case None => []
    case Some(b) => b[..Least(|b|, MAX_SAVED_BOOKMARKS)]
  }

  /** A conversion to uintmax_t. */
  function Unsigned(n: int): nat
    requires -LONG_MAX - 1 <= n
  {
    if n < 0 then ULONG_MAX + 1 + n else n
  }

  function Texts(ns: seq<nat>): (ts: seq<string>)
    ensures |ts| == |ns| && forall i :: 0 <= i < |ns| ==> ts[i] == Decimal(ns[i])
  {
    if ns == [] then [] else [Decimal(ns[0])] + Texts(ns[1..])
  }

  function Fields(e: Entry): seq<string>
    requires -LONG_MAX - 1 <= e.offset
  {
    [Signed(e.line), Signed(e.column), Decimal(Unsigned(e.offset))] + Texts(Marks(e))
  }

  /** The fields with ';' between them, and the newline. */
  function Joined(ts: seq<string>): string {
    if ts == [] then "\n"
    else if |ts| == 1 then ts[0] + "\n"
    else ts[0] + (";" + Joined(ts[1..]))
  }

  function Record(name: string, e: Entry): string
    requires -LONG_MAX - 1 <= e.offset
  {
    name + (" " + Joined(Fields(e)))
  }

  /** The line is a record of this name: the name, a space, and no space after that. */
  predicate Matches(line: string, name: string) {
    |name| < |line| && line[..|name|] == name && line[|name|] == ' ' && ' ' !in line[|name| + 1..]
  }

  lemma MatchesOneName(name: string, text: string, other: string)
    requires ' ' !in text
    ensures Matches(name + (" " + text), other) <==> other == name
  {
    var line := name + (" " + text);
    assert line[|name|] == ' ' && line[|name| + 1..] == text && line[..|name|] == name;
    assert forall i :: |name| < i < |line| ==> line[i] == text[i - |name| - 1];
    assert Matches(line, other) && |other| < |line| ==> |other| <= |name|;
    assert |other| < |name| ==> line[|other| + 1..][|name| - |other| - 1] == ' ';
  }

  predicate IsPlain(c: char) {
    c != ' ' && c != ';' && c != '\n'
  }

  ghost predicate Plain(ts: seq<string>) {
    forall i :: 0 <= i < |ts| ==> forall j :: 0 <= j < |ts[i]| ==> IsPlain(ts[i][j])
  }

  lemma {:induction false} JoinedHasNoSpace(ts: seq<string>)
    requires Plain(ts)
    ensures ' ' !in Joined(ts)
  {
    if |ts| <= 1 {
    } else {
      JoinedHasNoSpace(ts[1..]);
    }
  }

  lemma FieldsPlain(e: Entry)
    requires -LONG_MAX - 1 <= e.offset
    ensures Plain(Fields(e))
  {
    hide Decimal;
    var ts := Fields(e);
    forall i | 0 <= i < |ts|
      ensures forall j :: 0 <= j < |ts[i]| ==> IsPlain(ts[i][j])
    {
      if i >= 3 { assert ts[i] == Decimal(Marks(e)[i - 3]); }
    }
  }

  /** As a line, a record is one of its own name only, also when names contain spaces or start with one
      another. */
  lemma RecordMatches(name: string, e: Entry, other: string)
    requires -LONG_MAX - 1 <= e.offset
    ensures Matches(Record(name, e), other) <==> other == name
  {
    hide Matches;
    FieldsPlain(e);
    JoinedHasNoSpace(Fields(e));
    MatchesOneName(name, Joined(Fields(e)), other);
  }

  // ----- reading a line -----

  function Pieces(s: string, max: nat): seq<string>
    requires max >= 1
    decreases max
  {
    var k := IndexOf(s, ';');
    if max == 1 || k == |s| then [s] else [s[..k]] + Pieces(s[k + 1..], max - 1)
  }

  /** g_strsplit at ';' into at most max pieces; an empty text has none. */
  function StrSplit(s: string, max: nat): seq<string>
    requires max >= 1
  {
    if s == "" then [] else Pieces(s, max)
  }

  /** The pieces that a joined text falls into: the last one keeps the newline. */
  function Ended(ts: seq<string>): seq<string>
    requires ts != []
  {
    ts[..|ts| - 1] + [ts[|ts| - 1] + "\n"]
  }

  lemma SemicolonAfter(t: string, rest: string)
    requires forall j :: 0 <= j < |t| ==> t[j] != ';'
    ensures IndexOf(t + (";" + rest), ';') == |t|
  {
    var s := t + (";" + rest);
    assert s[|t|] == ';';
    assert forall j :: 0 <= j < |t| ==> s[j] == t[j];
  }

  lemma Around(a: string, b: string)
    ensures (a + (";" + b))[..|a|] == a && (a + (";" + b))[|a| + 1..] == b
  {
  }

  lemma LastPiece(t: string, max: nat)
    requires max >= 1 && forall j :: 0 <= j < |t| ==> t[j] != ';'
    ensures Pieces(t + "\n", max) == [t + "\n"]
  {
    hide IndexOf;
    var s := t + "\n";
    assert forall j :: 0 <= j < |s| ==> s[j] != ';';
  }

  lemma NextPiece(t: string, rest: string, max: nat)
    requires max >= 2 && forall j :: 0 <= j < |t| ==> t[j] != ';'
    ensures Pieces(t + (";" + rest), max) == [t] + Pieces(rest, max - 1)
  {
    hide IndexOf;
    SemicolonAfter(t, rest);
    Around(t, rest);
  }

  lemma {:induction false} PiecesOfJoined(ts: seq<string>, max: nat)
    requires ts != [] && |ts| <= max && Plain(ts)
    ensures Pieces(Joined(ts), max) == Ended(ts)
    decreases |ts|
  {
    hide Pieces, Ended;
    if |ts| == 1 {
      LastEnded(ts);
      LastPiece(ts[0], max);
    } else {
      NextPiece(ts[0], Joined(ts[1..]), max);
      PiecesOfJoined(ts[1..], max - 1);
      EndedStep(ts);
    }
  }

  lemma LastEnded(ts: seq<string>)
    requires |ts| == 1
    ensures Ended(ts) == [ts[0] + "\n"]
  {
  }

  lemma EndedStep(ts: seq<string>)
    requires |ts| > 1
    ensures Ended(ts) == [ts[0]] + Ended(ts[1..])
  {
  }

  function Unmarked(ts: seq<string>): (ns: seq<nat>)
    ensures |ns| == |ts| && forall i :: 0 <= i < |ts| ==> ns[i] == Strtoul(ts[i])
  {
    if ts == [] then [] else [Strtoul(ts[0])] + Unmarked(ts[1..])
  }

  /** What the fields of a matching line make of what was loaded before. */
  function ReadFields(ts: seq<string>, want: bool, earlier: Loaded): Loaded {
    if ts == [] then earlier.(line := 1, column := 0, offset := 0)
    else if |ts| == 1 then earlier.(line := Atol(ts[0]), column := 0, offset := 0)
    else if |ts| == 2 then earlier.(line := Atol(ts[0]), column := Atol(ts[1]), offset := 0)
    else if !want then earlier.(line := Atol(ts[0]), column := Atol(ts[1]))
    else Loaded(Atol(ts[0]), Atol(ts[1]), Atol(ts[2]),
                earlier.bookmarks + Unmarked(ts[3..Least(|ts|, 3 + MAX_SAVED_BOOKMARKS)]))
  }

  function ReadLine(line: string, name: string, want: bool, earlier: Loaded): Loaded {
    if Matches(line, name) then ReadFields(StrSplit(line[|name| + 1..], 3 + MAX_SAVED_BOOKMARKS), want, earlier)
    else earlier
  }

  ghost predicate InRange(e: Entry) {
    && -LONG_MAX - 1 <= e.line <= LONG_MAX
    && -LONG_MAX - 1 <= e.column <= LONG_MAX
    && -LONG_MAX - 1 <= e.offset <= LONG_MAX
    && (e.bookmarks.Some? ==> forall i :: 0 <= i < |e.bookmarks.value| ==> e.bookmarks.value[i] <= ULONG_MAX)
  }

  /** r has the line and the column of the entry, and if they are wanted its offset, where it is not negative, and its
      first ten bookmarks, in order. */
  ghost predicate Restores(r: Loaded, e: Entry, want: bool) {
    && r.line == e.line && r.column == e.column
    && (want && e.offset >= 0 ==> r.offset == e.offset) && (!want ==> r.offset == 0)
    && (!want || e.bookmarks == None ==> r.bookmarks == [])
    && (want && e.bookmarks.Some? ==>
          var b := e.bookmarks.value;
          && |r.bookmarks| == (if |b| < 10 then |b| else 10)
          && forall i :: 0 <= i < |r.bookmarks| ==> r.bookmarks[i] == b[i])
  }

  /** What a load should give for a saved entry: with bookmarks, everything, but a negative offset comes
      back as the biggest one; without, the line and the column only. */
  function Recalled(e: Entry, want: bool): (r: Loaded)
    ensures Restores(r, e, want)
  {
    if want then Loaded(e.line, e.column, if e.offset < 0 then LONG_MAX else e.offset, Marks(e))
    else Loaded(e.line, e.column, 0, [])
  }

  lemma ReadRecord(name: string, e: Entry, want: bool)
    requires InRange(e)
    ensures ReadLine(Record(name, e), name, want, DEFAULTS) == Recalled(e, want)
    ensures Restores(ReadLine(Record(name, e), name, want, DEFAULTS), e, want)
  {
    hide Matches, Joined, Decimal, Signed, Atol, Strtoul, Pieces;
    RecordMatches(name, e, name);
    var ts := Fields(e);
    var text := Joined(ts);
    assert Record(name, e)[|name| + 1..] == text;
    FieldsPlain(e);
    PiecesOfJoined(ts, 3 + MAX_SAVED_BOOKMARKS);
    JoinedNotEmpty(ts);
    NumbersBack(e);
    var us := Ended(ts);
    assert Unmarked(us[3..]) == Marks(e);
  }

  lemma JoinedNotEmpty(ts: seq<string>)
    ensures Joined(ts) != ""
  {
  }

  lemma NumbersBack(e: Entry)
    requires InRange(e)
    ensures var us := Ended(Fields(e));
            && |us| == 3 + |Marks(e)|
            && Atol(us[0]) == e.line && Atol(us[1]) == e.column
            && Atol(us[2]) == (if e.offset < 0 then LONG_MAX else e.offset)
            && forall i :: 0 <= i < |Marks(e)| ==> Strtoul(us[3 + i]) == Marks(e)[i]
  {
    hide Decimal, Signed, Atol, Strtoul;
    var us := Ended(Fields(e));
    assert Signed(e.line) + "" == Signed(e.line) && Signed(e.column) + "" == Signed(e.column);
    AtolOfSigned(e.line, "");
    AtolOfSigned(e.column, "");
    OffsetBack(e.offset, "");
    OffsetBack(e.offset, "\n");
    assert us[2] == Decimal(Unsigned(e.offset)) + (if Marks(e) == [] then "\n" else "");
    forall i | 0 <= i < |Marks(e)|
      ensures Strtoul(us[3 + i]) == Marks(e)[i]
    {
      var d := Decimal(Marks(e)[i]);
      StrtoulOfDecimal(Marks(e)[i], "");
      StrtoulOfDecimal(Marks(e)[i], "\n");
      assert d + "" == d;
      assert us[3 + i] == d + (if i + 1 == |Marks(e)| then "\n" else "");
    }
  }

  lemma OffsetBack(offset: int, rest: string)
    requires -LONG_MAX - 1 <= offset <= LONG_MAX && (rest == "" || !IsDigit(rest[0]))
    ensures Atol(Decimal(Unsigned(offset)) + rest) == if offset < 0 then LONG_MAX else offset
  {
    AtolOfDigits(Decimal(Unsigned(offset)), rest);
    ValueOfDecimal(Unsigned(offset));
  }

  /** The text of a record: the name, a space, and line, column, offset and bookmarks between semicolons. */
  lemma RecordText()
    ensures Record("/a b", Entry(3, 0, 7, Some([10, 20]))) == "/a b 3;0;7;10;20\n"
    ensures Record("/x", Entry(-1, 25, 4, None)) == "/x -1;25;4\n"
  {
    hide Fields, Joined, Decimal, Signed;
    FieldsOfFive();
    FieldsOfThree();
    FiveJoined("3", "0", "7", "10", "20");
    ThreeJoined("-1", "25", "4");
  }

  /** A negative offset is printed as what is left of 2^64. */
  lemma NegativeOffset(e: Entry)
    requires -LONG_MAX - 1 <= e.offset
    ensures Fields(e)[2] == Decimal(if e.offset < 0 then 0x1_0000_0000_0000_0000 + e.offset else e.offset)
  {
    hide Decimal;
  }

  lemma FieldsOfFive()
    ensures Fields(Entry(3, 0, 7, Some([10, 20]))) == ["3", "0", "7", "10", "20"]
  {
    hide Decimal;
    SmallDecimals();
    assert [10, 20][1..] == [20] && [20][1..] == [];
    assert Marks(Entry(3, 0, 7, Some([10, 20]))) == [10, 20] && Texts([10, 20]) == ["10", "20"];
  }

  lemma FieldsOfThree()
    ensures Fields(Entry(-1, 25, 4, None)) == ["-1", "25", "4"]
  {
    hide Decimal;
    SmallDecimals();
    assert Marks(Entry(-1, 25, 4, None)) == [] && Signed(-1) == "-" + Decimal(1) == "-1";
  }

  lemma SmallDecimals()
    ensures Decimal(0) == "0" && Decimal(1) == "1" && Decimal(3) == "3" && Decimal(4) == "4" && Decimal(7) == "7"
    ensures Decimal(2) == "2" && Decimal(10) == "10" && Decimal(20) == "20" && Decimal(25) == "25"
  {
  }

  lemma ThreeJoined(a: string, b: string, c: string)
    ensures Joined([a, b, c]) == a + (";" + (b + (";" + (c + "\n"))))
  {
    assert [a, b, c][1..] == [b, c] && [b, c][1..] == [c];
    assert Joined([c]) == c + "\n";
    assert Joined([b, c]) == b + (";" + Joined([c]));
  }

  lemma FiveJoined(a: string, b: string, c: string, d: string, e: string)
    ensures Joined([a, b, c, d, e]) == a + (";" + (b + (";" + (c + (";" + (d + (";" + (e + "\n"))))))))
  {
    assert [a, b, c, d, e][1..] == [b, c, d, e] && [b, c, d, e][1..] == [c, d, e];
    ThreeJoined(c, d, e);
  }
}
