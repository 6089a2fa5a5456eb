/** How a record falls into the pieces that fgets returns, and what is read from a piece that was cut off
    (lib/sub-util.c). */
module RecordLines {
  import opened FilePosition
  import opened Numbers
  import opened TextLines

  lemma {:induction false} JoinedEnds(ts: seq<string>)
    ensures Joined(ts) != "" && Joined(ts)[|Joined(ts)| - 1] == '\n'
  {
    if |ts| <= 1 {
    } else {
      JoinedEnds(ts[1..]);
    }
  }

  /** The record has room in the buffer. */
  predicate Fits(name: string, e: Entry)
    requires -LONG_MAX - 1 <= e.offset
  {
    |Record(name, e)| < BUF_SIZE
  }

  /** A record is read as one line if and only if its name has no newline and it has room in the buffer. */
  lemma RecordIsOneLine(name: string, e: Entry)
    requires InRange(e)
    ensures Chunks(Record(name, e)) == [Record(name, e)] <==> '\n' !in name && Fits(name, e)
  {
    hide Joined, Fields, Chunks;
    var r, j := Record(name, e), Joined(Fields(e));
    JoinedEnds(Fields(e));
    assert r[|r| - 1] == j[|j| - 1];
    OneLine(r);
    FieldsPlain(e);
    OnlyLastNewline(Fields(e));
    assert r[|name|] == ' ' && (forall i :: 0 <= i < |name| ==> r[i] == name[i])
      && forall i :: |name| < i < |r| ==> r[i] == j[i - |name| - 1];
  }

  lemma {:induction false} OnlyLastNewline(ts: seq<string>)
    requires Plain(ts)
    ensures forall i :: 0 <= i < |Joined(ts)| - 1 ==> Joined(ts)[i] != '\n'
  {
    if |ts| <= 1 {
    } else {
      OnlyLastNewline(ts[1..]);
      var j, k := Joined(ts), Joined(ts[1..]);
      forall i | 0 <= i < |j| - 1
        ensures j[i] != '\n'
      {
        if i < |ts[0]| {
          assert j[i] == ts[0][i];
        } else if i > |ts[0]| {
          assert j[i] == k[i - |ts[0]| - 1];
        }
      }
    }
  }

  // ----- the first piece -----

  /** What the first fgets gets of the fields of a record. */
  function Seen(name: string, e: Entry): (s: string)
    requires -LONG_MAX - 1 <= e.offset && |name| <= BUF_SIZE - 2
    ensures |s| <= |Joined(Fields(e))|
  {
    var j := Joined(Fields(e));
    j[..Least(|j|, BUF_SIZE - 2 - |name|)]
  }

  /** The first piece of a record has the name, the space and as many of the fields as there is room for; in the
      rest there is no space. */
  lemma RecordInPieces(name: string, e: Entry)
    requires InRange(e) && '\n' !in name && |name| <= BUF_SIZE - 2
    ensures var more := Chunks(Joined(Fields(e))[|Seen(name, e)|..]);
            && Chunks(Record(name, e)) == [name + (" " + Seen(name, e))] + more
            && (Fits(name, e) ==> Seen(name, e) == Joined(Fields(e)) && more == [])
            && ' ' !in Seen(name, e) && forall i :: 0 <= i < |more| ==> ' ' !in more[i]
  {
    hide Joined, Fields, Fgets;
    var j, seen := Joined(Fields(e)), Seen(name, e);
    FieldsPlain(e);
    JoinedHasNoSpace(Fields(e));
    OnlyLastNewline(Fields(e));
    JoinedEnds(Fields(e));
    var c, rest := name + (" " + seen), j[|seen|..];
    assert c[|name|] == ' ' && (forall i :: 0 <= i < |name| ==> c[i] == name[i])
      && forall i :: |name| < i < |c| ==> c[i] == j[i - |name| - 1];
    assert c + rest == Record(name, e) by { assert seen + rest == j; }
    FgetsOfChunk(c, rest);
    ChunksNoSpace(rest);
  }

  lemma {:induction false} ChunksNoSpace(s: string)
    requires ' ' !in s
    ensures forall i :: 0 <= i < |Chunks(s)| ==> ' ' !in Chunks(s)[i]
    decreases |s|
  {
    hide Fgets;
    if s == "" {
    } else {
      ChunksNoSpace(s[Fgets(s)..]);
    }
  }

  /** Where there is a space in a text, fgets returns a record of some name. */
  lemma {:induction false} SomeRecord(s: string) returns (i: nat, other: string)
    requires ' ' in s
    ensures i < |Chunks(s)| && Matches(Chunks(s)[i], other) && '\n' !in other && |other| <= BUF_SIZE - 2
    decreases |s|
  {
    hide Fgets;
    var k := Fgets(s);
    FgetsIsChunk(s);
    if ' ' in s[..k] {
      var h := LastSpace(s[..k]);
      i, other := 0, s[..k][..h];
    } else {
      assert s == s[..k] + s[k..];
      i, other := SomeRecord(s[k..]);
      i := i + 1;
    }
  }

  function LastSpace(c: string): (h: nat)
    requires ' ' in c
    ensures h < |c| && c[h] == ' ' && ' ' !in c[h + 1..]
  {
    var n := |c| - 1;
    if c[n] == ' ' then n
    else
      assert c == c[..n] + [c[n]];
      var h := LastSpace(c[..n]);
      assert c[h + 1..] == c[..n][h + 1..] + [c[n]];
      h
  }

  // ----- numbers that are cut -----

  lemma {:induction false} ValueOfPrefix(s: string, m: nat)
    requires AllDigits(s) && 0 < m < |s| && s[0] != '0'
    ensures 1 <= Value(s[..m]) && 10 * Value(s[..m]) <= Value(s)
  {
    var n := |s| - 1;
    assert s[..n][..m] == s[..m];
    if m == n {
      ValueIsPositive(s[..n]);
    } else {
      ValueOfPrefix(s[..n], m);
    }
  }

  lemma {:induction false} ValueIsPositive(s: string)
    requires AllDigits(s) && s != "" && s[0] != '0'
    ensures Value(s) >= 1
  {
    if |s| == 1 {
      assert s[..0] == "";
    } else {
      ValueIsPositive(s[..|s| - 1]);
    }
  }

  /** The beginning of a number in decimal notation is another number. */
  lemma DecimalPrefix(n: nat, m: nat)
    requires m < |Decimal(n)|
    ensures var d := Decimal(n)[..m]; AllDigits(d) && (m > 0 ==> 1 <= Value(d) && 10 * Value(d) <= n)
    ensures n == 0 ==> m == 0
  {
    hide Value;
    ValueOfDecimal(n);
    if m > 0 {
      ValueOfPrefix(Decimal(n), m);
    }
  }

  lemma AtolOfPrefix(n: int, m: nat)
    requires -LONG_MAX - 1 <= n <= LONG_MAX && m < |Signed(n)|
    ensures Atol(Signed(n)[..m]) == n <==> n == 0
  {
    hide Value, Decimal, LeadingDigits;
    var s := Signed(n)[..m];
    if m == 0 {
      assert s == "";
    } else if n < 0 {
      var d := Decimal(-n)[..m - 1];
      assert s == ("-" + d) + "";
      DecimalPrefix(-n, m - 1);
      AtolOfNegative(d, "");
      if m == 1 { assert d == ""; }
      EmptyValue();
    } else {
      DecimalPrefix(n, m);
      AtolOfDigits(s, "");
      assert s + "" == s;
    }
  }

  lemma EmptyValue()
    ensures Value("") == 0
  {
  }

  lemma OffsetOfPrefix(offset: int, m: nat)
    requires -LONG_MAX - 1 <= offset <= LONG_MAX && m < |Decimal(Unsigned(offset))|
    ensures var n := Atol(Decimal(Unsigned(offset))[..m]);
            n == (if offset < 0 then LONG_MAX else offset) <==> offset == 0
  {
    hide Value, Decimal, LeadingDigits;
    var d := Decimal(Unsigned(offset))[..m];
    if m == 0 {
      assert d == "";
    } else {
      DecimalPrefix(Unsigned(offset), m);
      AtolOfDigits(d, "");
      assert d + "" == d;
    }
  }

  lemma StrtoulOfPrefix(n: nat, m: nat)
    requires n <= ULONG_MAX && m < |Decimal(n)|
    ensures Strtoul(Decimal(n)[..m]) == n <==> n == 0
  {
    hide Value, Decimal;
    var d := Decimal(n)[..m];
    if m == 0 {
      assert d == "";
    } else {
      DecimalPrefix(n, m);
      DigitsThenRest(d, "");
      assert d + "" == d && d[..|d|] == d;
    }
  }

  // ----- fields that are cut -----

  /** The pieces of the first k characters of joined fields, if more than the newline is missing. */
  function CutPieces(ts: seq<string>, k: nat): (r: seq<string>)
    requires ts != [] && k < |Joined(ts)| - 1
    ensures r != []
    decreases |ts|
  {
    if k <= |ts[0]| then [ts[0][..k]] else [ts[0]] + CutPieces(ts[1..], k - |ts[0]| - 1)
  }

  lemma {:induction false} PiecesOfCut(ts: seq<string>, k: nat, max: nat)
    requires ts != [] && |ts| <= max && Plain(ts) && k < |Joined(ts)| - 1
    ensures Pieces(Joined(ts)[..k], max) == CutPieces(ts, k)
    decreases |ts|
  {
    hide Pieces;
    var s := Joined(ts)[..k];
    if k <= |ts[0]| {
      assert s == ts[0][..k];
      OnePiece(s, max);
    } else {
      var rest := Joined(ts[1..])[..k - |ts[0]| - 1];
      assert s == ts[0] + (";" + rest);
      NextPiece(ts[0], rest, max);
      PiecesOfCut(ts[1..], k - |ts[0]| - 1, max - 1);
    }
  }

  lemma OnePiece(s: string, max: nat)
    requires max >= 1 && forall j :: 0 <= j < |s| ==> s[j] != ';'
    ensures Pieces(s, max) == [s]
  {
  }

  lemma {:induction false} MarksOfCut(ms: seq<nat>, k: nat)
    requires ms != [] && k < |Joined(Texts(ms))| - 1 && forall i :: 0 <= i < |ms| ==> ms[i] <= ULONG_MAX
    ensures Unmarked(CutPieces(Texts(ms), k)) == ms <==> ms[|ms| - 1] == 0 && k == |Joined(Texts(ms))| - 2
  {
    hide Decimal, Strtoul, Joined, Texts, CutPieces, Unmarked;
    var ts := Texts(ms);
    TextsAre(ms);
    JoinedLonger(ts);
    if |ms| == 1 {
      LastMark(ms[0], ts, k);
      assert ms == [ms[0]];
    } else {
      OneMore(ts[1..]);
      if k <= |ts[0]| {
        OneCut(ts, k);
      } else {
        MarksOfCut(ms[1..], k - |ts[0]| - 1);
        FirstMark(ms[0], ts, k);
        assert ms == [ms[0]] + ms[1..];
      }
    }
  }

  lemma TextsAre(ms: seq<nat>)
    requires ms != []
    ensures Texts(ms) == [Decimal(ms[0])] + Texts(ms[1..]) && Texts(ms)[1..] == Texts(ms[1..])
  {
  }

  lemma LastMark(n: nat, ts: seq<string>, k: nat)
    requires n <= ULONG_MAX && ts == [Decimal(n)] && k < |Joined(ts)| - 1
    ensures Unmarked(CutPieces(ts, k)) == [n] <==> n == 0 && k == |Joined(ts)| - 2
  {
    hide Decimal, Strtoul;
    var d := Decimal(n);
    StrtoulOfPrefix(n, k);
    DecimalOfZero(n);
    assert [d[..k]][1..] == [];
    assert Unmarked([d[..k]]) == [Strtoul(d[..k])] + [];
  }

  lemma OneCut(ts: seq<string>, k: nat)
    requires ts != [] && k <= |ts[0]| && k < |Joined(ts)| - 1
    ensures |Unmarked(CutPieces(ts, k))| == 1
  {
  }

  lemma FirstMark(n: nat, ts: seq<string>, k: nat)
    requires n <= ULONG_MAX && ts != [] && ts[0] == Decimal(n) && |ts[0]| < k < |Joined(ts)| - 1
    ensures ts[1..] != [] && k - |ts[0]| - 1 < |Joined(ts[1..])| - 1
    ensures Unmarked(CutPieces(ts, k)) == [n] + Unmarked(CutPieces(ts[1..], k - |ts[0]| - 1))
  {
    hide Decimal, Strtoul;
    StrtoulOfDecimal(n, "");
    assert ts[0] + "" == ts[0];
    var cut := CutPieces(ts[1..], k - |ts[0]| - 1);
    assert ([ts[0]] + cut)[1..] == cut;
  }

  lemma DecimalOfZero(n: nat)
    ensures n == 0 ==> |Decimal(n)| == 1
  {
  }

  lemma OneMore(ts: seq<string>)
    requires ts != [] && ts[0] != ""
    ensures |Joined(ts)| >= 2
  {
  }

  // ----- what is read of a record that was cut -----

  predicate NothingElse(e: Entry, want: bool) {
    !want || (e.offset == 0 && Marks(e) == [])
  }

  /** The first k characters of the fields are as good as all of them: there is only the newline missing, or
      what is missing is not wanted, or is a zero. */
  predicate Enough(e: Entry, k: nat, want: bool)
    requires -LONG_MAX - 1 <= e.offset
  {
    var line, column, all := |Signed(e.line)|, |Signed(e.column)|, |Joined(Fields(e))|;
    || k >= all - 1
    || (NothingElse(e, want) &&
        (k >= line + 1 + column || (e.column == 0 && k >= line) || (k == 0 && e.line == 1 && e.column == 0)))
    || (want && Marks(e) != [] && Marks(e)[|Marks(e)| - 1] == 0 && k == all - 2)
  }

  lemma FieldLengths(e: Entry)
    requires -LONG_MAX - 1 <= e.offset
    ensures var a, b, c := Signed(e.line), Signed(e.column), Decimal(Unsigned(e.offset));
            var ts, us := Fields(e), Texts(Marks(e));
            && |ts| == 3 + |us| && ts[0] == a && ts[1..][0] == b && ts[1..][1..][0] == c && ts[1..][1..][1..] == us
            && |Joined(ts)| == |a| + |b| + |c| + 3 + (if us == [] then 0 else |Joined(us)|)
            && |Joined(ts[1..])| == |b| + |c| + 2 + (if us == [] then 0 else |Joined(us)|)
            && |Joined(ts[1..][1..])| == |c| + 1 + (if us == [] then 0 else |Joined(us)|)
  {
    hide Decimal, Signed, Joined;
    var ts, us := Fields(e), Texts(Marks(e));
    assert ts[1..][1..][1..] == us;
    JoinedLonger(ts);
    JoinedLonger(ts[1..]);
    JoinedLonger(ts[1..][1..]);
  }

  lemma JoinedLonger(ts: seq<string>)
    requires ts != []
    ensures |Joined(ts)| == |ts[0]| + 1 + (if ts[1..] == [] then 0 else |Joined(ts[1..])|)
  {
  }

  /** Which fields the first k characters show. */
  lemma CutShows(e: Entry, k: nat)
    requires InRange(e) && k < |Joined(Fields(e))| - 1
    ensures var a, b, c := Signed(e.line), Signed(e.column), Decimal(Unsigned(e.offset));
            var ts := CutPieces(Fields(e), k);
            if k <= |a| then ts == [a[..k]]
            else if k <= |a| + 1 + |b| then ts == [a, b[..k - |a| - 1]]
            else if k <= |a| + |b| + |c| + 2 then ts == [a, b, c[..k - |a| - |b| - 2]]
            else Marks(e) != [] && var k' := k - |a| - |b| - |c| - 3;
                 k' < |Joined(Texts(Marks(e)))| - 1 && ts == [a, b, c] + CutPieces(Texts(Marks(e)), k')
  {
    hide Decimal, Signed, Joined;
    FieldLengths(e);
    var ts := Fields(e);
    var a, b, c := Signed(e.line), Signed(e.column), Decimal(Unsigned(e.offset));
    if k > |a| {
      var k1 := k - |a| - 1;
      assert CutPieces(ts, k) == [a] + CutPieces(ts[1..], k1);
      if k1 > |b| {
        assert CutPieces(ts[1..], k1) == [b] + CutPieces(ts[1..][1..], k1 - |b| - 1);
      }
    }
  }

  lemma NumbersWhole(e: Entry)
    requires InRange(e)
    ensures Atol(Signed(e.line)) == e.line && Atol(Signed(e.column)) == e.column
    ensures Atol(Decimal(Unsigned(e.offset))) == if e.offset < 0 then LONG_MAX else e.offset
  {
    AtolOfSigned(e.line, "");
    AtolOfSigned(e.column, "");
    OffsetBack(e.offset, "");
    assert Signed(e.line) + "" == Signed(e.line) && Signed(e.column) + "" == Signed(e.column);
    assert Decimal(Unsigned(e.offset)) + "" == Decimal(Unsigned(e.offset));
  }

  /** A record that was cut is read as if it were whole if and only if what is there is enough. */
  lemma CutReads(e: Entry, k: nat, want: bool)
    requires InRange(e) && k < |Joined(Fields(e))| - 1
    ensures ReadFields(StrSplit(Joined(Fields(e))[..k], 3 + MAX_SAVED_BOOKMARKS), want, DEFAULTS) == Recalled(e, want)
       <==> Enough(e, k, want)
  {
    hide Decimal, Signed, Joined, Pieces, CutPieces, ReadFields, Fields, Enough;
    FieldsPlain(e);
    FieldLengths(e);
    var ts, s := Fields(e), Joined(Fields(e))[..k];
    PiecesOfCut(ts, k, 3 + MAX_SAVED_BOOKMARKS);
    if k == 0 {
      assert s == "";
      CutAway(e, want);
    } else if k <= |Signed(e.line)| + 1 + |Signed(e.column)| {
      CutInPlace(e, k, want);
    } else {
      CutBehindPlace(e, k, want);
    }
  }

  lemma CutAway(e: Entry, want: bool)
    requires InRange(e)
    ensures ReadFields([], want, DEFAULTS) == Recalled(e, want) <==> Enough(e, 0, want)
  {
    hide Decimal, Signed, Joined, Fields;
    FieldLengths(e);
    ZeroLengths(e);
    if Marks(e) != [] { OneMore(Texts(Marks(e))); }
  }

  lemma CutInPlace(e: Entry, k: nat, want: bool)
    requires InRange(e) && 0 < k < |Joined(Fields(e))| - 1 && k <= |Signed(e.line)| + 1 + |Signed(e.column)|
    ensures ReadFields(CutPieces(Fields(e), k), want, DEFAULTS) == Recalled(e, want) <==> Enough(e, k, want)
  {
    hide Decimal, Signed, Joined, Fields, Atol, Strtoul, CutPieces;
    var a, b := Signed(e.line), Signed(e.column);
    FieldLengths(e);
    CutShows(e, k);
    NumbersWhole(e);
    ZeroLengths(e);
    if Marks(e) != [] { OneMore(Texts(Marks(e))); }
    if k <= |a| {
      if k < |a| { AtolOfPrefix(e.line, k); } else { assert a[..k] == a; }
    } else {
      var m := k - |a| - 1;
      if m < |b| { AtolOfPrefix(e.column, m); } else { assert b[..m] == b; }
    }
  }

  lemma CutBehindPlace(e: Entry, k: nat, want: bool)
    requires InRange(e) && |Signed(e.line)| + 1 + |Signed(e.column)| < k < |Joined(Fields(e))| - 1
    ensures ReadFields(CutPieces(Fields(e), k), want, DEFAULTS) == Recalled(e, want) <==> Enough(e, k, want)
  {
    hide Decimal, Signed, Joined, Fields, Atol, CutPieces;
    var a, b, c := Signed(e.line), Signed(e.column), Decimal(Unsigned(e.offset));
    FieldLengths(e);
    CutShows(e, k);
    NumbersWhole(e);
    if k <= |a| + |b| + |c| + 2 {
      var m := k - |a| - |b| - 2;
      ZeroLengths(e);
      if Marks(e) != [] { OneMore(Texts(Marks(e))); }
      if m < |c| { OffsetOfPrefix(e.offset, m); } else { assert c[..m] == c; }
      assert [a, b, c[..m]][3..] == [] && [] + Unmarked([]) == [];
    } else {
      CutMarks(e, k - |a| - |b| - |c| - 3, want);
    }
  }

  lemma CutMarks(e: Entry, k: nat, want: bool)
    requires InRange(e) && Marks(e) != [] && k < |Joined(Texts(Marks(e)))| - 1
    ensures var a, b, c := Signed(e.line), Signed(e.column), Decimal(Unsigned(e.offset));
            (ReadFields([a, b, c] + CutPieces(Texts(Marks(e)), k), want, DEFAULTS) == Recalled(e, want))
              <==> Enough(e, |a| + |b| + |c| + 3 + k, want)
  {
    hide Decimal, Signed, Joined, Fields, Atol, Strtoul, CutPieces, Texts, Unmarked;
    var a, b, c := Signed(e.line), Signed(e.column), Decimal(Unsigned(e.offset));
    var us := CutPieces(Texts(Marks(e)), k);
    FieldLengths(e);
    NumbersWhole(e);
    MarksOfCut(Marks(e), k);
    CutIsNotLonger(Texts(Marks(e)), k);
    FieldsWithMarks(a, b, c, us, want);
  }

  lemma FieldsWithMarks(a: string, b: string, c: string, us: seq<string>, want: bool)
    requires 0 < |us| <= MAX_SAVED_BOOKMARKS
    ensures ReadFields([a, b, c] + us, want, DEFAULTS)
         == if want then Loaded(Atol(a), Atol(b), Atol(c), Unmarked(us)) else Loaded(Atol(a), Atol(b), 0, [])
  {
    hide Atol, Unmarked;
    var ts := [a, b, c] + us;
    assert ts[3..] == us && ts[3..|ts|] == us && [] + Unmarked(us) == Unmarked(us);
  }

  lemma {:induction false} PiecesWithoutNewline(ts: seq<string>, max: nat)
    requires ts != [] && |ts| <= max && Plain(ts)
    ensures |Joined(ts)| >= 1 && Pieces(Joined(ts)[..|Joined(ts)| - 1], max) == ts
    decreases |ts|
  {
    hide Pieces;
    var s := Joined(ts)[..|Joined(ts)| - 1];
    if |ts| == 1 {
      assert s == ts[0];
      OnePiece(s, max);
    } else {
      PiecesWithoutNewline(ts[1..], max - 1);
      var rest := Joined(ts[1..])[..|Joined(ts[1..])| - 1];
      assert s == ts[0] + (";" + rest);
      NextPiece(ts[0], rest, max);
      assert ts == [ts[0]] + ts[1..];
    }
  }

  lemma {:induction false} MarksWhole(ms: seq<nat>)
    requires forall i :: 0 <= i < |ms| ==> ms[i] <= ULONG_MAX
    ensures Unmarked(Texts(ms)) == ms
  {
    hide Decimal, Strtoul;
    if ms == [] {
    } else {
      MarksWhole(ms[1..]);
      TextsAre(ms);
      StrtoulOfDecimal(ms[0], "");
      assert Decimal(ms[0]) + "" == Decimal(ms[0]);
      assert ms == [ms[0]] + ms[1..];
    }
  }

  /** The newline is not missed. */
  lemma NewlineCutReads(e: Entry, want: bool)
    requires InRange(e)
    ensures var j := Joined(Fields(e));
            |j| >= 1 && ReadFields(StrSplit(j[..|j| - 1], 3 + MAX_SAVED_BOOKMARKS), want, DEFAULTS) == Recalled(e, want)
  {
    hide Joined, Pieces, ReadFields, Fields, Recalled;
    FieldsPlain(e);
    FieldLengths(e);
    PiecesWithoutNewline(Fields(e), 3 + MAX_SAVED_BOOKMARKS);
    FieldsRead(e, want);
  }

  lemma FieldsRead(e: Entry, want: bool)
    requires InRange(e)
    ensures ReadFields(Fields(e), want, DEFAULTS) == Recalled(e, want)
  {
    hide Decimal, Signed, Atol, Strtoul, Texts, Unmarked;
    var ts := Fields(e);
    NumbersWhole(e);
    MarksWhole(Marks(e));
    FieldLengths(e);
    assert ts[3..] == Texts(Marks(e)) && [] + Unmarked(ts[3..]) == Unmarked(ts[3..]);
  }

  lemma ZeroLengths(e: Entry)
    requires -LONG_MAX - 1 <= e.offset
    ensures e.line == 0 || e.line == 1 ==> |Signed(e.line)| == 1
    ensures e.column == 0 ==> |Signed(e.column)| == 1
    ensures e.offset == 0 ==> |Decimal(Unsigned(e.offset))| == 1
  {
  }

  lemma {:induction false} CutIsNotLonger(ts: seq<string>, k: nat)
    requires ts != [] && k < |Joined(ts)| - 1
    ensures |CutPieces(ts, k)| <= |ts|
  {
    if k <= |ts[0]| {
    } else {
      CutIsNotLonger(ts[1..], k - |ts[0]| - 1);
    }
  }
}
