/** Saving and loading positions (lib/sub-util.c): what a load gives after any number of saves. */
module PositionStore {
  import opened FilePosition
  import opened Numbers
  import opened RecordLines
  import opened Sequences
  import opened TextLines
  import opened Wrappers

  // ----- one save, one load -----

  /** Line 1, column 0 and no bookmarks is what a load gives anyway, and gets no record. */
  predicate Written(e: Entry) {
    e.line != 1 || e.column != 0 || e.bookmarks.Some?
  }

  /** The lines that are not records of this name. */
  function Others(lines: seq<string>, name: string): (r: seq<string>)
    ensures |r| <= |lines|
  {
    if lines == [] then []
    else (if Matches(lines[0], name) then [] else [lines[0]]) + Others(lines[1..], name)
  }

  /** How many old lines are copied: the loop copies one before it looks at the limit. */
  function Limit(max: nat): nat {
    if max == 0 then 1 else max
  }

  /** The old lines that are copied. */
  function Kept(lines: seq<string>, name: string, max: nat): (r: seq<string>)
    ensures |r| <= Limit(max)
  {
    var others := Others(lines, name);
    others[..Least(|others|, Limit(max))]
  }

  /** The first of the other lines are copied: as many as the limit says, all if there are fewer, and one where the
      limit is 0. */
  lemma KeptAre(lines: seq<string>, name: string, max: nat)
    ensures var others, kept := Others(lines, name), Kept(lines, name, max);
            && kept <= others
            && (max >= 1 ==> |kept| == if |others| < max then |others| else max)
            && (max == 0 ==> |kept| == if others == [] then 0 else 1)
  {
  }

  /** What is written in front of them. */
  function NewRecord(name: string, e: Entry): string
    requires -LONG_MAX - 1 <= e.offset
  {
    if Written(e) then Record(name, e) else ""
  }

  /** The file after a save. */
  function SavedText(text: string, name: string, e: Entry, max: nat): string
    requires -LONG_MAX - 1 <= e.offset
  {
    NewRecord(name, e) + Concat(Kept(Chunks(text), name, max))
  }

  /** What a load makes of the lines, one after the other. */
  function LoadFrom(lines: seq<string>, name: string, want: bool, before: Loaded): Loaded {
    if lines == [] then before
    else LoadFrom(lines[1..], name, want, ReadLine(lines[0], name, want, before))
  }

  lemma {:induction false} LoadConcat(a: seq<string>, b: seq<string>, name: string, want: bool, before: Loaded)
    ensures LoadFrom(a + b, name, want, before) == LoadFrom(b, name, want, LoadFrom(a, name, want, before))
    decreases |a|
  {
    hide ReadLine;
    if a == [] {
      assert a + b == b;
    } else {
      assert (a + b)[1..] == a[1..] + b;
      LoadConcat(a[1..], b, name, want, ReadLine(a[0], name, want, before));
    }
  }

  lemma {:induction false} OthersConcat(a: seq<string>, b: seq<string>, name: string)
    ensures Others(a + b, name) == Others(a, name) + Others(b, name)
  {
    hide Matches;
    if a == [] {
      assert a + b == b;
    } else {
      assert (a + b)[1..] == a[1..] + b;
      OthersConcat(a[1..], b, name);
    }
  }

  class PositionFile {
    /** None until there is such a file. */
    var text: Option<string>
    const maxSaved: nat

    constructor (text: Option<string>, maxSaved: nat)
      ensures this.text == text && this.maxSaved == maxSaved
    {
      this.text, this.maxSaved := text, maxSaved;
    }

    /** Writes the file anew, from the copy that was made of it. Where there was none to copy, an empty
        file is left. */
    method SaveFilePosition(name: string, e: Entry)
      requires -LONG_MAX - 1 <= e.offset
      modifies this
      ensures text == SaveIn(old(text), name, e, maxSaved)
    {
      hide Matches, Record, Others, Fgets, Concat;
      if text == None {
        text := Some("");
        return;
      }
      var source := text.value;
      var target := "";
      if Written(e) {
        target := Record(name, e);
      }
      ghost var first := target;
      ghost var seen: seq<string> := [];
      var i := 1;
      var pos := 0;
      Nothing(name, first);
      assert source[0..] == source && [] + Chunks(source) == Chunks(source);
      while pos < |source|
        invariant 0 <= pos <= |source| && 1 <= i && (i > 1 ==> i <= maxSaved)
        invariant Chunks(source) == seen + Chunks(source[pos..])
        invariant target == first + Concat(Others(seen, name)) && i == 1 + |Others(seen, name)|
      {
        var k := Fgets(source[pos..]);
        var buf := source[pos..][..k];
        assert source[pos..][k..] == source[pos + k..];
        OthersNext(seen, buf, name);
        Assoc(seen, [buf], Chunks(source[pos + k..]));
        ghost var was := seen;
        seen := seen + [buf];
        pos := pos + k;
        if Matches(buf, name) {
          continue;
        }
        ConcatSnoc(Others(was, name), buf);
        Assoc(first, Concat(Others(was, name)), buf);
        target := target + buf;
        i := i + 1;
        if i > maxSaved {
          break;
        }
      }
      AllOrLimit(seen, Chunks(source[pos..]), name, maxSaved);
      text := Some(target);
    }

    method LoadFilePosition(name: string, wantBookmarks: bool) returns (r: Loaded)
      ensures r == LoadIn(text, name, wantBookmarks)
    {
      hide ReadLine, Fgets;
      r := DEFAULTS;
      if text == None { return; }
      var source := text.value;
      var pos := 0;
      assert source[0..] == source;
      while pos < |source|
        invariant 0 <= pos <= |source|
        invariant LoadFrom(Chunks(source), name, wantBookmarks, DEFAULTS)
               == LoadFrom(Chunks(source[pos..]), name, wantBookmarks, r)
      {
        var k := Fgets(source[pos..]);
        assert source[pos..][k..] == source[pos + k..];
        LoadNext(source[pos..][..k], Chunks(source[pos + k..]), name, wantBookmarks, r);
        r := ReadLine(source[pos..][..k], name, wantBookmarks, r);
        pos := pos + k;
      }
    }
  }

  function SaveIn(file: Option<string>, name: string, e: Entry, max: nat): Option<string>
    requires -LONG_MAX - 1 <= e.offset
  {
    match file
    case None => Some("")
    case Some(text) => Some(SavedText(text, name, e, max))
  }

  function LoadIn(file: Option<string>, name: string, want: bool): Loaded {
    match file
    case None => DEFAULTS
    case Some(text) => LoadFrom(Chunks(text), name, want, DEFAULTS)
  }

  lemma Nothing(name: string, first: string)
    ensures Others([], name) == [] && first + Concat([]) == first
  {
  }

  lemma LoadNext(c: string, rest: seq<string>, name: string, want: bool, before: Loaded)
    ensures LoadFrom([c] + rest, name, want, before) == LoadFrom(rest, name, want, ReadLine(c, name, want, before))
  {
    hide ReadLine;
    assert ([c] + rest)[1..] == rest;
  }

  lemma {:induction false} ConcatSnoc(cs: seq<string>, c: string)
    ensures Concat(cs + [c]) == Concat(cs) + c
  {
    if cs == [] {
      assert [c][1..] == [] && c + "" == c;
    } else {
      assert (cs + [c])[1..] == cs[1..] + [c];
      ConcatSnoc(cs[1..], c);
      Assoc(cs[0], Concat(cs[1..]), c);
    }
  }

  lemma OthersNext(seen: seq<string>, c: string, name: string)
    ensures Others(seen + [c], name) == if Matches(c, name) then Others(seen, name) else Others(seen, name) + [c]
  {
    hide Matches;
    OthersConcat(seen, [c], name);
    assert [c][1..] == [];
  }

  /** The loop stopped at the end, or with as many lines as the limit allows. */
  lemma AllOrLimit(seen: seq<string>, rest: seq<string>, name: string, max: nat)
    requires |Others(seen, name)| <= Limit(max)
    requires rest == [] || |Others(seen, name)| == Limit(max)
    ensures Others(seen, name) == Kept(seen + rest, name, max)
  {
    hide Others;
    OthersConcat(seen, rest, name);
    if rest == [] { assert seen + rest == seen; }
  }

  // ----- the lines of the saved file -----

  lemma {:induction false} OthersWellCut(cs: seq<string>, name: string)
    requires WellCut(cs)
    ensures WellCut(Others(cs, name))
  {
    hide Matches, IsChunk, Closed;
    if cs == [] {
    } else {
      OthersWellCut(cs[1..], name);
      if Others(cs[1..], name) != [] { assert |cs| > 1; }
      if Matches(cs[0], name) {
        assert [] + Others(cs[1..], name) == Others(cs[1..], name);
      } else {
        WellCutCons(cs[0], Others(cs[1..], name));
      }
    }
  }

  /** A load after the save sees the new record, cut into lines, and then just the lines that were kept. */
  lemma LinesOfSave(text: string, name: string, e: Entry, max: nat)
    requires -LONG_MAX - 1 <= e.offset
    ensures Chunks(SavedText(text, name, e, max)) == Chunks(NewRecord(name, e)) + Kept(Chunks(text), name, max)
  {
    hide Record, Chunks, Concat, Others, WellCut;
    ChunksWellCut(text);
    OthersWellCut(Chunks(text), name);
    var others := Others(Chunks(text), name);
    WellCutPrefix(others, Least(|others|, Limit(max)));
    ChunksOfConcat(Kept(Chunks(text), name, max));
    RecordEnds(name, e);
    ChunksAppend(NewRecord(name, e), Concat(Kept(Chunks(text), name, max)));
  }

  lemma RecordEnds(name: string, e: Entry)
    requires -LONG_MAX - 1 <= e.offset
    ensures Record(name, e) != "" && Record(name, e)[|Record(name, e)| - 1] == '\n'
    ensures TextLines.EndsLine(NewRecord(name, e))
  {
    hide Joined, Fields;
    JoinedEnds(Fields(e));
  }

  // ----- laws of one save -----

  lemma {:induction false} NoneOfThese(lines: seq<string>, name: string, want: bool, before: Loaded)
    requires forall i :: 0 <= i < |lines| ==> !Matches(lines[i], name)
    ensures LoadFrom(lines, name, want, before) == before
  {
    hide Matches;
    if lines == [] {
    } else {
      NoneOfThese(lines[1..], name, want, before);
    }
  }

  lemma {:induction false} OthersDoNotMatch(lines: seq<string>, name: string)
    ensures forall i :: 0 <= i < |Others(lines, name)| ==> !Matches(Others(lines, name)[i], name)
  {
    hide Matches;
    if lines == [] {
    } else {
      OthersDoNotMatch(lines[1..], name);
    }
  }

  /** What a load should give after a save. */
  function Expected(e: Entry, want: bool): Loaded {
    if Written(e) then Recalled(e, want) else DEFAULTS
  }

  /** Behind the new record no line matches the name. */
  lemma LoadOfKept(lines: seq<string>, name: string, max: nat, want: bool, before: Loaded)
    ensures LoadFrom(Kept(lines, name, max), name, want, before) == before
  {
    hide Matches, Others, LoadFrom;
    OthersDoNotMatch(lines, name);
    NoneOfThese(Kept(lines, name, max), name, want, before);
  }

  lemma LoadOfSaved(text: string, name: string, e: Entry, max: nat, want: bool)
    requires -LONG_MAX - 1 <= e.offset
    ensures LoadFrom(Chunks(SavedText(text, name, e, max)), name, want, DEFAULTS)
         == LoadFrom(Chunks(NewRecord(name, e)), name, want, DEFAULTS)
  {
    hide Chunks, LoadFrom, NewRecord, Kept, SavedText;
    LinesOfSave(text, name, e, max);
    var newer, kept := Chunks(NewRecord(name, e)), Kept(Chunks(text), name, max);
    LoadConcat(newer, kept, name, want, DEFAULTS);
    LoadOfKept(Chunks(text), name, max, want, LoadFrom(newer, name, want, DEFAULTS));
  }

  /** No line that fgets returns is a record of a name with a newline. */
  lemma NewlineNeverMatches(c: string, name: string)
    requires IsChunk(c) && '\n' in name
    ensures !Matches(c, name)
  {
    var k :| 0 <= k < |name| && name[k] == '\n';
    assert |name| < |c| ==> c[k] == c[..|name|][k];
  }

  lemma {:induction false} NewlineNeverLoads(cs: seq<string>, name: string, want: bool, before: Loaded)
    requires WellCut(cs) && '\n' in name
    ensures LoadFrom(cs, name, want, before) == before
  {
    hide Matches, ReadFields, IsChunk, Closed;
    if cs == [] {
    } else {
      NewlineNeverMatches(cs[0], name);
      NewlineNeverLoads(cs[1..], name, want, before);
    }
  }

  /** What a load gives of a record: what the first piece of it shows. */
  lemma LoadOfRecord(name: string, e: Entry, want: bool)
    requires InRange(e) && '\n' !in name && |name| <= BUF_SIZE - 2
    ensures LoadFrom(Chunks(Record(name, e)), name, want, DEFAULTS)
         == ReadFields(StrSplit(Seen(name, e), 3 + MAX_SAVED_BOOKMARKS), want, DEFAULTS)
  {
    hide Chunks, Joined, Fields, Matches, ReadFields, StrSplit, Record, Seen;
    var seen := Seen(name, e);
    var more := Chunks(Joined(Fields(e))[|seen|..]);
    var line := name + (" " + seen);
    RecordInPieces(name, e);
    LoadNext(line, more, name, want, DEFAULTS);
    MatchesOneName(name, seen, name);
    assert line[|name| + 1..] == seen;
    NoSpaceNoMatch(more, name);
    NoneOfThese(more, name, want, ReadLine(line, name, want, DEFAULTS));
  }

  lemma NoSpaceNoMatch(lines: seq<string>, name: string)
    requires forall i :: 0 <= i < |lines| ==> ' ' !in lines[i]
    ensures forall i :: 0 <= i < |lines| ==> !Matches(lines[i], name)
  {
  }

  /** Whatever stood in the file, a load of a name that leaves room for the space behind it gives what the first
      piece of the record shows. */
  lemma LoadShows(text: string, name: string, e: Entry, max: nat, want: bool)
    requires InRange(e) && '\n' !in name && |name| <= BUF_SIZE - 2 && Written(e)
    ensures LoadIn(SaveIn(Some(text), name, e, max), name, want)
         == ReadFields(StrSplit(Seen(name, e), 3 + MAX_SAVED_BOOKMARKS), want, DEFAULTS)
  {
    hide Chunks, LoadFrom, SavedText, ReadFields, StrSplit, Seen, Record;
    LoadOfSaved(text, name, e, max, want);
    LoadOfRecord(name, e, want);
  }

  /** The name has no newline, and its record enough room in the line buffer. */
  predicate HasRoom(name: string, e: Entry, want: bool)
    requires -LONG_MAX - 1 <= e.offset
  {
    '\n' !in name && |name| <= BUF_SIZE - 2 && Enough(e, BUF_SIZE - 2 - |name|, want)
  }

  lemma SeenIsEnough(name: string, e: Entry, want: bool)
    requires InRange(e) && '\n' !in name && |name| <= BUF_SIZE - 2
    ensures ReadFields(StrSplit(Seen(name, e), 3 + MAX_SAVED_BOOKMARKS), want, DEFAULTS) == Recalled(e, want)
       <==> Enough(e, BUF_SIZE - 2 - |name|, want)
  {
    hide Joined, Fields, StrSplit, Pieces, ReadFields, Recalled;
    var k, j := BUF_SIZE - 2 - |name|, Joined(Fields(e));
    if k < |j| - 1 {
      CutReads(e, k, want);
    } else if k >= |j| {
      WholeReads(name, e, want);
      assert j[..|j|] == j;
    } else {
      NewlineCutReads(e, want);
    }
  }

  lemma WholeReads(name: string, e: Entry, want: bool)
    requires InRange(e)
    ensures ReadFields(StrSplit(Joined(Fields(e)), 3 + MAX_SAVED_BOOKMARKS), want, DEFAULTS) == Recalled(e, want)
  {
    hide Joined, Fields, StrSplit, ReadFields, Recalled, Matches;
    ReadRecord(name, e, want);
    RecordMatches(name, e, name);
    assert Record(name, e)[|name| + 1..] == Joined(Fields(e));
  }

  /** Names that are never found again: fgets returns no line with such a name and a space. */
  lemma NotFound(text: string, name: string, e: Entry, max: nat, want: bool)
    requires InRange(e) && ('\n' in name || |name| > BUF_SIZE - 2)
    ensures LoadIn(SaveIn(Some(text), name, e, max), name, want) == DEFAULTS
  {
    hide Chunks, LoadFrom, SavedText, WellCut;
    var saved := SavedText(text, name, e, max);
    ChunksWellCut(saved);
    if '\n' in name {
      NewlineNeverLoads(Chunks(saved), name, want, DEFAULTS);
    } else {
      TooLongToMatch(Chunks(saved), name, want, DEFAULTS);
    }
  }

  lemma {:induction false} TooLongToMatch(cs: seq<string>, name: string, want: bool, before: Loaded)
    requires WellCut(cs) && |name| >= BUF_SIZE - 1
    ensures LoadFrom(cs, name, want, before) == before
  {
    hide ReadFields;
    if cs == [] {
    } else {
      TooLongToMatch(cs[1..], name, want, before);
    }
  }

  /** A position like that of unknown names is short enough for whatever room there is. */
  lemma DefaultsHaveRoom(name: string, e: Entry, want: bool)
    requires InRange(e) && '\n' !in name && |name| <= BUF_SIZE - 2 && Recalled(e, want) == DEFAULTS
    ensures HasRoom(name, e, want)
  {
    hide Decimal, Joined, Fields;
    ZeroLengths(e);
  }

  /** Whatever stood in the file, a load gives the entry just saved if and only if there was a file, the name has
      no newline and the record enough room, or what is expected is what a load gives anyway. */
  lemma SaveThenLoad(file: Option<string>, name: string, e: Entry, max: nat, want: bool)
    requires InRange(e)
    ensures LoadIn(SaveIn(file, name, e, max), name, want) == Expected(e, want) <==>
              (file != None && HasRoom(name, e, want)) || Expected(e, want) == DEFAULTS
    ensures Written(e) && file != None && HasRoom(name, e, want) ==>
              Restores(LoadIn(SaveIn(file, name, e, max), name, want), e, want)
  {
    hide Chunks, LoadFrom, Recalled, Record, SavedText, ReadFields, StrSplit, Seen, WellCut, Enough;
    match file
    case None => NothingToLoad(name, want);
    case Some(text) =>
      if !Written(e) {
        LoadOfSaved(text, name, e, max, want);
        NothingToLoad(name, want);
      } else if '\n' in name || |name| > BUF_SIZE - 2 {
        NotFound(text, name, e, max, want);
      } else {
        LoadShows(text, name, e, max, want);
        SeenIsEnough(name, e, want);
        if Recalled(e, want) == DEFAULTS { DefaultsHaveRoom(name, e, want); }
      }
  }

  /** A save into an empty file leaves it empty if and only if the position is that of unknown names. */
  lemma NoRecordIff(name: string, e: Entry, max: nat)
    requires -LONG_MAX - 1 <= e.offset
    ensures SavedText("", name, e, max) == "" <==> e.line == 1 && e.column == 0 && e.bookmarks == None
    ensures DEFAULTS == Loaded(1, 0, 0, [])
  {
    hide Record, Others;
    RecordEnds(name, e);
    NoLines();
    NothingKept(name, max);
    assert Concat([]) == "";
  }

  lemma NothingToLoad(name: string, want: bool)
    ensures LoadFrom(Chunks(""), name, want, DEFAULTS) == DEFAULTS
  {
  }

  lemma NothingMore(name: string, want: bool, before: Loaded)
    ensures LoadFrom([], name, want, before) == before
  {
  }

  /** The records of a name. */
  function Records(lines: seq<string>, name: string): seq<string> {
    if lines == [] then []
    else (if Matches(lines[0], name) then [lines[0]] else []) + Records(lines[1..], name)
  }

  lemma {:induction false} RecordsConcat(a: seq<string>, b: seq<string>, name: string)
    ensures Records(a + b, name) == Records(a, name) + Records(b, name)
  {
    hide Matches;
    if a == [] {
      assert a + b == b;
    } else {
      assert (a + b)[1..] == a[1..] + b;
      RecordsConcat(a[1..], b, name);
      Assoc(if Matches(a[0], name) then [a[0]] else [], Records(a[1..], name), Records(b, name));
    }
  }

  lemma {:induction false} OthersKeepRecords(lines: seq<string>, name: string, other: string)
    requires name != other
    ensures Records(Others(lines, name), other) == Records(lines, other)
  {
    hide Matches;
    if lines == [] {
    } else {
      OthersKeepRecords(lines[1..], name, other);
      RecordsConcat(if Matches(lines[0], name) then [] else [lines[0]], Others(lines[1..], name), other);
      if Matches(lines[0], name) { OneNameOnly(lines[0], name, other); }
      assert [lines[0]][1..] == [];
    }
  }

  lemma OneNameOnly(line: string, name: string, other: string)
    requires Matches(line, name)
    ensures Matches(line, other) <==> other == name
  {
    var text := line[|name| + 1..];
    assert line == name + (" " + text);
    MatchesOneName(name, text, other);
  }

  lemma {:induction false} LoadUsesRecords(lines: seq<string>, name: string, want: bool, before: Loaded)
    ensures LoadFrom(lines, name, want, before) == LoadFrom(Records(lines, name), name, want, before)
    decreases |lines|
  {
    hide Matches, ReadFields;
    if lines == [] {
    } else {
      LoadUsesRecords(lines[1..], name, want, ReadLine(lines[0], name, want, before));
      LoadConcat(if Matches(lines[0], name) then [lines[0]] else [], Records(lines[1..], name), name, want, before);
      assert [lines[0]][1..] == [];
    }
  }

  /** For every other name a save keeps the records or drops the oldest of them, if its own name has no
      newline and leaves room for a space; it drops none if the lines of all other names are within the limit.
      If the record has room, the file never has more than one line more. */
  lemma OthersStay(text: string, name: string, e: Entry, max: nat, other: string, want: bool)
    requires InRange(e) && '\n' !in name && |name| <= BUF_SIZE - 2 && name != other
    ensures var lines, saved := Chunks(text), Chunks(SavedText(text, name, e, max));
            && (Fits(name, e) ==> |saved| <= Limit(max) + 1)
            && Records(saved, other) <= Records(lines, other)
            && (|Others(lines, name)| <= Limit(max) ==>
                  LoadFrom(saved, other, want, DEFAULTS) == LoadFrom(lines, other, want, DEFAULTS))
  {
    hide Matches, Record, ReadLine, LoadFrom, Others, Records, Chunks, SavedText, Fits;
    var lines, saved := Chunks(text), Chunks(SavedText(text, name, e, max));
    var first := Chunks(NewRecord(name, e));
    var all := Others(lines, name);
    var n := Least(|all|, Limit(max));
    LinesOfSave(text, name, e, max);
    NotOther(name, e, other);
    assert all == all[..n] + all[n..];
    RecordsConcat(first, all[..n], other);
    RecordsConcat(all[..n], all[n..], other);
    OthersKeepRecords(lines, name, other);
    assert n == |all| ==> all[..n] == all;
    assert [] + Records(all[..n], other) == Records(all[..n], other);
    LoadUsesRecords(saved, other, want, DEFAULTS);
    LoadUsesRecords(lines, other, want, DEFAULTS);
  }

  lemma NoLines()
    ensures Chunks("") == []
  {
  }

  /** No piece of a new record is a record of another name. */
  lemma NotOther(name: string, e: Entry, other: string)
    requires InRange(e) && '\n' !in name && |name| <= BUF_SIZE - 2 && name != other
    ensures Records(Chunks(NewRecord(name, e)), other) == []
    ensures Fits(name, e) ==> |Chunks(NewRecord(name, e))| <= 1
  {
    hide Matches, Joined, Fields, Chunks, Records, Record, Seen;
    if Written(e) {
      var seen := Seen(name, e);
      var more := Chunks(Joined(Fields(e))[|seen|..]);
      var line := name + (" " + seen);
      RecordInPieces(name, e);
      MatchesOneName(name, seen, other);
      NoSpaceNoMatch(more, other);
      NoRecords([line] + more, other);
    } else {
      NoLines();
      NoRecords([], other);
    }
  }

  lemma {:induction false} NoRecords(lines: seq<string>, name: string)
    requires forall i :: 0 <= i < |lines| ==> !Matches(lines[i], name)
    ensures Records(lines, name) == []
  {
    hide Matches;
    if lines == [] {
    } else {
      NoRecords(lines[1..], name);
    }
  }

  // ----- names with a newline -----

  /** Saves of a name leave the records of all other names alone, in every file, if and only if the name
      has no newline and leaves room for a space in the line buffer. */
  lemma KeptApartIffNoNewline(name: string, e: Entry, max: nat)
    requires InRange(e) && Written(e)
    ensures (forall text: string, other: string :: other != name ==>
               Records(Chunks(SavedText(text, name, e, max)), other) <= Records(Chunks(text), other))
       <==> '\n' !in name && |name| <= BUF_SIZE - 2
  {
    hide Chunks, SavedText, Records, Record, Matches;
    if '\n' in name || |name| > BUF_SIZE - 2 {
      var r := Record(name, e);
      HasSpace(name, e);
      var i, other := SomeRecord(r);
      var saved := Chunks(SavedText("", name, e, max));
      LinesOfSave("", name, e, max);
      NoLines();
      NothingKept(name, max);
      NothingKept(other, max);
      assert saved == Chunks(r) + [] == Chunks(r);
      SomeRecords(saved, i, other);
      assert |Records(saved, other)| > |Records(Chunks(""), other)|;
      assert other != name;
    } else {
      forall text: string, other: string | other != name
        ensures Records(Chunks(SavedText(text, name, e, max)), other) <= Records(Chunks(text), other)
      {
        OthersStay(text, name, e, max, other, true);
      }
    }
  }

  lemma HasSpace(name: string, e: Entry)
    requires -LONG_MAX - 1 <= e.offset
    ensures ' ' in Record(name, e)
  {
    assert Record(name, e)[|name|] == ' ';
  }

  lemma {:induction false} SomeRecords(lines: seq<string>, i: nat, name: string)
    requires i < |lines| && Matches(lines[i], name)
    ensures Records(lines, name) != []
  {
    hide Matches;
    if i == 0 {
    } else {
      SomeRecords(lines[1..], i - 1, name);
    }
  }

  lemma NothingKept(name: string, max: nat)
    ensures Kept([], name, max) == []
    ensures Records([], name) == []
  {
  }

  /** A real pair of paths: the position of "/x\n/y" is what a load of "/y" gives. */
  lemma NewlineCollides(e: Entry, max: nat, want: bool)
    requires InRange(e) && Written(e)
    ensures var file := SaveIn(Some(""), "/x\n/y", e, max);
            && LoadIn(file, "/y", want) == Recalled(e, want)
            && LoadIn(file, "/x\n/y", want) == DEFAULTS
  {
    hide Chunks, Record, LoadFrom, ReadLine, Recalled, Joined, Fields, Matches, IsChunk, WellCut;
    var name := "/x\n/y";
    var saved := Chunks(SavedText("", name, e, max));
    ShortNameFits("/y", e);
    TwoLines(e);
    LinesOfSave("", name, e, max);
    NoLines();
    NothingKept(name, max);
    var r := Record("/y", e);
    assert saved == ["/x\n"] + ([r] + []);
    LoadNext("/x\n", [r] + [], "/y", want, DEFAULTS);
    NotARecord();
    LoadNext(r, [], "/y", want, DEFAULTS);
    ReadRecord("/y", e, want);
    NothingMore("/y", want, Recalled(e, want));
    ChunksWellCut(SavedText("", name, e, max));
    assert name[2] == '\n';
    NewlineNeverLoads(saved, name, want, DEFAULTS);
  }

  lemma NotARecord()
    ensures ReadLine("/x\n", "/y", true, DEFAULTS) == ReadLine("/x\n", "/y", false, DEFAULTS) == DEFAULTS
  {
    assert "/x\n"[2] != ' ';
  }

  lemma TwoLines(e: Entry)
    requires InRange(e) && Fits("/y", e)
    ensures Chunks(Record("/x\n/y", e)) == ["/x\n"] + [Record("/y", e)]
  {
    hide Joined, Fields, Chunks;
    Assoc("/x\n", "/y", " " + Joined(Fields(e)));
    assert "/x\n" + "/y" == "/x\n/y";
    ChunksAppend("/x\n", Record("/y", e));
    OneLine("/x\n");
    RecordIsOneLine("/y", e);
  }

  // ----- names and the buffer -----

  lemma {:induction false} JoinedLength(ts: seq<string>, m: nat)
    requires ts != [] && forall i :: 0 <= i < |ts| ==> |ts[i]| <= m
    ensures |Joined(ts)| <= |ts| * (m + 1)
  {
    if |ts| == 1 {
    } else {
      JoinedLength(ts[1..], m);
      assert |ts| * (m + 1) == (|ts| - 1) * (m + 1) + (m + 1);
    }
  }

  lemma NumberIsShort(n: nat)
    ensures n <= LONG_MAX + 1 ==> |Decimal(n)| <= 19
    ensures n <= ULONG_MAX ==> |Decimal(n)| <= 20
  {
    Powers();
    DecimalLength(n, 19);
    DecimalLength(n, 20);
  }

  lemma Powers()
    ensures Pow10(19) == 10000000000000000000 && Pow10(20) == 100000000000000000000
  {
    assert Pow10(4) == 10000;
    assert Pow10(8) == 100000000;
    assert Pow10(12) == 1000000000000;
    assert Pow10(16) == 10000000000000000;
    assert Pow10(19) == 10000000000000000000;
  }

  lemma FieldIsShort(e: Entry, i: nat)
    requires InRange(e) && i < |Fields(e)|
    ensures |Fields(e)[i]| <= 20
  {
    hide Decimal;
    if i == 0 {
      SignedIsShort(e.line);
    } else if i == 1 {
      SignedIsShort(e.column);
    } else if i == 2 {
      NumberIsShort(Unsigned(e.offset));
    } else {
      NumberIsShort(Marks(e)[i - 3]);
    }
  }

  lemma SignedIsShort(n: int)
    requires -LONG_MAX - 1 <= n <= LONG_MAX
    ensures |Signed(n)| <= 20
  {
    NumberIsShort(if n < 0 then -n else n);
  }

  /** Every record has room whose name is no longer than 3921 characters. */
  lemma ShortNameFits(name: string, e: Entry)
    requires InRange(e) && |name| <= BUF_SIZE - 275
    ensures Fits(name, e)
  {
    hide Joined, Decimal, Signed;
    var ts := Fields(e);
    forall i | 0 <= i < |ts|
      ensures |ts[i]| <= 20
    {
      FieldIsShort(e, i);
    }
    JoinedLength(ts, 20);
  }

  /** The entry of a name that fills the buffer is never found again. */
  lemma LongNameIsLost(file: Option<string>, name: string, e: Entry, max: nat, want: bool)
    requires InRange(e) && |name| >= BUF_SIZE - 1
    ensures LoadIn(SaveIn(file, name, e, max), name, want) == DEFAULTS
  {
    hide Chunks, LoadFrom, SavedText;
    match file
    case None => NothingToLoad(name, want);
    case Some(text) => NotFound(text, name, e, max, want);
  }
}
