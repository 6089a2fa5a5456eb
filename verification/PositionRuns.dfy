/** Whole runs of saves (lib/sub-util.c): the position file is a list of names, the most recent first. */
module PositionRuns {
  import opened FilePosition
  import opened PositionStore
  import opened RecordLines
  import opened Sequences
  import opened TextLines

  datatype Save = Save(name: string, entry: Entry)

  /** A line of the file: the first piece of a record, or another piece of it that the buffer left. */
  datatype Line = First(save: Save) | Rest(text: string)

  type Book = seq<Line>

  /** The name has no newline and leaves room for the space; the record may be cut off. */
  ghost predicate Roomy(s: Save) {
    InRange(s.entry) && '\n' !in s.name && |s.name| <= BUF_SIZE - 2
  }

  ghost predicate AllRoomy(run: seq<Save>) {
    forall i :: 0 <= i < |run| ==> Roomy(run[i])
  }

  ghost predicate Readable(line: Line) {
    match line
    case First(s) => Roomy(s)
    case Rest(text) => ' ' !in text
  }

  ghost predicate AllReadable(b: Book) {
    forall i :: 0 <= i < |b| ==> Readable(b[i])
  }

  /** The file after the saves, from an empty one. */
  function FileAfter(run: seq<Save>, max: nat): string
    requires AllRoomy(run)
  {
    if run == [] then ""
    else
      var last := run[|run| - 1];
      SavedText(FileAfter(run[..|run| - 1], max), last.name, last.entry, max)
  }

  // ----- the file as a list of entries -----

  function LineText(line: Line): string
    requires Readable(line)
  {
    match line
    case First(s) => s.name + (" " + Seen(s.name, s.entry))
    case Rest(text) => text
  }

  function Lines(b: Book): (r: seq<string>)
    requires AllReadable(b)
    ensures |r| == |b| && forall i :: 0 <= i < |b| ==> r[i] == LineText(b[i])
  {
    seq(|b|, i requires 0 <= i < |b| => LineText(b[i]))
  }

  function Rests(texts: seq<string>): (b: Book)
    ensures |b| == |texts| && forall i :: 0 <= i < |b| ==> b[i] == Rest(texts[i])
  {
    if texts == [] then [] else [Rest(texts[0])] + Rests(texts[1..])
  }

  /** The pieces of a record behind the first. */
  function More(s: Save): seq<string>
    requires Roomy(s)
  {
    if Written(s.entry) then Chunks(Joined(Fields(s.entry))[|Seen(s.name, s.entry)|..]) else []
  }

  function NewLines(s: Save): Book
    requires Roomy(s)
  {
    if Written(s.entry) then [First(s)] + Rests(More(s)) else []
  }

  predicate IsOf(line: Line, name: string) {
    line.First? && line.save.name == name
  }

  function Without(b: Book, name: string): (r: Book)
    ensures |r| <= |b|
  {
    if b == [] then [] else (if IsOf(b[0], name) then [] else [b[0]]) + Without(b[1..], name)
  }

  function Add(b: Book, s: Save, max: nat): Book
    requires Roomy(s)
  {
    var rest := Without(b, s.name);
    NewLines(s) + rest[..Least(|rest|, Limit(max))]
  }

  function BookAfter(run: seq<Save>, max: nat): Book
    requires AllRoomy(run)
  {
    if run == [] then [] else Add(BookAfter(run[..|run| - 1], max), run[|run| - 1], max)
  }

  lemma {:induction false} WithoutReadable(b: Book, name: string)
    requires AllReadable(b)
    ensures AllReadable(Without(b, name))
  {
    hide Readable;
    if b == [] {
    } else {
      WithoutReadable(b[1..], name);
    }
  }

  /** A first piece is a record of its own name, and any other piece of none. */
  lemma LineMatches(line: Line, name: string)
    requires Readable(line)
    ensures Matches(LineText(line), name) <==> IsOf(line, name)
  {
    hide Joined, Fields, Matches, Seen;
    match line
    case First(s) =>
      RecordInPieces(s.name, s.entry);
      MatchesOneName(s.name, Seen(s.name, s.entry), name);
    case Rest(text) =>
      NoSpaceNoMatch([text], name);
      assert [text][0] == text;
  }

  lemma {:induction false} OthersOfLines(b: Book, name: string)
    requires AllReadable(b)
    ensures AllReadable(Without(b, name)) && Others(Lines(b), name) == Lines(Without(b, name))
  {
    hide Matches, LineText, Readable;
    WithoutReadable(b, name);
    if b == [] {
    } else {
      OthersOfLines(b[1..], name);
      LineMatches(b[0], name);
      assert Lines(b)[1..] == Lines(b[1..]);
    }
  }

  lemma LinesOfRecord(s: Save)
    requires Roomy(s)
    ensures AllReadable(NewLines(s)) && Chunks(NewRecord(s.name, s.entry)) == Lines(NewLines(s))
  {
    hide Chunks, Record, Joined, Fields, Seen;
    if Written(s.entry) {
      RecordInPieces(s.name, s.entry);
      var b, more := NewLines(s), More(s);
      assert b[0] == First(s) && forall i :: 0 < i < |b| ==> b[i] == Rest(more[i - 1]);
      assert Lines(b) == [LineText(First(s))] + more;
    } else {
      NoLines();
    }
  }

  /** The file is read as the list of entries, line by line. */
  lemma {:induction false} Refines(run: seq<Save>, max: nat)
    requires AllRoomy(run)
    ensures AllReadable(BookAfter(run, max)) && Chunks(FileAfter(run, max)) == Lines(BookAfter(run, max))
  {
    hide Record, Without, Others, Chunks, SavedText, NewLines, Readable, Roomy, LineText, InRange;
    if run == [] {
      NoLines();
    } else {
      var before, last := run[..|run| - 1], run[|run| - 1];
      Refines(before, max);
      var b := BookAfter(before, max);
      OthersOfLines(b, last.name);
      var rest := Without(b, last.name);
      var n := Least(|rest|, Limit(max));
      assert Roomy(last);
      RoomyInRange(last);
      LinesOfSave(FileAfter(before, max), last.name, last.entry, max);
      LinesOfRecord(last);
      assert Lines(rest[..n]) == Lines(rest)[..n];
      LinesConcat(NewLines(last), rest[..n]);
    }
  }

  lemma RoomyInRange(s: Save)
    requires Roomy(s)
    ensures InRange(s.entry)
  {
  }

  lemma LinesConcat(a: Book, b: Book)
    requires AllReadable(a) && AllReadable(b)
    ensures AllReadable(a + b) && Lines(a + b) == Lines(a) + Lines(b)
  {
    hide LineText, Readable;
  }

  // ----- names -----

  function NameOf(line: Line): set<string> {
    if line.First? then {line.save.name} else {}
  }

  function Names(b: Book): set<string> {
    if b == [] then {} else NameOf(b[0]) + Names(b[1..])
  }

  predicate Distinct(b: Book) {
    b == [] || (NameOf(b[0]) !! Names(b[1..]) && Distinct(b[1..]))
  }

  /** How many lines are no first pieces. */
  function RestCount(b: Book): nat {
    if b == [] then 0 else (if b[0].First? then 0 else 1) + RestCount(b[1..])
  }

  lemma {:induction false} NamesConcat(a: Book, b: Book)
    ensures Names(a + b) == Names(a) + Names(b) && RestCount(a + b) == RestCount(a) + RestCount(b)
  {
    hide NameOf;
    if a == [] {
      assert a + b == b;
    } else {
      assert (a + b)[1..] == a[1..] + b;
      NamesConcat(a[1..], b);
    }
  }

  lemma {:induction false} LinesCount(b: Book)
    requires Distinct(b)
    ensures |b| == |Names(b)| + RestCount(b)
  {
    if b == [] {
    } else {
      LinesCount(b[1..]);
      if !b[0].First? { assert Names(b) == Names(b[1..]); }
    }
  }

  lemma {:induction false} DistinctPrefix(a: Book, b: Book)
    requires Distinct(a + b)
    ensures Distinct(a)
  {
    hide NameOf;
    if a == [] {
    } else {
      assert (a + b)[1..] == a[1..] + b;
      NamesConcat(a[1..], b);
      DistinctPrefix(a[1..], b);
    }
  }

  lemma {:induction false} WithoutConcat(a: Book, b: Book, name: string)
    ensures Without(a + b, name) == Without(a, name) + Without(b, name)
  {
    hide IsOf;
    if a == [] {
      assert a + b == b;
    } else {
      assert (a + b)[1..] == a[1..] + b;
      WithoutConcat(a[1..], b, name);
      Assoc(if IsOf(a[0], name) then [] else [a[0]], Without(a[1..], name), Without(b, name));
    }
  }

  lemma {:induction false} WithoutNames(b: Book, name: string)
    ensures Names(Without(b, name)) == Names(b) - {name} && RestCount(Without(b, name)) == RestCount(b)
    ensures Distinct(b) ==> Distinct(Without(b, name))
    ensures name !in Names(b) ==> Without(b, name) == b
  {
    hide Without, Names, Distinct, NameOf, RestCount;
    WithoutCons(b, name);
    if b == [] {
    } else {
      WithoutNames(b[1..], name);
      assert b == [b[0]] + b[1..];
      NamesCons(b[0], b[1..]);
      NamesCons(b[0], Without(b[1..], name));
      OneLineNames(b[0], name);
    }
  }

  lemma OneLineNames(line: Line, name: string)
    ensures IsOf(line, name) <==> NameOf(line) == {name}
    ensures !IsOf(line, name) ==> name !in NameOf(line)
    ensures line.First? <==> NameOf(line) != {}
  {
    if line.First? { assert line.save.name in NameOf(line); }
  }

  lemma WithoutCons(b: Book, name: string)
    ensures b == [] ==> Without(b, name) == [] && Names(b) == {} && Distinct(b)
    ensures b != [] && IsOf(b[0], name) ==> Without(b, name) == Without(b[1..], name)
    ensures b != [] && !IsOf(b[0], name) ==> Without(b, name) == [b[0]] + Without(b[1..], name)
  {
  }

  lemma NamesCons(x: Line, b: Book)
    ensures Names([x] + b) == NameOf(x) + Names(b) && RestCount([x] + b) == (if x.First? then 0 else 1) + RestCount(b)
    ensures Distinct([x] + b) <==> NameOf(x) !! Names(b) && Distinct(b)
  {
    assert ([x] + b)[1..] == b;
  }

  lemma {:induction false} NamesOfRests(texts: seq<string>)
    ensures Names(Rests(texts)) == {} && RestCount(Rests(texts)) == |texts| && Distinct(Rests(texts))
  {
    if texts == [] {
    } else {
      NamesOfRests(texts[1..]);
      assert Rests(texts)[1..] == Rests(texts[1..]);
    }
  }

  /** The lines of a new record have its name, once. */
  lemma NamesOfNew(s: Save)
    requires Roomy(s)
    ensures Names(NewLines(s)) == (if Written(s.entry) then {s.name} else {})
    ensures RestCount(NewLines(s)) == |More(s)| && Distinct(NewLines(s))
  {
    hide Written, Roomy;
    if Written(s.entry) {
      NamesOfRests(More(s));
      NamesCons(First(s), Rests(More(s)));
      assert NewLines(s) == [First(s)] + Rests(More(s));
    }
  }

  lemma {:induction false} DistinctConcat(a: Book, b: Book)
    requires Distinct(a) && Distinct(b) && Names(a) !! Names(b)
    ensures Distinct(a + b)
  {
    hide NameOf;
    if a == [] {
      assert a + b == b;
    } else {
      assert (a + b)[1..] == a[1..] + b;
      NamesConcat(a[1..], b);
      DistinctConcat(a[1..], b);
    }
  }

  lemma {:induction false} BookDistinct(run: seq<Save>, max: nat)
    requires AllRoomy(run)
    ensures Distinct(BookAfter(run, max))
  {
    hide Without, Names, Distinct, NewLines, Roomy;
    if run == [] {
      NoNames();
    } else {
      var before, last := run[..|run| - 1], run[|run| - 1];
      var b := BookAfter(before, max);
      BookDistinct(before, max);
      WithoutNames(b, last.name);
      var rest := Without(b, last.name);
      var n := Least(|rest|, Limit(max));
      assert rest == rest[..n] + rest[n..];
      NamesConcat(rest[..n], rest[n..]);
      DistinctPrefix(rest[..n], rest[n..]);
      NamesOfNew(last);
      DistinctConcat(NewLines(last), rest[..n]);
    }
  }

  lemma NoNames()
    ensures Names([]) == {} && RestCount([]) == 0 && Distinct([])
  {
  }

  // ----- where an entry is -----

  /** The name was last saved at k. */
  ghost predicate LastSavedAt(run: seq<Save>, k: nat) {
    k < |run| && forall i :: k < i < |run| ==> run[i].name != run[k].name
  }

  function SavedNames(run: seq<Save>): set<string> {
    if run == [] then {} else {run[0].name} + SavedNames(run[1..])
  }

  /** The pieces that the records of a run leave behind the first ones. */
  function Extras(run: seq<Save>): nat
    requires AllRoomy(run)
  {
    if run == [] then 0 else |More(run[0])| + Extras(run[1..])
  }

  lemma {:induction false} SavedSnoc(run: seq<Save>, s: Save)
    requires AllRoomy(run) && Roomy(s)
    ensures AllRoomy(run + [s])
    ensures SavedNames(run + [s]) == SavedNames(run) + {s.name} && Extras(run + [s]) == Extras(run) + |More(s)|
  {
    hide Roomy;
    if run == [] {
      assert run + [s] == [s] && [s][1..] == [];
    } else {
      assert (run + [s])[1..] == run[1..] + [s];
      SavedSnoc(run[1..], s);
    }
  }

  /** The names saved after k. */
  function Since(run: seq<Save>, k: nat): set<string>
    requires k < |run|
  {
    SavedNames(run[k + 1..])
  }

  /** How many lines have been put in front of the entry saved at k, where those behind the first of the last record
      do not count yet. */
  function CountSince(run: seq<Save>, k: nat): nat
    requires k < |run| && AllRoomy(run)
  {
    |Since(run, k)| + if k == |run| - 1 then 0 else Extras(run[k + 1..|run| - 1])
  }

  lemma NothingSince(run: seq<Save>)
    requires run != [] && AllRoomy(run)
    ensures CountSince(run, |run| - 1) == 0
  {
    assert run[|run|..] == [] && SavedNames([]) == {};
  }

  lemma SinceSnoc(run: seq<Save>, k: nat)
    requires k + 1 < |run| && AllRoomy(run)
    ensures var before, last := run[..|run| - 1], run[|run| - 1];
            && Since(run, k) == Since(before, k) + {last.name}
            && Extras(run[k + 1..]) == Extras(before[k + 1..]) + |More(last)|
            && CountSince(run, k) == |Since(before, k) + {last.name}| + Extras(before[k + 1..])
            && CountSince(before, k) <= |Since(before, k)| + Extras(before[k + 1..])
  {
    hide Roomy, More;
    var before, last := run[..|run| - 1], run[|run| - 1];
    assert Roomy(last) && AllRoomy(before[k + 1..]);
    assert run[k + 1..] == before[k + 1..] + [last] && run[k + 1..|run| - 1] == before[k + 1..];
    SavedSnoc(before[k + 1..], last);
    if k < |before| - 1 {
      var earlier, end := before[k + 1..|before| - 1], before[|before| - 1];
      assert before[k + 1..] == earlier + [end] && Roomy(end);
      SavedSnoc(earlier, end);
    }
  }

  /** An entry within the limit stands in the list, behind no other names than those saved since, and no more other
      pieces than the records since have left. */
  lemma {:induction false} Stands(run: seq<Save>, k: nat, max: nat) returns (pre: Book, post: Book)
    requires AllRoomy(run) && LastSavedAt(run, k) && Written(run[k].entry) && CountSince(run, k) <= Limit(max)
    ensures BookAfter(run, max) == pre + ([First(run[k])] + post)
    ensures Names(pre) <= Since(run, k) && RestCount(pre) <= Extras(run[k + 1..])
    ensures (forall i :: k < i < |run| ==> Written(run[i].entry)) ==>
              Names(pre) == Since(run, k) && RestCount(pre) == Extras(run[k + 1..])
    decreases |run|
  {
    hide Without, Written, Names, RestCount, BookAfter, Roomy, More, CountSince;
    var before, last := run[..|run| - 1], run[|run| - 1];
    var b := BookAfter(before, max);
    assert Roomy(last);
    Unfold(run, max);
    NoNames();
    if k == |run| - 1 {
      pre, post := AtFront(b, last, max);
      assert run[k + 1..] == [];
    } else {
      SinceSnoc(run, k);
      SubsetCount(Since(before, k), last.name);
      var pre0, post0 := Stands(before, k, max);
      BookDistinct(before, max);
      pre, post := Pushed(pre0, run[k], post0, last, max, Since(before, k), Extras(before[k + 1..]));
    }
  }

  lemma AtFront(b: Book, s: Save, max: nat) returns (pre: Book, post: Book)
    requires Roomy(s) && Written(s.entry)
    ensures pre == [] && Add(b, s, max) == pre + ([First(s)] + post)
  {
    hide Without, Written, Roomy;
    pre := [];
    var rest := Without(b, s.name);
    post := Rests(More(s)) + rest[..Least(|rest|, Limit(max))];
  }

  lemma Unfold(run: seq<Save>, max: nat)
    requires run != [] && AllRoomy(run)
    ensures BookAfter(run, max) == Add(BookAfter(run[..|run| - 1], max), run[|run| - 1], max)
  {
  }

  lemma SubsetCount(s: set<string>, x: string)
    ensures |s| <= |s + {x}| && |s - {x}| == |s + {x}| - 1
  {
    assert s + {x} == (s - {x}) + {x};
    if x in s {
      assert s + {x} == s;
    } else {
      assert s - {x} == s;
    }
  }

  /** One more save moves an entry down by the lines of its record. */
  lemma Pushed(pre0: Book, x: Save, post0: Book, s: Save, max: nat, since: set<string>, extras: nat)
    returns (pre: Book, post: Book)
    requires Roomy(s) && Distinct(pre0 + ([First(x)] + post0)) && s.name != x.name
    requires Names(pre0) <= since && RestCount(pre0) <= extras && |since + {s.name}| + extras <= Limit(max)
    ensures Add(pre0 + ([First(x)] + post0), s, max) == pre + ([First(x)] + post)
    ensures Names(pre) <= since + {s.name} && RestCount(pre) <= extras + |More(s)|
    ensures Written(s.entry) && Names(pre0) == since && RestCount(pre0) == extras ==>
              Names(pre) == since + {s.name} && RestCount(pre) == extras + |More(s)|
  {
    hide Without, Written, Names, RestCount, NewLines, Roomy, More;
    var a := Without(pre0, s.name);
    var c := [First(x)] + Without(post0, s.name);
    var rest := a + c;
    WithoutAround(pre0, x, post0, s.name);
    WithoutNames(pre0, s.name);
    assert |a| < Limit(max) by {
      DistinctPrefix(pre0, [First(x)] + post0);
      LinesCount(a);
      SubsetCount(since, s.name);
      CountBelow(Names(a), since - {s.name});
    }
    var n := Least(|rest|, Limit(max));
    pre, post := NewLines(s) + a, Without(post0, s.name)[..n - |a| - 1];
    assert rest[..n] == a + ([First(x)] + post);
    Assoc(NewLines(s), a, [First(x)] + post);
    NamesConcat(NewLines(s), a);
    NamesOfNew(s);
  }

  lemma WithoutAround(pre: Book, x: Save, post: Book, name: string)
    requires x.name != name
    ensures Without(pre + ([First(x)] + post), name) == Without(pre, name) + ([First(x)] + Without(post, name))
  {
    WithoutConcat(pre, [First(x)] + post, name);
    WithoutConcat([First(x)], post, name);
    assert [First(x)][1..] == [];
    assert Without([First(x)], name) == [First(x)];
  }

  lemma CountBelow(a: set<string>, b: set<string>)
    requires a <= b
    ensures |a| <= |b|
  {
    assert b == a + (b - a);
  }

  // ----- what a load gives after a run -----

  /** Loading skips the entries of other names. */
  lemma {:induction false} LoadSkips(b: Book, name: string, want: bool, before: Loaded)
    requires AllReadable(b) && name !in Names(b)
    ensures LoadFrom(Lines(b), name, want, before) == before
  {
    hide Matches, LineText, ReadFields, Readable;
    if b == [] {
    } else {
      LineMatches(b[0], name);
      OneLineNames(b[0], name);
      assert Lines(b)[1..] == Lines(b[1..]);
      LoadSkips(b[1..], name, want, before);
    }
  }

  /** What a load gives of the first piece of a record. */
  function Shown(s: Save, want: bool): Loaded
    requires Roomy(s)
  {
    ReadFields(StrSplit(Seen(s.name, s.entry), 3 + MAX_SAVED_BOOKMARKS), want, DEFAULTS)
  }

  lemma FirstShows(s: Save, want: bool)
    requires Roomy(s)
    ensures ReadLine(LineText(First(s)), s.name, want, DEFAULTS) == Shown(s, want)
  {
    hide Matches, Seen, StrSplit, ReadFields;
    LineMatches(First(s), s.name);
    assert LineText(First(s))[|s.name| + 1..] == Seen(s.name, s.entry);
  }

  lemma LoadFinds(pre: Book, x: Save, post: Book, want: bool)
    requires Roomy(x)
    requires var b := pre + ([First(x)] + post); AllReadable(b) && Distinct(b)
    ensures LoadFrom(Lines(pre + ([First(x)] + post)), x.name, want, DEFAULTS) == Shown(x, want)
  {
    hide LineText, ReadLine, Shown, LoadFrom, Names, Distinct, Lines, Readable, Roomy;
    var b := pre + ([First(x)] + post);
    assert forall i :: 0 <= i < |pre| ==> b[i] == pre[i];
    assert b[|pre|] == First(x) && forall i :: 0 <= i < |post| ==> b[|pre| + 1 + i] == post[i];
    LinesConcat([First(x)], post);
    LinesConcat(pre, [First(x)] + post);
    assert Lines([First(x)]) == [LineText(First(x))];
    Apart(pre, x, post);
    LoadConcat(Lines(pre), Lines([First(x)]) + Lines(post), x.name, want, DEFAULTS);
    LoadSkips(pre, x.name, want, DEFAULTS);
    LoadConcat(Lines([First(x)]), Lines(post), x.name, want, DEFAULTS);
    FirstShows(x, want);
    LoadOne(LineText(First(x)), x.name, want);
    LoadSkips(post, x.name, want, Shown(x, want));
  }

  lemma LoadOne(line: string, name: string, want: bool)
    ensures LoadFrom([line], name, want, DEFAULTS) == ReadLine(line, name, want, DEFAULTS)
  {
    hide ReadLine;
    assert [line][1..] == [];
  }

  lemma {:induction false} Apart(pre: Book, x: Save, post: Book)
    requires Distinct(pre + ([First(x)] + post))
    ensures x.name !in Names(pre) && x.name !in Names(post)
  {
    var b := pre + ([First(x)] + post);
    if pre == [] {
      assert b == [First(x)] + post && b[1..] == post;
      assert x.name in NameOf(b[0]);
    } else {
      assert b[1..] == pre[1..] + ([First(x)] + post);
      Apart(pre[1..], x, post);
      NamesConcat(pre[1..], [First(x)] + post);
      NamesCons(First(x), post);
      assert x.name in Names(b[1..]);
    }
  }

  /** In every run of saves, into a file that was empty at first: as long as the names saved since, and the pieces
      that their records have left, are within the limit, a load gives what the buffer shows of the record that was
      last saved for the name; and that is all that is wanted if and only if there is enough of it. */
  lemma RecentIsRecalled(run: seq<Save>, k: nat, max: nat, want: bool)
    requires AllRoomy(run) && LastSavedAt(run, k) && Written(run[k].entry) && CountSince(run, k) <= Limit(max)
    ensures var r := LoadFrom(Chunks(FileAfter(run, max)), run[k].name, want, DEFAULTS);
            && r == Shown(run[k], want)
            && (r == Recalled(run[k].entry, want) <==> Enough(run[k].entry, BUF_SIZE - 2 - |run[k].name|, want))
            && (Enough(run[k].entry, BUF_SIZE - 2 - |run[k].name|, want) ==> Restores(r, run[k].entry, want))
  {
    hide BookAfter, FileAfter, LoadFrom, Lines, Written, Chunks, ReadFields, StrSplit, Seen, Enough, CountSince,
      Recalled;
    var pre, post := Stands(run, k, max);
    Refines(run, max);
    BookDistinct(run, max);
    assert Roomy(run[k]);
    LoadFinds(pre, run[k], post, want);
    SeenIsEnough(run[k].name, run[k].entry, want);
  }

  /** And if there is more since, each save with a record, the entry is gone. */
  lemma OldIsDropped(run: seq<Save>, k: nat, max: nat, want: bool)
    requires AllRoomy(run) && LastSavedAt(run, k) && Written(run[k].entry) && CountSince(run, k) > Limit(max)
    requires forall i :: k < i < |run| ==> Written(run[i].entry)
    ensures LoadFrom(Chunks(FileAfter(run, max)), run[k].name, want, DEFAULTS) == DEFAULTS
  {
    hide Readable, BookAfter, FileAfter, LoadFrom, Lines, Written, Roomy, Chunks, CountSince;
    Gone(run, k, max);
    Refines(run, max);
    LoadSkips(BookAfter(run, max), run[k].name, want, DEFAULTS);
  }

  lemma {:induction false} Gone(run: seq<Save>, k: nat, max: nat)
    requires AllRoomy(run) && LastSavedAt(run, k) && Written(run[k].entry) && CountSince(run, k) > Limit(max)
    requires forall i :: k < i < |run| ==> Written(run[i].entry)
    ensures run[k].name !in Names(BookAfter(run, max))
    decreases |run|
  {
    hide Without, Written, Names, BookAfter, Roomy, More, RestCount;
    var before, last := run[..|run| - 1], run[|run| - 1];
    var b := BookAfter(before, max);
    assert Roomy(last);
    Unfold(run, max);
    NothingSince(run);
    SinceSnoc(run, k);
    if CountSince(before, k) > Limit(max) {
      Gone(before, k, max);
      AddedNames(b, last, max);
    } else {
      var pre, post := Stands(before, k, max);
      BookDistinct(before, max);
      Full(pre, run[k], post, last, max);
    }
  }

  lemma AddedNames(b: Book, s: Save, max: nat)
    requires Roomy(s)
    ensures Names(Add(b, s, max)) <= Names(b) + {s.name}
  {
    hide Without, Names, NewLines, Roomy;
    var rest := Without(b, s.name);
    var n := Least(|rest|, Limit(max));
    WithoutNames(b, s.name);
    assert rest == rest[..n] + rest[n..];
    NamesConcat(rest[..n], rest[n..]);
    NamesConcat(NewLines(s), rest[..n]);
    NamesOfNew(s);
  }

  /** With as many other lines before the entry as the limit allows, a new name pushes it out. */
  lemma Full(pre: Book, x: Save, post: Book, s: Save, max: nat)
    requires Roomy(s) && Distinct(pre + ([First(x)] + post)) && s.name != x.name
    requires |Names(pre) + {s.name}| + RestCount(pre) > Limit(max)
    ensures x.name !in Names(Add(pre + ([First(x)] + post), s, max))
  {
    hide Without, Written, Names, Distinct, RestCount, NewLines, Roomy;
    var a := Without(pre, s.name);
    WithoutAround(pre, x, post, s.name);
    WithoutNames(pre, s.name);
    DistinctPrefix(pre, [First(x)] + post);
    LinesCount(a);
    SubsetCount(Names(pre), s.name);
    assert |a| >= Limit(max);
    var n := Limit(max);
    var rest := a + ([First(x)] + Without(post, s.name));
    assert rest[..Least(|rest|, n)] == a[..n];
    assert a == a[..n] + a[n..];
    NamesConcat(a[..n], a[n..]);
    Apart(pre, x, post);
    NamesConcat(NewLines(s), a[..n]);
    NamesOfNew(s);
  }

  lemma {:induction false} NoExtras(run: seq<Save>)
    requires AllRoomy(run) && forall i :: 0 <= i < |run| ==> Fits(run[i].name, run[i].entry)
    ensures Extras(run) == 0
  {
    hide Chunks, Joined, Fields, Seen, Record;
    if run == [] {
    } else {
      RecordInPieces(run[0].name, run[0].entry);
      NoExtras(run[1..]);
    }
  }

  /** If all records since have room, only the names count. */
  lemma NamesAlone(run: seq<Save>, k: nat)
    requires k < |run| && AllRoomy(run) && forall i :: k < i < |run| ==> Fits(run[i].name, run[i].entry)
    ensures CountSince(run, k) == |Since(run, k)|
  {
    hide Roomy, Record;
    if k < |run| - 1 {
      NoExtras(run[k + 1..|run| - 1]);
    }
  }
}
