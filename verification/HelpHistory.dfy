/** The history of the help viewer (src/help.c): a ring of twenty places that stands for a stack. */
module HelpHistory {
  import opened Wrappers

  const HISTORY_SIZE := 20

  /** A position in the help text, and the selected link, which may be NULL. */
  datatype Place = Place(page: int, link: Option<int>)

  /** What a command does besides moving about: the target of a link, and where a node was found, come
      from the help text. Move stands for every command that only scrolls or selects. */
  datatype Command =
    | SelectLink(target: int)
    | Click(link: int, target: int)
    | Help(node: Option<int>)
    | Index(node: Option<int>)
    | Back
    | Move(to: Place)

  // ----- the viewer as a value -----

  datatype Viewer = Viewer(place: Place, history: seq<Place>, ptr: nat)

  ghost predicate Proper(v: Viewer) {
    |v.history| == HISTORY_SIZE && v.ptr < HISTORY_SIZE
  }

  /** Stores a place and goes to a page. */
  function Push(v: Viewer, from: Place, to: Place): (r: Viewer)
    requires Proper(v)
    ensures Proper(r)
  {
    var ptr := (v.ptr + 1) % HISTORY_SIZE;
    Viewer(to, v.history[ptr := from], ptr)
  }

  function Step(v: Viewer, c: Command): (r: Viewer)
    requires Proper(v)
    ensures Proper(r)
  {
    match c
    case SelectLink(target) =>
      if v.place.link == None then v else Push(v, v.place, Place(target, None))
    case Click(link, target) => Push(v, Place(v.place.page, Some(link)), Place(target, None))
    case Help(node) => Push(v, v.place, if node.Some? then Place(node.value + 1, None) else v.place)
    case Index(node) => if node.Some? then Push(v, v.place, Place(node.value + 1, None)) else v
    case Back => Viewer(v.history[v.ptr], v.history, if v.ptr == 0 then HISTORY_SIZE - 1 else v.ptr - 1)
    case Move(to) => v.(place := to)
  }

  function Start(p: Place): (v: Viewer)
    ensures Proper(v)
  {
    Viewer(p, seq(HISTORY_SIZE, _ => p), 0)
  }

  function After(p: Place, run: seq<Command>): (v: Viewer)
    ensures Proper(v)
  {
    if run == [] then Start(p) else Step(After(p, run[..|run| - 1]), run[|run| - 1])
  }

  // ----- the program -----

  class HelpViewer {
    const history: array<Place>
    var historyPtr: int
    var currentpoint: int
    var selectedItem: Option<int>

    ghost predicate Valid()
      reads this
    {
      history.Length == HISTORY_SIZE && 0 <= historyPtr < HISTORY_SIZE
    }

    ghost function Value(): Viewer
      requires Valid()
      reads this, history
    {
      Viewer(Place(currentpoint, selectedItem), history[..], historyPtr)
    }

    /** The loop of help_interactive_display: every slot gets the first place. */
    constructor (page: int, link: Option<int>)
      ensures Valid() && fresh(history) && Value() == Start(Place(page, link))
    {
      history := new Place[HISTORY_SIZE](_ => Place(page, link));
      currentpoint, selectedItem := page, link;
      historyPtr := HISTORY_SIZE;
      new;
      while historyPtr > 0
        invariant 0 <= historyPtr <= HISTORY_SIZE && currentpoint == page && selectedItem == link
        invariant forall i :: 0 <= i < HISTORY_SIZE ==> history[i] == Place(page, link)
      {
        historyPtr := historyPtr - 1;
        history[historyPtr] := Place(currentpoint, selectedItem);
      }
      assert history[..] == seq(HISTORY_SIZE, _ => Place(page, link));
    }

    method HelpHelp(node: Option<int>)
      requires Valid()
      modifies this, history
      ensures Valid() && Value() == Step(old(Value()), Help(node))
    {
      historyPtr := (historyPtr + 1) % HISTORY_SIZE;
      history[historyPtr] := Place(currentpoint, selectedItem);
      if node.Some? {
        currentpoint := node.value + 1;
        selectedItem := None;
      }
    }

    method HelpIndex(node: Option<int>)
      requires Valid()
      modifies this, history
      ensures Valid() && Value() == Step(old(Value()), Index(node))
    {
      if node.Some? {
        historyPtr := (historyPtr + 1) % HISTORY_SIZE;
        history[historyPtr] := Place(currentpoint, selectedItem);
        currentpoint := node.value + 1;
        selectedItem := None;
      }
    }

    method HelpBack()
      requires Valid()
      modifies this
      ensures Valid() && Value() == Step(old(Value()), Back)
    {
      currentpoint := history[historyPtr].page;
      selectedItem := history[historyPtr].link;
      historyPtr := historyPtr - 1;
      if historyPtr < 0 {
        historyPtr := HISTORY_SIZE - 1;
      }
    }

    /** target is where help_follow_link leads. */
    method HelpSelectLink(target: int)
      requires Valid()
      modifies this, history
      ensures Valid() && Value() == Step(old(Value()), SelectLink(target))
    {
      if selectedItem.Some? {
        historyPtr := (historyPtr + 1) % HISTORY_SIZE;
        history[historyPtr] := Place(currentpoint, selectedItem);
        currentpoint := target;
      }
      selectedItem := None;
    }

    /** A mouse click on a link, whether it is the selected one or not. */
    method ClickLink(link: int, target: int)
      requires Valid()
      modifies this, history
      ensures Valid() && Value() == Step(old(Value()), Click(link, target))
    {
      historyPtr := (historyPtr + 1) % HISTORY_SIZE;
      history[historyPtr] := Place(currentpoint, Some(link));
      currentpoint := target;
      selectedItem := None;
    }
  }

  // ----- the stack -----

  /** The same with a stack that has no bound. lost counts the entries at the bottom that a ring of
      HISTORY_SIZE no longer has: a push beyond that size takes one more away, and an entry that is
      popped is not counted any more. */
  datatype Ideal = Ideal(place: Place, stack: seq<Place>, lost: nat)

  function PushIdeal(s: Ideal, from: Place, to: Place): Ideal {
    var depth := |s.stack| + 1;
    Ideal(to, s.stack + [from], if depth > s.lost + HISTORY_SIZE then depth - HISTORY_SIZE else s.lost)
  }

  /** Back on an empty stack is not asked for. */
  function StepIdeal(s: Ideal, c: Command): Ideal
    requires c.Back? ==> s.stack != []
  {
    match c
    case SelectLink(target) =>
      if s.place.link == None then s else PushIdeal(s, s.place, Place(target, None))
    case Click(link, target) => PushIdeal(s, Place(s.place.page, Some(link)), Place(target, None))
    case Help(node) => PushIdeal(s, s.place, if node.Some? then Place(node.value + 1, None) else s.place)
    case Index(node) => if node.Some? then PushIdeal(s, s.place, Place(node.value + 1, None)) else s
    case Back =>
      var top := |s.stack| - 1;
      Ideal(s.stack[top], s.stack[..top], if s.lost > top then top else s.lost)
    case Move(to) => s.(place := to)
  }

  /** No Back without a place to go back to. */
  predicate Nested(p: Place, run: seq<Command>)
    decreases |run|, 0
  {
    run == [] ||
    (Nested(p, run[..|run| - 1])
     && (run[|run| - 1].Back? ==> IdealAfter(p, run[..|run| - 1]).stack != []))
  }

  function IdealAfter(p: Place, run: seq<Command>): Ideal
    requires Nested(p, run)
    decreases |run|, 1
  {
    if run == [] then Ideal(p, [], 0) else StepIdeal(IdealAfter(p, run[..|run| - 1]), run[|run| - 1])
  }

  /** Each Back of the run asks for an entry that has not been lost. */
  predicate Reaches(p: Place, run: seq<Command>)
    requires Nested(p, run)
  {
    run == [] ||
    (Reaches(p, run[..|run| - 1])
     && var s := IdealAfter(p, run[..|run| - 1]); (run[|run| - 1].Back? ==> |s.stack| > s.lost))
  }

  /** The slot that is k places before the pointer. */
  function Slot(ptr: nat, k: nat): (i: nat)
    requires ptr < HISTORY_SIZE && k < HISTORY_SIZE
    ensures i < HISTORY_SIZE
  {
    if k <= ptr then ptr - k else ptr + HISTORY_SIZE - k
  }

  /** The ring has the entries of the stack that are not lost. */
  ghost predicate Agree(v: Viewer, s: Ideal) {
    && Proper(v) && v.place == s.place
    && s.lost <= |s.stack| <= s.lost + HISTORY_SIZE
    && forall k :: 0 <= k < |s.stack| - s.lost ==> v.history[Slot(v.ptr, k)] == s.stack[|s.stack| - 1 - k]
  }

  lemma PushAgrees(v: Viewer, s: Ideal, from: Place, to: Place)
    requires Agree(v, s)
    ensures Agree(Push(v, from, to), PushIdeal(s, from, to))
  {
    var w, t := Push(v, from, to), PushIdeal(s, from, to);
    assert w.ptr == if v.ptr + 1 < HISTORY_SIZE then v.ptr + 1 else 0;
    forall k | 0 <= k < |t.stack| - t.lost
      ensures w.history[Slot(w.ptr, k)] == t.stack[|t.stack| - 1 - k]
    {
      if k > 0 { assert Slot(w.ptr, k) == Slot(v.ptr, k - 1); }
    }
  }

  lemma BackAgrees(v: Viewer, s: Ideal)
    requires Agree(v, s) && |s.stack| > s.lost
    ensures Agree(Step(v, Back), StepIdeal(s, Back))
  {
    var w, t := Step(v, Back), StepIdeal(s, Back);
    assert Slot(v.ptr, 0) == v.ptr;
    forall k | 0 <= k < |t.stack| - t.lost
      ensures w.history[Slot(w.ptr, k)] == t.stack[|t.stack| - 1 - k]
    {
      assert Slot(w.ptr, k) == Slot(v.ptr, k + 1);
    }
  }

  lemma StepAgrees(v: Viewer, s: Ideal, c: Command)
    requires Agree(v, s) && (c.Back? ==> |s.stack| > s.lost)
    ensures Agree(Step(v, c), StepIdeal(s, c))
  {
    hide Agree, Push, PushIdeal;
    assert v.place == s.place by { SamePlace(v, s); }
    match c
    case SelectLink(target) => PushAgrees(v, s, v.place, Place(target, None));
    case Click(link, target) => PushAgrees(v, s, Place(v.place.page, Some(link)), Place(target, None));
    case Help(node) => PushAgrees(v, s, v.place, if node.Some? then Place(node.value + 1, None) else v.place);
    case Index(node) => if node.Some? { PushAgrees(v, s, v.place, Place(node.value + 1, None)); }
    case Back => BackAgrees(v, s);
    case Move(to) => MoveAgrees(v, s, to);
  }

  lemma SamePlace(v: Viewer, s: Ideal)
    requires Agree(v, s)
    ensures v.place == s.place
  {
  }

  lemma MoveAgrees(v: Viewer, s: Ideal, to: Place)
    requires Agree(v, s)
    ensures Agree(v.(place := to), s.(place := to))
  {
  }

  /** In every run whose Backs ask for entries that are not lost, the ring does what the stack does: each
      Back restores the page and the link of its matching follow. */
  lemma {:induction false} RingIsStack(p: Place, run: seq<Command>)
    requires Nested(p, run) && Reaches(p, run)
    ensures Agree(After(p, run), IdealAfter(p, run))
    decreases |run|
  {
    hide Agree, Step, StepIdeal;
    if run == [] {
      StartAgrees(p);
    } else {
      RingIsStack(p, run[..|run| - 1]);
      StepAgrees(After(p, run[..|run| - 1]), IdealAfter(p, run[..|run| - 1]), run[|run| - 1]);
    }
  }

  lemma StartAgrees(p: Place)
    ensures Agree(Start(p), Ideal(p, [], 0))
  {
  }

  /** The stack never has more than twenty entries. */
  predicate Shallow(p: Place, run: seq<Command>)
    requires Nested(p, run)
  {
    |IdealAfter(p, run).stack| <= 20 && (run == [] || Shallow(p, run[..|run| - 1]))
  }

  lemma {:induction false} ShallowLosesNothing(p: Place, run: seq<Command>)
    requires Nested(p, run) && Shallow(p, run)
    ensures IdealAfter(p, run).lost == 0 && Reaches(p, run)
    decreases |run|
  {
    if run == [] {
    } else {
      ShallowLosesNothing(p, run[..|run| - 1]);
    }
  }

  /** So all nested runs of depth twenty or less behave as with an unbounded stack. */
  lemma TwentyAreKept(p: Place, run: seq<Command>)
    requires Nested(p, run) && Shallow(p, run)
    ensures After(p, run).place == IdealAfter(p, run).place
  {
    hide After, IdealAfter, Shallow, Reaches, Nested;
    ShallowLosesNothing(p, run);
    RingIsStack(p, run);
    SamePlace(After(p, run), IdealAfter(p, run));
  }

  // ----- nothing to go back to -----

  /** The command stores no place. */
  predicate StoresNothing(v: Viewer, c: Command) {
    match c
    case SelectLink(_) => v.place.link == None
    case Click(_, _) => false
    case Help(_) => false
    case Index(node) => node == None
    case Back => true
    case Move(_) => true
  }

  /** In a viewer that has followed nothing every Back shows the place where the viewer began. */
  lemma {:induction false} FollowedNothing(p: Place, run: seq<Command>)
    requires forall i :: 0 <= i < |run| ==> StoresNothing(After(p, run[..i]), run[i])
    ensures forall i :: 0 <= i < HISTORY_SIZE ==> After(p, run).history[i] == p
    ensures run != [] && run[|run| - 1].Back? ==> After(p, run).place == p
    decreases |run|
  {
    if run == [] {
    } else {
      var before := run[..|run| - 1];
      assert forall i :: 0 <= i < |before| ==> run[..i] == before[..i];
      FollowedNothing(p, before);
    }
  }

  /** The stack never has more than m entries. */
  predicate NoDeeper(p: Place, run: seq<Command>, m: nat)
    requires Nested(p, run)
  {
    |IdealAfter(p, run).stack| <= m && (run == [] || NoDeeper(p, run[..|run| - 1], m))
  }

  /** The slots that no entry of a stack of m has used; slot 0 is the twentieth. */
  ghost predicate Unused(v: Viewer, s: Ideal, p: Place, m: nat) {
    && Proper(v) && s.lost == 0 && |s.stack| <= m && v.ptr == |s.stack|
    && v.history[0] == p && forall i :: m < i < HISTORY_SIZE ==> v.history[i] == p
  }

  lemma UnusedStep(v: Viewer, s: Ideal, p: Place, m: nat, c: Command)
    requires Unused(v, s, p, m) && v.place == s.place && m < HISTORY_SIZE
    requires (c.Back? ==> s.stack != []) && |StepIdeal(s, c).stack| <= m
    ensures Unused(Step(v, c), StepIdeal(s, c), p, m)
  {
  }

  lemma {:induction false} DeepSlotsUnused(p: Place, run: seq<Command>, m: nat)
    requires Nested(p, run) && m < HISTORY_SIZE && NoDeeper(p, run, m)
    ensures Unused(After(p, run), IdealAfter(p, run), p, m)
    ensures After(p, run).place == IdealAfter(p, run).place
    decreases |run|
  {
    hide Unused, Step, StepIdeal;
    NoDeeperIsShallow(p, run, m);
    TwentyAreKept(p, run);
    if run == [] {
      StartUnused(p, m);
    } else {
      var before := run[..|run| - 1];
      DeepSlotsUnused(p, before, m);
      UnusedStep(After(p, before), IdealAfter(p, before), p, m, run[|run| - 1]);
    }
  }

  lemma StartUnused(p: Place, m: nat)
    ensures Unused(Start(p), Ideal(p, [], 0), p, m)
  {
  }

  lemma {:induction false} NoDeeperIsShallow(p: Place, run: seq<Command>, m: nat)
    requires Nested(p, run) && m <= HISTORY_SIZE && NoDeeper(p, run, m)
    ensures Shallow(p, run)
    decreases |run|
  {
    if run == [] {
    } else {
      NoDeeperIsShallow(p, run[..|run| - 1], m);
    }
  }

  /** When everything has been gone back from, and the stack never had more than m entries, 20 - m more Backs
      show the place where the viewer began. */
  lemma BackFromTheFirst(p: Place, run: seq<Command>, m: nat, n: nat)
    requires Nested(p, run) && NoDeeper(p, run, m) && IdealAfter(p, run).stack == []
    requires 1 <= n <= 20 - m
    ensures Backs(After(p, run), n).place == p
  {
    hide After, IdealAfter, Nested, NoDeeper, Slot;
    if m < HISTORY_SIZE {
      DeepSlotsUnused(p, run, m);
      var v := After(p, run);
      BacksPointer(v, n - 1);
      assert Backs(v, n).place == v.history[Slot(0, n - 1)];
      SlotBelowZero(n - 1);
    }
  }

  lemma SlotBelowZero(k: nat)
    requires k < HISTORY_SIZE
    ensures Slot(0, k) == if k == 0 then 0 else HISTORY_SIZE - k
  {
  }

  // ----- beyond twenty -----

  function Backs(v: Viewer, n: nat): (r: Viewer)
    requires Proper(v)
    ensures Proper(r) && r.history == v.history
  {
    if n == 0 then v else Step(Backs(v, n - 1), Back)
  }

  /** One more step back, round the ring. */
  lemma OneMoreBack(ptr: nat, n: nat)
    requires ptr < HISTORY_SIZE
    ensures Slot(ptr, 0) == ptr
    ensures var at := Slot(ptr, n % HISTORY_SIZE);
            Slot(ptr, (n + 1) % HISTORY_SIZE) == if at == 0 then HISTORY_SIZE - 1 else at - 1
  {
    var k := n % HISTORY_SIZE;
    assert (n + 1) % HISTORY_SIZE == if k == HISTORY_SIZE - 1 then 0 else k + 1;
  }

  lemma {:induction false} BacksPointer(v: Viewer, n: nat)
    requires Proper(v)
    ensures Backs(v, n).ptr == Slot(v.ptr, n % HISTORY_SIZE)
  {
    hide Slot;
    if n == 0 {
      OneMoreBack(v.ptr, 0);
    } else {
      BacksPointer(v, n - 1);
      OneMoreBack(v.ptr, n - 1);
    }
  }

  /** Backs in a row from a ring that is full go round its twenty entries: the n-th one restores the entry
      that is (n - 1) % 20 below the top. So the first twenty are right, and a later one is right if and only
      if that entry happens to be the one that is n deep. */
  lemma NthBack(v: Viewer, s: Ideal, n: nat)
    requires Agree(v, s) && |s.stack| == s.lost + 20 && n >= 1
    ensures var top := |s.stack| - 1;
            var restored := s.stack[top - (n - 1) % 20];
            && Backs(v, n).place == restored
            && (n <= |s.stack| ==>
                  (Backs(v, n).place == s.stack[|s.stack| - n] <==>
                     n <= 20 || restored == s.stack[|s.stack| - n]))
  {
    hide Slot;
    var k := (n - 1) % HISTORY_SIZE;
    BacksPointer(v, n - 1);
    assert Backs(v, n).place == v.history[Slot(v.ptr, k)];
    assert n <= HISTORY_SIZE ==> k == n - 1;
  }
}
