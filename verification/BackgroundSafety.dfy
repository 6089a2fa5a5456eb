/** What holds in every run of the background protocol: calls and results arrive as they were sent,
    nothing is left in the pipes between calls, and the two sides never wait for each other. */
module BackgroundSafety {
  import opened Wrappers
  import opened BackgroundProtocol

  // ----- the part of a message that is still to be read -----

  /** What the parent holds agrees with the call. */
  ghost predicate ParentHas(p: Parent, c: Call) {
    match p
    case Idle => true
    case NeedArgc(r) => r == c.routine
    case NeedType(r, argc) => r == c.routine && argc == |c.args|
    case NeedHave(r, argc, ty) => r == c.routine && argc == |c.args| && ty == c.ty
    case NeedCtx(r, argc, ty) => r == c.routine && argc == |c.args| && ty == c.ty && c.ctx.Some?
    case NeedSize(r, argc, ty, ctx, args) =>
      r == c.routine && argc == |c.args| && ty == c.ty && ctx == c.ctx && args < c.args
    case NeedBlock(r, argc, ty, ctx, args, size) =>
      r == c.routine && argc == |c.args| && ty == c.ty && ctx == c.ctx && args < c.args && size == |c.args[|args|]|
    case Ready(d) => d == c
    case Replying(_) => false
  }

  ghost function ParentUnread(p: Parent, c: Call, ctxSize: nat): Bytes
    requires ValidCall(c, ctxSize) && ParentHas(p, c)
  {
    match p
    case Idle => Request(c, ctxSize)
    case NeedArgc(_) =>
      EncodeInt(|c.args|) + (EncodeInt(c.ty) + (EncodeInt(HaveCtx(c.ctx)) + (OptBytes(c.ctx) + ArgsBytes(c.args))))
    case NeedType(_, _) => EncodeInt(c.ty) + (EncodeInt(HaveCtx(c.ctx)) + (OptBytes(c.ctx) + ArgsBytes(c.args)))
    case NeedHave(_, _, _) => EncodeInt(HaveCtx(c.ctx)) + (OptBytes(c.ctx) + ArgsBytes(c.args))
    case NeedCtx(_, _, _) => c.ctx.value + ArgsBytes(c.args)
    case NeedSize(_, _, _, _, args) => ArgsBytes(c.args[|args|..])
    case NeedBlock(_, _, _, _, args, _) => c.args[|args|] + ArgsBytes(c.args[|args| + 1..])
    case Ready(_) => []
  }

  /** What the child holds agrees with the reply. */
  ghost predicate ChildHas(ch: Child, c: Call, r: Reply) {
    match ch
    case AwaitFirst => true
    case AwaitCtx(n) => r.IntReply? && r.ctx.Some? && n == r.result && c.ty == RETURN_INTEGER
    case AwaitText(n) => r.StringReply? && r.text.Some? && n == |r.text.value| > 0
    case _ => false
  }

  ghost function ChildUnread(ch: Child, c: Call, r: Reply, ctxSize: nat): Bytes
    requires ValidReply(c, r, ctxSize) && ChildHas(ch, c, r)
  {
    match ch
    case AwaitFirst => Response(c, r, ctxSize)
    case AwaitCtx(_) => r.ctx.value
    case AwaitText(_) => r.text.value
  }

  // ----- the invariant -----

  ghost predicate Histories(s: State) {
    && |s.returned| <= |s.invoked| <= |s.issued| <= |s.returned| + 1
    && (forall k :: 0 <= k < |s.issued| ==> ValidCall(s.issued[k], s.ctxSize))
    && (forall k :: 0 <= k < |s.invoked| ==>
          s.invoked[k].0 == s.issued[k] && ValidReply(s.issued[k], s.invoked[k].1, s.ctxSize))
    && (forall k :: 0 <= k < |s.returned| ==> s.returned[k] == Outcome(s.invoked[k].1))
  }

  /** The bytes that a process has still to write. */
  function ChildToWrite(c: Child): Bytes { if c.Sending? then c.rest else [] }
  function ParentToWrite(p: Parent): Bytes { if p.Replying? then p.rest else [] }

  /** A call is on its way to the parent. */
  ghost predicate Requesting(s: State) {
    && |s.issued| == |s.returned| + 1 && |s.invoked| == |s.returned|
    && (s.child.AwaitFirst? || (s.child.Sending? && s.child.rest != []))
    && s.toChild == []
    && var c := s.issued[|s.issued| - 1];
       ValidCall(c, s.ctxSize) && ParentHas(s.parent, c)
       && s.toParent + ChildToWrite(s.child) == ParentUnread(s.parent, c, s.ctxSize)
  }

  /** The routine was called, and its answer is on its way to the child. */
  ghost predicate Answering(s: State) {
    && |s.issued| == |s.returned| + 1 && |s.invoked| == |s.issued|
    && s.toParent == []
    && (s.parent.Idle? || (s.parent.Replying? && s.parent.rest != []))
    && var c := s.issued[|s.issued| - 1];
       var r := s.invoked[|s.invoked| - 1].1;
       ValidReply(c, r, s.ctxSize) && ChildHas(s.child, c, r)
       && s.toChild + ParentToWrite(s.parent) == ChildUnread(s.child, c, r, s.ctxSize)
  }

  ghost predicate Quiet(s: State) {
    && |s.issued| == |s.returned| && s.child.Resting? && s.parent.Idle?
    && s.toParent == [] && s.toChild == []
  }

  ghost predicate Inv(s: State) {
    Histories(s) && (Quiet(s) || Requesting(s) || Answering(s))
  }

  // ----- every step keeps it -----

  lemma Cut(x: Bytes, y: Bytes, n: nat)
    requires n <= |x|
    ensures (x + y)[..n] == x[..n] && (x + y)[n..] == x[n..] + y
  {
  }

  lemma Head(x: Bytes, y: Bytes)
    ensures (x + y)[..|x|] == x && (x + y)[|x|..] == y
  {
  }

  lemma BeginKeeps(s: State, call: Call)
    requires Inv(s) && Step(s, Begin(call)).Some?
    ensures Inv(Step(s, Begin(call)).value)
  {
    var t := Step(s, Begin(call)).value;
    assert t.toParent + ChildToWrite(t.child) == Request(call, s.ctxSize);
    assert |Request(call, s.ctxSize)| >= 8;
  }

  lemma ChildWriteKeeps(s: State, n: nat)
    requires Inv(s) && Step(s, ChildWrite(n)).Some?
    ensures Inv(Step(s, ChildWrite(n)).value)
  {
    var t := Step(s, ChildWrite(n)).value;
    var rest := s.child.rest;
    assert rest == rest[..n] + rest[n..];
    assert s.toParent + rest == (s.toParent + rest[..n]) + rest[n..];
    assert n == |rest| ==> rest[n..] == [];
  }

  lemma ParentWriteKeeps(s: State, n: nat)
    requires Inv(s) && Step(s, ParentWrite(n)).Some?
    ensures Inv(Step(s, ParentWrite(n)).value)
  {
    var t := Step(s, ParentWrite(n)).value;
    var rest := s.parent.rest;
    assert rest == rest[..n] + rest[n..];
    assert s.toChild + rest == (s.toChild + rest[..n]) + rest[n..];
    assert n == |rest| ==> rest[n..] == [];
  }

  /** A call that is complete was read from an empty pipe. */
  lemma ReadyIsRead(s: State)
    requires Inv(s) && s.parent.Ready?
    ensures Requesting(s) && s.toParent == [] && s.child.AwaitFirst? && s.parent.call == s.issued[|s.issued| - 1]
  {
    hide EncodeInt, DecodeInt, ArgsBytes, Request, Histories;
    assert s.toParent + ChildToWrite(s.child) == [];
  }

  lemma InvokeKeeps(s: State, reply: Reply)
    requires Inv(s) && Step(s, Invoke(reply)).Some?
    ensures Inv(Step(s, Invoke(reply)).value)
  {
    hide EncodeInt, DecodeInt, ArgsBytes, Request, Response, ParentTakes, ChildTakes, ParentUnread, ParentHas,
      ValidCall, ValidReply;
    var t := Step(s, Invoke(reply)).value;
    ReadyIsRead(s);
    ResponseNotEmpty(s.parent.call, reply, s.ctxSize);
    assert t.toChild + ParentToWrite(t.parent) == Response(s.parent.call, reply, s.ctxSize);
  }

  lemma ResponseNotEmpty(c: Call, r: Reply, ctxSize: nat)
    requires ValidReply(c, r, ctxSize)
    ensures Response(c, r, ctxSize) != []
  {
    hide EncodeInt;
  }

  /** The parent's read takes the next piece of the request. */
  lemma ParentTakesNext(p: Parent, c: Call, ctxSize: nat, b: Bytes)
    requires ValidCall(c, ctxSize) && ParentHas(p, c) && ParentReads(p)
    requires 0 <= ParentWants(p, ctxSize) <= |ParentUnread(p, c, ctxSize)|
    requires b == ParentUnread(p, c, ctxSize)[..ParentWants(p, ctxSize)]
    ensures ParentHas(ParentTakes(p, b), c)
    ensures ParentUnread(ParentTakes(p, b), c, ctxSize) == ParentUnread(p, c, ctxSize)[ParentWants(p, ctxSize)..]
  {
    match p
    case Idle =>
      Head(c.routine, ParentUnread(NeedArgc(c.routine), c, ctxSize));
    case NeedArgc(r) =>
      IntRoundTrip(|c.args|);
      Head(EncodeInt(|c.args|), ParentUnread(NeedType(r, |c.args|), c, ctxSize));
    case NeedType(r, argc) =>
      IntRoundTrip(c.ty);
      Head(EncodeInt(c.ty), ParentUnread(NeedHave(r, argc, c.ty), c, ctxSize));
    case NeedHave(r, argc, ty) =>
      IntRoundTrip(HaveCtx(c.ctx));
      Head(EncodeInt(HaveCtx(c.ctx)), OptBytes(c.ctx) + ArgsBytes(c.args));
      assert [] + ArgsBytes(c.args) == ArgsBytes(c.args);
      ArgumentsFrom(c, ctxSize, []);
    case NeedCtx(r, argc, ty) =>
      Head(c.ctx.value, ArgsBytes(c.args));
      ArgumentsFrom(c, ctxSize, []);
    case _ => ParentTakesArgument(p, c, ctxSize, b);
  }

  lemma ParentTakesArgument(p: Parent, c: Call, ctxSize: nat, b: Bytes)
    requires ValidCall(c, ctxSize) && ParentHas(p, c) && (p.NeedSize? || p.NeedBlock?)
    requires 0 <= ParentWants(p, ctxSize) <= |ParentUnread(p, c, ctxSize)|
    requires b == ParentUnread(p, c, ctxSize)[..ParentWants(p, ctxSize)]
    ensures ParentHas(ParentTakes(p, b), c)
    ensures ParentUnread(ParentTakes(p, b), c, ctxSize) == ParentUnread(p, c, ctxSize)[ParentWants(p, ctxSize)..]
  {
    hide Request, EncodeInt, DecodeInt;
    match p
    case NeedSize(r, argc, ty, ctx, args) =>
      var x := c.args[|args|];
      assert c.args[|args|..][0] == x && c.args[|args|..][1..] == c.args[|args| + 1..];
      IntRoundTrip(|x|);
      Head(EncodeInt(|x|), x + ArgsBytes(c.args[|args| + 1..]));
    case NeedBlock(r, argc, ty, ctx, args, size) =>
      var x := c.args[|args|];
      Head(x, ArgsBytes(c.args[|args| + 1..]));
      assert args + [x] == c.args[..|args| + 1];
      ArgumentsFrom(c, ctxSize, args + [x]);
  }

  lemma ArgumentsFrom(c: Call, ctxSize: nat, args: seq<Bytes>)
    requires ValidCall(c, ctxSize) && args <= c.args
    ensures var p := NextArgument(c.routine, |c.args|, c.ty, c.ctx, args);
            ParentHas(p, c) && ParentUnread(p, c, ctxSize) == ArgsBytes(c.args[|args|..])
  {
    assert c.args[0..] == c.args;
    if |args| == |c.args| {
      assert args == c.args && c.args[|args|..] == [];
    }
  }

  lemma ParentReadKeeps(s: State)
    requires Inv(s) && Step(s, ParentRead).Some?
    ensures Inv(Step(s, ParentRead).value)
  {
    var t := Step(s, ParentRead).value;
    var n := ParentWants(s.parent, s.ctxSize);
    if Requesting(s) {
      var c := s.issued[|s.issued| - 1];
      Cut(s.toParent, ChildToWrite(s.child), n);
      ParentTakesNext(s.parent, c, s.ctxSize, s.toParent[..n]);
    }
  }

  /** The child's read takes the next piece of the answer, and the last one completes it. */
  lemma ChildTakesNext(ch: Child, c: Call, r: Reply, ctxSize: nat, b: Bytes)
    requires ValidCall(c, ctxSize) && ValidReply(c, r, ctxSize) && ChildHas(ch, c, r)
    requires ChildWants(ch, ctxSize) <= |ChildUnread(ch, c, r, ctxSize)|
    requires b == ChildUnread(ch, c, r, ctxSize)[..ChildWants(ch, ctxSize)]
    ensures var (ch', out) := ChildTakes(ch, c, b);
            var left := ChildUnread(ch, c, r, ctxSize)[ChildWants(ch, ctxSize)..];
            if out.Some? then ch' == Resting && left == [] && out.value == Outcome(r)
            else ChildHas(ch', c, r) && ChildUnread(ch', c, r, ctxSize) == left
  {
    match ch
    case AwaitFirst =>
      match r {
        case IntReply(n, ctx) =>
          IntRoundTrip(n);
          Head(EncodeInt(n), OptBytes(ctx));
        case StringReply(text) =>
          IntRoundTrip(|OptBytes(text)|);
          Head(EncodeInt(|OptBytes(text)|), OptBytes(text));
      }
    case AwaitCtx(n) =>
      assert r.ctx.value[..ctxSize] == r.ctx.value && r.ctx == Some(r.ctx.value);
    case AwaitText(n) =>
      assert r.text.value[..n] == r.text.value && r.text == Some(r.text.value);
  }

  lemma ChildReadKeeps(s: State)
    requires Inv(s) && Step(s, ChildRead).Some?
    ensures Inv(Step(s, ChildRead).value)
  {
    var t := Step(s, ChildRead).value;
    var n := ChildWants(s.child, s.ctxSize);
    if Answering(s) {
      var c := s.issued[|s.issued| - 1];
      var r := s.invoked[|s.invoked| - 1].1;
      Cut(s.toChild, ParentToWrite(s.parent), n);
      ChildTakesNext(s.child, c, r, s.ctxSize, s.toChild[..n]);
    }
  }

  lemma StepKeeps(s: State, a: Action)
    requires Inv(s) && Step(s, a).Some?
    ensures Inv(Step(s, a).value)
  {
    match a
    case Begin(call) => BeginKeeps(s, call);
    case ChildWrite(n) => ChildWriteKeeps(s, n);
    case ChildRead => ChildReadKeeps(s);
    case ParentRead => ParentReadKeeps(s);
    case Invoke(reply) => InvokeKeeps(s, reply);
    case ParentWrite(n) => ParentWriteKeeps(s, n);
  }

  lemma {:induction false} RunKeeps(ctxSize: nat, run: seq<Action>)
    ensures Inv(After(ctxSize, run))
  {
    if run == [] {
    } else {
      RunKeeps(ctxSize, run[..|run| - 1]);
      var s := After(ctxSize, run[..|run| - 1]);
      if Step(s, run[|run| - 1]).Some? { StepKeeps(s, run[|run| - 1]); }
    }
  }

  // ----- what it gives -----

  /** In every reachable state the parent has invoked the routines with just the blocks and the
      contexts that the child passed, in order; the child has got just their results (with an empty
      string turned into NULL); and between calls nothing is left in either pipe. */
  lemma CallsArriveAsSent(ctxSize: nat, run: seq<Action>)
    ensures var s := After(ctxSize, run);
            && |s.returned| <= |s.invoked| <= |s.issued| <= |s.returned| + 1
            && (forall k :: 0 <= k < |s.invoked| ==> s.invoked[k].0 == s.issued[k])
            && (forall k :: 0 <= k < |s.returned| ==> s.returned[k] == Outcome(s.invoked[k].1))
            && (s.child.Resting? ==>
                  |s.returned| == |s.issued| && s.toParent == [] && s.toChild == [] && s.parent.Idle?)
  {
    RunKeeps(ctxSize, run);
  }

  /** The step that a process can take when a call is on its way. */
  ghost function NextStep(s: State, reply: Reply): Action {
    if s.child.Sending? then ChildWrite(1)
    else if s.parent.Ready? then Invoke(reply)
    else if s.parent.Replying? then ParentWrite(1)
    else if s.toParent != [] || (s.parent.NeedBlock? || s.parent.NeedCtx?) then ParentRead
    else ChildRead
  }

  lemma RequestGoesOn(s: State, reply: Reply)
    requires Inv(s) && Requesting(s) && (s.parent.Ready? ==> ValidReply(s.parent.call, reply, s.ctxSize))
    ensures Step(s, NextStep(s, reply)).Some?
  {
    hide EncodeInt, DecodeInt, ArgsBytes, Request, Response, ParentUnread, ParentTakes, Histories;
    var c := s.issued[|s.issued| - 1];
    if !s.child.Sending? && !s.parent.Ready? {
      assert s.toParent + [] == s.toParent;
      ParentUnreadEnough(s.parent, c, s.ctxSize);
    }
  }

  lemma ParentUnreadEnough(p: Parent, c: Call, ctxSize: nat)
    requires ValidCall(c, ctxSize) && ParentHas(p, c) && !p.Ready?
    ensures 0 <= ParentWants(p, ctxSize) <= |ParentUnread(p, c, ctxSize)|
    ensures p.NeedBlock? || p.NeedCtx? || |ParentUnread(p, c, ctxSize)| > 0
  {
    match p
    case NeedSize(r, argc, ty, ctx, args) => assert c.args[|args|..] != [];
    case _ =>
  }

  /** While a call is on its way, a process that is not waiting for input can always go on: the two
      never both wait on empty pipes. */
  lemma NeverBothWait(ctxSize: nat, run: seq<Action>, reply: Reply)
    requires var s := After(ctxSize, run);
             !s.child.Resting? && (s.parent.Ready? ==> ValidReply(s.parent.call, reply, s.ctxSize))
    ensures var s := After(ctxSize, run); Step(s, NextStep(s, reply)).Some?
  {
    RunKeeps(ctxSize, run);
    var s := After(ctxSize, run);
    if Requesting(s) {
      RequestGoesOn(s, reply);
    } else if s.parent.Idle? {
      assert s.toChild + [] == s.toChild;
    }
  }

  /** Reads that the parent still has to do for call c. */
  ghost function ReadsLeft(p: Parent, c: Call): nat {
    var n := 2 * |c.args|;
    match p
    case Idle => 5 + n
    case NeedArgc(_) => 4 + n
    case NeedType(_, _) => 3 + n
    case NeedHave(_, _, _) => 2 + n
    case NeedCtx(_, _, _) => 1 + n
    case NeedSize(_, _, _, _, args) => if |args| <= |c.args| then n - 2 * |args| else 0
    case NeedBlock(_, _, _, _, args, _) => if |args| < |c.args| then n - 2 * |args| - 1 else 0
    case _ => 0
  }

  ghost function Phase(s: State): nat {
    if |s.issued| == |s.returned| then 0 else if |s.invoked| == |s.issued| then 1 else 2
  }

  /** Bytes and reads that are left in the phase. */
  ghost function Work(s: State): nat {
    if Phase(s) == 2 && s.issued != [] then |ChildToWrite(s.child)| + ReadsLeft(s.parent, s.issued[|s.issued| - 1])
    else if Phase(s) == 1 then |ParentToWrite(s.parent)| + (if s.child.AwaitFirst? then 2 else 1)
    else 0
  }

  /** The call is in a later phase, or there is less to do in the same one. */
  ghost predicate Nearer(t: State, s: State) {
    Phase(t) < Phase(s) || (Phase(t) == Phase(s) && Work(t) < Work(s))
  }

  /** Every step of a call brings it nearer to its end, so no schedule keeps a call going for ever. */
  lemma CallsEnd(ctxSize: nat, run: seq<Action>, a: Action)
    requires !a.Begin? && Step(After(ctxSize, run), a).Some?
    ensures Nearer(Step(After(ctxSize, run), a).value, After(ctxSize, run))
  {
    hide Inv, Step, Nearer, Requesting, Answering;
    RunKeeps(ctxSize, run);
    var s := After(ctxSize, run);
    match a
    case ParentRead =>
      ReadsWhat(s, a);
      ParentReadDrops(s);
    case ChildRead =>
      ReadsWhat(s, a);
      ChildReadDrops(s);
    case _ => WriteDrops(s, a);
  }

  lemma WriteDrops(s: State, a: Action)
    requires Inv(s) && Step(s, a).Some? && (a.ChildWrite? || a.Invoke? || a.ParentWrite?)
    ensures Nearer(Step(s, a).value, s)
  {
    hide ParentUnread, ChildUnread, Request, Response, EncodeInt, DecodeInt, ArgsBytes, Histories, ValidCall,
      ValidReply;
  }

  /** A read is possible only while the other side has something to send. */
  lemma ReadsWhat(s: State, a: Action)
    requires Inv(s) && Step(s, a).Some?
    ensures a.ParentRead? ==> Requesting(s)
    ensures a.ChildRead? ==> Answering(s)
  {
    hide ParentUnread, ChildUnread, Request, Response, EncodeInt, DecodeInt, ArgsBytes, Histories, ValidCall,
      ValidReply;
  }

  lemma ParentReadDrops(s: State)
    requires Inv(s) && Requesting(s) && Step(s, ParentRead).Some?
    ensures Nearer(Step(s, ParentRead).value, s)
  {
    hide Request, Response;
    var c := s.issued[|s.issued| - 1];
    var n := ParentWants(s.parent, s.ctxSize);
    Cut(s.toParent, ChildToWrite(s.child), n);
    ParentTakesNext(s.parent, c, s.ctxSize, s.toParent[..n]);
    ReadsDrop(s.parent, c, s.toParent[..n]);
  }

  lemma ChildReadDrops(s: State)
    requires Inv(s) && Answering(s) && Step(s, ChildRead).Some?
    ensures Nearer(Step(s, ChildRead).value, s)
  {
    hide Request, Response;
    var c, r := s.issued[|s.issued| - 1], s.invoked[|s.invoked| - 1].1;
    var n := ChildWants(s.child, s.ctxSize);
    Cut(s.toChild, ParentToWrite(s.parent), n);
    ChildTakesNext(s.child, c, r, s.ctxSize, s.toChild[..n]);
  }

  lemma ReadsDrop(p: Parent, c: Call, b: Bytes)
    requires ParentHas(p, c) && ParentReads(p) && (!p.Idle? && !p.NeedCtx? && !p.NeedBlock? ==> |b| == 4)
    requires ParentHas(ParentTakes(p, b), c)
    ensures ReadsLeft(ParentTakes(p, b), c) < ReadsLeft(p, c)
  {
  }

  // ----- a whole call -----

  lemma OneStepMore(ctxSize: nat, run: seq<Action>, a: Action)
    requires Step(After(ctxSize, run), a).Some?
    ensures After(ctxSize, run + [a]) == Step(After(ctxSize, run), a).value
  {
    hide Step;
    assert (run + [a])[..|run|] == run;
  }

  lemma {:induction false} SizeStays(ctxSize: nat, run: seq<Action>)
    ensures After(ctxSize, run).ctxSize == ctxSize
  {
    if run != [] { SizeStays(ctxSize, run[..|run| - 1]); }
  }

  /** What a step leaves of the histories. */
  lemma StepHistory(s: State, a: Action)
    requires Step(s, a).Some?
    ensures var t := Step(s, a).value;
            && t.issued == (if a.Begin? then s.issued + [a.call] else s.issued)
            && t.invoked == (if a.Invoke? then s.invoked + [(s.parent.call, a.reply)] else s.invoked)
            && s.returned <= t.returned
    ensures a.Invoke? ==> s.parent.Ready?
    ensures a.Begin? ==> Step(s, a).value.child.Sending?
  {
    hide ChildTakes, ParentTakes, Request, Response;
  }

  /** The routine is called with the call on its way, and only once. */
  lemma InvokedIsIssued(s: State)
    requires Inv(s) && !s.child.Resting?
    ensures s.issued != [] && |s.invoked| <= |s.issued| <= |s.invoked| + 1
    ensures s.parent.Ready? ==> s.parent.call == s.issued[|s.issued| - 1] && |s.invoked| < |s.issued|
  {
    hide ParentUnread, ChildUnread, ValidCall, ValidReply;
  }

  /** A call on its way, with the answer of its routine, goes on until it returns. */
  lemma {:induction false} CallGoesOn(ctxSize: nat, run: seq<Action>, reply: Reply) returns (more: seq<Action>)
    requires var s := After(ctxSize, run);
             && !s.child.Resting? && s.issued != []
             && ValidReply(s.issued[|s.issued| - 1], reply, ctxSize)
    ensures var s, t := After(ctxSize, run), After(ctxSize, run + more);
            && t.child.Resting? && t.issued == s.issued && s.returned <= t.returned
            && t.invoked == if |s.invoked| < |s.issued| then s.invoked + [(s.issued[|s.issued| - 1], reply)]
                            else s.invoked
    decreases Phase(After(ctxSize, run)), Work(After(ctxSize, run))
  {
    hide Step, Inv, Phase, Work, ValidReply, NextStep;
    var s := After(ctxSize, run);
    RunKeeps(ctxSize, run);
    SizeStays(ctxSize, run);
    InvokedIsIssued(s);
    NeverBothWait(ctxSize, run, reply);
    var a := NextStep(s, reply);
    NextIs(s, reply);
    OneStepMore(ctxSize, run, a);
    StepHistory(s, a);
    CallsEnd(ctxSize, run, a);
    NearerIs(After(ctxSize, run + [a]), s);
    if After(ctxSize, run + [a]).child.Resting? {
      more := [a];
      CallsArriveAsSent(ctxSize, run + [a]);
    } else {
      RunKeeps(ctxSize, run + [a]);
      InvokedIsIssued(After(ctxSize, run + [a]));
      var rest := CallGoesOn(ctxSize, run + [a], reply);
      more := [a] + rest;
      assert run + [a] + rest == run + more;
    }
  }

  lemma NextIs(s: State, reply: Reply)
    ensures var a := NextStep(s, reply); !a.Begin? && (a.Invoke? ==> a.reply == reply)
  {
  }

  lemma NearerIs(t: State, s: State)
    requires Nearer(t, s)
    ensures Phase(t) < Phase(s) || (Phase(t) == Phase(s) && Work(t) < Work(s))
  {
  }

  lemma CanBegin(s: State, c: Call)
    requires s.child.Resting? && ValidCall(c, s.ctxSize)
    ensures Step(s, Begin(c)).Some? && !Step(s, Begin(c)).value.child.Resting?
  {
  }

  lemma CallReturns(ctxSize: nat, run: seq<Action>, c: Call, reply: Reply) returns (more: seq<Action>)
    requires After(ctxSize, run).child.Resting? && ValidCall(c, ctxSize) && ValidReply(c, reply, ctxSize)
    ensures var s, t := After(ctxSize, run), After(ctxSize, run + more);
            && t.child.Resting? && t.issued == s.issued + [c] && t.invoked == s.invoked + [(c, reply)]
            && s.returned <= t.returned && |s.invoked| == |s.returned|
  {
    hide After, Step, ValidCall, ValidReply;
    var s := After(ctxSize, run);
    SizeStays(ctxSize, run);
    CallsArriveAsSent(ctxSize, run);
    CanBegin(s, c);
    OneStepMore(ctxSize, run, Begin(c));
    StepHistory(s, Begin(c));
    var rest := CallGoesOn(ctxSize, run + [Begin(c)], reply);
    more := [Begin(c)] + rest;
    assert run + [Begin(c)] + rest == run + more;
  }

  /** From every reachable state in which the child rests, every call can be made, and for every answer of its
      routine there is a run in which just this call is made, invoked and answered so. */
  lemma EveryCallReturns(ctxSize: nat, run: seq<Action>, c: Call, reply: Reply)
    requires After(ctxSize, run).child.Resting? && ValidCall(c, ctxSize) && ValidReply(c, reply, ctxSize)
    ensures exists more :: var s, t := After(ctxSize, run), After(ctxSize, run + more);
              && t.child.Resting? && t.issued == s.issued + [c]
              && t.invoked == s.invoked + [(c, reply)] && t.returned == s.returned + [Outcome(reply)]
  {
    hide After, ValidCall, ValidReply, Outcome;
    var more := CallReturns(ctxSize, run, c, reply);
    CallsArriveAsSent(ctxSize, run + more);
    var s, t := After(ctxSize, run), After(ctxSize, run + more);
    assert t.returned == s.returned + [t.returned[|s.returned|]];
  }
}
