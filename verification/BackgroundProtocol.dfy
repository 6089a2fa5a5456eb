/** The calls that a background process makes into its parent over two pipes (src/task-background.c),
    as a system of steps that interleave freely. */
module BackgroundProtocol {
  import opened Wrappers

  type Byte = x: int | 0 <= x < 256
  type Bytes = seq<Byte>

  // ----- how numbers travel -----

  predicate IsInt(n: int) {
    -0x8000_0000 <= n < 0x8000_0000
  }

  /** A C int as the four bytes it occupies. */
  function EncodeInt(n: int): (b: Bytes)
    requires IsInt(n)
    ensures |b| == 4
  {
    var u := if n < 0 then n + 0x1_0000_0000 else n;
    [u % 256, u / 256 % 256, u / 0x1_0000 % 256, u / 0x100_0000]
  }

  function DecodeInt(b: Bytes): (n: int)
    requires |b| == 4
    ensures IsInt(n)
  {
    var u: int := b[0] as int + 256 * (b[1] as int) + 0x1_0000 * (b[2] as int) + 0x100_0000 * (b[3] as int);
    if u >= 0x8000_0000 then u - 0x1_0000_0000 else u
  }

  lemma IntRoundTrip(n: int)
    requires IsInt(n)
    ensures DecodeInt(EncodeInt(n)) == n
  {
    var u := if n < 0 then n + 0x1_0000_0000 else n;
    assert u == u % 256 + 256 * (u / 256);
    assert u / 256 == u / 256 % 256 + 256 * (u / 256 / 256);
    assert u / 256 / 256 == u / 0x1_0000;
    assert u / 0x1_0000 == u / 0x1_0000 % 256 + 256 * (u / 0x1_0000 / 256);
    assert u / 0x1_0000 / 256 == u / 0x100_0000;
  }

  /** A routine is known by the eight bytes of its address. */
  predicate IsRoutine(b: Bytes) {
    |b| == 8
  }

  // ----- calls and replies -----

  const RETURN_STRING := 0
  const RETURN_INTEGER := 1
  const MAXCALLARGS := 4

  datatype Call = Call(routine: Bytes, ty: int, ctx: Option<Bytes>, args: seq<Bytes>)

  /** What a routine answers: a number and the context it leaves, or a string that may be NULL. */
  datatype Reply =
    | IntReply(result: int, ctx: Option<Bytes>)
    | StringReply(text: Option<Bytes>)

  ghost predicate ValidCall(c: Call, ctxSize: nat) {
    && IsRoutine(c.routine)
    && (c.ty == RETURN_INTEGER || (c.ty == RETURN_STRING && c.ctx == None))
    && (c.ctx.Some? ==> |c.ctx.value| == ctxSize)
    && |c.args| <= MAXCALLARGS
    && forall i :: 0 <= i < |c.args| ==> IsInt(|c.args[i]|)
  }

  ghost predicate ValidReply(c: Call, r: Reply, ctxSize: nat) {
    if c.ty == RETURN_INTEGER then
      && r.IntReply? && IsInt(r.result)
      && (r.ctx.Some? <==> c.ctx.Some?) && (r.ctx.Some? ==> |r.ctx.value| == ctxSize)
    else
      && r.StringReply? && (r.text.Some? ==> IsInt(|r.text.value|))
  }

  /** What the child's call returns: the number and the context, or the string, where an empty one is NULL. */
  function Outcome(r: Reply): Reply {
    if r.StringReply? && r.text == Some([]) then StringReply(None) else r
  }

  function ArgsBytes(args: seq<Bytes>): Bytes
    requires forall i :: 0 <= i < |args| ==> IsInt(|args[i]|)
  {
    if args == [] then [] else EncodeInt(|args[0]|) + (args[0] + ArgsBytes(args[1..]))
  }

  function OptBytes(b: Option<Bytes>): Bytes {
    match b
    case None => []
    case Some(x) => x
  }

  function HaveCtx(c: Option<Bytes>): int {
    if c.Some? then 1 else 0
  }

  /** Everything that the child writes for a call. */
  ghost function Request(c: Call, ctxSize: nat): Bytes
    requires ValidCall(c, ctxSize)
  {
    c.routine
      + (EncodeInt(|c.args|) + (EncodeInt(c.ty) + (EncodeInt(HaveCtx(c.ctx)) + (OptBytes(c.ctx) + ArgsBytes(c.args)))))
  }

  /** Everything that the parent writes for a reply. */
  ghost function Response(c: Call, r: Reply, ctxSize: nat): Bytes
    requires ValidReply(c, r, ctxSize)
  {
    match r
    case IntReply(n, ctx) => EncodeInt(n) + OptBytes(ctx)
    case StringReply(text) => EncodeInt(|OptBytes(text)|) + OptBytes(text)
  }

  /** The bytes of a call: the address, the number of blocks, 1 for an integer and 0 for a string, 1 and the
      context or 0, and the blocks behind their lengths, with the last byte of a number first. */
  lemma RequestBytes(routine: Bytes, ctx: Bytes, a: Bytes)
    requires IsRoutine(routine) && |a| < 256
    ensures Request(Call(routine, RETURN_INTEGER, Some(ctx), [a]), |ctx|)
         == routine + ([1, 0, 0, 0] + ([1, 0, 0, 0] + ([1, 0, 0, 0] + (ctx + ([|a|, 0, 0, 0] + a)))))
    ensures Request(Call(routine, RETURN_STRING, None, []), |ctx|)
         == routine + ([0, 0, 0, 0] + ([0, 0, 0, 0] + [0, 0, 0, 0]))
  {
    assert [a][1..] == [] && ArgsBytes([]) == [];
    assert a + [] == a && ArgsBytes([a]) == EncodeInt(|a|) + (a + ArgsBytes([a][1..]));
    assert [0, 0, 0, 0] + ([] + []) == [0, 0, 0, 0];
  }

  // ----- the two processes -----

  datatype Child =
    | Resting
    | Sending(rest: Bytes)
    | AwaitFirst
    | AwaitCtx(result: int)
    | AwaitText(length: nat)

  datatype Parent =
    | Idle
    | NeedArgc(routine: Bytes)
    | NeedType(routine: Bytes, argc: int)
    | NeedHave(routine: Bytes, argc: int, ty: int)
    | NeedCtx(routine: Bytes, argc: int, ty: int)
    | NeedSize(routine: Bytes, argc: int, ty: int, ctx: Option<Bytes>, args: seq<Bytes>)
    | NeedBlock(routine: Bytes, argc: int, ty: int, ctx: Option<Bytes>, args: seq<Bytes>, size: int)
    | Ready(call: Call)
    | Replying(rest: Bytes)

  /** issued, invoked and returned are the history of the calls; ctxSize is the size of a context. */
  datatype State = State(
    ctxSize: nat,
    toParent: Bytes, toChild: Bytes,
    child: Child, parent: Parent,
    issued: seq<Call>, invoked: seq<(Call, Reply)>, returned: seq<Reply>)

  function Initial(ctxSize: nat): State {
    State(ctxSize, [], [], Resting, Idle, [], [], [])
  }

  datatype Action =
    | Begin(call: Call)
    | ChildWrite(n: nat)
    | ChildRead
    | ParentRead
    | Invoke(reply: Reply)
    | ParentWrite(n: nat)

  /** After the header, or after a block: another argument or the call itself. */
  function NextArgument(routine: Bytes, argc: int, ty: int, ctx: Option<Bytes>, args: seq<Bytes>): Parent {
    if |args| < argc then NeedSize(routine, argc, ty, ctx, args) else Ready(Call(routine, ty, ctx, args))
  }

  /** How many bytes the parent's next read asks for. */
  function ParentWants(p: Parent, ctxSize: nat): (n: int) {
    match p
    case Idle => 8
    case NeedCtx(_, _, _) => ctxSize
    case NeedBlock(_, _, _, _, _, size) => size
    case _ => 4
  }

  predicate ParentReads(p: Parent) {
    !p.Ready? && !p.Replying?
  }

  /** The parent's next read, which got b. */
  function ParentTakes(p: Parent, b: Bytes): Parent
    requires ParentReads(p) && (!p.Idle? && !p.NeedCtx? && !p.NeedBlock? ==> |b| == 4)
  {
    match p
    case Idle => NeedArgc(b)
    case NeedArgc(r) => NeedType(r, DecodeInt(b))
    case NeedType(r, argc) => NeedHave(r, argc, DecodeInt(b))
    case NeedHave(r, argc, ty) =>
      if DecodeInt(b) != 0 then NeedCtx(r, argc, ty) else NextArgument(r, argc, ty, None, [])
    case NeedCtx(r, argc, ty) => NextArgument(r, argc, ty, Some(b), [])
    case NeedSize(r, argc, ty, ctx, args) => NeedBlock(r, argc, ty, ctx, args, DecodeInt(b))
    case NeedBlock(r, argc, ty, ctx, args, _) => NextArgument(r, argc, ty, ctx, args + [b])
  }

  /** How many bytes the child's next read asks for. */
  function ChildWants(c: Child, ctxSize: nat): nat {
    match c
    case AwaitCtx(_) => ctxSize
    case AwaitText(n) => n
    case _ => 4
  }

  predicate ChildReads(c: Child) {
    c.AwaitFirst? || c.AwaitCtx? || c.AwaitText?
  }

  /** The child's next read for the call in hand, which got b. */
  function ChildTakes(c: Child, call: Call, b: Bytes): (Child, Option<Reply>)
    requires ChildReads(c) && (c.AwaitFirst? ==> |b| == 4)
  {
    match c
    case AwaitFirst =>
      var n := DecodeInt(b);
      if call.ty == RETURN_INTEGER then
        if call.ctx.Some? then (AwaitCtx(n), None) else (Resting, Some(IntReply(n, None)))
      else if n <= 0 then (Resting, Some(StringReply(None)))
      else (AwaitText(n), None)
    case AwaitCtx(n) => (Resting, Some(IntReply(n, Some(b))))
    case AwaitText(_) => (Resting, Some(StringReply(Some(b))))
  }

  /** One step; None when it is not possible. */
  ghost function Step(s: State, a: Action): Option<State> {
    match a
    case Begin(call) =>
      if s.child.Resting? && ValidCall(call, s.ctxSize)
      then Some(s.(child := Sending(Request(call, s.ctxSize)), issued := s.issued + [call]))
      else None
    case ChildWrite(n) =>
      if s.child.Sending? && 0 < n <= |s.child.rest|
      then Some(s.(toParent := s.toParent + s.child.rest[..n],
                   child := if n == |s.child.rest| then AwaitFirst else Sending(s.child.rest[n..])))
      else None
    case ChildRead =>
      var n := ChildWants(s.child, s.ctxSize);
      if ChildReads(s.child) && n <= |s.toChild| && s.issued != [] then
        var (c, r) := ChildTakes(s.child, s.issued[|s.issued| - 1], s.toChild[..n]);
        Some(s.(toChild := s.toChild[n..], child := c,
                returned := if r.Some? then s.returned + [r.value] else s.returned))
      else None
    case ParentRead =>
      var n := ParentWants(s.parent, s.ctxSize);
      if ParentReads(s.parent) && 0 <= n <= |s.toParent|
      then Some(s.(toParent := s.toParent[n..], parent := ParentTakes(s.parent, s.toParent[..n])))
      else None
    case Invoke(reply) =>
      if s.parent.Ready? && ValidReply(s.parent.call, reply, s.ctxSize)
      then Some(s.(parent := Replying(Response(s.parent.call, reply, s.ctxSize)),
                   invoked := s.invoked + [(s.parent.call, reply)]))
      else None
    case ParentWrite(n) =>
      if s.parent.Replying? && 0 < n <= |s.parent.rest|
      then Some(s.(toChild := s.toChild + s.parent.rest[..n],
                   parent := if n == |s.parent.rest| then Idle else Replying(s.parent.rest[n..])))
      else None
  }

  /** The state after a run; steps that are not possible are skipped. */
  ghost function After(ctxSize: nat, run: seq<Action>): State {
    if run == [] then Initial(ctxSize)
    else
      var s := After(ctxSize, run[..|run| - 1]);
      match Step(s, run[|run| - 1])
      case Some(t) => t
      case None => s
  }
}
