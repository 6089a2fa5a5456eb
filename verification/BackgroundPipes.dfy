/** The code at the two ends of the pipes (src/task-background.c): the list of running tasks, the
    writes and reads of the child's calls, and the parent that serves them. */
module BackgroundPipes {
  import opened Wrappers
  import opened BackgroundProtocol
  import opened BackgroundSafety

  /** One direction of a pipe: the bytes written and not yet read. */
  class Pipe {
    var data: Bytes

    constructor ()
      ensures data == []
    {
      data := [];
    }

    method Write(b: Bytes)
      modifies this
      ensures data == old(data) + b
    {
      data := data + b;
    }

    /** A read gets as many bytes as there are, up to n. */
    method Read(n: nat) returns (b: Bytes)
      modifies this
      ensures b == old(data)[..if n <= |old(data)| then n else |old(data)|]
      ensures data == old(data)[|b|..]
    {
      var k := if n <= |data| then n else |data|;
      b := data[..k];
      data := data[k..];
    }
  }

  /** A file operation context, which both processes keep a copy of. */
  class Context {
    var bytes: Bytes

    constructor (b: Bytes)
      ensures bytes == b
    {
      bytes := b;
    }
  }

  /** The pid that a context has, at a place that the compiler chooses. */
  function PidOf(ctx: Bytes, pidAt: nat): int
    requires pidAt + 4 <= |ctx|
  {
    DecodeInt(ctx[pidAt..pidAt + 4])
  }

  function WithPid(ctx: Bytes, pidAt: nat, pid: int): (r: Bytes)
    requires pidAt + 4 <= |ctx| && IsInt(pid)
    ensures |r| == |ctx|
  {
    ctx[..pidAt] + EncodeInt(pid) + ctx[pidAt + 4..]
  }

  lemma PidIsKept(ctx: Bytes, pidAt: nat, pid: int)
    requires pidAt + 4 <= |ctx| && IsInt(pid)
    ensures PidOf(WithPid(ctx, pidAt, pid), pidAt) == pid
  {
    hide EncodeInt, DecodeInt;
    assert WithPid(ctx, pidAt, pid)[pidAt..pidAt + 4] == EncodeInt(pid);
    IntRoundTrip(pid);
  }

  // ----- the running tasks -----

  datatype Task = Task(pid: int, fd: Pipe, toChild: Pipe, info: string)

  /** The first task that reads from fd. */
  ghost function Serving(tasks: seq<Task>, fd: Pipe): Option<Pipe> {
    if tasks == [] then None
    else if tasks[0].fd == fd then Some(tasks[0].toChild)
    else Serving(tasks[1..], fd)
  }

  ghost predicate HasPid(tasks: seq<Task>, pid: int) {
    exists k :: 0 <= k < |tasks| && tasks[k].pid == pid
  }

  /** The tasks without the newest one that has this pid. */
  ghost function Without(tasks: seq<Task>, pid: int): seq<Task> {
    if tasks == [] then []
    else if tasks[0].pid == pid then tasks[1..]
    else [tasks[0]] + Without(tasks[1..], pid)
  }

  /** A descriptor that the parent watches, and the context that its calls are about. */
  datatype Channel = Channel(fd: Pipe, info: Context)

  /** The channels without the newest one for this descriptor. */
  ghost function Unwatched(channels: seq<Channel>, fd: Pipe): seq<Channel> {
    if channels == [] then []
    else if channels[0].fd == fd then channels[1..]
    else [channels[0]] + Unwatched(channels[1..], fd)
  }

  /** No channel is for this descriptor. */
  ghost predicate NotWatched(channels: seq<Channel>, fd: Pipe) {
    forall k :: 0 <= k < |channels| ==> channels[k].fd != fd
  }

  /** The channels for all other descriptors. */
  ghost function OtherChannels(channels: seq<Channel>, fd: Pipe): (r: seq<Channel>)
    ensures forall k :: 0 <= k < |r| ==> r[k] in channels && r[k].fd != fd
    ensures forall k :: 0 <= k < |channels| && channels[k].fd != fd ==> channels[k] in r
    ensures NotWatched(channels, fd) ==> r == channels
  {
    if channels == [] then []
    else (if channels[0].fd == fd then [] else [channels[0]]) + OtherChannels(channels[1..], fd)
  }

  /** A descriptor that was registered once is no longer watched; the channels for all others are, in order. */
  ghost predicate StopsWatching(before: seq<Channel>, after: seq<Channel>, fd: Pipe) {
    && OtherChannels(after, fd) == OtherChannels(before, fd)
    && (WatchedOnce(before, fd) ==> NotWatched(after, fd))
    && (NotWatched(before, fd) ==> after == before)
  }

  ghost predicate WatchedOnce(channels: seq<Channel>, fd: Pipe) {
    exists k :: WatchedOnceAt(channels, k, fd)
  }

  ghost predicate WatchedOnceAt(channels: seq<Channel>, k: int, fd: Pipe) {
    && 0 <= k < |channels| && channels[k].fd == fd
    && forall j :: 0 <= j < |channels| && j != k ==> channels[j].fd != fd
  }

  /** The first channel for this descriptor is at k. */
  ghost predicate FirstAt(channels: seq<Channel>, k: int, fd: Pipe) {
    0 <= k < |channels| && channels[k].fd == fd && forall j :: 0 <= j < k ==> channels[j].fd != fd
  }

  class TaskList {
    var tasks: seq<Task>
    var channels: seq<Channel>

    constructor ()
      ensures tasks == [] && channels == []
    {
      tasks, channels := [], [];
    }

    method RegisterTaskRunning(ctx: Context, pid: int, fd: Pipe, toChild: Pipe, info: string)
      modifies this
      ensures tasks == [Task(pid, fd, toChild, info)] + old(tasks)
      ensures channels == [Channel(fd, ctx)] + old(channels)
      ensures Serving(tasks, fd) == Some(toChild)
      ensures forall f: Pipe :: f != fd ==> Serving(tasks, f) == Serving(old(tasks), f)
    {
      tasks := [Task(pid, fd, toChild, info)] + tasks;
      assert tasks[1..] == old(tasks);
      channels := [Channel(fd, ctx)] + channels;
    }

    /** Takes out the newest task with this pid and returns its descriptor, null if there is none. */
    method DestroyTask(pid: int) returns (fd: Pipe?)
      modifies this`tasks
      ensures fd == null <==> !HasPid(old(tasks), pid)
      ensures tasks == Without(old(tasks), pid) && (fd == null ==> tasks == old(tasks))
      ensures fd != null ==>
        (exists k :: 0 <= k < |old(tasks)| && old(tasks)[k].pid == pid && old(tasks)[k].fd == fd
           && !HasPid(old(tasks)[..k], pid) && tasks == old(tasks)[..k] + old(tasks)[k + 1..])
      ensures forall f: Pipe :: f != fd ==> Serving(tasks, f) == Serving(old(tasks), f)
    {
      var i := 0;
      while i < |tasks|
        invariant 0 <= i <= |tasks| && tasks == old(tasks)
        invariant !HasPid(tasks[..i], pid)
      {
        if tasks[i].pid == pid {
          fd := tasks[i].fd;
          forall f: Pipe | f != fd
            ensures Serving(tasks[..i] + tasks[i + 1..], f) == Serving(tasks, f)
          {
            ServingWithout(tasks, i, f);
          }
          WithoutAt(tasks, i, pid);
          tasks := tasks[..i] + tasks[i + 1..];
          return;
        }
        i := i + 1;
      }
      assert tasks[..i] == tasks;
      WithoutNone(tasks, pid);
      fd := null;
    }

    /** Takes out the first channel for this descriptor, if there is one. */
    method DeleteSelectChannel(fd: Pipe)
      modifies this`channels
      ensures NotWatched(old(channels), fd) ==> channels == old(channels)
      ensures forall k :: FirstAt(old(channels), k, fd) ==> channels == old(channels)[..k] + old(channels)[k + 1..]
      ensures channels == Unwatched(old(channels), fd) && StopsWatching(old(channels), channels, fd)
    {
      hide Unwatched, OtherChannels, StopsWatching;
      UnwatchedStops(channels, fd);
      var i := 0;
      while i < |channels|
        invariant 0 <= i <= |channels| && channels == old(channels)
        invariant forall j :: 0 <= j < i ==> channels[j].fd != fd
      {
        if channels[i].fd == fd {
          UnwatchedAt(channels, i, fd);
          channels := channels[..i] + channels[i + 1..];
          return;
        }
        i := i + 1;
      }
      UnwatchedNone(channels, fd);
    }

    method UnregisterTaskRunning(pid: int, fd: Pipe)
      modifies this
      ensures tasks == Without(old(tasks), pid) && channels == Unwatched(old(channels), fd)
      ensures StopsWatching(old(channels), channels, fd)
    {
      var _ := DestroyTask(pid);
      DeleteSelectChannel(fd);
    }

    /** The descriptor is the one of the task. */
    method UnregisterTaskWithPid(pid: int)
      modifies this
      ensures tasks == Without(old(tasks), pid)
      ensures !HasPid(old(tasks), pid) ==> channels == old(channels)
      ensures HasPid(old(tasks), pid) ==>
        (exists k :: 0 <= k < |old(tasks)| && old(tasks)[k].pid == pid && !HasPid(old(tasks)[..k], pid)
           && channels == Unwatched(old(channels), old(tasks)[k].fd)
           && StopsWatching(old(channels), channels, old(tasks)[k].fd))
    {
      var fd := DestroyTask(pid);
      if fd != null {
        DeleteSelectChannel(fd);
      }
    }

    method FindByDescriptor(fd: Pipe) returns (toChild: Pipe?)
      ensures toChild == (match Serving(tasks, fd) case Some(p) => p case None => null)
    {
      var i := 0;
      while i < |tasks|
        invariant 0 <= i <= |tasks|
        invariant Serving(tasks[i..], fd) == Serving(tasks, fd)
      {
        if tasks[i].fd == fd { return tasks[i].toChild; }
        i := i + 1;
      }
      toChild := null;
    }
  }

  lemma {:induction false} UnwatchedNone(channels: seq<Channel>, fd: Pipe)
    requires NotWatched(channels, fd)
    ensures Unwatched(channels, fd) == channels
  {
    if channels == [] {
    } else {
      assert forall k :: 0 <= k < |channels[1..]| ==> channels[1..][k] == channels[k + 1];
      UnwatchedNone(channels[1..], fd);
    }
  }

  lemma {:induction false} UnwatchedAt(channels: seq<Channel>, k: nat, fd: Pipe)
    requires FirstAt(channels, k, fd)
    ensures Unwatched(channels, fd) == channels[..k] + channels[k + 1..]
  {
    if k > 0 {
      var rest := channels[1..];
      assert forall j :: 0 <= j < k ==> rest[j] == channels[j + 1];
      UnwatchedAt(rest, k - 1, fd);
      assert channels[..k] == [channels[0]] + rest[..k - 1] && channels[k + 1..] == rest[k..];
    }
  }

  lemma {:induction false} OthersUnwatched(channels: seq<Channel>, fd: Pipe)
    ensures OtherChannels(Unwatched(channels, fd), fd) == OtherChannels(channels, fd)
  {
    if channels == [] {
    } else if channels[0].fd != fd {
      OthersUnwatched(channels[1..], fd);
      var less := Unwatched(channels[1..], fd);
      assert ([channels[0]] + less)[1..] == less;
    }
  }

  lemma UnwatchedStops(channels: seq<Channel>, fd: Pipe)
    ensures StopsWatching(channels, Unwatched(channels, fd), fd)
  {
    hide Unwatched, OtherChannels;
    OthersUnwatched(channels, fd);
    if NotWatched(channels, fd) { UnwatchedNone(channels, fd); }
    if k :| WatchedOnceAt(channels, k, fd) {
      UnwatchedAt(channels, k, fd);
    }
  }

  lemma {:induction false} WithoutNone(tasks: seq<Task>, pid: int)
    requires !HasPid(tasks, pid)
    ensures Without(tasks, pid) == tasks
  {
    if tasks == [] {
    } else {
      forall k | 0 <= k < |tasks[1..]|
        ensures tasks[1..][k].pid != pid
      {
        assert tasks[k + 1].pid != pid;
      }
      WithoutNone(tasks[1..], pid);
    }
  }

  lemma {:induction false} WithoutAt(tasks: seq<Task>, k: nat, pid: int)
    requires k < |tasks| && tasks[k].pid == pid && !HasPid(tasks[..k], pid)
    ensures Without(tasks, pid) == tasks[..k] + tasks[k + 1..]
  {
    if k == 0 {
    } else {
      assert tasks[..k][0].pid != pid;
      var rest := tasks[1..][..k - 1];
      forall j | 0 <= j < |rest|
        ensures rest[j].pid != pid
      {
        assert tasks[..k][j + 1].pid != pid;
      }
      WithoutAt(tasks[1..], k - 1, pid);
      assert tasks[1..][k - 1 + 1..] == tasks[k + 1..];
      assert [tasks[0]] + tasks[1..][..k - 1] == tasks[..k];
    }
  }

  ghost predicate OwnPids(tasks: seq<Task>) {
    forall i, j :: 0 <= i < j < |tasks| ==> tasks[i].pid != tasks[j].pid
  }

  /** A task leaves the list if and only if it is taken out by its own pid. */
  lemma {:induction false} LeavesByItsPid(tasks: seq<Task>, t: Task, pid: int)
    requires OwnPids(tasks) && t in tasks
    ensures t !in Without(tasks, pid) <==> pid == t.pid
  {
    if t == tasks[0] {
    } else {
      LeavesByItsPid(tasks[1..], t, pid);
    }
  }

  lemma {:induction false} ServingWithout(tasks: seq<Task>, k: nat, f: Pipe)
    requires k < |tasks| && tasks[k].fd != f
    ensures Serving(tasks[..k] + tasks[k + 1..], f) == Serving(tasks, f)
  {
    var less := tasks[..k] + tasks[k + 1..];
    if k == 0 {
      assert less == tasks[1..];
    } else {
      ServingWithout(tasks[1..], k - 1, f);
      assert less[1..] == tasks[1..][..k - 1] + tasks[1..][k - 1 + 1..];
      assert less[0] == tasks[0];
    }
  }

  /** While a task is registered and no newer one uses its descriptor, its calls are answered to it,
      whichever other tasks come and go. */
  lemma {:induction false} ServesTheOwner(newer: seq<Task>, t: Task, older: seq<Task>)
    requires forall k :: 0 <= k < |newer| ==> newer[k].fd != t.fd
    ensures Serving(newer + [t] + older, t.fd) == Some(t.toChild)
  {
    var all := newer + [t] + older;
    if newer == [] {
    } else {
      ServesTheOwner(newer[1..], t, older);
      assert all[1..] == newer[1..] + [t] + older;
    }
  }

  // ----- the child's side -----

  method ParentCallHeader(parentFd: Pipe, routine: Bytes, argc: nat, ty: int, ctx: Context?)
    requires IsInt(argc) && IsInt(ty)
    modifies parentFd
    ensures parentFd.data == old(parentFd.data)
              + (routine + (EncodeInt(argc) + (EncodeInt(ty) + (EncodeInt(if ctx != null then 1 else 0)
                + (if ctx != null then old(ctx.bytes) else [])))))
  {
    var haveCtx := if ctx != null then 1 else 0;
    parentFd.Write(routine);
    parentFd.Write(EncodeInt(argc));
    parentFd.Write(EncodeInt(ty));
    parentFd.Write(EncodeInt(haveCtx));
    if ctx != null {
      parentFd.Write(ctx.bytes);
    }
    hide EncodeInt;
  }

  ghost function CallOf(routine: Bytes, ty: int, ctx: Context?, args: seq<Bytes>): Call
    reads if ctx == null then {} else {ctx}
  {
    Call(routine, ty, if ctx == null then None else Some(ctx.bytes), args)
  }

  lemma {:induction false} ArgsBytesSnoc(args: seq<Bytes>, x: Bytes)
    requires IsInt(|x|) && forall i :: 0 <= i < |args| ==> IsInt(|args[i]|)
    ensures ArgsBytes(args + [x]) == ArgsBytes(args) + (EncodeInt(|x|) + x)
  {
    hide EncodeInt;
    if args == [] {
      assert (args + [x])[1..] == [];
      assert x + [] == x;
    } else {
      ArgsBytesSnoc(args[1..], x);
      assert (args + [x])[1..] == args[1..] + [x] && (args + [x])[0] == args[0];
      Regroup(EncodeInt(|args[0]|), args[0], ArgsBytes(args[1..]), EncodeInt(|x|) + x);
    }
  }

  lemma Regroup(a: Bytes, b: Bytes, c: Bytes, d: Bytes)
    ensures a + (b + (c + d)) == (a + (b + c)) + d
  {
  }

  /** The header and the arguments: just the bytes of the request. */
  method SendCall(parentFd: Pipe, routine: Bytes, ty: int, ctx: Context?, args: seq<Bytes>, ghost ctxSize: nat)
    requires ValidCall(CallOf(routine, ty, ctx, args), ctxSize)
    modifies parentFd
    ensures parentFd.data == old(parentFd.data) + Request(CallOf(routine, ty, ctx, args), ctxSize)
  {
    hide EncodeInt, ArgsBytes;
    ParentCallHeader(parentFd, routine, |args|, ty, ctx);
    ghost var before := old(parentFd.data);
    ghost var ctxBytes := if ctx != null then ctx.bytes else [];
    ghost var have := EncodeInt(if ctx != null then 1 else 0);
    ghost var head := routine + (EncodeInt(|args|) + (EncodeInt(ty) + (have + ctxBytes)));
    NoArgs(before + head);
    var i := 0;
    while i < |args|
      invariant 0 <= i <= |args|
      invariant parentFd.data == (before + head) + ArgsBytes(args[..i])
    {
      label L:
      parentFd.Write(EncodeInt(|args[i]|));
      parentFd.Write(args[i]);
      assert args[..i + 1] == args[..i] + [args[i]];
      ArgsBytesSnoc(args[..i], args[i]);
      Regroup3(before + head, ArgsBytes(args[..i]), EncodeInt(|args[i]|), args[i]);
      i := i + 1;
    }
    assert args[..i] == args;
    Nested(before, routine, EncodeInt(|args|), EncodeInt(ty), have, ctxBytes, ArgsBytes(args));
  }

  lemma NoArgs(b: Bytes)
    ensures b + ArgsBytes([]) == b
  {
  }

  lemma Regroup3(a: Bytes, b: Bytes, c: Bytes, d: Bytes)
    ensures ((a + b) + c) + d == a + (b + (c + d))
  {
  }

  lemma Nested(z: Bytes, a: Bytes, b: Bytes, c: Bytes, d: Bytes, e: Bytes, f: Bytes)
    ensures (z + (a + (b + (c + (d + e))))) + f == z + (a + (b + (c + (d + (e + f)))))
  {
    assert (d + e) + f == d + (e + f);
    assert (c + (d + e)) + f == c + ((d + e) + f);
    assert (b + (c + (d + e))) + f == b + ((c + (d + e)) + f);
    assert (a + (b + (c + (d + e)))) + f == a + ((b + (c + (d + e))) + f);
  }

  // ----- the parent's side -----

  /** What is in the pipe, followed by what is missing of it, is what the parent has still to read of
      call c, followed by rest; only one of missing and rest is there. */
  ghost predicate Facing(p: Parent, c: Call, ctxSize: nat, data: Bytes, missing: Bytes, rest: Bytes) {
    && ValidCall(c, ctxSize) && ParentHas(p, c) && (missing == [] || rest == [])
    && data + missing == ParentUnread(p, c, ctxSize) + rest
  }

  lemma ReadAdvances(p: Parent, c: Call, ctxSize: nat, data: Bytes, missing: Bytes, rest: Bytes, n: nat)
    requires Facing(p, c, ctxSize, data, missing, rest) && ParentReads(p) && n == ParentWants(p, ctxSize)
    ensures n > |data| ==> missing != []
    ensures n <= |data| ==> Facing(ParentTakes(p, data[..n]), c, ctxSize, data[n..], missing, rest)
  {
    hide ParentUnread, EncodeInt, DecodeInt, ArgsBytes;
    assert n <= |ParentUnread(p, c, ctxSize)| by { ParentUnreadEnough(p, c, ctxSize); }
    if n <= |data| {
      Cut(data, missing, n);
      Cut(ParentUnread(p, c, ctxSize), rest, n);
      ParentTakesNext(p, c, ctxSize, data[..n]);
    }
  }

  /** One read of the parent: it fails if the pipe has less than was asked for. */
  method Fetch(fd: Pipe, n: nat, ctxSize: nat, ghost p: Parent, ghost c: Call, ghost missing: Bytes, ghost rest: Bytes)
    returns (ok: bool, b: Bytes)
    requires ParentReads(p) && n == ParentWants(p, ctxSize)
    modifies fd
    ensures |b| <= n && (ok <==> |b| == n) && (ok <==> |old(fd.data)| >= n)
    ensures Facing(p, c, ctxSize, old(fd.data), missing, rest) ==>
              if ok then Facing(ParentTakes(p, b), c, ctxSize, fd.data, missing, rest) else missing != []
  {
    b := fd.Read(n);
    ok := |b| == n;
    if Facing(p, c, ctxSize, old(fd.data), missing, rest) {
      ReadAdvances(p, c, ctxSize, old(fd.data), missing, rest, n);
    }
  }

  /** What the parent's own context is after a call: the one that the child sent, if it sent one. */
  function Taken(ctx: Option<Bytes>, own: Bytes): Bytes {
    if ctx.Some? then ctx.value else own
  }

  /** Reads a call from the pipe; a context goes straight into the parent's own one, even one that breaks
      off. If the pipe starts with the bytes of a call, just that call is read and just those bytes are
      taken; if the pipe ends within the call, reading fails. gone says that not even the routine came. */
  method ReceiveCall(fd: Pipe, own: Context, ctxSize: nat, ghost sent: Call, ghost missing: Bytes, ghost rest: Bytes)
    returns (gone: bool, call: Option<Call>)
    requires |own.bytes| == ctxSize
    modifies fd, own
    ensures |own.bytes| == ctxSize
    ensures gone <==> |old(fd.data)| < 8
    ensures gone ==> call == None && own.bytes == old(own.bytes)
    ensures call.Some? ==> own.bytes == Taken(call.value.ctx, old(own.bytes))
    ensures Facing(Idle, sent, ctxSize, old(fd.data), missing, rest) ==>
              if missing == [] then call == Some(sent) && fd.data == rest else call == None
  {
    hide EncodeInt, DecodeInt, ArgsBytes, ParentUnread;
    ghost var facing := Facing(Idle, sent, ctxSize, fd.data, missing, rest);
    call := None;
    var ok, routine := Fetch(fd, 8, ctxSize, Idle, sent, missing, rest);
    gone := !ok;
    if !ok { return; }
    var b;
    ok, b := Fetch(fd, 4, ctxSize, NeedArgc(routine), sent, missing, rest);
    if !ok { return; }
    var argc := DecodeInt(b);
    ok, b := Fetch(fd, 4, ctxSize, NeedType(routine, argc), sent, missing, rest);
    if !ok { return; }
    var ty := DecodeInt(b);
    ok, b := Fetch(fd, 4, ctxSize, NeedHave(routine, argc, ty), sent, missing, rest);
    if !ok { return; }
    var haveCtx := DecodeInt(b);
    var ctx: Option<Bytes> := None;
    if haveCtx != 0 {
      ok, b := Fetch(fd, ctxSize, ctxSize, NeedCtx(routine, argc, ty), sent, missing, rest);
      own.bytes := b + own.bytes[|b|..];
      if !ok { return; }
      assert own.bytes == b;
      ctx := Some(b);
    }
    var i := 0;
    var data: seq<Bytes> := [];
    while i < argc
      invariant 0 <= i && (argc >= 0 ==> i <= argc) && (argc < 0 ==> i == 0) && |data| == i
      invariant |own.bytes| == ctxSize && own.bytes == Taken(ctx, old(own.bytes))
      invariant facing ==> Facing(NextArgument(routine, argc, ty, ctx, data), sent, ctxSize, fd.data, missing, rest)
    {
      ok, b := Fetch(fd, 4, ctxSize, NeedSize(routine, argc, ty, ctx, data), sent, missing, rest);
      if !ok { return; }
      var size := DecodeInt(b);
      if size < 0 { return; }
      ok, b := Fetch(fd, size, ctxSize, NeedBlock(routine, argc, ty, ctx, data, size), sent, missing, rest);
      if !ok { return; }
      data := data + [b];
      i := i + 1;
    }
    call := Some(Call(routine, ty, ctx, data));
    if facing {
      NothingLeft(call.value, sent, ctxSize, fd.data, missing, rest);
    }
  }

  lemma NothingLeft(call: Call, sent: Call, ctxSize: nat, data: Bytes, missing: Bytes, rest: Bytes)
    requires Facing(Ready(call), sent, ctxSize, data, missing, rest)
    ensures call == sent && missing == [] && data == rest
  {
    assert data + missing == rest;
  }

  /** What the parent writes back. An empty string goes out as the length 0 alone, as NULL does. */
  method SendReply(toChild: Pipe, call: Call, reply: Reply, ctxSize: nat)
    requires ValidReply(call, reply, ctxSize)
    modifies toChild
    ensures toChild.data == old(toChild.data) + Response(call, reply, ctxSize)
  {
    match reply
    case IntReply(result, ctx) =>
      toChild.Write(EncodeInt(result));
      if ctx.Some? { toChild.Write(ctx.value); }
    case StringReply(text) =>
      if text.Some? {
        toChild.Write(EncodeInt(|text.value|));
        if |text.value| != 0 { toChild.Write(text.value); }
      } else {
        toChild.Write(EncodeInt(0));
      }
  }

  /** What the parent's own context is when the routine is done. */
  function LeftIn(reply: Reply, own: Bytes): Bytes {
    if reply.IntReply? then Taken(reply.ctx, own) else own
  }

  /** Serves one call from the pipe fd: the routine's reply goes to the pipe of the task that the
      descriptor belongs to (toChild), and nowhere if there is none. The routine works on the parent's own
      context, which the call has overwritten. Of a call that breaks off nothing comes: the routine is not
      invoked. When the pipe has ended, the task with the pid of the own context is taken out and the pipe
      is no longer watched. */
  method BackgroundAttention(fd: Pipe, own: Context, tasks: TaskList, ctxSize: nat, pidAt: nat, routines: Call -> Reply,
                             ghost toChild: Pipe?, ghost sent: Call, ghost missing: Bytes, ghost rest: Bytes)
    returns (served: Option<Call>)
    requires forall c :: ValidReply(c, routines(c), ctxSize)
    requires Serving(tasks.tasks, fd) == (if toChild == null then None else Some(toChild)) && toChild != fd
    requires |own.bytes| == ctxSize && pidAt + 4 <= ctxSize
    modifies fd, own, tasks, if toChild == null then {} else {toChild}
    ensures |own.bytes| == ctxSize
    ensures |old(fd.data)| < 8 ==>
              && served == None && own.bytes == old(own.bytes)
              && tasks.tasks == Without(old(tasks.tasks), PidOf(own.bytes, pidAt))
              && tasks.channels == Unwatched(old(tasks.channels), fd)
              && StopsWatching(old(tasks.channels), tasks.channels, fd)
    ensures |old(fd.data)| >= 8 ==> tasks.tasks == old(tasks.tasks) && tasks.channels == old(tasks.channels)
    ensures Facing(Idle, sent, ctxSize, old(fd.data), missing, rest) && missing == [] ==>
              && served == Some(sent) && fd.data == rest
              && own.bytes == LeftIn(routines(sent), old(own.bytes))
              && (toChild != null ==> toChild.data == old(toChild.data) + Response(sent, routines(sent), ctxSize))
    ensures Facing(Idle, sent, ctxSize, old(fd.data), missing, rest) && missing != [] ==>
              && served == None
              && (toChild != null ==> toChild.data == old(toChild.data))
  {
    hide ParentUnread, Response, Without, Unwatched, StopsWatching, DecodeInt;
    var gone;
    gone, served := ReceiveCall(fd, own, ctxSize, sent, missing, rest);
    if gone {
      tasks.UnregisterTaskRunning(PidOf(own.bytes, pidAt), fd);
      return;
    }
    if served.Some? && (served.value.ty == RETURN_INTEGER || served.value.ty == RETURN_STRING) {
      var to := tasks.FindByDescriptor(fd);
      var reply := routines(served.value);
      if served.value.ty == RETURN_INTEGER && served.value.ctx.Some? {
        own.bytes := reply.ctx.value;
      }
      if to != null {
        SendReply(to, served.value, reply, ctxSize);
      }
    }
  }

  /** The routine of a child's last call: the child sends a context with its pid, whose task is taken out. */
  method EndBgProcess(ctx: Context, tasks: TaskList, pidAt: nat) returns (result: int)
    requires pidAt + 4 <= |ctx.bytes|
    modifies ctx, tasks
    ensures result == 1 && ctx.bytes == WithPid(old(ctx.bytes), pidAt, 0) && PidOf(ctx.bytes, pidAt) == 0
    ensures tasks.tasks == Without(old(tasks.tasks), PidOf(old(ctx.bytes), pidAt))
    ensures forall t :: OwnPids(old(tasks.tasks)) && t in old(tasks.tasks) && t.pid == PidOf(old(ctx.bytes), pidAt) ==>
              && t !in tasks.tasks && tasks.channels == Unwatched(old(tasks.channels), t.fd)
              && StopsWatching(old(tasks.channels), tasks.channels, t.fd)
  {
    hide DecodeInt, EncodeInt, Unwatched, Without, StopsWatching;
    ghost var was := tasks.tasks;
    var pid := PidOf(ctx.bytes, pidAt);
    PidIsKept(ctx.bytes, pidAt, 0);
    ctx.bytes := WithPid(ctx.bytes, pidAt, 0);
    tasks.UnregisterTaskWithPid(pid);
    forall t | OwnPids(was) && t in was && t.pid == pid
      ensures t !in tasks.tasks && tasks.channels == Unwatched(old(tasks.channels), t.fd)
      ensures StopsWatching(old(tasks.channels), tasks.channels, t.fd)
    {
      LeavesByItsPid(was, t, pid);
    }
    result := 1;
  }

  // ----- a child that dies without its last call -----

  /** The parent's own context after a series of calls. */
  function OwnAfter(own: Bytes, calls: seq<Call>, routines: Call -> Reply): Bytes {
    if calls == [] then own
    else LeftIn(routines(calls[|calls| - 1]), OwnAfter(own, calls[..|calls| - 1], routines))
  }

  /** A call of the child before its last one: a context that it sends has the pid of the child's own copy,
      and the routine leaves that pid as it is. */
  ghost predicate Ordinary(c: Call, r: Reply, ctxSize: nat, pidAt: nat, childPid: int) {
    && ValidCall(c, ctxSize) && ValidReply(c, r, ctxSize) && pidAt + 4 <= ctxSize
    && (c.ctx.Some? ==> PidOf(c.ctx.value, pidAt) == childPid == PidOf(r.ctx.value, pidAt))
  }

  /** The context that the parent registers has the pid of the child; the child's own copy, made before, has
      another one. When the pipe ends, the task of the child is taken out of the list if and only if no call
      has sent a context: any of them leaves the other pid in the parent's own context. */
  lemma {:induction false} DeadTaskIsTakenOut(tasks: seq<Task>, t: Task, own: Bytes, childPid: int, calls: seq<Call>,
                                              routines: Call -> Reply, ctxSize: nat, pidAt: nat)
    requires OwnPids(tasks) && t in tasks
    requires |own| == ctxSize && pidAt + 4 <= ctxSize && PidOf(own, pidAt) == t.pid != childPid
    requires forall c :: c in calls ==> Ordinary(c, routines(c), ctxSize, pidAt, childPid)
    ensures var now := OwnAfter(own, calls, routines);
            && |now| == ctxSize && PidOf(now, pidAt) in {t.pid, childPid}
            && (t !in Without(tasks, PidOf(now, pidAt)) <==> forall c :: c in calls ==> c.ctx == None)
  {
    hide PidOf, Without, OwnPids;
    LeavesByItsPid(tasks, t, t.pid);
    LeavesByItsPid(tasks, t, childPid);
    if calls == [] {
    } else {
      var n := |calls| - 1;
      DeadTaskIsTakenOut(tasks, t, own, childPid, calls[..n], routines, ctxSize, pidAt);
      assert calls == calls[..n] + [calls[n]];
      assert Ordinary(calls[n], routines(calls[n]), ctxSize, pidAt, childPid);
    }
  }

  // ----- the child gets its answer -----

  /** The number, and into ctx the context that the routine left. */
  method ReceiveInteger(fromParent: Pipe, ctx: Context?, ctxSize: nat, ghost call: Call, ghost reply: Reply)
    returns (result: int)
    requires ValidReply(call, reply, ctxSize) && call.ty == RETURN_INTEGER && (call.ctx.Some? <==> ctx != null)
    requires fromParent.data == Response(call, reply, ctxSize)
    modifies fromParent, if ctx == null then {} else {ctx}
    ensures fromParent.data == []
    ensures IntReply(result, if ctx == null then None else Some(ctx.bytes)) == Outcome(reply)
  {
    hide EncodeInt, DecodeInt;
    IntRoundTrip(reply.result);
    Head(EncodeInt(reply.result), OptBytes(reply.ctx));
    var b := fromParent.Read(4);
    result := DecodeInt(b);
    if ctx != null {
      var c := fromParent.Read(ctxSize);
      assert c == reply.ctx.value && reply.ctx == Some(c);
      ctx.bytes := c;
    }
  }

  /** The string; NULL for a length of zero. */
  method ReceiveString(fromParent: Pipe, ctxSize: nat, ghost call: Call, ghost reply: Reply)
    returns (text: Option<Bytes>)
    requires ValidReply(call, reply, ctxSize) && call.ty == RETURN_STRING
    requires fromParent.data == Response(call, reply, ctxSize)
    modifies fromParent
    ensures fromParent.data == []
    ensures StringReply(text) == Outcome(reply)
  {
    hide EncodeInt, DecodeInt;
    IntRoundTrip(|OptBytes(reply.text)|);
    Head(EncodeInt(|OptBytes(reply.text)|), OptBytes(reply.text));
    var b := fromParent.Read(4);
    var n := DecodeInt(b);
    if n == 0 { return None; }
    b := fromParent.Read(n);
    text := Some(b);
    assert b == reply.text.value && reply.text == text;
  }

  /** A whole call for an integer: the child writes it, its read blocks until the parent has served the
      pipe, and it reads the answer. Both pipes end up empty. */
  method ParentVaCall(parentFd: Pipe, fromParent: Pipe, tasks: TaskList, routine: Bytes, ctx: Context?,
                      args: seq<Bytes>, own: Context, ctxSize: nat, pidAt: nat, routines: Call -> Reply)
    returns (result: int)
    requires ValidCall(CallOf(routine, RETURN_INTEGER, ctx, args), ctxSize)
    requires forall c :: ValidReply(c, routines(c), ctxSize)
    requires Serving(tasks.tasks, parentFd) == Some(fromParent) && parentFd != fromParent
    requires parentFd.data == [] && fromParent.data == []
    requires |own.bytes| == ctxSize && pidAt + 4 <= ctxSize && own != ctx
    modifies parentFd, fromParent, own, tasks, if ctx == null then {} else {ctx}
    ensures parentFd.data == [] && fromParent.data == []
    ensures tasks.tasks == old(tasks.tasks) && tasks.channels == old(tasks.channels)
    ensures own.bytes == if ctx == null then old(own.bytes) else ctx.bytes
    ensures IntReply(result, if ctx == null then None else Some(ctx.bytes))
              == Outcome(routines(old(CallOf(routine, RETURN_INTEGER, ctx, args))))
  {
    hide Request, Response;
    ghost var call := CallOf(routine, RETURN_INTEGER, ctx, args);
    SendCall(parentFd, routine, RETURN_INTEGER, ctx, args, ctxSize);
    assert Facing(Idle, call, ctxSize, parentFd.data, [], []);
    var _ := BackgroundAttention(parentFd, own, tasks, ctxSize, pidAt, routines, fromParent, call, [], []);
    result := ReceiveInteger(fromParent, ctx, ctxSize, call, routines(call));
  }

  /** A whole call for a string. */
  method ParentVaCallString(parentFd: Pipe, fromParent: Pipe, tasks: TaskList, routine: Bytes,
                            args: seq<Bytes>, own: Context, ctxSize: nat, pidAt: nat, routines: Call -> Reply)
    returns (text: Option<Bytes>)
    requires ValidCall(Call(routine, RETURN_STRING, None, args), ctxSize)
    requires forall c :: ValidReply(c, routines(c), ctxSize)
    requires Serving(tasks.tasks, parentFd) == Some(fromParent) && parentFd != fromParent
    requires parentFd.data == [] && fromParent.data == []
    requires |own.bytes| == ctxSize && pidAt + 4 <= ctxSize
    modifies parentFd, fromParent, own, tasks
    ensures parentFd.data == [] && fromParent.data == []
    ensures tasks.tasks == old(tasks.tasks) && tasks.channels == old(tasks.channels) && own.bytes == old(own.bytes)
    ensures StringReply(text) == Outcome(routines(Call(routine, RETURN_STRING, None, args)))
  {
    hide Request, Response;
    ghost var call := Call(routine, RETURN_STRING, None, args);
    SendCall(parentFd, routine, RETURN_STRING, null, args, ctxSize);
    assert Facing(Idle, call, ctxSize, parentFd.data, [], []);
    var _ := BackgroundAttention(parentFd, own, tasks, ctxSize, pidAt, routines, fromParent, call, [], []);
    text := ReceiveString(fromParent, ctxSize, call, routines(call));
  }
}
