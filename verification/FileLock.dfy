/** Locking a file by a symbolic link that names its owner (lib/lock.c): one process alone, and any
    number of processes whose system calls interleave. */
module FileLock {
  import opened LockName
  import opened Numbers
  import opened Wrappers

  /** A path; the empty one is turned away before anything else. */
  type File = f: string | f != "" witness "."
  type Pid = nat

  /** What a link says; None for a lock that is no link, or one that cannot be read. */
  type Link = Option<string>

  /** The processes that are alive, and what they are called. */
  datatype World = World(live: set<Pid>, users: Pid -> string, host: string)

  function NameOf(w: World, p: Pid): string {
    LockBuildName(w.users(p), w.host, p)
  }

  function LinkOf(w: World, p: Pid): Link {
    Some(NameOf(w, p))
  }

  /** Process numbers of at most nine digits, and names that fit the buffer. */
  ghost predicate Proper(w: World) {
    forall p :: p in w.live ==> 0 < p < 1_000_000_000 && |NameOf(w, p)| < BUF_SIZE
  }

  function PidIn(link: Link): int {
    match link
    case None => 0
    case Some(text) => PidOf(LockGetInfo(text))
  }

  predicate Alive(w: World, pid: int) {
    pid >= 0 && pid in w.live
  }

  /** A lock that lock_file removes without asking: its process is gone. */
  predicate Stale(w: World, link: Link) {
    PidIn(link) != 0 && !Alive(w, PidIn(link))
  }

  /** lock_file removes this lock: it can be read, and is stale, or the user grabs it. */
  predicate GivesWay(w: World, link: Link, grab: bool) {
    link.Some? && (Stale(w, link) || grab)
  }

  /** unlock_file removes this lock: one of the process itself, or one that cannot be read. */
  predicate TakenForOwn(link: Link, me: Pid) {
    link.None? || PidIn(link) == me
  }

  /** The link names the process number p of that user and host, which has at most nine digits. */
  ghost predicate Names(link: Link, user: string, host: string, p: Pid) {
    && link == Some(user + "@" + host + "." + Decimal(p))
    && 0 < p < 1_000_000_000 && |user + "@" + host + "." + Decimal(p)| < 255
  }

  /** Without grabbing, a lock that names a process gives way if and only if that process is gone; one that
      cannot be read never does. */
  lemma GivesWayIffGone(w: World, link: Link, user: string, host: string, p: Pid)
    requires Names(link, user, host, p)
    ensures GivesWay(w, link, false) <==> p !in w.live
    ensures GivesWay(w, link, true) && !GivesWay(w, None, false) && !GivesWay(w, None, true)
    ensures PidIn(link) == p
  {
    PidOfName(user, host, p);
  }

  // ----- one process at a time -----

  class LockDirectory {
    var links: map<string, Link>

    constructor ()
      ensures links == map[]
    {
      links := map[];
    }

    /** grab is the user's answer when the file is locked. Returns 1 if the lock was taken. */
    method LockFile(w: World, me: Pid, file: string, grab: bool) returns (r: int)
      modifies this
      ensures file == "" || (file in old(links) && !GivesWay(w, old(links)[file], grab)) ==>
                r == 0 && links == old(links)
      ensures !(file == "" || (file in old(links) && !GivesWay(w, old(links)[file], grab))) ==>
                r == 1 && links == old(links)[file := LinkOf(w, me)]
      ensures forall user: string, host: string, p: Pid ::
                file != "" && file in old(links) && !grab && Names(old(links)[file], user, host, p) ==>
                  if p in w.live then r == 0 && links == old(links)
                  else r == 1 && links == old(links)[file := Some(w.users(me) + "@" + w.host + "." + Decimal(me))]
    {
      hide Names;
      if file in links {
        forall user: string, host: string, p: Pid | Names(links[file], user, host, p)
          ensures GivesWay(w, links[file], false) <==> p !in w.live
        {
          GivesWayIffGone(w, links[file], user, host, p);
        }
      }
      if file == "" { return 0; }
      if file in links {
        var lock := links[file];
        if lock == None { return 0; }
        var pid := PidOf(LockGetInfo(lock.value));
        if pid == 0 || Alive(w, pid) {
          if !grab { return 0; }
        }
        links := links - {file};
      }
      links := links[file := LinkOf(w, me)];
      r := 1;
    }

    /** Leaves a lock of another process alone. */
    method UnlockFile(w: World, me: Pid, file: string)
      modifies this
      ensures links == if file != "" && file in old(links) && TakenForOwn(old(links)[file], me)
                       then old(links) - {file} else old(links)
      ensures forall user: string, host: string, p: Pid ::
                file != "" && file in old(links) && Names(old(links)[file], user, host, p) ==>
                  links == if p == me then old(links) - {file} else old(links)
    {
      hide Names;
      if file in links {
        forall user: string, host: string, p: Pid | Names(links[file], user, host, p)
          ensures TakenForOwn(links[file], me) <==> p == me
        {
          GivesWayIffGone(World({}, _ => "", ""), links[file], user, host, p);
        }
      }
      if file == "" { return; }
      if file !in links { return; }
      var lock := links[file];
      if lock.Some? {
        if PidOf(LockGetInfo(lock.value)) != me { return; }
      }
      links := links - {file};
    }
  }

  // ----- many processes -----

  /** Where a process is in lock_file or unlock_file: the system call that comes next. */
  datatype Process =
    | Outside
    | LockLstat(file: File)
    | LockReadlink(file: File)
    | LockUnlink(file: File)
    | LockSymlink(file: File)
    | UnlockLstat(file: File)
    | UnlockReadlink(file: File)
    | UnlockUnlink(file: File)

  /** holders are the pairs of a process whose lock_file returned 1 and that has not called
      unlock_file since. */
  datatype State = State(links: map<File, Link>, processes: map<Pid, Process>, holders: set<(Pid, File)>)

  function Start(links: map<File, Link>): State {
    State(links, map[], {})
  }

  function At(s: State, p: Pid): Process {
    if p in s.processes then s.processes[p] else Outside
  }

  datatype Action =
    | CallLock(file: File)
    | CallUnlock(file: File)
    | Go(grab: bool)

  datatype Event = Event(pid: Pid, action: Action)

  function Goto(s: State, p: Pid, c: Process): State {
    s.(processes := s.processes[p := c])
  }

  /** One event; one that is not possible changes nothing. */
  function Step(w: World, s: State, e: Event): State {
    var p := e.pid;
    if p !in w.live then s
    else match e.action
      case CallLock(f) => if At(s, p).Outside? then Goto(s, p, LockLstat(f)) else s
      case CallUnlock(f) =>
        if At(s, p).Outside? then Goto(s, p, UnlockLstat(f)).(holders := s.holders - {(p, f)}) else s
      case Go(grab) => Advance(w, s, p, grab)
  }

  /** The next system call of process p. */
  function Advance(w: World, s: State, p: Pid, grab: bool): State {
    match At(s, p)
    case Outside => s
    case LockLstat(f) => Goto(s, p, if f in s.links then LockReadlink(f) else LockSymlink(f))
    case LockReadlink(f) =>
      if f in s.links && GivesWay(w, s.links[f], grab) then Goto(s, p, LockUnlink(f)) else Goto(s, p, Outside)
    case LockUnlink(f) => Goto(s, p, LockSymlink(f)).(links := s.links - {f})
    case LockSymlink(f) =>
      if f in s.links then Goto(s, p, Outside)
      else Goto(s, p, Outside).(links := s.links[f := LinkOf(w, p)], holders := s.holders + {(p, f)})
    case UnlockLstat(f) => Goto(s, p, if f in s.links then UnlockReadlink(f) else Outside)
    case UnlockReadlink(f) =>
      if f in s.links && !TakenForOwn(s.links[f], p) then Goto(s, p, Outside) else Goto(s, p, UnlockUnlink(f))
    case UnlockUnlink(f) => Goto(s, p, Outside).(links := s.links - {f})
  }

  function After(w: World, s: State, run: seq<Event>): State
    decreases |run|
  {
    if run == [] then s else After(w, Step(w, s, run[0]), run[1..])
  }

  /** Nobody grabs a lock. */
  predicate NoGrab(run: seq<Event>) {
    forall i :: 0 <= i < |run| ==> !(run[i].action.Go? && run[i].action.grab)
  }

  /** unlock_file is called only by a holder of the file. */
  predicate HoldersUnlock(w: World, s: State, run: seq<Event>)
    decreases |run|
  {
    run == [] ||
    ((run[0].action.CallUnlock? ==> (run[0].pid, run[0].action.file) in s.holders)
     && HoldersUnlock(w, Step(w, s, run[0]), run[1..]))
  }

  /** At most one process holds a file, and the link names it. */
  ghost predicate Exclusive(w: World, s: State) {
    && (forall p, q, f :: (p, f) in s.holders && (q, f) in s.holders ==> p == q)
    && (forall p, f :: (p, f) in s.holders ==> f in s.links && s.links[f] == LinkOf(w, p))
  }

  // ----- the invariant -----

  ghost predicate NoStaleLock(w: World, links: map<File, Link>) {
    forall f :: f in links ==> !Stale(w, links[f])
  }

  predicate Unlocking(c: Process, f: File) {
    (c.UnlockLstat? || c.UnlockReadlink? || c.UnlockUnlink?) && c.file == f
  }

  ghost predicate Owns(w: World, s: State, p: Pid, f: File) {
    p in w.live && f in s.links && s.links[f] == LinkOf(w, p)
  }

  ghost predicate Inv(w: World, s: State) {
    && NoStaleLock(w, s.links)
    && (forall p, f :: (p, f) in s.holders ==> Owns(w, s, p, f) && !Unlocking(At(s, p), f))
    && (forall p :: p in s.processes ==> !s.processes[p].LockUnlink?)
    && (forall p, f :: p in s.processes && Unlocking(s.processes[p], f) ==> Owns(w, s, p, f))
  }

  lemma NameRead(w: World, p: Pid)
    requires Proper(w) && p in w.live
    ensures PidIn(LinkOf(w, p)) == p && !Stale(w, LinkOf(w, p))
  {
    PidOfName(w.users(p), w.host, p);
  }

  lemma OneOwner(w: World, s: State, p: Pid, q: Pid, f: File)
    requires Proper(w) && Owns(w, s, p, f) && Owns(w, s, q, f)
    ensures p == q
  {
    NameRead(w, p);
    NameRead(w, q);
  }

  /** A process that owns no file and removes none moves on; the links stay. */
  lemma MoveKeeps(w: World, s: State, p: Pid, c: Process)
    requires Inv(w, s) && !c.LockUnlink?
    requires forall f :: Unlocking(c, f) ==> Owns(w, s, p, f) && (p, f) !in s.holders
    ensures Inv(w, Goto(s, p, c))
  {
    hide PidIn, NameOf, Stale;
  }

  lemma AdvanceKeeps(w: World, s: State, p: Pid)
    requires Proper(w) && Inv(w, s) && p in w.live
    ensures Inv(w, Advance(w, s, p, false))
  {
    hide PidIn, NameOf, Proper, Stale;
    match At(s, p)
    case LockSymlink(f) =>
      NameRead(w, p);
      MoveKeeps(w, s, p, Outside);
    case UnlockUnlink(f) =>
      forall q | Owns(w, s, q, f)
        ensures p == q
      {
        OneOwner(w, s, p, q, f);
      }
    case Outside =>
    case LockLstat(f) => MoveKeeps(w, s, p, if f in s.links then LockReadlink(f) else LockSymlink(f));
    case LockReadlink(f) => MoveKeeps(w, s, p, Outside);
    case LockUnlink(f) => assert false;
    case UnlockLstat(f) => MoveKeeps(w, s, p, if f in s.links then UnlockReadlink(f) else Outside);
    case UnlockReadlink(f) =>
      MoveKeeps(w, s, p, Outside);
      MoveKeeps(w, s, p, UnlockUnlink(f));
  }

  lemma StepKeeps(w: World, s: State, e: Event)
    requires Proper(w) && Inv(w, s)
    requires !(e.action.Go? && e.action.grab)
    requires e.action.CallUnlock? ==> (e.pid, e.action.file) in s.holders
    ensures Inv(w, Step(w, s, e))
  {
    hide PidIn, NameOf, Proper, Stale, Advance;
    if e.pid in w.live {
      match e.action
      case CallLock(f) => MoveKeeps(w, s, e.pid, LockLstat(f));
      case CallUnlock(f) => MoveKeeps(w, s.(holders := s.holders - {(e.pid, f)}), e.pid, UnlockLstat(f));
      case Go(_) => AdvanceKeeps(w, s, e.pid);
    }
  }

  lemma {:induction false} RunKeeps(w: World, s: State, run: seq<Event>)
    requires Proper(w) && Inv(w, s) && NoGrab(run) && HoldersUnlock(w, s, run)
    ensures Inv(w, After(w, s, run))
    decreases |run|
  {
    hide Inv, Step;
    if run == [] {
    } else {
      StepKeeps(w, s, run[0]);
      RunKeeps(w, Step(w, s, run[0]), run[1..]);
    }
  }

  /** In every run of processes that stay alive, with nobody grabbing a lock and only holders unlocking,
      a file has at most one holder and its link names that holder. */
  lemma OneHolder(w: World, links: map<File, Link>, run: seq<Event>)
    requires Proper(w) && NoStaleLock(w, links) && NoGrab(run) && HoldersUnlock(w, Start(links), run)
    ensures Exclusive(w, After(w, Start(links), run))
  {
    RunKeeps(w, Start(links), run);
    var s := After(w, Start(links), run);
    forall p, q, f | (p, f) in s.holders && (q, f) in s.holders
      ensures p == q
    {
      OneOwner(w, s, p, q, f);
    }
  }

  // ----- what each condition is for -----

  /** Two processes that hold the same file. */
  ghost predicate TwoHolders(s: State, p: Pid, q: Pid, f: File) {
    p != q && (p, f) in s.holders && (q, f) in s.holders
  }

  const GO := Go(false)

  lemma {:induction false} Split(w: World, s: State, a: seq<Event>, b: seq<Event>)
    ensures After(w, s, a + b) == After(w, After(w, s, a), b)
    ensures HoldersUnlock(w, s, a + b) <==> HoldersUnlock(w, s, a) && HoldersUnlock(w, After(w, s, a), b)
    ensures NoGrab(a + b) <==> NoGrab(a) && NoGrab(b)
    decreases |a|
  {
    hide Step;
    assert NoGrab(a + b) ==> NoGrab(a) && NoGrab(b) by {
      assert forall i :: 0 <= i < |a| ==> a[i] == (a + b)[i];
      assert forall i :: 0 <= i < |b| ==> b[i] == (a + b)[|a| + i];
    }
    if a == [] {
      assert a + b == b;
    } else {
      assert (a + b)[1..] == a[1..] + b;
      Split(w, Step(w, s, a[0]), a[1..], b);
    }
  }

  lemma Two(w: World, s: State, a: Event, b: Event)
    requires !a.action.CallUnlock? && !b.action.CallUnlock?
    ensures After(w, s, [a, b]) == Step(w, Step(w, s, a), b)
    ensures HoldersUnlock(w, s, [a, b])
  {
    hide Step;
    assert [a, b][1..] == [b] && [b][1..] == [];
    assert After(w, Step(w, s, a), [b]) == After(w, Step(w, Step(w, s, a), b), []);
    assert HoldersUnlock(w, Step(w, s, a), [b]);
  }

  /** Process p calls lock_file and makes two system calls. */
  function Try(p: Pid, f: File, grab: bool): seq<Event> {
    [Event(p, CallLock(f)), Event(p, GO)] + [Event(p, Go(grab))]
  }

  lemma Tries(w: World, s: State, p: Pid, f: File, grab: bool)
    requires p in w.live && At(s, p).Outside?
    ensures HoldersUnlock(w, s, Try(p, f, grab)) && (NoGrab(Try(p, f, grab)) <==> !grab)
    ensures After(w, s, Try(p, f, grab)) ==
              if f !in s.links then
                Goto(s, p, Outside).(links := s.links[f := LinkOf(w, p)], holders := s.holders + {(p, f)})
              else if GivesWay(w, s.links[f], grab) then Goto(s, p, LockUnlink(f))
              else Goto(s, p, Outside)
  {
    hide After, Stale, NameOf;
    var s1 := Step(w, s, Event(p, CallLock(f)));
    var s2 := Step(w, s1, Event(p, GO));
    var s3 := Step(w, s2, Event(p, Go(grab)));
    Two(w, s, Event(p, CallLock(f)), Event(p, GO));
    Single(w, s2, Event(p, Go(grab)));
    Split(w, s, [Event(p, CallLock(f)), Event(p, GO)], [Event(p, Go(grab))]);
    assert s3.processes == Goto(s, p, At(s3, p)).processes;
    assert NoGrab([Event(p, CallLock(f)), Event(p, GO)]);
    assert [Event(p, Go(grab))][0].action == Go(grab);
  }

  lemma Single(w: World, s: State, e: Event)
    ensures After(w, s, [e]) == Step(w, s, e)
    ensures HoldersUnlock(w, s, [e]) <==> (e.action.CallUnlock? ==> (e.pid, e.action.file) in s.holders)
  {
    hide Step;
    assert [e][1..] == [];
  }

  /** Process p removes the lock it found and makes its own. */
  function Replace(p: Pid): seq<Event> {
    [Event(p, GO), Event(p, GO)]
  }

  lemma Replaces(w: World, s: State, p: Pid, f: File)
    requires p in w.live && At(s, p) == LockUnlink(f)
    ensures After(w, s, Replace(p)) ==
              Goto(s, p, Outside).(links := s.links[f := LinkOf(w, p)], holders := s.holders + {(p, f)})
    ensures HoldersUnlock(w, s, Replace(p)) && NoGrab(Replace(p))
  {
    hide After, NameOf;
    Two(w, s, Event(p, GO), Event(p, GO));
    var s1 := Step(w, s, Event(p, GO));
    var s2 := Step(w, s1, Event(p, GO));
    assert s2 == Goto(s, p, Outside).(links := s.links[f := LinkOf(w, p)], holders := s.holders + {(p, f)});
  }

  /** Both processes find the stale lock; the second removes the lock that the first has just made. */
  function StaleRun(p: Pid, q: Pid, f: File): seq<Event> {
    Try(p, f, false) + (Try(q, f, false) + (Replace(p) + Replace(q)))
  }

  lemma StaleGivesWay(w: World, link: Link)
    requires Stale(w, link)
    ensures GivesWay(w, link, false)
  {
  }

  lemma StaleRace(w: World, links: map<File, Link>, f: File, p: Pid, q: Pid)
    requires p in w.live && q in w.live && p != q && f in links && Stale(w, links[f])
    ensures var run := StaleRun(p, q, f);
            NoGrab(run) && HoldersUnlock(w, Start(links), run) && TwoHolders(After(w, Start(links), run), p, q, f)
  {
    hide After, HoldersUnlock, NoGrab, Try, Replace, Stale;
    StaleGivesWay(w, links[f]);
    var s0 := Start(links);
    var s1 := Goto(s0, p, LockUnlink(f));
    var s2 := Goto(s1, q, LockUnlink(f));
    Tries(w, s0, p, f, false);
    Tries(w, s1, q, f, false);
    Replaces(w, s2, p, f);
    Replaces(w, After(w, s2, Replace(p)), q, f);
    Split(w, s0, Try(p, f, false), Try(q, f, false) + (Replace(p) + Replace(q)));
    Split(w, s1, Try(q, f, false), Replace(p) + Replace(q));
    Split(w, s2, Replace(p), Replace(q));
  }

  /** With two processes or more, every run is safe if and only if no lock is stale at the start. */
  lemma SafeIffNoStaleLock(w: World, links: map<File, Link>, p: Pid, q: Pid)
    requires Proper(w) && p in w.live && q in w.live && p != q
    ensures NoStaleLock(w, links) <==>
              (forall run :: NoGrab(run) && HoldersUnlock(w, Start(links), run) ==>
                 Exclusive(w, After(w, Start(links), run)))
  {
    if NoStaleLock(w, links) {
      forall run | NoGrab(run) && HoldersUnlock(w, Start(links), run)
        ensures Exclusive(w, After(w, Start(links), run))
      {
        OneHolder(w, links, run);
      }
    } else {
      var f :| f in links && Stale(w, links[f]);
      StaleRace(w, links, f, p, q);
    }
  }

  /** A user who grabs the lock of a process that is at work makes a second holder. */
  lemma GrabRace(w: World, links: map<File, Link>, f: File, p: Pid, q: Pid)
    requires Proper(w) && p in w.live && q in w.live && p != q && f !in links
    ensures exists run :: HoldersUnlock(w, Start(links), run) && TwoHolders(After(w, Start(links), run), p, q, f)
  {
    hide After, HoldersUnlock, NoGrab, Try, Replace, Stale;
    var s0 := Start(links);
    var s1 := After(w, s0, Try(q, f, false));
    Tries(w, s0, q, f, false);
    Tries(w, s1, p, f, true);
    Replaces(w, Goto(s1, p, LockUnlink(f)), p, f);
    Split(w, s0, Try(q, f, false), Try(p, f, true) + Replace(p));
    Split(w, s1, Try(p, f, true), Replace(p));
    var run := Try(q, f, false) + (Try(p, f, true) + Replace(p));
    assert TwoHolders(After(w, s0, run), p, q, f);
  }

  /** Process p has called unlock_file and seen that there is a lock. */
  function LookAt(p: Pid, f: File): seq<Event> {
    [Event(p, CallUnlock(f))] + [Event(p, GO)]
  }

  lemma LooksAt(w: World, s: State, p: Pid, f: File)
    requires p in w.live && At(s, p).Outside? && f in s.links
    ensures After(w, s, LookAt(p, f)) == Goto(s, p, UnlockReadlink(f)).(holders := s.holders - {(p, f)})
    ensures NoGrab(LookAt(p, f))
  {
    hide After;
    var s1 := Step(w, s, Event(p, CallUnlock(f)));
    Split(w, s, [Event(p, CallUnlock(f))], [Event(p, GO)]);
    Single(w, s, Event(p, CallUnlock(f)));
    Single(w, s1, Event(p, GO));
    assert Step(w, s1, Event(p, GO)) == Goto(s, p, UnlockReadlink(f)).(holders := s.holders - {(p, f)});
  }

  /** Process p reads the link, finds it its own or missing, and removes the lock. */
  lemma Removes(w: World, s: State, p: Pid, f: File)
    requires p in w.live && At(s, p) == UnlockReadlink(f) && (f in s.links ==> TakenForOwn(s.links[f], p))
    ensures After(w, s, Replace(p)) == Goto(s, p, Outside).(links := s.links - {f})
    ensures NoGrab(Replace(p))
  {
    hide After, PidIn;
    Two(w, s, Event(p, GO), Event(p, GO));
    var s1 := Step(w, s, Event(p, GO));
    assert Step(w, s1, Event(p, GO)) == Goto(s, p, Outside).(links := s.links - {f});
  }

  /** A process that nobody interrupts locks a file just as LockFile does. */
  lemma UndisturbedLock(w: World, s: State, p: Pid, f: File, grab: bool)
    requires p in w.live && At(s, p).Outside?
    ensures After(w, s, Try(p, f, grab) + Replace(p)) ==
              if f in s.links && !GivesWay(w, s.links[f], grab) then Goto(s, p, Outside)
              else Goto(s, p, Outside).(links := s.links[f := LinkOf(w, p)], holders := s.holders + {(p, f)})
  {
    hide After, Try, Replace, Stale, PidIn, NameOf, GivesWay;
    Split(w, s, Try(p, f, grab), Replace(p));
    Tries(w, s, p, f, grab);
    var s1 := After(w, s, Try(p, f, grab));
    if f in s.links && GivesWay(w, s.links[f], grab) {
      Replaces(w, s1, p, f);
      assert Goto(Goto(s, p, LockUnlink(f)), p, Outside) == Goto(s, p, Outside);
    } else {
      Rests(w, s1, p);
    }
  }

  lemma Rests(w: World, s: State, p: Pid)
    requires At(s, p).Outside?
    ensures After(w, s, Replace(p)) == s
  {
    Two(w, s, Event(p, GO), Event(p, GO));
  }

  /** And it unlocks one just as UnlockFile does. */
  lemma UndisturbedUnlock(w: World, s: State, p: Pid, f: File)
    requires p in w.live && At(s, p).Outside?
    ensures After(w, s, LookAt(p, f) + Replace(p)) ==
              Goto(s, p, Outside).(
                holders := s.holders - {(p, f)},
                links := if f in s.links && TakenForOwn(s.links[f], p) then s.links - {f} else s.links)
  {
    hide After, LookAt, Replace, PidIn, TakenForOwn;
    Split(w, s, LookAt(p, f), Replace(p));
    if f !in s.links {
      LooksInVain(w, s, p, f);
      Rests(w, After(w, s, LookAt(p, f)), p);
    } else {
      LooksAt(w, s, p, f);
      var s1 := After(w, s, LookAt(p, f));
      assert Goto(s1, p, Outside).processes == Goto(s, p, Outside).processes;
      if TakenForOwn(s.links[f], p) { Removes(w, s1, p, f); } else { LeavesAlone(w, s1, p, f); }
    }
  }

  lemma LooksInVain(w: World, s: State, p: Pid, f: File)
    requires p in w.live && At(s, p).Outside? && f !in s.links
    ensures After(w, s, LookAt(p, f)) == Goto(s, p, Outside).(holders := s.holders - {(p, f)})
  {
    hide After;
    var s1 := Step(w, s, Event(p, CallUnlock(f)));
    Split(w, s, [Event(p, CallUnlock(f))], [Event(p, GO)]);
    Single(w, s, Event(p, CallUnlock(f)));
    Single(w, s1, Event(p, GO));
    assert Step(w, s1, Event(p, GO)) == Goto(s, p, Outside).(holders := s.holders - {(p, f)});
  }

  lemma LeavesAlone(w: World, s: State, p: Pid, f: File)
    requires p in w.live && At(s, p) == UnlockReadlink(f) && f in s.links && !TakenForOwn(s.links[f], p)
    ensures After(w, s, Replace(p)) == Goto(s, p, Outside)
  {
    hide After, PidIn, TakenForOwn;
    Two(w, s, Event(p, GO), Event(p, GO));
    assert Step(w, s, Event(p, GO)) == Goto(s, p, Outside);
    assert Step(w, Goto(s, p, Outside), Event(p, GO)) == Goto(s, p, Outside);
  }

  /** Unlocking by a process that is no holder. It sees q's lock; q removes it; to read it then fails,
      which p takes for a broken lock; and what p removes is the next lock that q has made. */
  lemma StrayUnlockRace(w: World, links: map<File, Link>, f: File, p: Pid, q: Pid)
    requires Proper(w) && p in w.live && q in w.live && p != q && f !in links
    ensures exists run :: NoGrab(run) && TwoHolders(After(w, Start(links), run), p, q, f)
  {
    hide After, NoGrab, Try, Replace, LookAt, Stale, PidIn, NameOf;
    NameRead(w, q);
    var s0 := Start(links);
    var s1 := After(w, s0, Try(q, f, false));
    Tries(w, s0, q, f, false);
    var s2 := After(w, s1, LookAt(p, f));
    LooksAt(w, s1, p, f);
    var s3 := After(w, s2, LookAt(q, f));
    LooksAt(w, s2, q, f);
    var s4 := After(w, s3, Replace(q));
    Removes(w, s3, q, f);
    StrayEnd(w, s4, f, p, q);
    var end :| NoGrab(end) && TwoHolders(After(w, s4, end), p, q, f);
    Split(w, s0, Try(q, f, false), LookAt(p, f) + (LookAt(q, f) + (Replace(q) + end)));
    Split(w, s1, LookAt(p, f), LookAt(q, f) + (Replace(q) + end));
    Split(w, s2, LookAt(q, f), Replace(q) + end);
    Split(w, s3, Replace(q), end);
    var run := Try(q, f, false) + (LookAt(p, f) + (LookAt(q, f) + (Replace(q) + end)));
    assert TwoHolders(After(w, s0, run), p, q, f);
  }

  lemma StrayEnd(w: World, s: State, f: File, p: Pid, q: Pid)
    requires p in w.live && q in w.live && p != q && f !in s.links
    requires At(s, p) == UnlockReadlink(f) && At(s, q).Outside?
    ensures exists run :: NoGrab(run) && TwoHolders(After(w, s, run), p, q, f)
  {
    hide After, Try, Stale, PidIn, NameOf;
    var go := [Event(p, GO)];
    var s1 := After(w, s, go);
    Single(w, s, Event(p, GO));
    var s2 := After(w, s1, Try(q, f, false));
    Tries(w, s1, q, f, false);
    var s3 := After(w, s2, go);
    Single(w, s2, Event(p, GO));
    Tries(w, s3, p, f, false);
    Split(w, s, go, Try(q, f, false) + (go + Try(p, f, false)));
    Split(w, s1, Try(q, f, false), go + Try(p, f, false));
    Split(w, s2, go, Try(p, f, false));
    var run := go + (Try(q, f, false) + (go + Try(p, f, false)));
    assert TwoHolders(After(w, s, run), p, q, f);
  }
}
