/** The text of a lock: user@host.pid, as it is built and as it is taken apart (lib/lock.c). */
module LockName {
  import opened Numbers
  import opened PathBuffer
  import opened Sequences

  const BUF_SIZE := 255
  const PID_BUF_SIZE := 10
  const PID_MAX := 0x7FFF_FFFF

  function LockBuildName(user: string, host: string, pid: nat): string {
    user + "@" + host + "." + Decimal(pid)
  }

  /** What readlink leaves in the buffer of BUF_SIZE characters. */
  function LockGetInfo(link: string): string {
    if |link| <= BUF_SIZE - 1 then link else link[..BUF_SIZE - 1]
  }

  /** The index of the last dot, -1 if there is none. */
  function LastDot(s: string): (k: int)
    ensures -1 <= k < |s|
    ensures k >= 0 ==> s[k] == '.'
    ensures forall i :: k < i < |s| ==> s[i] != '.'
  {
    if s == "" then -1
    else if s[|s| - 1] == '.' then |s| - 1
    else LastDot(s[..|s| - 1])
  }

  /** The text before the last dot, as far as it fits. */
  function WhoOf(s: string): string {
    var n := if LastDot(s) < 0 then 0 else LastDot(s);
    s[..if n < BUF_SIZE then n else BUF_SIZE - 1]
  }

  /** The text between the last dot and the colon or the end; of ten characters or more, nine. */
  function PidText(s: string): string {
    var t := s[LastDot(s) + 1..];
    var u := t[..IndexOf(t, ':')];
    if |u| < PID_BUF_SIZE then u else u[..PID_BUF_SIZE - 1]
  }

  function PidOf(s: string): int {
    Atol(PidText(s))
  }

  lemma {:induction false} LastDotAt(a: string, b: string)
    requires '.' !in b
    ensures LastDot(a + "." + b) == |a|
  {
    var s := a + "." + b;
    if b == "" {
    } else {
      LastDotAt(a, b[..|b| - 1]);
      assert s[..|s| - 1] == a + "." + b[..|b| - 1];
      assert s[|s| - 1] == b[|b| - 1];
    }
  }

  lemma Around(a: string, b: string)
    ensures (a + "." + b)[..|a|] == a && (a + "." + b)[|a| + 1..] == b
  {
  }

  lemma NoColon(d: string)
    requires AllDigits(d)
    ensures IndexOf(d, ':') == |d| && '.' !in d
  {
    assert d[..|d|] == d;
  }

  lemma PidTextOfName(who: string, pid: nat)
    ensures var d := Decimal(pid);
            PidText(who + "." + d) == if |d| < PID_BUF_SIZE then d else d[..PID_BUF_SIZE - 1]
    ensures LastDot(who + "." + Decimal(pid)) == |who|
  {
    hide LastDot, IndexOf, Decimal;
    var d := Decimal(pid);
    NoColon(d);
    LastDotAt(who, d);
    Around(who, d);
    assert d[..|d|] == d;
  }

  lemma TenDigits(pid: nat)
    requires pid <= PID_MAX
    ensures |Decimal(pid)| <= 10
    ensures |Decimal(pid)| <= 9 <==> pid < 1_000_000_000
  {
    DecimalLength(pid, 10);
    DecimalLength(pid, 9);
    assert Pow10(3) == 1000;
    assert Pow10(6) == 1_000_000;
    assert Pow10(9) == 1_000_000_000;
    assert Pow10(10) == 10_000_000_000;
  }

  /** Taking a name apart gives back its process number just when that has at most nine digits; of a
      longer one the last digit is lost. */
  lemma PidOfName(user: string, host: string, pid: nat)
    requires pid <= PID_MAX && |LockBuildName(user, host, pid)| < BUF_SIZE
    ensures var found := PidOf(LockGetInfo(LockBuildName(user, host, pid)));
            && (found == pid <==> pid < 1_000_000_000)
            && (pid >= 1_000_000_000 ==> found == pid / 10)
    ensures WhoOf(LockGetInfo(LockBuildName(user, host, pid))) == user + "@" + host
  {
    hide LastDot, IndexOf, Atol;
    PidOfText(user + "@" + host, pid);
    Around(user + "@" + host, Decimal(pid));
    PidTextOfName(user + "@" + host, pid);
  }

  lemma PidOfText(who: string, pid: nat)
    requires pid <= PID_MAX
    ensures PidOf(who + "." + Decimal(pid)) == if pid < 1_000_000_000 then pid else pid / 10
  {
    hide LastDot, IndexOf, Atol;
    var d := Decimal(pid);
    PidTextOfName(who, pid);
    TenDigits(pid);
    if |d| < PID_BUF_SIZE {
      AtolOfDecimal(pid, "");
      assert d + "" == d;
    } else {
      assert d[..PID_BUF_SIZE - 1] == Decimal(pid / 10);
      AtolOfDecimal(pid / 10, "");
      assert Decimal(pid / 10) + "" == Decimal(pid / 10);
    }
  }

  lemma WhoBefore(who: string, t: string)
    requires '.' !in t
    ensures WhoOf(who + "." + t) == (if |who| <= 254 then who else who[..254])
    ensures PidText(who + "." + t) == PidText(t)
  {
    hide LastDot, IndexOf;
    LastDotAt(who, t);
    Around(who, t);
    NoDot(t);
    assert |who| > 254 ==> (who + "." + t)[..254] == who[..254];
  }

  /** What is taken out of any text: the owner is what stands before the last dot, at most 254 characters of
      it, and the number what atol makes of at most nine characters behind it, up to a colon. */
  lemma TakenApart(who: string, num: string, tail: string)
    requires '.' !in num && ':' !in num && '.' !in tail && (tail == "" || tail[0] == ':')
    ensures var s := who + "." + (num + tail);
            && WhoOf(s) == (if |who| <= 254 then who else who[..254])
            && PidOf(s) == Atol(if |num| <= 9 then num else num[..9])
    ensures WhoOf(num + tail) == "" && PidOf(num + tail) == Atol(if |num| <= 9 then num else num[..9])
  {
    hide LastDot, Atol, IndexOf;
    WhoBefore(who, num + tail);
    UpToColon(num, tail);
    NoDot(num + tail);
  }

  lemma UpToColon(num: string, tail: string)
    requires ':' !in num && (tail == "" || tail[0] == ':')
    ensures (num + tail)[..IndexOf(num + tail, ':')] == num
  {
    hide IndexOf;
    var k := IndexOf(num + tail, ':');
    assert forall i :: 0 <= i < |num| ==> (num + tail)[i] == num[i];
    if tail != "" { assert (num + tail)[|num|] == tail[0] == ':'; }
  }

  lemma NoDot(t: string)
    requires '.' !in t
    ensures LastDot(t) == -1 && t[LastDot(t) + 1..] == t
  {
    hide LastDot;
  }

  /** A link is read whole if it has at most 254 characters; otherwise these are what is read of it. */
  lemma LinkIsCut(link: string)
    ensures LockGetInfo(link) <= link && |LockGetInfo(link)| == if |link| <= 254 then |link| else 254
  {
  }

  /** Two processes never write the same text. */
  lemma NamesDiffer(user: string, host: string, pid: nat, user': string, host': string, pid': nat)
    requires LockBuildName(user, host, pid) == LockBuildName(user', host', pid')
    ensures pid == pid' && user + "@" + host == user' + "@" + host'
  {
    hide LastDot, IndexOf, Atol, Decimal, PidText;
    PidTextOfName(user + "@" + host, pid);
    PidTextOfName(user' + "@" + host', pid');
    Around(user + "@" + host, Decimal(pid));
    Around(user' + "@" + host', Decimal(pid'));
    DecimalIsInjective(pid, pid');
  }

  // ----- taking a name apart, in the static buffers -----

  class LockInfo {
    const who: array<char>
    const pidText: array<char>
    var pid: int

    ghost predicate Valid() {
      who.Length == BUF_SIZE && pidText.Length == PID_BUF_SIZE && who != pidText
    }

    constructor ()
      ensures Valid() && fresh(who) && fresh(pidText)
    {
      who := new char[BUF_SIZE](_ => '\0');
      pidText := new char[PID_BUF_SIZE](_ => '\0');
      pid := 0;
      new;
    }

    /** Copies the part of str before p into who. */
    method CopyWho(str: string, p: int)
      requires Valid() && '\0' !in str && -1 <= p < |str|
      modifies who
      ensures IsCString(who)
      ensures TextOf(who) == str[..if p < 0 then 0 else if p < BUF_SIZE then p else BUF_SIZE - 1]
    {
      var i := 0;
      var s := 0;
      while i < BUF_SIZE && s < p
        invariant 0 <= i == s <= BUF_SIZE && (s <= p || s == 0)
        invariant forall j :: 0 <= j < i ==> who[j] == str[j]
      {
        who[i] := str[s];
        i, s := i + 1, s + 1;
      }
      if i == BUF_SIZE { i := i - 1; }
      who[i] := '\0';
      HoldsText(who, str[..i]);
    }

    /** Copies the part of str from p up to a colon into pidText; returns its length there. */
    method CopyPid(str: string, from: nat) returns (i: nat)
      requires Valid() && '\0' !in str && from == LastDot(str) + 1
      modifies pidText
      ensures i < PID_BUF_SIZE && pidText[..i] == PidText(str)
    {
      hide LastDot, IndexOf, Atol;
      ghost var t := str[from..];
      i := 0;
      var p := from;
      while i < PID_BUF_SIZE && p < |str| && str[p] != ':'
        invariant i <= PID_BUF_SIZE && p == from + i <= |str|
        invariant forall j :: 0 <= j < i ==> pidText[j] == t[j]
        invariant forall j :: 0 <= j < i ==> t[j] != ':'
      {
        assert t[i] == str[p];
        pidText[i] := str[p];
        i, p := i + 1, p + 1;
      }
      assert p < |str| ==> t[i] == str[p];
      ColonOrFull(t, i);
      if i == PID_BUF_SIZE { i := i - 1; }
      pidText[i] := '\0';
      assert pidText[..i] == t[..i];
    }

    method LockExtractInfo(str: string)
      requires Valid() && '\0' !in str
      modifies this, who, pidText
      ensures pid == PidOf(str)
      ensures IsCString(who) && TextOf(who) == WhoOf(str)
    {
      var p := |str| - 1;
      while p >= 0 && str[p] != '.'
        invariant -1 <= p < |str|
        invariant forall i :: p < i < |str| ==> str[i] != '.'
      {
        p := p - 1;
      }
      assert LastDot(str) == p;
      CopyWho(str, p);
      var i := CopyPid(str, p + 1);
      pid := Atol(pidText[..i]);
    }
  }

  /** Where the copy of the number stops: at the first colon, at the end, or after ten characters. */
  lemma ColonOrFull(t: string, i: nat)
    requires i <= |t| && i <= PID_BUF_SIZE && forall j :: 0 <= j < i ==> t[j] != ':'
    requires i == PID_BUF_SIZE || i == |t| || t[i] == ':'
    ensures var u := t[..IndexOf(t, ':')];
            (if |u| < PID_BUF_SIZE then u else u[..PID_BUF_SIZE - 1]) == t[..if i == PID_BUF_SIZE then i - 1 else i]
  {
    hide IndexOf;
    var k := IndexOf(t, ':');
    assert i <= k;
    assert i == PID_BUF_SIZE || k == i;
  }
}
