/** diff_two_paths of lib/sub-util.c: a relative path from one resolved path to another. */
module RelativePath {
  import opened Canonicalize
  import opened PathAlgebra
  import opened PathBuffer
  import opened Sequences
  import opened Wrappers

  // ----- the result, as a function of the two paths -----

  /** How many leading components agree; the last one of either path never counts. */
  function CommonLead(f: seq<string>, s: seq<string>): (n: nat)
    requires f != [] && s != []
    ensures n < |f| && n < |s| && f[..n] == s[..n]
  {
    if |f| > 1 && |s| > 1 && f[0] == s[0] then
      var n := CommonLead(f[1..], s[1..]);
      assert f[..n + 1] == [f[0]] + f[1..][..n] && s[..n + 1] == [s[0]] + s[1..][..n];
      n + 1
    else 0
  }

  /** n times "../". */
  function Climb(n: nat): (r: string)
    ensures |r| == 3 * n && '\0' !in r
  {
    if n == 0 then "" else Climb(n - 1) + "../"
  }

  /** One step up for every component of the first path behind the shared ones, then down into the second. */
  function Relative(first: string, second: string): string {
    var f, s := Split(first), Split(second);
    var n := CommonLead(f, s);
    Climb(|f| - n) + Join(s[n..])
  }

  // ----- following it -----

  lemma {:induction false} WalkConcat(dir: seq<string>, a: seq<string>, b: seq<string>)
    ensures Walk(dir, a + b) == Walk(Walk(dir, a), b)
    decreases |a|
  {
    if a == [] {
      assert a + b == b;
    } else {
      assert (a + b)[0] == a[0] && (a + b)[1..] == a[1..] + b;
      var c := a[0];
      var next := if c == "" || c == "." then dir
                  else if c == ".." then (if dir == [] then dir else dir[..|dir| - 1])
                  else dir + [c];
      WalkConcat(next, a[1..], b);
    }
  }

  lemma {:induction false} SplitClimb(n: nat, t: string)
    ensures Split(Climb(n) + t) == Repeat(n, "..") + Split(t)
  {
    if n == 0 {
      assert Climb(0) + t == t;
    } else {
      SplitClimb(n - 1, "../" + t);
      Assoc(Climb(n - 1), "../", t);
      assert "../" + t == ".." + [SEP] + t;
      SplitConcat("..", t);
      SplitPlain("..");
      assert Repeat(n - 1, "..") + ([".."] + Split(t)) == Repeat(n, "..") + Split(t);
    }
  }

  lemma RelativeSplit(first: string, second: string)
    ensures var f, s := Split(first), Split(second);
            var n := CommonLead(f, s);
            Split(Relative(first, second)) == Repeat(|f[n..]|, "..") + s[n..]
  {
    hide Split, CommonLead, Climb, Join, Repeat;
    var f, s := Split(first), Split(second);
    var n := CommonLead(f, s);
    SplitClimb(|f| - n, Join(s[n..]));
    SplitJoin(s[n..]);
  }

  ghost predicate OnlyDown(cs: seq<string>) {
    "." !in cs && ".." !in cs
  }

  /** An absolute path that only goes down; components may be empty, as in "//server/file". */
  ghost predicate Downward(t: string) {
    IsAbsolute(t) && OnlyDown(Split(t))
  }

  lemma {:induction false} WalkDown(dir: seq<string>, cs: seq<string>)
    requires OnlyDown(cs)
    ensures Walk(dir, cs) == dir + Nontrivial(cs)
    decreases |cs|
  {
    if cs == [] {
      assert dir + [] == dir;
    } else {
      assert cs[0] in cs;
      if cs[0] == "" {
        WalkDown(dir, cs[1..]);
        assert Nontrivial(cs) == Nontrivial(cs[1..]);
      } else {
        WalkDown(dir + [cs[0]], cs[1..]);
        Assoc(dir, [cs[0]], Nontrivial(cs[1..]));
      }
    }
  }

  lemma {:induction false} WalkDotDots(dir: seq<string>, n: nat)
    ensures Walk(dir, Repeat(n, "..")) == dir[..if n <= |dir| then |dir| - n else 0]
  {
    if n == 0 {
    } else {
      assert Repeat(n, "..")[1..] == Repeat(n - 1, "..");
      WalkDotDots(if dir == [] then dir else dir[..|dir| - 1], n - 1);
    }
  }

  lemma {:induction false} NontrivialShorter(cs: seq<string>)
    requires "." !in cs
    ensures |Nontrivial(cs)| <= |cs|
    ensures |Nontrivial(cs)| == |cs| <==> "" !in cs
  {
    if cs == [] {
    } else {
      NontrivialShorter(cs[1..]);
      assert cs == [cs[0]] + cs[1..];
    }
  }

  /** Up over all of up, empty components included, and down again. */
  lemma UpOverEmpty(lead: seq<string>, up: seq<string>, down: seq<string>)
    requires OnlyDown(lead) && OnlyDown(up) && OnlyDown(down)
    ensures (Walk(Walk([], lead + up), Repeat(|up|, "..") + down) == Walk([], lead + down))
              <==> ("" !in up || Nontrivial(lead) == [])
  {
    hide Walk, Nontrivial, Repeat;
    var l, u, d := Nontrivial(lead), Nontrivial(up), Nontrivial(down);
    Descend(lead, up);
    Descend(lead, down);
    WalkConcat(l + u, Repeat(|up|, ".."), down);
    WalkDotDots(l + u, |up|);
    NontrivialShorter(up);
    var left := (l + u)[..if |up| <= |l + u| then |l + u| - |up| else 0];
    WalkDown(left, down);
    SameStart(l, u, d, |up|);
  }

  lemma Descend(a: seq<string>, b: seq<string>)
    requires OnlyDown(a) && OnlyDown(b)
    ensures Walk([], a + b) == Nontrivial(a) + Nontrivial(b)
  {
    hide Walk, Nontrivial;
    NontrivialConcat(a, b);
    WalkDown([], a + b);
    assert [] + Nontrivial(a + b) == Nontrivial(a + b);
  }

  lemma SameStart(l: seq<string>, u: seq<string>, d: seq<string>, n: nat)
    requires |u| <= n
    ensures ((l + u)[..if n <= |l + u| then |l + u| - n else 0] + d == l + d) <==> (n == |u| || l == [])
  {
    var left := (l + u)[..if n <= |l + u| then |l + u| - n else 0];
    if |left| == |l| {
      assert left == l;
    } else {
      assert |left + d| != |l + d|;
    }
  }

  /** Of paths that only go down, the result leads to the second if and only if no empty component of the
      first is behind the shared lead, or the lead is the root. */
  lemma RelativeLeadsIff(first: string, second: string)
    requires Downward(first) && Downward(second)
    ensures var n := CommonLead(Split(first), Split(second));
            var lead, up := Split(first)[..n], Split(first)[n..];
            (Walk(Meaning([], first), Split(Relative(first, second))) == Meaning([], second))
              <==> ("" !in up || Nontrivial(lead) == [])
  {
    hide Split, CommonLead, Relative, Walk, Nontrivial, Repeat;
    var f, s := Split(first), Split(second);
    var n := CommonLead(f, s);
    RelativeSplit(first, second);
    assert f == f[..n] + f[n..] && s == f[..n] + s[n..];
    UpOverEmpty(f[..n], f[n..], s[n..]);
  }

  /** An input: behind a colon the rewriting of paths keeps an empty component. From "/x://y" the result climbs
      too far, to "/z". */
  lemma EmptyComponentMisleads()
    ensures Split("/x://y") == ["", "x:", "", "y"] && Split("/x:/z") == ["", "x:", "z"]
    ensures Downward("/x://y") && Downward("/x:/z")
    ensures Walk(Meaning([], "/x://y"), Split(Relative("/x://y", "/x:/z"))) != Meaning([], "/x:/z")
  {
    hide Walk, Relative, CommonLead;
    SplitOfInputs();
    var f, s := Split("/x://y"), Split("/x:/z");
    SharedOfInputs(f, s);
    RelativeLeadsIff("/x://y", "/x:/z");
    assert f[2..][0] == "" && f[..2] == ["", "x:"];
    NamesOfLead();
  }

  lemma SplitOfInputs()
    ensures Split("/x://y") == ["", "x:", "", "y"] && Split("/x:/z") == ["", "x:", "z"]
  {
    hide Split;
    SplitPlain("");
    SplitPlain("x:");
    SplitPlain("y");
    SplitPlain("z");
    SplitConcat("", "y");
    SplitConcat("x:", "/y");
    SplitConcat("", "x://y");
    SplitConcat("x:", "z");
    SplitConcat("", "x:/z");
    assert "" + [SEP] + "y" == "/y" && "x:" + [SEP] + "/y" == "x://y" && "" + [SEP] + "x://y" == "/x://y";
    assert "x:" + [SEP] + "z" == "x:/z" && "" + [SEP] + "x:/z" == "/x:/z";
    assert [""] + (["x:"] + ([""] + ["y"])) == ["", "x:", "", "y"];
    assert [""] + (["x:"] + ["z"]) == ["", "x:", "z"];
  }

  lemma SharedOfInputs(f: seq<string>, s: seq<string>)
    requires f == ["", "x:", "", "y"] && s == ["", "x:", "z"]
    ensures CommonLead(f, s) == 2
  {
    hide CommonLead;
    assert f[..2] == s[..2];
    CommonLeadIs(f, s, 2);
  }

  lemma NamesOfLead()
    ensures Nontrivial(["", "x:"]) != []
  {
    assert ["", "x:"][1..] == ["x:"];
  }

  /** It does from every "//server/dir" to every path that only goes down. */
  lemma ServersToo(first: string, second: string)
    requires Downward(first) && Downward(second)
    requires forall i :: 2 <= i < |Split(first)| ==> Split(first)[i] != ""
    ensures Walk(Meaning([], first), Split(Relative(first, second))) == Meaning([], second)
  {
    hide Split, Relative, Walk;
    var f := Split(first);
    var n := CommonLead(f, Split(second));
    RelativeLeadsIff(first, second);
    if n < 2 {
      RootLead(first, n);
    } else {
      assert forall i :: n <= i < |f| ==> f[n..][i - n] == f[i];
    }
  }

  lemma RootLead(t: string, n: nat)
    requires IsAbsolute(t) && n < 2 && n <= |Split(t)|
    ensures Nontrivial(Split(t)[..n]) == []
  {
  }

  /** A path as resolve_symlinks leaves it: absolute and in local normal form. */
  ghost predicate Resolved(t: string) {
    IsAbsolute(t) && CanonLocal(t, false) == t
  }

  lemma ResolvedSplit(t: string) returns (ns: seq<string>)
    requires Resolved(t)
    ensures Settled(true, ns) && forall i :: 0 <= i < |ns| ==> IsName(ns[i])
    ensures Split(t) == if ns == [] then ["", ""] else [""] + ns
  {
    ns := Norm(true, Names(t));
    FoldSettled(true, [], Names(t));
    SplitCons(SEP, Join(ns));
    if ns == [] {
      SplitPlain("");
    } else {
      SplitJoin(ns);
    }
  }

  lemma ResolvedIsDownward(t: string)
    requires Resolved(t)
    ensures Downward(t) && forall i :: 2 <= i < |Split(t)| ==> Split(t)[i] != ""
  {
    hide Split;
    var ns := ResolvedSplit(t);
    var cs := Split(t);
    assert forall i :: 1 <= i < |cs| ==> cs[i] == if ns == [] then "" else ns[i - 1];
  }

  /** Following the result from the first path, taken as a directory, leads to the second path. */
  lemma RelativeLeadsToSecond(first: string, second: string)
    requires Resolved(first) && Resolved(second)
    ensures Walk(Meaning([], first), Split(Relative(first, second))) == Meaning([], second)
  {
    ResolvedIsDownward(first);
    ResolvedIsDownward(second);
    ServersToo(first, second);
  }

  // ----- the method -----

  /** strchr for a separator: its index, or the length of t for NULL. */
  method StrChr(t: string, k: nat) returns (r: nat)
    requires k <= |t|
    ensures r == NextSep(t, k)
  {
    r := k;
    while r < |t| && t[r] != SEP
      invariant k <= r <= |t| && NextSep(t, r) == NextSep(t, k)
    {
      r := r + 1;
    }
  }

  /** The buffer starts with t. */
  ghost predicate Starts(buf: array<char>, t: string)
    reads buf
  {
    |t| <= buf.Length && '\0' !in t && forall i :: 0 <= i < |t| ==> buf[i] == t[i]
  }

  /** strcpy of s to the end of a text t that the buffer starts with. */
  method StrCpy(buf: array<char>, s: string, ghost t: string, p: nat)
    requires p == |t| && |t| + |s| < buf.Length && '\0' !in s && Starts(buf, t)
    modifies buf
    ensures Starts(buf, t + s) && buf[|t + s|] == '\0'
  {
    for i := 0 to |s|
      invariant forall k :: 0 <= k < p ==> buf[k] == t[k]
      invariant forall k :: p <= k < p + i ==> buf[k] == s[k - p]
    {
      buf[p + i] := s[i];
    }
    buf[p + |s|] := '\0';
  }

  lemma StartsHolds(buf: array<char>, t: string)
    requires Starts(buf, t) && |t| < buf.Length && buf[|t|] == '\0'
    ensures IsCString(buf) && TextOf(buf) == t
  {
    assert forall i :: 0 <= i < |t| ==> buf[0 + i] == t[i] && t[i] in t;
    HoldsText(buf, t);
  }

  /** The components at p, as far as the next separator shows them. */
  lemma FirstToken(t: string, p: nat, r: nat)
    requires p <= |t| && r == NextSep(t, p)
    ensures r == |t| ==> Split(t[p..]) == [t[p..]]
    ensures r < |t| ==> Split(t[p..]) == [t[p..r]] + Split(t[r + 1..])
  {
    hide Split, NextSep;
    if r == |t| {
      SplitPlain(t[p..]);
    } else {
      assert t[p..] == t[p..r] + [SEP] + t[r + 1..];
      SplitConcat(t[p..r], t[r + 1..]);
      SplitPlain(t[p..r]);
    }
  }

  /** Whether the components at p and q agree and a separator closes both; i and j are those separators. */
  method SameToken(first: string, p: nat, second: string, q: nat) returns (same: bool, i: nat, j: nat)
    requires p <= |first| && q <= |second|
    ensures var f, s := Split(first[p..]), Split(second[q..]);
            same <==> |f| > 1 && |s| > 1 && f[0] == s[0]
    ensures same ==> p <= i < |first| && Split(first[i + 1..]) == Split(first[p..])[1..]
    ensures same ==> q <= j < |second| && Split(second[j + 1..]) == Split(second[q..])[1..]
  {
    hide Split, NextSep;
    j := q;
    i := StrChr(first, p);
    FirstToken(first, p, i);
    if i == |first| { return false, i, j; }
    j := StrChr(second, q);
    FirstToken(second, q, j);
    if j == |second| { return false, i, j; }
    same := i - p == j - q && first[p..i] == second[q..j];
  }

  lemma {:induction false} CommonLeadIs(f: seq<string>, s: seq<string>, n: nat)
    requires n < |f| && n < |s| && f[..n] == s[..n]
    requires !(n + 1 < |f| && n + 1 < |s| && f[n] == s[n])
    ensures CommonLead(f, s) == n
  {
    if n == 0 {
    } else {
      assert f[0] == f[..n][0] == s[..n][0] == s[0];
      assert f[1..][..n - 1] == f[..n][1..] && s[1..][..n - 1] == s[..n][1..];
      CommonLeadIs(f[1..], s[1..], n - 1);
    }
  }

  /** Position p of t stands in front of component n of those in cs. */
  ghost predicate Aligned(t: string, cs: seq<string>, p: nat, n: nat) {
    p <= |t| && n < |cs| && Split(t[p..]) == cs[n..]
  }

  /** One component on, when the next one of both paths agrees. */
  method NextShared(first: string, p: nat, second: string, q: nat,
                    ghost f: seq<string>, ghost s: seq<string>, ghost n: nat)
    returns (same: bool, p': nat, q': nat)
    requires Aligned(first, f, p, n) && Aligned(second, s, q, n)
    ensures same <==> n + 1 < |f| && n + 1 < |s| && f[n] == s[n]
    ensures same ==> p < p' && Aligned(first, f, p', n + 1) && Aligned(second, s, q', n + 1)
  {
    hide Split;
    var i, j;
    same, i, j := SameToken(first, p, second, q);
    p', q' := i + 1, j + 1;
  }

  /** Walks over the tokens that both paths share. */
  method SkipShared(first: string, second: string) returns (p: nat, q: nat)
    ensures p <= |first| && q <= |second|
    ensures var n := CommonLead(Split(first), Split(second));
            Split(first[p..]) == Split(first)[n..] && Split(second[q..]) == Split(second)[n..]
  {
    hide Split, CommonLead;
    p, q := 0, 0;
    ghost var f, s, n := Split(first), Split(second), 0;
    assert first[0..] == first && second[0..] == second;
    var same, p', q' := NextShared(first, p, second, q, f, s, n);
    while same
      invariant Aligned(first, f, p, n) && Aligned(second, s, q, n)
      invariant f[..n] == s[..n]
      invariant same <==> n + 1 < |f| && n + 1 < |s| && f[n] == s[n]
      invariant same ==> p < p' && Aligned(first, f, p', n + 1) && Aligned(second, s, q', n + 1)
      decreases |first| - p
    {
      p, q, n := p', q', n + 1;
      same, p', q' := NextShared(first, p, second, q, f, s, n);
    }
    CommonLeadIs(f, s, n);
  }

  /** Counts the separators that are left behind p. */
  method CountLeft(first: string, p: nat) returns (i: nat)
    requires p <= |first|
    ensures i + 1 == |Split(first[p..])|
  {
    hide Split, NextSep;
    i := 0;
    var k := StrChr(first, p);
    FirstToken(first, p, k);
    while k != |first|
      invariant p <= k <= |first| && (k < |first| ==> first[k] == SEP)
      invariant i + 1 + (if k == |first| then 0 else |Split(first[k + 1..])|) == |Split(first[p..])|
      decreases |first| - k
    {
      i := i + 1;
      var next := StrChr(first, k + 1);
      FirstToken(first, k + 1, next);
      k := next;
    }
  }

  /** The arguments are what resolve_symlinks gives, possibly NULL; so is the result. The buffer is
      exactly as long as its text and the final NUL. */
  method DiffTwoPaths(first: Option<string>, second: Option<string>) returns (buf: array?<char>)
    requires first.Some? ==> '\0' !in first.value
    requires second.Some? ==> '\0' !in second.value
    ensures buf == null <==> first.None? || second.None?
    ensures buf != null ==> fresh(buf) && IsCString(buf) && TextOf(buf) == Relative(first.value, second.value)
    ensures buf != null ==> buf.Length == |Relative(first.value, second.value)| + 1
  {
    hide Split, CommonLead, Climb, Join;
    buf := null;
    if first.None? || second.None? { return; }
    var prevlen := -1;
    for j := 0 to 2
      invariant buf == null <==> j == 0
      invariant j > 0 ==> fresh(buf) && prevlen == |Relative(first.value, second.value)| + 1 == buf.Length
      invariant j > 0 ==> IsCString(buf) && TextOf(buf) == Relative(first.value, second.value)
    {
      var p, q := SkipShared(first.value, second.value);
      var i := CountLeft(first.value, p);
      var tail := second.value[q..];
      JoinSplit(tail);
      var currlen := (i + 1) * 3 + |tail| + 1;
      if j != 0 && currlen >= prevlen {
        return;
      }
      buf := Assemble(i, tail, currlen);
      prevlen := currlen;
    }
  }

  method Assemble(i: nat, tail: string, currlen: nat) returns (buf: array<char>)
    requires currlen == (i + 1) * 3 + |tail| + 1 && '\0' !in tail
    ensures fresh(buf) && buf.Length == currlen
    ensures IsCString(buf) && TextOf(buf) == Climb(i + 1) + tail
  {
    buf := new char[currlen];
    var at, k := 0, 0;
    while k <= i
      invariant 0 <= k <= i + 1 && at == 3 * k && Starts(buf, Climb(k))
    {
      StrCpy(buf, "../", Climb(k), at);
      k := k + 1;
      at := at + 3;
    }
    StrCpy(buf, tail, Climb(i + 1), at);
    StartsHolds(buf, Climb(i + 1) + tail);
  }
}
