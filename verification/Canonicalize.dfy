/** The in-place path rewriter of lib/utilunix.c and what it leaves in its buffer. */
module Canonicalize {
  import opened PathAlgebra
  import opened PathBuffer
  import opened PlainPath

  // ----- the result, as a function of the old text -----

  /** Index of the first separator at or after position k, or the length of t. */
  function NextSep(t: string, k: nat): (r: nat)
    requires k <= |t|
    ensures k <= r <= |t| && (forall i :: k <= i < r ==> t[i] != SEP)
    ensures r < |t| ==> t[r] == SEP
    decreases |t| - k
  {
    if k == |t| || t[k] == SEP then k else NextSep(t, k + 1)
  }

  /** Length of a leading "//server" that is followed by a separator; 0 when there is none. */
  function UncLength(t: string): (k: nat)
    ensures k <= |t|
  {
    if |t| >= 2 && t[0] == SEP && t[1] == SEP && 2 < NextSep(t, 2) < |t| then NextSep(t, 2) else 0
  }

  /** The text behind a "//server". */
  function LocalPart(t: string): string {
    t[UncLength(t)..]
  }

  function Canon(t: string, keepDotDots: bool): string {
    t[..UncLength(t)] + CanonLocal(LocalPart(t), keepDotDots)
  }

  lemma LocalHasNoUnc(t: string, keepDotDots: bool)
    ensures UncLength(CanonLocal(t, keepDotDots)) == 0
  {
    if t != "" {
      var c := CanonLocal(t, keepDotDots);
      CanonNames(t, keepDotDots);
      var ns := Names(c);
      if |c| >= 2 && IsAbsolute(c) && ns != [] {
        assert ns[0] != "" && SEP !in ns[0];
        assert c[1] == ns[0][0];
      }
    }
  }

  lemma UncKept(u: string, v: string, k: nat)
    requires k == UncLength(u) > 0
    requires IsAbsolute(v)
    ensures UncLength(u[..k] + v) == k
  {
    var w := u[..k] + v;
    assert w[k] == SEP;
    NextSepUnique(w, 2, k);
  }

  lemma {:induction false} NextSepUnique(t: string, k: nat, r: nat)
    requires k <= r < |t| && t[r] == SEP && forall i :: k <= i < r ==> t[i] != SEP
    ensures NextSep(t, k) == r
    decreases r - k
  {
    if k == r {
    } else {
      NextSepUnique(t, k + 1, r);
    }
  }

  /** A second rewriting changes nothing, and a "//server" prefix survives both. */
  lemma CanonIdempotent(t: string, keepDotDots: bool)
    ensures Canon(Canon(t, keepDotDots), keepDotDots) == Canon(t, keepDotDots)
    ensures UncLength(Canon(t, keepDotDots)) == UncLength(t)
  {
    var k := UncLength(t);
    var c := CanonLocal(t[k..], keepDotDots);
    CanonLocalIdempotent(t[k..], keepDotDots);
    if k == 0 {
      assert t[..0] + c == c && t[0..] == t;
      LocalHasNoUnc(t, keepDotDots);
      assert c[0..] == c;
    } else {
      CanonNames(t[k..], keepDotDots);
      assert t[k..][0] == SEP;
      UncKept(t, c, k);
      assert (t[..k] + c)[..k] == t[..k] && (t[..k] + c)[k..] == c;
    }
  }

  /** No "//", ".", trailing separator or cancellable ".." is left in the local part. */
  lemma CanonLeavesNothingToDo(t: string)
    ensures var c := CanonLocal(t[UncLength(t)..], false);
            c == "" || c == "." || c == "/"
            || (if IsAbsolute(c) then Split(c)[0] == "" && Settled(true, Split(c)[1..]) else Settled(false, Split(c)))
  {
    var l := t[UncLength(t)..];
    if l != "" {
      var abs, ns := IsAbsolute(l), Norm(IsAbsolute(l), Names(l));
      FoldSettled(abs, [], Names(l));
      if ns == [] {
        assert Print(abs, ns) == if abs then "/" else ".";
      } else {
        SplitJoin(ns);
        NamesPrint(abs, ns);
        if abs { SplitCons(SEP, Join(ns)); }
      }
    }
  }

  lemma NamesBehindSep(u: string)
    ensures Names([SEP] + u) == Names(u)
  {
    assert ([SEP] + u)[1..] == u && Split([SEP] + u) == [""] + Split(u);
    assert ([""] + Split(u))[1..] == Split(u);
  }

  /** Only a name behind two separators, with a separator behind it, is a server that stays as it is; any other
      separators at the beginning are one. */
  lemma ServerStays(server: string, rest: string, keepDotDots: bool)
    requires SEP !in server
    ensures var t := "//" + server + "/" + rest;
            Canon(t, keepDotDots) == if server != "" then "//" + server + CanonLocal("/" + rest, keepDotDots)
                                     else CanonLocal("/" + rest, keepDotDots)
    ensures Canon("//" + server, keepDotDots) == CanonLocal("/" + server, keepDotDots)
  {
    hide CanonLocal, Names;
    var t, u := "//" + server + "/" + rest, "//" + server;
    assert t[|server| + 2] == SEP && forall i :: 2 <= i < |server| + 2 ==> t[i] == server[i - 2];
    NextSepUnique(t, 2, |server| + 2);
    assert forall i :: 2 <= i < |u| ==> u[i] == server[i - 2];
    assert UncLength(u) == 0;
    OneSep("/" + server, keepDotDots);
    assert "/" + ("/" + server) == u;
    if server == "" {
      assert t == "/" + ("/" + ("/" + rest));
      OneSep("/" + ("/" + rest), keepDotDots);
      OneSep("/" + rest, keepDotDots);
    } else {
      assert t[..|server| + 2] == u && t[|server| + 2..] == "/" + rest;
    }
  }

  lemma OneSep(t: string, keepDotDots: bool)
    requires t != "" && t[0] == SEP
    ensures CanonLocal("/" + t, keepDotDots) == CanonLocal(t, keepDotDots)
  {
    NamesBehindSep(t);
  }

  /** Without two separators at the beginning there is no server. */
  lemma WithoutServer(t: string, keepDotDots: bool)
    requires |t| < 2 || t[0] != SEP || t[1] != SEP
    ensures Canon(t, keepDotDots) == CanonLocal(t, keepDotDots)
  {
    assert t[..0] + CanonLocal(t, keepDotDots) == CanonLocal(t, keepDotDots);
  }

  // ----- pass three: "token/.." -----

  /** The components of t around a position: those before it, the one it is in, those after. */
  ghost predicate Parts(t: string, done: seq<string>, cur: string, rest: seq<string>) {
    && t == Lead(done) + cur + Trail(rest)
    && SEP !in cur
    && (forall i :: 0 <= i < |done| ==> SEP !in done[i])
    && (forall i :: 0 <= i < |rest| ==> SEP !in rest[i] && !Trivial(rest[i]))
  }

  /** The components without the empty one that stands for the root. */
  function Strip(abs: bool, cs: seq<string>): seq<string> {
    if abs && cs != [] then cs[1..] else cs
  }

  /** Everything up to the current component is in normal form. */
  ghost predicate Clean(abs: bool, done: seq<string>, cur: string) {
    && Settled(abs, Strip(abs, done + [cur]))
    && (abs ==> (done + [cur])[0] == "")
  }

  lemma CleanNext(abs: bool, done: seq<string>, cur: string, next: string)
    requires Clean(abs, done, cur) && SEP !in next && !Trivial(next)
    requires next == ".." ==> cur == ".."
    ensures Clean(abs, done + [cur], next)
  {
    var a, b := Strip(abs, done + [cur]), Strip(abs, done + [cur] + [next]);
    assert b == a + [next];
    if next == ".." {
      assert a[|a| - 1] == cur;
    }
  }

  lemma CleanBack(abs: bool, done: seq<string>, cur: string)
    requires done != [] && Clean(abs, done, cur)
    ensures Clean(abs, done[..|done| - 1], done[|done| - 1])
  {
    var n := |done| - 1;
    assert done[..n] + [done[n]] == done;
    var a, b := Strip(abs, done), Strip(abs, done + [cur]);
    assert b == a + [cur];
    assert forall i :: 0 <= i < |a| ==> a[i] == b[i];
  }

  lemma FoldRoot(abs: bool, cs: seq<string>)
    requires abs ==> cs != [] && cs[0] == ""
    ensures Fold(abs, [], cs) == Fold(abs, [], Strip(abs, cs))
  {
  }

  /** A name and the ".." behind it cancel. */
  lemma CancelPair(abs: bool, done: seq<string>, cur: string, rest: seq<string>)
    requires Clean(abs, done, cur) && cur != ".." && (done == [] ==> !abs)
    ensures Fold(abs, [], done + [cur] + ([".."] + rest)) == Fold(abs, [], done + rest)
  {
    var all := done + [cur];
    FoldConcat(abs, [], done, rest);
    FoldConcat(abs, [], all, [".."] + rest);
    FoldConcat(abs, Fold(abs, [], all), [".."], rest);
    FoldRoot(abs, all);
    FoldRoot(abs, done);
    var a, b := Strip(abs, done), Strip(abs, all);
    assert b == a + [cur];
    SettledFold(abs, b);
    assert Settled(abs, a) by { assert forall i :: 0 <= i < |a| ==> a[i] == b[i]; }
    SettledFold(abs, a);
    assert b[..|b| - 1] == a;
    assert Fold(abs, b, [".."]) == Step(abs, b, "..") by { assert [".."][1..] == []; }
  }

  lemma CancelAtRoot(rest: seq<string>)
    ensures Fold(true, [], [""] + ([".."] + rest)) == Fold(true, [], [""] + rest)
  {
    assert ([""] + ([".."] + rest))[1..] == [".."] + rest;
    assert ([".."] + rest)[1..] == rest;
    assert ([""] + rest)[1..] == rest;
  }

  lemma SettledAppend(abs: bool, a: seq<string>, rest: seq<string>)
    requires Settled(abs, a) && forall i :: 0 <= i < |rest| ==> IsName(rest[i])
    ensures Settled(abs, a + rest)
  {
    var all := a + rest;
    forall i | 0 <= i < |all|
      ensures !Trivial(all[i]) && SEP !in all[i]
      ensures all[i] == ".." ==> !abs && forall j :: 0 <= j < i ==> all[j] == ".."
    {
      if i < |a| { assert all[i] == a[i]; } else { assert all[i] == rest[i - |a|]; }
    }
  }

  /** With no ".." ahead, what is clean so far makes the whole normal. */
  lemma CleanToTheEnd(abs: bool, done: seq<string>, cur: string, rest: seq<string>)
    requires Clean(abs, done, cur)
    requires forall i :: 0 <= i < |rest| ==> IsName(rest[i])
    ensures Fold(abs, [], done + [cur] + rest) == Strip(abs, done + [cur] + rest)
  {
    var a, all := done + [cur], done + [cur] + rest;
    assert all[0] == a[0];
    assert Strip(abs, all) == Strip(abs, a) + rest;
    SettledAppend(abs, Strip(abs, a), rest);
    FoldRoot(abs, all);
    SettledFold(abs, Strip(abs, all));
  }

  lemma {:induction false} LongTrail(rest: seq<string>)
    requires ".." in rest
    ensures |Trail(rest)| >= 3
  {
    if rest[0] == ".." {
    } else {
      LongTrail(rest[1..]);
    }
  }

  /** Reading "/.." at the end of a component tells whether the next one is "..". */
  lemma DotDotAhead(t: string, done: seq<string>, cur: string, rest: seq<string>, p: nat)
    requires Parts(t, done, cur, rest) && p == |Lead(done)| + |cur| && p + 2 < |t|
    ensures rest != [] && t[p] == SEP
    ensures t[p + 1..] == Join(rest)
    ensures rest[0] == ".." <==> t[p + 1] == '.' && t[p + 2] == '.' && (p + 3 == |t| || t[p + 3] == SEP)
    ensures rest[0] == ".." ==> (p + 3 == |t| <==> |rest| == 1)
  {
    var c, more := rest[0], Trail(rest[1..]);
    assert t[p..] == Trail(rest) == [SEP] + c + more;
    assert t[p + 1..] == c + more;
    assert |rest| > 1 ==> more[0] == SEP;
    assert forall i :: 0 <= i < |c| ==> t[p + 1 + i] == c[i];
  }

  /** The scan of t stands at p inside component cur; ns are the components it started from. */
  ghost predicate At(abs: bool, ns: seq<string>, t: string, p: nat, done: seq<string>, cur: string, rest: seq<string>) {
    && Parts(t, done, cur, rest) && Clean(abs, done, cur)
    && |Lead(done)| <= p <= |Lead(done)| + |cur|
    && Fold(abs, [], done + [cur] + rest) == Norm(abs, ns)
    && (abs ==> |done| + |rest| >= 1)
  }

  lemma AtStart(abs: bool, ns: seq<string>) returns (cur: string, rest: seq<string>)
    requires ns != [] && forall i :: 0 <= i < |ns| ==> SEP !in ns[i] && !Trivial(ns[i])
    ensures At(abs, ns, Print(abs, ns), 0, [], cur, rest)
  {
    cur, rest := if abs then "" else ns[0], if abs then ns else ns[1..];
    var all := [] + [cur] + rest;
    if abs {
      assert all == [""] + ns;
      assert Trail(ns) == [SEP] + Join(ns);
      FoldRoot(abs, all);
    } else {
      assert all == ns;
    }
  }

  lemma AtSep(abs: bool, ns: seq<string>, t: string, p: nat, done: seq<string>, cur: string, rest: seq<string>)
    requires At(abs, ns, t, p, done, cur, rest) && p < |t| && t[p] == SEP
    ensures p == |Lead(done)| + |cur|
  {
    assert forall i :: 0 <= i < |cur| ==> t[|Lead(done)| + i] == cur[i];
    assert t[p] !in cur;
  }

  /** Moving from the end of a component over the separator, or over "/..", into the next one. */
  lemma Advance(abs: bool, ns: seq<string>, t: string, p: nat, done: seq<string>, cur: string, rest: seq<string>,
                p': nat)
    requires At(abs, ns, t, p, done, cur, rest) && p == |Lead(done)| + |cur| && p + 2 < |t|
    requires rest != [] && (rest[0] == ".." ==> cur == "..")
    requires p < p' <= p + 1 + |rest[0]|
    ensures At(abs, ns, t, p', done + [cur], rest[0], rest[1..])
  {
    var d, c, r := done + [cur], rest[0], rest[1..];
    assert Fold(abs, [], d + [c] + r) == Norm(abs, ns) by {
      assert rest == [c] + r;
      assert d + rest == d + [c] + r;
    }
    assert Clean(abs, d, c) by { CleanNext(abs, done, cur, c); }
    AdvanceText(t, done, cur, rest);
  }

  lemma AdvanceText(t: string, done: seq<string>, cur: string, rest: seq<string>)
    requires Parts(t, done, cur, rest) && rest != []
    ensures Parts(t, done + [cur], rest[0], rest[1..])
    ensures |Lead(done + [cur])| == |Lead(done)| + |cur| + 1
  {
    LeadSnoc(done, cur);
    var l, c, r := Lead(done) + cur, rest[0], Trail(rest[1..]);
    assert Trail(rest) == [SEP] + c + r;
    assert l + ([SEP] + c + r) == (l + [SEP]) + c + r;
  }

  lemma CutDotDot(t: string, p: nat, done: seq<string>, cur: string, rest: seq<string>)
    requires Parts(t, done, cur, rest) && p == |Lead(done)| + |cur| && p + 2 < |t|
    requires |rest| > 1 && rest[0] == ".."
    ensures p + 4 <= |t| && t[p + 4..] == Join(rest[1..]) && Trail(rest[1..]) == [SEP] + Join(rest[1..])
    ensures rest == [".."] + rest[1..]
  {
    var more := rest[1..];
    var tail := Join(more);
    assert Trail(more) == [SEP] + tail;
    assert Trail(rest) == [SEP] + ".." + ([SEP] + tail);
    assert t == (Lead(done) + cur + [SEP] + ".." + [SEP]) + tail;
  }

  /** The same text with the scan back at the end of the last component of done. */
  lemma Rejoin(abs: bool, done: seq<string>, cur: string, more: seq<string>)
    returns (d: seq<string>, c: string, r: seq<string>)
    requires Clean(abs, done, cur) && more != [] && (done == [] ==> !abs)
    requires forall i :: 0 <= i < |more| ==> SEP !in more[i] && !Trivial(more[i])
    ensures d + [c] + r == done + more && Clean(abs, d, c)
    ensures Lead(d) + c + Trail(r) == Lead(done) + Join(more)
    ensures forall x :: x in d || x == c ==> x in done + more
    ensures forall x :: x in r ==> x in more
    ensures var s := |Lead(done)|;
            |Lead(d)| <= (if s > 0 then s - 1 else 0) <= |Lead(d)| + |c| && (abs ==> |d| + |r| >= 1)
  {
    hide Settled, Clean, Join, Trail, Lead;
    if done == [] {
      d, c, r := [], more[0], more[1..];
      assert d + [c] == [more[0]] && d + [c] + r == more == done + more;
      CleanFirst(more);
      assert "" + Join(more) == Join(more);
    } else {
      var n := |done| - 1;
      d, c, r := done[..n], done[n], more;
      assert done == d + [c];
      LeadSnoc(d, c);
      TrailIsSepJoin(more);
      assert Lead(d) + c + ([SEP] + Join(more)) == (Lead(d) + c + [SEP]) + Join(more);
      CleanBack(abs, done, cur);
    }
  }

  lemma CleanFirst(more: seq<string>)
    requires more != [] && SEP !in more[0] && !Trivial(more[0])
    ensures Clean(false, [], more[0])
    ensures Lead([]) == "" && "" + more[0] + Trail(more[1..]) == Join(more)
  {
    assert [] + [more[0]] == [more[0]];
  }

  /** "token/../more" becomes "more", and the scan goes back to the end of the component before. */
  lemma Collapse(abs: bool, ns: seq<string>, t: string, p: nat, done: seq<string>, cur: string, rest: seq<string>)
    returns (d: seq<string>, c: string, r: seq<string>)
    requires At(abs, ns, t, p, done, cur, rest) && p == |Lead(done)| + |cur| && p + 2 < |t|
    requires |rest| > 1 && rest[0] == ".." && cur != ".." && (done == [] ==> !abs)
    ensures var s := |Lead(done)|;
            p + 4 <= |t| && At(abs, ns, t[..s] + t[p + 4..], if s > 0 then s - 1 else 0, d, c, r)
  {
    var more := rest[1..];
    CutDotDot(t, p, done, cur, rest);
    CancelPair(abs, done, cur, more);
    d, c, r := Rejoin(abs, done, cur, more);
    assert forall x :: x in done + more ==> SEP !in x;
    assert forall x :: x in more ==> SEP !in x && !Trivial(x);
    assert t[..|Lead(done)|] == Lead(done);
  }

  lemma CutAtRoot(t: string, rest: seq<string>)
    requires Parts(t, [], "", rest) && 2 < |t| && |rest| > 1 && rest[0] == ".."
    ensures 4 <= |t| && Parts(t[..1] + t[4..], [], "", rest[1..]) && Lead([]) == ""
  {
    hide Join, Trail;
    var more := rest[1..];
    NoTrail();
    CutDotDot(t, 0, [], "", rest);
    TrailIsSepJoin(rest);
    assert "" + "" + Trail(rest) == Trail(rest) && t[0] == SEP;
    assert t[..1] + t[4..] == [SEP] + Join(more);
    assert "" + "" + Trail(more) == Trail(more);
  }

  /** "/../more" becomes "/more". */
  lemma CollapseRoot(abs: bool, ns: seq<string>, t: string, rest: seq<string>)
    requires At(abs, ns, t, 0, [], "", rest) && 2 < |t|
    requires |rest| > 1 && rest[0] == ".."
    ensures abs && 4 <= |t| && At(abs, ns, t[..1] + t[4..], 0, [], "", rest[1..])
  {
    hide Fold, Norm, Clean, Parts, Lead;
    var more := rest[1..];
    RootIsAbsolute(abs);
    CutAtRoot(t, rest);
    assert [] + [""] + more == [""] + more && [] + [""] + rest == [""] + ([".."] + more);
    CancelAtRoot(more);
  }

  lemma RootIsAbsolute(abs: bool)
    requires Clean(abs, [], "")
    ensures abs
  {
    if !abs { NotEmptyHere(""); }
  }

  /** What "token/.." at the end of the text leaves, if the token is the first one. */
  lemma CollapseOnly(abs: bool, ns: seq<string>, t: string, p: nat, cur: string)
    requires At(abs, ns, t, p, [], cur, [".."]) && cur != ".."
    ensures Norm(abs, ns) == [] && (abs <==> cur == "")
  {
    hide Trail, Lead, Settled;
    assert [] + [cur] + [".."] == [] + [cur] + ([".."] + []);
    assert [] + [cur] == [cur];
    if abs {
      assert [cur][0] == "";
      CancelAtRoot([]);
      assert [""] + [] == [""];
    } else {
      NotEmptyHere(cur);
      CancelPair(abs, [], cur, []);
    }
  }

  lemma NotEmptyHere(cur: string)
    requires Clean(false, [], cur)
    ensures cur != ""
  {
    assert [] + [cur] == [cur] && !Trivial(Strip(false, [cur])[0]);
  }

  /** What it leaves behind other components. */
  lemma CollapseLast(abs: bool, ns: seq<string>, t: string, p: nat, done: seq<string>, cur: string)
    requires At(abs, ns, t, p, done, cur, [".."]) && cur != ".." && done != []
    ensures |Lead(done)| >= 1 && t[..|Lead(done)|] == Lead(done)
    ensures |Lead(done)| == 1 ==> abs && Norm(abs, ns) == [] && t[..1] == Print(abs, Norm(abs, ns))
    ensures |Lead(done)| > 1 ==> t[..|Lead(done)| - 1] == Print(abs, Norm(abs, ns))
  {
    hide Fold, Clean, Trail, Lead, Print;
    var n := |done| - 1;
    assert done == done[..n] + [done[n]];
    LeadSnoc(done[..n], done[n]);
    LastIsNorm(abs, ns, done, cur);
    OneComponent(abs, done, cur);
    assert t[..|Lead(done)|] == Lead(done);
  }

  /** The components before a cancelled pair are the normal form. */
  lemma LastIsNorm(abs: bool, ns: seq<string>, done: seq<string>, cur: string)
    requires Clean(abs, done, cur) && cur != ".." && done != []
    requires Fold(abs, [], done + [cur] + [".."]) == Norm(abs, ns)
    ensures Norm(abs, ns) == Strip(abs, done)
    ensures var n := |done| - 1; Join(done) == Lead(done[..n]) + done[n]
  {
    hide Fold, Clean, Trail, Lead;
    var n := |done| - 1;
    assert done + [cur] + [".."] == done + [cur] + ([".."] + []) && done + [] == done;
    CancelPair(abs, done, cur, []);
    CleanBack(abs, done, cur);
    assert done == done[..n] + [done[n]];
    CleanToTheEnd(abs, done[..n], done[n], []);
    assert done[..n] + [done[n]] + [] == done;
    JoinAround(done[..n], done[n], []);
    NoTrail();
    assert Lead(done[..n]) + done[n] + "" == Lead(done[..n]) + done[n];
  }

  lemma NoTrail()
    ensures Trail([]) == "" && Lead([]) == ""
  {
  }

  /** The text before the last separator is the printed normal form; only the root has no more than that. */
  lemma OneComponent(abs: bool, done: seq<string>, cur: string)
    requires Clean(abs, done, cur) && done != []
    ensures |Lead(done)| == 1 ==> abs && Strip(abs, done) == [] && Lead(done) == Print(abs, [])
    ensures |Lead(done)| > 1 ==> Join(done) == Print(abs, Strip(abs, done))
  {
    hide Settled;
    var n := |done| - 1;
    assert done == done[..n] + [done[n]];
    LeadSnoc(done[..n], done[n]);
    CleanBack(abs, done, cur);
    FirstIsShown(abs, done[..n], done[n]);
    if !abs || n > 0 { PrintStrip(abs, done); }
  }

  lemma FirstIsShown(abs: bool, done: seq<string>, cur: string)
    requires Clean(abs, done, cur)
    ensures abs && done == [] ==> cur == ""
    ensures !abs && done == [] ==> cur != ""
    ensures done != [] ==> |Lead(done)| >= 1
    ensures abs && done != [] ==> cur != ""
  {
    var all := done + [cur];
    assert !abs ==> !Trivial(Strip(abs, all)[|all| - 1]);
    assert abs && done != [] ==> Strip(abs, all)[|all| - 2] == cur;
    if done != [] { LeadEndsWithSep(done); }
  }

  lemma PrintStrip(abs: bool, cs: seq<string>)
    requires cs != [] && (abs ==> cs[0] == "") && (!abs || |cs| > 1)
    ensures Print(abs, Strip(abs, cs)) == Join(cs)
  {
    if abs {
      assert Trail(cs[1..]) == [SEP] + Join(cs[1..]);
    }
  }

  /** Fewer than three characters ahead: the text is the printed normal form. */
  lemma AtEnd(abs: bool, ns: seq<string>, t: string, p: nat, done: seq<string>, cur: string, rest: seq<string>)
    requires At(abs, ns, t, p, done, cur, rest) && p + 2 >= |t|
    ensures t == Print(abs, Norm(abs, ns))
  {
    if ".." in rest {
      LongTrail(rest);
      assert false;
    }
    CleanToTheEnd(abs, done, cur, rest);
    var all := done + [cur] + rest;
    JoinAround(done, cur, rest);
    PrintStrip(abs, all);
  }

  /** The index of the first character of the component that ends before position p. The tests for "://" and
      for the prefix of an encoding come to nothing in a plain text. */
  method TokenStart(a: array<char>, lp: nat, p: nat,
                    ghost t: string, ghost done: seq<string>, ghost cur: string, ghost rest: seq<string>)
    returns (s: nat)
    requires Holds(a, lp, t) && Parts(t, done, cur, rest) && p == |Lead(done)| + |cur| && p <= |t| && Plain(t)
    ensures s == |Lead(done)|
  {
    hide Plain;
    var q := p - 1;
    if done != [] { LeadEndsWithSep(done); }
    assert forall i :: |Lead(done)| <= i < p ==> t[i] == cur[i - |Lead(done)|] != SEP;
    if q >= 0 { Peek(a, lp, t, q); }
    while q >= 0 && a[lp + q] != SEP
      invariant |Lead(done)| - 1 <= q < p
      invariant q >= 0 ==> a[lp + q] == t[q]
      decreases q
    {
      assert q >= |Lead(done)|;
      if q > 3 {
        NoColonBefore(t, q - 2);
        assert !(t[q - 3] == ':' && t[q - 2] == SEP);
      }
      q := q - 1;
      if q >= 0 { Peek(a, lp, t, q); }
    }
    s := q + 1;
  }

  lemma IsDotDot(t: string, p: nat, done: seq<string>, cur: string, rest: seq<string>)
    requires Parts(t, done, cur, rest) && p == |Lead(done)| + |cur| && p + 2 < |t|
    ensures var s := |Lead(done)|;
            cur == ".." <==> t[s] == '.' && t[s + 1] == '.' && s + 2 == p
  {
    assert forall i :: 0 <= i < |cur| ==> t[|Lead(done)| + i] == cur[i];
  }

  /** An empty component is only met in front of the root separator. */
  lemma RootShows(abs: bool, t: string, p: nat, done: seq<string>, cur: string, rest: seq<string>)
    requires Parts(t, done, cur, rest) && Clean(abs, done, cur) && p == |Lead(done)| + |cur| && p + 2 < |t|
    ensures |Lead(done)| == 0 <==> done == []
    ensures done == [] ==> (abs <==> t[0] == SEP) && (abs <==> cur == "")
  {
    DotDotAhead(t, done, cur, rest, p);
    if done == [] {
      assert [] + [cur] == [cur];
      if !abs {
        assert !Trivial(Strip(abs, [cur])[0]);
        assert t[0] == cur[0];
      }
    }
  }

  /** "/.." with more text behind it: the pair is cut out of the buffer. */
  method CollapseMore(a: array<char>, lp: nat, p: nat, s: nat, ghost abs: bool, ghost ns: seq<string>,
                      ghost t0: string, ghost done0: seq<string>, ghost cur0: string, ghost rest0: seq<string>)
    returns (p': nat, ghost t: string, ghost done: seq<string>, ghost cur: string, ghost rest: seq<string>)
    requires Holds(a, lp, t0) && At(abs, ns, t0, p, done0, cur0, rest0) && p == |Lead(done0)| + |cur0| && p + 2 < |t0|
    requires s == |Lead(done0)| && |rest0| > 1 && rest0[0] == ".." && cur0 != ".." && Plain(t0)
    modifies a
    ensures Holds(a, lp, t) && a[..lp] == old(a[..lp]) && Plain(t)
    ensures At(abs, ns, t, p', done, cur, rest) && p' <= |t| && |t| <= |t0| && |t| - p' < |t0| - p
  {
    hide Plain;
    done, cur, rest := CollapseEither(abs, ns, t0, p, done0, cur0, rest0);
    Peek(a, lp, t0, s);
    CutIsPlain(t0, p, done0, cur0, rest0);
    if s == 0 && a[lp + s] == SEP {
      t := t0[..s + 1] + t0[p + 4..];
      StrMove(a, lp + s + 1, lp + p + 4, lp, t0);
    } else {
      t := t0[..s] + t0[p + 4..];
      StrMove(a, lp + s, lp + p + 4, lp, t0);
    }
    p' := if s > 0 then s - 1 else s;
  }

  lemma CutIsPlain(t: string, p: nat, done: seq<string>, cur: string, rest: seq<string>)
    requires Parts(t, done, cur, rest) && p == |Lead(done)| + |cur| && p + 2 < |t| && Plain(t)
    requires |rest| > 1 && rest[0] == ".."
    ensures var s := |Lead(done)|;
            p + 4 <= |t| && Plain(t[..s] + t[p + 4..]) && (t[s] == SEP ==> Plain(t[..s + 1] + t[p + 4..]))
  {
    hide Plain;
    CutDotDot(t, p, done, cur, rest);
    DotDotAhead(t, done, cur, rest, p);
    if done != [] { LeadEndsWithSep(done); }
    var s := |Lead(done)|;
    assert s > 0 ==> t[s - 1] == Lead(done)[s - 1];
    PlainCut(t, s, p + 4);
    if t[s] == SEP { PlainCut(t, s + 1, p + 4); }
  }

  lemma CollapseEither(abs: bool, ns: seq<string>, t: string, p: nat, done: seq<string>, cur: string, rest: seq<string>)
    returns (d: seq<string>, c: string, r: seq<string>)
    requires At(abs, ns, t, p, done, cur, rest) && p == |Lead(done)| + |cur| && p + 2 < |t|
    requires |rest| > 1 && rest[0] == ".." && cur != ".."
    ensures p + 4 <= |t|
    ensures var s := |Lead(done)|;
            var dst := if s == 0 && t[s] == SEP then s + 1 else s;
            var t' := t[..dst] + t[p + 4..];
            var p' := if s > 0 then s - 1 else s;
            dst <= p + 4 && At(abs, ns, t', p', d, c, r) && p' <= |t'| && |t'| - p' < |t| - p
  {
    RootShows(abs, t, p, done, cur, rest);
    CutDotDot(t, p, done, cur, rest);
    if |Lead(done)| == 0 && t[0] == SEP {
      CollapseRoot(abs, ns, t, rest);
      d, c, r := [], "", rest[1..];
    } else {
      d, c, r := Collapse(abs, ns, t, p, done, cur, rest);
    }
  }

  lemma TailShows(abs: bool, ns: seq<string>, t: string, p: nat, done: seq<string>, cur: string)
    requires At(abs, ns, t, p, done, cur, [".."]) && p == |Lead(done)| + |cur| && p + 2 < |t| && cur != ".."
    ensures var s, r := |Lead(done)|, Print(abs, Norm(abs, ns));
            if s == 0 then r == (if t[0] == SEP then "/" else ".")
            else if s == 1 then t[..1] == r
            else t[..s - 1] == r
  {
    hide Parts, Clean, Fold, Lead, Trail;
    PartsHold(abs, ns, t, p, done, cur);
    RootShows(abs, t, p, done, cur, [".."]);
    if done == [] {
      CollapseOnly(abs, ns, t, p, cur);
      assert [SEP] + "" == "/" && Join([]) == "";
    } else {
      CollapseLast(abs, ns, t, p, done, cur);
    }
  }

  lemma PartsHold(abs: bool, ns: seq<string>, t: string, p: nat, done: seq<string>, cur: string)
    requires At(abs, ns, t, p, done, cur, [".."])
    ensures Parts(t, done, cur, [".."]) && Clean(abs, done, cur)
  {
  }

  /** "/.." at the end of the text. */
  method CollapseTail(a: array<char>, lp: nat, p: nat, s: nat, ghost abs: bool, ghost ns: seq<string>,
                      ghost t0: string, ghost done: seq<string>, ghost cur: string)
    returns (ghost t: string)
    requires Holds(a, lp, t0) && At(abs, ns, t0, p, done, cur, [".."]) && p == |Lead(done)| + |cur| && p + 2 < |t0|
    requires s == |Lead(done)| && cur != ".." && Plain(t0)
    modifies a
    ensures Holds(a, lp, t) && a[..lp] == old(a[..lp])
    ensures |t| <= |t0| && t == Print(abs, Norm(abs, ns)) && Plain(t)
  {
    hide Parts, Clean, Fold, Norm, Join, Trail, Lead, Names, Plain;
    TailShows(abs, ns, t0, p, done, cur);
    Peek(a, lp, t0, 0);
    t := Print(abs, Norm(abs, ns));
    if s == 0 {
      assert [SEP] + "" == [SEP];
      if a[lp + 0] != SEP {
        a[lp + 0] := '.';
      }
      a[lp + 1] := '\0';
    } else if s == 1 {
      a[lp + s] := '\0';
    } else {
      a[lp + (s - 1)] := '\0';
    }
    if |t| > 1 { PlainPrefix(t0, |t|); } else { ShortIsPlain(t); }
  }

  /** The scan stands in front of a ".." component. */
  ghost predicate BeforeDotDot(p: nat, done: seq<string>, cur: string, rest: seq<string>) {
    p == |Lead(done)| + |cur| && rest != [] && rest[0] == ".."
  }

  method SeesDotDot(a: array<char>, lp: nat, p: nat, ghost t: string, ghost abs: bool, ghost ns: seq<string>,
                    ghost done: seq<string>, ghost cur: string, ghost rest: seq<string>)
    returns (b: bool)
    requires Holds(a, lp, t) && At(abs, ns, t, p, done, cur, rest) && p + 2 < |t|
    ensures b <==> BeforeDotDot(p, done, cur, rest)
    ensures b ==> (a[lp + (p + 3)] == '\0' <==> |rest| == 1)
  {
    Peek(a, lp, t, p);
    Peek(a, lp, t, p + 1);
    Peek(a, lp, t, p + 2);
    Peek(a, lp, t, p + 3);
    if p == |Lead(done)| + |cur| { DotDotAhead(t, done, cur, rest, p); }
    if t[p] == SEP { AtSep(abs, ns, t, p, done, cur, rest); }
    b := !(a[lp + p] != SEP || a[lp + (p + 1)] != '.' || a[lp + (p + 2)] != '.'
           || (a[lp + (p + 3)] != SEP && a[lp + (p + 3)] != '\0'));
  }

  /** One character on, inside a component or into the next one. */
  lemma Creep(abs: bool, ns: seq<string>, t: string, p: nat, done: seq<string>, cur: string, rest: seq<string>)
    returns (d: seq<string>, c: string, r: seq<string>)
    requires At(abs, ns, t, p, done, cur, rest) && p + 2 < |t| && !BeforeDotDot(p, done, cur, rest)
    ensures At(abs, ns, t, p + 1, d, c, r)
  {
    d, c, r := done, cur, rest;
    if p == |Lead(done)| + |cur| {
      DotDotAhead(t, done, cur, rest, p);
      Advance(abs, ns, t, p, done, cur, rest, p + 1);
      d, c, r := done + [cur], rest[0], rest[1..];
    }
  }

  /** What happens at "/..": hop over it, cut it out together with the token before it, or end the text. */
  method HandleDotDot(a: array<char>, lp: nat, p: nat, ghost abs: bool, ghost ns: seq<string>,
                      ghost t0: string, ghost done0: seq<string>, ghost cur0: string, ghost rest0: seq<string>)
    returns (finished: bool, p': nat,
             ghost t: string, ghost done: seq<string>, ghost cur: string, ghost rest: seq<string>)
    requires Holds(a, lp, t0) && At(abs, ns, t0, p, done0, cur0, rest0) && p + 2 < |t0|
    requires BeforeDotDot(p, done0, cur0, rest0) && (a[lp + (p + 3)] == '\0' <==> |rest0| == 1) && Plain(t0)
    modifies a
    ensures Holds(a, lp, t) && a[..lp] == old(a[..lp]) && |t| <= |t0| && Plain(t)
    ensures finished ==> t == Print(abs, Norm(abs, ns))
    ensures !finished ==> At(abs, ns, t, p', done, cur, rest) && p' <= |t| && |t| - p' < |t0| - p
  {
    hide Plain, Clean, Norm, Fold, Lead, Trail, Print;
    finished, p', t, done, cur, rest := false, p, t0, done0, cur0, rest0;
    // search for the previous token
    var s := TokenStart(a, lp, p, t, done, cur, rest);
    IsDotDot(t, p, done, cur, rest);
    Peek(a, lp, t, s);
    Peek(a, lp, t, s + 1);
    if a[lp + s] == '.' && a[lp + (s + 1)] == '.' && s + 2 == p {
      Advance(abs, ns, t, p, done, cur, rest, p + 3);
      done, cur, rest := done + [cur], rest[0], rest[1..];
      p' := p + 3;
    } else if a[lp + (p + 3)] != '\0' {
      p', t, done, cur, rest := CollapseMore(a, lp, p, s, abs, ns, t, done, cur, rest);
    } else {
      assert rest == [".."];
      t := CollapseTail(a, lp, p, s, abs, ns, t, done, cur);
      finished := true;
    }
  }

  method ThreeLeft(a: array<char>, lp: nat, p: nat, ghost t: string) returns (b: bool)
    requires Holds(a, lp, t) && p <= |t|
    ensures b <==> p + 2 < |t|
  {
    Peek(a, lp, t, p);
    if a[lp + p] == '\0' { return false; }
    Peek(a, lp, t, p + 1);
    if a[lp + (p + 1)] == '\0' { return false; }
    Peek(a, lp, t, p + 2);
    b := a[lp + (p + 2)] != '\0';
  }

  method RemoveDoubleDots(a: array<char>, lp: nat, ghost abs: bool, ghost ns: seq<string>) returns (ghost t: string)
    requires forall i :: 0 <= i < |ns| ==> SEP !in ns[i] && !Trivial(ns[i])
    requires Holds(a, lp, Print(abs, ns)) && Plain(Print(abs, ns))
    modifies a
    ensures Holds(a, lp, t) && a[..lp] == old(a[..lp])
    ensures |t| <= |Print(abs, ns)| && t == Print(abs, Norm(abs, ns)) && Plain(t)
  {
    hide Plain;
    t := Print(abs, ns);
    ghost var done: seq<string>, cur, rest: seq<string> := [], "", [];
    if ns != [] { cur, rest := AtStart(abs, ns); }
    var p: nat := 0;
    var more := ThreeLeft(a, lp, p, t);
    while more
      invariant Holds(a, lp, t) && a[..lp] == old(a[..lp]) && p <= |t| <= |Print(abs, ns)| && Plain(t)
      invariant more <==> p + 2 < |t|
      invariant ns != [] ==> At(abs, ns, t, p, done, cur, rest)
      invariant ns == [] ==> |t| == 1 && t == Print(abs, ns)
      decreases |t| - p
    {
      var found := SeesDotDot(a, lp, p, t, abs, ns, done, cur, rest);
      if !found {
        done, cur, rest := Creep(abs, ns, t, p, done, cur, rest);
        p := p + 1;
      } else {
        var finished;
        finished, p, t, done, cur, rest := HandleDotDot(a, lp, p, abs, ns, t, done, cur, rest);
        if finished { return; }
      }
      more := ThreeLeft(a, lp, p, t);
    }
    if ns != [] { AtEnd(abs, ns, t, p, done, cur, rest); }
  }

  lemma ShortIsCanonical(t: string, keepDotDots: bool)
    requires |t| <= 1
    ensures CanonLocal(t, keepDotDots) == t
  {
    if t != "" {
      TidyPrint(t);
      var ns := Names(t);
      SplitPlainOrRoot(t);
      assert Settled(IsAbsolute(t), ns);
      SettledFold(IsAbsolute(t), ns);
    }
  }

  /** The rewriting of the text behind a "//server" prefix. */
  method CanonicalizeLocal(a: array<char>, lp: nat, ghost t0: string, keepDotDots: bool) returns (ghost t: string)
    requires Holds(a, lp, t0) && Plain(t0)
    modifies a
    ensures Holds(a, lp, t) && a[..lp] == old(a[..lp])
    ensures t == CanonLocal(t0, keepDotDots) && |t| <= |t0| && Plain(t)
  {
    hide Plain;
    Peek(a, lp, t0, 0);
    if t0 != "" { Peek(a, lp, t0, 1); }
    if a[lp + 0] == '\0' || a[lp + 1] == '\0' {
      ShortIsCanonical(t0, keepDotDots);
      return t0;
    }
    t := CollapseSlashes(a, lp, t0);
    t := CollapseDotSteps(a, lp, t);
    var finished;
    finished, t := RemoveSlashDots(a, lp, t);
    CanonNames(t0, true);
    assert t == CanonLocal(t0, true);
    if finished {
      ShortIsCanonical(t, keepDotDots);
      CanonTwice(t0, keepDotDots);
      return;
    }
    if !keepDotDots {
      t := RemoveDoubleDots(a, lp, IsAbsolute(t0), Names(t0));
    }
  }

  lemma CanonTwice(t: string, keepDotDots: bool)
    ensures CanonLocal(CanonLocal(t, true), keepDotDots) == CanonLocal(t, keepDotDots)
  {
    if t != "" { CanonNames(t, true); }
  }

  /** Detects and preserves "//server/...". */
  method SkipUnc(path: array<char>, ghost t0: string) returns (lp: nat)
    requires Holds(path, 0, t0)
    ensures lp == UncLength(t0)
  {
    lp := 0;
    Peek(path, 0, t0, 0);
    if t0 != "" { Peek(path, 0, t0, 1); }
    if path[0] == SEP && path[1] == SEP {
      var p := 2;
      Peek(path, 0, t0, p);
      while path[p] != '\0' && path[p] != SEP
        invariant 2 <= p <= |t0| && path[p] == if p < |t0| then t0[p] else '\0'
        invariant NextSep(t0, 2) == NextSep(t0, p)
        decreases |t0| - p
      {
        Peek(path, 0, t0, p);
        Peek(path, 0, t0, p + 1);
        p := p + 1;
      }
      Peek(path, 0, t0, p);
      if path[p] == SEP && p > 2 {
        lp := p;
      }
    }
  }

  lemma TextHolds(a: array<char>, t: string)
    requires IsCString(a) && t == TextOf(a)
    ensures Holds(a, 0, t)
  {
    assert a[..][|t|] == '\0';
    assert forall i :: 0 <= i < |t| ==> t[i] == a[i] && t[i] in a[..][..|t|];
  }

  lemma SuffixHolds(a: array<char>, t: string, lp: nat)
    requires Holds(a, 0, t) && lp <= |t|
    ensures Holds(a, lp, t[lp..]) && a[..lp] == t[..lp]
  {
    forall i | 0 <= i < |t|
      ensures a[i] == t[i]
    {
      assert a[0 + i] == t[i];
    }
    assert forall i :: 0 <= i < |t| - lp ==> a[lp + i] == t[lp + i] == t[lp..][i];
  }

  lemma PrefixHolds(a: array<char>, lp: nat, u: string, v: string)
    requires Holds(a, lp, v) && a[..lp] == u && '\0' !in u
    ensures Holds(a, 0, u + v)
  {
    forall i | 0 <= i < |u + v|
      ensures a[0 + i] == (u + v)[i] && (u + v)[i] != '\0'
    {
      if i < lp { assert a[i] == u[i]; } else { assert a[lp + (i - lp)] == v[i - lp]; }
    }
  }

  /** custom_canonicalize_pathname with the flags CANON_PATH_ALL, or those without
      CANON_PATH_REMDOUBLEDOTS, on a buffer whose local part is plain. */
  method CustomCanonicalizePathname(path: array<char>, keepDotDots: bool)
    requires IsCString(path) && Plain(LocalPart(TextOf(path)))
    modifies path
    ensures IsCString(path) && TextOf(path) == Canon(old(TextOf(path)), keepDotDots)
    ensures |TextOf(path)| <= old(|TextOf(path)|) && Plain(CanonLocal(LocalPart(old(TextOf(path))), keepDotDots))
  {
    ghost var t0 := TextOf(path);
    TextHolds(path, t0);
    var lp := SkipUnc(path, t0);
    SuffixHolds(path, t0, lp);
    ghost var t := CanonicalizeLocal(path, lp, t0[lp..], keepDotDots);
    PrefixHolds(path, lp, t0[..lp], t);
    HoldsText(path, t0[..lp] + t);
  }
}
