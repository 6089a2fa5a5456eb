/** Lexical path algebra: components, normal forms and what a path means when it is followed
    name by name. Nothing here looks at a file system. */
module PathAlgebra {

  const SEP := '/'

  predicate IsAbsolute(t: string) {
    t != "" && t[0] == SEP
  }

  // ----- splitting and joining at separators -----

  /** The pieces of t between separators; "" has the single piece "". */
  function Split(t: string): (cs: seq<string>)
    ensures |cs| >= 1
    ensures forall i :: 0 <= i < |cs| ==> SEP !in cs[i]
  {
    if t == "" then [""]
    else if t[0] == SEP then [""] + Split(t[1..])
    else
      var r := Split(t[1..]);
      [[t[0]] + r[0]] + r[1..]
  }

  function Join(cs: seq<string>): string {
    if cs == [] then "" else cs[0] + Trail(cs[1..])
  }

  /** Every component preceded by a separator. */
  function Trail(cs: seq<string>): string {
    if cs == [] then "" else [SEP] + cs[0] + Trail(cs[1..])
  }

  /** Every component followed by a separator. */
  function Lead(cs: seq<string>): string {
    if cs == [] then "" else cs[0] + [SEP] + Lead(cs[1..])
  }

  /** Putting one more character in front of a path. */
  function Shift(c: char, r: seq<string>): seq<string>
    requires r != []
  {
    if c == SEP then [""] + r else [[c] + r[0]] + r[1..]
  }

  lemma SplitCons(c: char, t: string)
    ensures Split([c] + t) == Shift(c, Split(t))
  {
    assert ([c] + t)[1..] == t;
  }

  lemma ShiftConcat(c: char, r: seq<string>, w: seq<string>)
    requires r != []
    ensures Shift(c, r + w) == Shift(c, r) + w
  {
    assert (r + w)[0] == r[0] && (r + w)[1..] == r[1..] + w;
  }

  lemma {:induction false} SplitConcat(u: string, v: string)
    ensures Split(u + [SEP] + v) == Split(u) + Split(v)
  {
    if u == "" {
      SplitCons(SEP, v);
      assert u + [SEP] + v == [SEP] + v;
    } else {
      var c, u' := u[0], u[1..];
      assert u == [c] + u';
      assert u + [SEP] + v == [c] + (u' + [SEP] + v);
      SplitCons(c, u' + [SEP] + v);
      SplitCons(c, u');
      SplitConcat(u', v);
      ShiftConcat(c, Split(u'), Split(v));
    }
  }

  lemma {:induction false} SplitPlain(t: string)
    requires SEP !in t
    ensures Split(t) == [t]
  {
    if t == "" {
    } else {
      SplitPlain(t[1..]);
      assert [t[0]] + t[1..] == t;
    }
  }

  lemma {:induction false} JoinSplit(t: string)
    ensures Join(Split(t)) == t
  {
    if t == "" {
    } else {
      JoinSplit(t[1..]);
      var r := Split(t[1..]);
      assert t == [t[0]] + t[1..];
      JoinLonger(t[0], r);
    }
  }

  lemma JoinLonger(c: char, r: seq<string>)
    requires r != []
    ensures Join([""] + r) == [SEP] + Join(r)
    ensures Join([[c] + r[0]] + r[1..]) == [c] + Join(r)
  {
    assert ([""] + r)[1..] == r && ([[c] + r[0]] + r[1..])[1..] == r[1..];
    assert Trail(r) == [SEP] + Join(r);
    assert [c] + r[0] + Trail(r[1..]) == [c] + Join(r);
  }

  lemma {:induction false} SplitJoin(cs: seq<string>)
    requires cs != []
    requires forall i :: 0 <= i < |cs| ==> SEP !in cs[i]
    ensures Split(Join(cs)) == cs
  {
    var c, rest := cs[0], cs[1..];
    assert cs == [c] + rest;
    SplitPlain(c);
    if rest == [] {
      assert Join(cs) == c;
    } else {
      SplitJoin(rest);
      assert Join(cs) == c + [SEP] + Join(rest);
      SplitConcat(c, Join(rest));
    }
  }

  lemma {:induction false} TrailConcat(a: seq<string>, b: seq<string>)
    ensures Trail(a + b) == Trail(a) + Trail(b)
  {
    if a == [] {
      assert a + b == b;
    } else {
      assert (a + b)[1..] == a[1..] + b;
      TrailConcat(a[1..], b);
    }
  }

  lemma {:induction false} LeadSnoc(a: seq<string>, c: string)
    ensures Lead(a + [c]) == Lead(a) + c + [SEP]
  {
    if a == [] {
      assert a + [c] == [c];
      assert Lead([c]) == c + [SEP] + "";
    } else {
      assert (a + [c])[1..] == a[1..] + [c];
      LeadSnoc(a[1..], c);
    }
  }

  /** The text around component b of a + [b] + c. */
  lemma {:induction false} JoinAround(a: seq<string>, b: string, c: seq<string>)
    ensures Join(a + [b] + c) == Lead(a) + b + Trail(c)
  {
    if a == [] {
      assert a + [b] + c == [b] + c;
      assert ([b] + c)[1..] == c;
    } else {
      JoinAround(a[1..], b, c);
      var rest := a[1..] + [b] + c;
      assert (a + [b] + c)[1..] == rest;
      assert Trail(rest) == [SEP] + Join(rest) by { assert rest != []; }
      assert a[0] + ([SEP] + (Lead(a[1..]) + b + Trail(c))) == (a[0] + [SEP] + Lead(a[1..])) + b + Trail(c);
    }
  }

  // ----- normal forms -----

  predicate Trivial(c: string) {
    c == "" || c == "."
  }

  /** A component that names an entry: not empty, not ".", not "..", no separator inside. */
  predicate IsName(c: string) {
    !Trivial(c) && c != ".." && SEP !in c
  }

  function Nontrivial(cs: seq<string>): (r: seq<string>)
    ensures forall i :: 0 <= i < |r| ==> r[i] in cs && !Trivial(r[i])
  {
    if cs == [] then []
    else (if Trivial(cs[0]) then [] else [cs[0]]) + Nontrivial(cs[1..])
  }

  /** The components of t that matter: empty ones and "." are dropped. */
  function Names(t: string): (r: seq<string>)
    ensures forall i :: 0 <= i < |r| ==> SEP !in r[i] && !Trivial(r[i])
  {
    Nontrivial(Split(t))
  }

  lemma {:induction false} NontrivialConcat(a: seq<string>, b: seq<string>)
    ensures Nontrivial(a + b) == Nontrivial(a) + Nontrivial(b)
  {
    if a == [] {
      assert a + b == b;
    } else {
      assert (a + b)[1..] == a[1..] + b;
      NontrivialConcat(a[1..], b);
    }
  }

  lemma {:induction false} NontrivialId(cs: seq<string>)
    requires forall i :: 0 <= i < |cs| ==> !Trivial(cs[i])
    ensures Nontrivial(cs) == cs
  {
    if cs == [] {
    } else {
      NontrivialId(cs[1..]);
      assert [cs[0]] + cs[1..] == cs;
    }
  }

  lemma NamesConcat(u: string, v: string)
    ensures Names(u + [SEP] + v) == Names(u) + Names(v)
  {
    SplitConcat(u, v);
    NontrivialConcat(Split(u), Split(v));
  }

  /** One component against the stack of those kept so far. */
  function Step(abs: bool, st: seq<string>, c: string): seq<string> {
    if Trivial(c) then st
    else if c != ".." then st + [c]
    else if st != [] && st[|st| - 1] != ".." then st[..|st| - 1]
    else if abs then st
    else st + [c]
  }

  function Fold(abs: bool, st: seq<string>, cs: seq<string>): seq<string>
    decreases |cs|
  {
    if cs == [] then st else Fold(abs, Step(abs, st, cs[0]), cs[1..])
  }

  function Norm(abs: bool, cs: seq<string>): seq<string> {
    Fold(abs, [], cs)
  }

  function Print(abs: bool, ns: seq<string>): string {
    if abs then [SEP] + Join(ns) else if ns == [] then "." else Join(ns)
  }

  /** The printed normal form; with keepDotDots only trivial components go. */
  function CanonLocal(t: string, keepDotDots: bool): string {
    if t == "" then ""
    else Print(IsAbsolute(t), if keepDotDots then Names(t) else Norm(IsAbsolute(t), Names(t)))
  }

  lemma {:induction false} FoldConcat(abs: bool, st: seq<string>, a: seq<string>, b: seq<string>)
    ensures Fold(abs, st, a + b) == Fold(abs, Fold(abs, st, a), b)
    decreases |a|
  {
    if a == [] {
      assert a + b == b;
    } else {
      assert (a + b)[1..] == a[1..] + b;
      FoldConcat(abs, Step(abs, st, a[0]), a[1..], b);
    }
  }

  lemma FoldSnoc(abs: bool, st: seq<string>, a: seq<string>, c: string)
    ensures Fold(abs, st, a + [c]) == Step(abs, Fold(abs, st, a), c)
  {
    FoldConcat(abs, st, a, [c]);
    assert [c][1..] == [];
  }

  lemma {:induction false} FoldNontrivial(abs: bool, st: seq<string>, cs: seq<string>)
    ensures Fold(abs, st, Nontrivial(cs)) == Fold(abs, st, cs)
    decreases |cs|
  {
    if cs == [] {
    } else {
      var st' := Step(abs, st, cs[0]);
      FoldNontrivial(abs, st', cs[1..]);
      if !Trivial(cs[0]) {
        assert Nontrivial(cs)[1..] == Nontrivial(cs[1..]);
      } else {
        assert Nontrivial(cs) == Nontrivial(cs[1..]);
      }
    }
  }

  /** A sequence in which nothing is left to cancel: ".." only at the front of a relative path. */
  ghost predicate Settled(abs: bool, cs: seq<string>) {
    && (forall i :: 0 <= i < |cs| ==> !Trivial(cs[i]) && SEP !in cs[i])
    && (forall i :: 0 <= i < |cs| && cs[i] == ".." ==> !abs && forall j :: 0 <= j < i ==> cs[j] == "..")
  }

  lemma {:induction false} SettledFold(abs: bool, cs: seq<string>)
    requires Settled(abs, cs)
    ensures Fold(abs, [], cs) == cs
  {
    if cs == [] {
    } else {
      var n := |cs| - 1;
      assert cs == cs[..n] + [cs[n]];
      SettledFold(abs, cs[..n]);
      FoldSnoc(abs, [], cs[..n], cs[n]);
    }
  }

  lemma StepSettled(abs: bool, st: seq<string>, c: string)
    requires Settled(abs, st) && SEP !in c
    ensures Settled(abs, Step(abs, st, c))
  {
  }

  lemma {:induction false} FoldSettled(abs: bool, st: seq<string>, cs: seq<string>)
    requires Settled(abs, st)
    requires forall i :: 0 <= i < |cs| ==> SEP !in cs[i]
    ensures Settled(abs, Fold(abs, st, cs))
    decreases |cs|
  {
    if cs == [] {
    } else {
      StepSettled(abs, st, cs[0]);
      FoldSettled(abs, Step(abs, st, cs[0]), cs[1..]);
    }
  }

  /** Parsing a printed sequence gives the sequence back. */
  lemma NamesPrint(abs: bool, ns: seq<string>)
    requires forall i :: 0 <= i < |ns| ==> !Trivial(ns[i]) && SEP !in ns[i]
    ensures Print(abs, ns) != ""
    ensures IsAbsolute(Print(abs, ns)) == abs
    ensures Names(Print(abs, ns)) == ns
  {
    NontrivialId(ns);
    if ns != [] { SplitJoin(ns); }
    if abs {
      NamesConcat("", Join(ns));
      assert "" + [SEP] + Join(ns) == Print(abs, ns);
      assert Names("") == [] by { assert Split("") == [""]; assert [""][1..] == []; }
      assert [] + ns == ns;
    } else if ns == [] {
      SplitPlain(".");
      assert ["."][1..] == [];
    } else {
      assert Join(ns)[0] == ns[0][0];
    }
  }

  lemma CanonNames(t: string, keepDotDots: bool)
    requires t != ""
    ensures var c := CanonLocal(t, keepDotDots);
            c != "" && IsAbsolute(c) == IsAbsolute(t)
            && Names(c) == (if keepDotDots then Names(t) else Norm(IsAbsolute(t), Names(t)))
  {
    var abs := IsAbsolute(t);
    FoldSettled(abs, [], Names(t));
    NamesPrint(abs, if keepDotDots then Names(t) else Norm(abs, Names(t)));
  }

  lemma CanonLocalIdempotent(t: string, keepDotDots: bool)
    ensures CanonLocal(CanonLocal(t, keepDotDots), keepDotDots) == CanonLocal(t, keepDotDots)
  {
    if t != "" {
      CanonNames(t, keepDotDots);
      FoldSettled(IsAbsolute(t), [], Names(t));
      SettledFold(IsAbsolute(t), Norm(IsAbsolute(t), Names(t)));
    }
  }

  // ----- what a path means -----

  /** Following components from the directory reached by the names in dir; ".." at the root stays there. */
  function Walk(dir: seq<string>, cs: seq<string>): seq<string>
    decreases |cs|
  {
    if cs == [] then dir
    else
      var c := cs[0];
      var next := if c == "" || c == "." then dir
                  else if c == ".." then (if dir == [] then dir else dir[..|dir| - 1])
                  else dir + [c];
      Walk(next, cs[1..])
  }

  /** The directory that path t names for a process working in cwd. */
  function Meaning(cwd: seq<string>, t: string): seq<string> {
    Walk(if IsAbsolute(t) then [] else cwd, Split(t))
  }

  ghost predicate IsDirectory(dir: seq<string>) {
    forall i :: 0 <= i < |dir| ==> IsName(dir[i])
  }

  lemma {:induction false} WalkIsFold(dir: seq<string>, cs: seq<string>)
    requires IsDirectory(dir)
    requires forall i :: 0 <= i < |cs| ==> SEP !in cs[i]
    ensures Walk(dir, cs) == Fold(true, dir, cs)
    ensures IsDirectory(Walk(dir, cs))
    decreases |cs|
  {
    if cs == [] {
    } else {
      WalkIsFold(Step(true, dir, cs[0]), cs[1..]);
    }
  }

  /** A name pushed last is what ".." takes away again. */
  lemma StepCancels(abs: bool, st: seq<string>, m: seq<string>, name: string)
    requires !Trivial(name) && name != ".."
    ensures Step(abs, Fold(abs, st, m + [name]), "..") == Fold(abs, st, m)
  {
    FoldSnoc(abs, st, m, name);
    var x := Fold(abs, st, m);
    assert (x + [name])[..|x|] == x;
  }

  /** Normalising a piece first does not change where it leads, whatever is below it on the stack. */
  lemma {:induction false} FoldNorm(abs: bool, st: seq<string>, cs: seq<string>)
    requires forall i :: 0 <= i < |cs| ==> SEP !in cs[i]
    ensures Fold(abs, st, Norm(false, cs)) == Fold(abs, st, cs)
  {
    if cs == [] {
    } else {
      var k := |cs| - 1;
      var init, c := cs[..k], cs[k];
      assert cs == init + [c];
      FoldNorm(abs, st, init);
      FoldSnoc(abs, st, init, c);
      FoldSnoc(false, [], init, c);
      FoldNormStep(abs, st, init, c);
    }
  }

  lemma FoldNormStep(abs: bool, st: seq<string>, init: seq<string>, c: string)
    requires forall i :: 0 <= i < |init| ==> SEP !in init[i]
    ensures Fold(abs, st, Step(false, Norm(false, init), c)) == Step(abs, Fold(abs, st, Norm(false, init)), c)
  {
    var n := Norm(false, init);
    FoldSettled(false, [], init);
    if Trivial(c) {
    } else if c == ".." && n != [] && n[|n| - 1] != ".." {
      var m, name := n[..|n| - 1], n[|n| - 1];
      assert n == m + [name];
      StepCancels(abs, st, m, name);
    } else {
      FoldSnoc(abs, st, n, c);
    }
  }

  lemma NormTrueAgrees(cs: seq<string>)
    requires forall i :: 0 <= i < |cs| ==> SEP !in cs[i]
    ensures Fold(true, [], Norm(true, cs)) == Norm(true, cs)
  {
    FoldSettled(true, [], cs);
    SettledFold(true, Norm(true, cs));
  }

  lemma MeaningNames(cwd: seq<string>, t: string)
    requires IsDirectory(cwd)
    ensures Meaning(cwd, t) == Fold(true, if IsAbsolute(t) then [] else cwd, Names(t))
  {
    var dir := if IsAbsolute(t) then [] else cwd;
    WalkIsFold(dir, Split(t));
    FoldNontrivial(true, dir, Split(t));
  }

  /** The rewriting never changes where a path leads, from any working directory. */
  lemma CanonKeepsMeaning(cwd: seq<string>, t: string, keepDotDots: bool)
    requires IsDirectory(cwd)
    ensures Meaning(cwd, CanonLocal(t, keepDotDots)) == Meaning(cwd, t)
  {
    if t != "" {
      var c := CanonLocal(t, keepDotDots);
      CanonNames(t, keepDotDots);
      MeaningNames(cwd, t);
      MeaningNames(cwd, c);
      if IsAbsolute(t) { NormTrueAgrees(Names(t)); } else { FoldNorm(true, cwd, Names(t)); }
    }
  }

  // ----- the normal form decides meaning -----

  function Repeat(n: nat, z: string): (r: seq<string>)
    ensures |r| == n && forall i :: 0 <= i < n ==> r[i] == z
  {
    seq(n, _ => z)
  }

  /** A name longer than every component of ns. */
  function FreshName(ns: seq<string>): (z: string)
    ensures IsName(z) && z !in ns && (forall i :: 0 <= i < |z| ==> z[i] == 'z')
    ensures forall i :: 0 <= i < |ns| ==> |ns[i]| < |z|
  {
    if ns == [] then "z"
    else
      var z := FreshName(ns[1..]);
      if |z| > |ns[0]| then z
      else
        var w := seq(|ns[0]| + 1, _ => 'z');
        assert w[0] == 'z';
        w
  }

  /** How many ".." lead a settled relative path. */
  function Ups(ns: seq<string>): (k: nat)
    ensures k <= |ns| && (forall i :: 0 <= i < k ==> ns[i] == "..")
    ensures k < |ns| ==> ns[k] != ".."
  {
    if ns == [] || ns[0] != ".." then 0 else 1 + Ups(ns[1..])
  }

  lemma {:induction false} FoldFromDepth(n: nat, z: string, ns: seq<string>)
    requires Settled(false, ns) && IsName(z) && Ups(ns) <= n
    ensures Fold(true, Repeat(n, z), ns) == Repeat(n - Ups(ns), z) + ns[Ups(ns)..]
    decreases |ns|
  {
    if ns == [] {
    } else if ns[0] == ".." {
      assert Step(true, Repeat(n, z), "..") == Repeat(n - 1, z);
      FoldFromDepth(n - 1, z, ns[1..]);
      assert ns[1..][Ups(ns) - 1..] == ns[Ups(ns)..];
    } else {
      assert forall i :: 0 <= i < |ns| ==> ns[i] != "..";
      FoldNames(true, Repeat(n, z), ns);
    }
  }

  lemma {:induction false} FoldNames(abs: bool, st: seq<string>, ns: seq<string>)
    requires forall i :: 0 <= i < |ns| ==> !Trivial(ns[i]) && ns[i] != ".."
    ensures Fold(abs, st, ns) == st + ns
    decreases |ns|
  {
    if ns == [] {
    } else {
      FoldNames(abs, st + [ns[0]], ns[1..]);
      assert (st + [ns[0]]) + ns[1..] == st + ns;
    }
  }

  /** Where a path with normal components ns leads from a directory of n copies of z. */
  function Landing(n: nat, z: string, abs: bool, ns: seq<string>): seq<string>
    requires Ups(ns) <= n
  {
    if abs then ns else Repeat(n - Ups(ns), z) + ns[Ups(ns)..]
  }

  lemma LandingSeparates(n: nat, z: string, abs1: bool, ns1: seq<string>, abs2: bool, ns2: seq<string>)
    requires Settled(abs1, ns1) && Settled(abs2, ns2)
    requires z !in ns1 && z !in ns2
    requires Ups(ns1) < n && Ups(ns2) < n
    requires abs1 != abs2 || ns1 != ns2
    ensures Landing(n, z, abs1, ns1) != Landing(n, z, abs2, ns2)
  {
    var l1, l2 := Landing(n, z, abs1, ns1), Landing(n, z, abs2, ns2);
    var k1, k2 := Ups(ns1), Ups(ns2);
    if abs1 && !abs2 {
      assert l2[0] == z && z !in l1;
    } else if abs2 && !abs1 {
      assert l1[0] == z && z !in l2;
    } else if !abs1 {
      if k1 < k2 {
        assert l1[n - k2] == z && (n - k2 < |l2| ==> l2[n - k2] == ns2[k2]);
      } else if k2 < k1 {
        assert l2[n - k1] == z && (n - k1 < |l1| ==> l1[n - k1] == ns1[k1]);
      } else {
        SameUps(k1, ns1, ns2);
        assert l1[n - k1..] == ns1[k1..] && l2[n - k1..] == ns2[k1..];
      }
    }
  }

  lemma SameUps(k: nat, ns1: seq<string>, ns2: seq<string>)
    requires k == Ups(ns1) == Ups(ns2) && ns1 != ns2
    ensures ns1[k..] != ns2[k..]
  {
    assert ns1 == Repeat(k, "..") + ns1[k..];
    assert ns2 == Repeat(k, "..") + ns2[k..];
  }

  /** Two paths have the same normal form exactly when they lead to the same place from everywhere. */
  lemma CanonDecidesMeaning(t: string, u: string)
    requires t != "" && u != ""
    ensures CanonLocal(t, false) == CanonLocal(u, false)
       <==> (forall cwd: seq<string> :: IsDirectory(cwd) ==> Meaning(cwd, t) == Meaning(cwd, u))
  {
    if CanonLocal(t, false) == CanonLocal(u, false) {
      forall cwd: seq<string> | IsDirectory(cwd)
        ensures Meaning(cwd, t) == Meaning(cwd, u)
      {
        CanonKeepsMeaning(cwd, t, false);
        CanonKeepsMeaning(cwd, u, false);
      }
    }
    if forall cwd: seq<string> :: IsDirectory(cwd) ==> Meaning(cwd, t) == Meaning(cwd, u) {
      var nt, nu := Norm(IsAbsolute(t), Names(t)), Norm(IsAbsolute(u), Names(u));
      var z := FreshName(nt + nu);
      var n := Ups(nt) + Ups(nu) + 1;
      assert forall x :: x in nt || x in nu ==> x in nt + nu;
      MeaningFromDepth(n, z, t);
      MeaningFromDepth(n, z, u);
      assert IsDirectory(Repeat(n, z));
      FoldSettled(IsAbsolute(t), [], Names(t));
      FoldSettled(IsAbsolute(u), [], Names(u));
      if IsAbsolute(t) != IsAbsolute(u) || nt != nu {
        LandingSeparates(n, z, IsAbsolute(t), nt, IsAbsolute(u), nu);
        assert false;
      }
    }
  }

  lemma MeaningFromDepth(n: nat, z: string, t: string)
    requires t != "" && IsName(z)
    requires Ups(Norm(IsAbsolute(t), Names(t))) <= n
    ensures Meaning(Repeat(n, z), t) == Landing(n, z, IsAbsolute(t), Norm(IsAbsolute(t), Names(t)))
  {
    var abs, cwd, ns := IsAbsolute(t), Repeat(n, z), Names(t);
    assert IsDirectory(cwd);
    MeaningNames(cwd, t);
    FoldSettled(abs, [], ns);
    if abs {
    } else {
      RepeatFold(n, z, ns);
    }
  }

  lemma RepeatFold(n: nat, z: string, ns: seq<string>)
    requires IsName(z) && Ups(Norm(false, ns)) <= n
    requires forall i :: 0 <= i < |ns| ==> SEP !in ns[i]
    ensures Fold(true, Repeat(n, z), ns) == Landing(n, z, false, Norm(false, ns))
  {
    FoldSettled(false, [], ns);
    FoldNorm(true, Repeat(n, z), ns);
    FoldFromDepth(n, z, Norm(false, ns));
  }
}
