/** The character buffer that the path rewriter works in, and its first two passes
    (lib/utilunix.c, custom_canonicalize_pathname). */
module PathBuffer {
  import opened PathAlgebra
  import opened PlainPath

  // ----- the buffer -----

  /** The C string t stands in a from index lp on. */
  ghost predicate Holds(a: array<char>, lp: nat, t: string)
    reads a
  {
    && lp + |t| < a.Length
    && a[lp + |t|] == '\0'
    && forall i :: 0 <= i < |t| ==> a[lp + i] == t[i] && t[i] != '\0'
  }

  ghost predicate IsCString(a: array<char>)
    reads a
  {
    '\0' in a[..]
  }

  ghost function FirstNul(s: string): (n: nat)
    requires '\0' in s
    ensures n < |s| && s[n] == '\0' && '\0' !in s[..n]
  {
    if s[0] == '\0' then 0
    else
      var m := FirstNul(s[1..]);
      assert s[..m + 1] == [s[0]] + s[1..][..m];
      m + 1
  }

  lemma {:induction false} FirstNulUnique(s: string, k: nat)
    requires k < |s| && s[k] == '\0' && forall i :: 0 <= i < k ==> s[i] != '\0'
    ensures '\0' in s && FirstNul(s) == k
  {
    if k == 0 {
    } else {
      FirstNulUnique(s[1..], k - 1);
    }
  }

  /** The text of the buffer: everything before the first NUL. */
  ghost function TextOf(a: array<char>): string
    requires IsCString(a)
    reads a
  {
    a[..FirstNul(a[..])]
  }

  /** Reading the buffer: the text, then the NUL that ends it. */
  lemma Peek(a: array<char>, lp: nat, t: string, p: nat)
    requires Holds(a, lp, t) && p <= |t|
    ensures a[lp + p] == (if p < |t| then t[p] else '\0')
    ensures a[lp + p] == '\0' <==> p == |t|
  {
    if p < |t| { assert a[lp + p] == t[p]; }
  }

  lemma HoldsText(a: array<char>, t: string)
    requires Holds(a, 0, t)
    ensures IsCString(a) && TextOf(a) == t
  {
    assert a[..][|t|] == '\0';
    var n := FirstNul(a[..]);
    forall i | 0 <= i < |t|
      ensures a[..][i] == t[i]
    {
      assert a[0 + i] == t[i];
    }
    FirstNulUnique(a[..], |t|);
  }

  /** str_move: the string at src slides down to dst. */
  method StrMove(a: array<char>, dst: nat, src: nat, ghost lp: nat, ghost t: string)
    requires Holds(a, lp, t) && lp <= dst <= src <= lp + |t|
    modifies a
    ensures Holds(a, lp, t[..dst - lp] + t[src - lp..])
    ensures a[..lp] == old(a[..lp])
  {
    ghost var was := a[..];
    ghost var end := lp + |t|;
    assert Shows(was, lp, t) by {
      assert forall k :: lp <= k < end ==> was[k] == a[lp + (k - lp)];
    }
    assert was[end] == '\0';
    var i := 0;
    while a[src + i] != '\0'
      invariant src + i <= end
      invariant forall k :: 0 <= k < dst ==> a[k] == was[k]
      invariant forall k :: dst <= k < dst + i ==> a[k] == was[k - dst + src]
      invariant forall k :: src + i <= k <= end ==> a[k] == was[k]
      decreases end - (src + i)
    {
      a[dst + i] := a[src + i];
      i := i + 1;
    }
    a[dst + i] := '\0';
    assert i == end - src;
    Moved(a, was, dst, src, lp, t);
  }

  /** The text t stands in s from index lp on. */
  ghost predicate Shows(s: seq<char>, lp: nat, t: string) {
    lp + |t| < |s| && forall k :: lp <= k < lp + |t| ==> s[k] == t[k - lp] != '\0'
  }

  ghost predicate Same(a: array<char>, was: seq<char>, n: nat)
    reads a
  {
    n <= |was| <= a.Length && forall k :: 0 <= k < n ==> a[k] == was[k]
  }

  /** n characters have moved from src to dst. */
  ghost predicate Slid(a: array<char>, was: seq<char>, dst: nat, src: nat, n: nat)
    reads a
  {
    dst + n <= a.Length && src + n <= |was| && forall k :: dst <= k < dst + n ==> a[k] == was[k - dst + src]
  }

  lemma SamePrefix(a: array<char>, was: seq<char>, lp: nat, n: nat)
    requires lp <= n && Same(a, was, n)
    ensures a[..lp] == was[..lp]
  {
  }

  /** What str_move leaves. */
  lemma Moved(a: array<char>, was: seq<char>, dst: nat, src: nat, lp: nat, t: string)
    requires lp <= dst <= src <= lp + |t| < |was| == a.Length
    requires Shows(was, lp, t)
    requires Same(a, was, dst) && Slid(a, was, dst, src, lp + |t| - src)
    requires a[dst + (lp + |t| - src)] == '\0'
    ensures Holds(a, lp, t[..dst - lp] + t[src - lp..]) && a[..lp] == was[..lp]
  {
    hide Shows, Same, Slid;
    SamePrefix(a, was, lp, dst);
    var front, tail := t[..dst - lp], t[src - lp..];
    var r := front + tail;
    assert lp + |r| == dst + (lp + |t| - src);
    forall i | 0 <= i < |r|
      ensures a[lp + i] == r[i] && r[i] != '\0'
    {
      if i < |front| {
        MovedFront(a, was, dst, lp, t, i);
      } else {
        MovedTail(a, was, dst, src, lp, t, i - |front|);
      }
    }
  }

  lemma MovedFront(a: array<char>, was: seq<char>, dst: nat, lp: nat, t: string, i: nat)
    requires lp + i < dst <= lp + |t| < |was| == a.Length
    requires Shows(was, lp, t)
    requires Same(a, was, dst)
    ensures a[lp + i] == t[i] != '\0'
  {
    assert a[lp + i] == was[lp + i];
  }

  lemma MovedTail(a: array<char>, was: seq<char>, dst: nat, src: nat, lp: nat, t: string, i: nat)
    requires lp <= dst <= src && src + i < lp + |t| < |was| == a.Length
    requires Shows(was, lp, t)
    requires Slid(a, was, dst, src, lp + |t| - src)
    ensures a[dst + i] == t[src - lp + i] != '\0'
  {
    assert a[dst + i] == was[src + i];
  }

  method StrLen(a: array<char>, lp: nat, ghost t: string) returns (n: nat)
    requires Holds(a, lp, t)
    ensures n == |t|
  {
    n := 0;
    while a[lp + n] != '\0'
      invariant n <= |t|
      decreases |t| - n
    {
      n := n + 1;
    }
    Peek(a, lp, t, n);
  }

  // ----- pass one: repeated separators and "/./" -----

  ghost predicate NoDoubleSep(t: string) {
    forall i :: 0 <= i && i + 1 < |t| ==> !(t[i] == SEP && t[i + 1] == SEP)
  }

  ghost predicate DotStepAt(t: string, i: int) {
    0 <= i && i + 2 < |t| && t[i] == SEP && t[i + 1] == '.' && t[i + 2] == SEP
  }

  /** t says the same as t0 in no more characters. */
  ghost predicate Shortens(t0: string, t: string) {
    |t| <= |t0| && (t == "" <==> t0 == "") && IsAbsolute(t) == IsAbsolute(t0) && Names(t) == Names(t0)
  }

  lemma NamesTrailingSep(u: string)
    ensures Names(u + [SEP]) == Names(u)
  {
    NamesConcat(u, "");
    assert u + [SEP] + "" == u + [SEP];
    assert Split("") == [""] && [""][1..] == [];
  }

  lemma {:induction false} NamesSepRun(t: string, p: nat, q: nat)
    requires p <= q <= |t| && forall i :: p <= i < q ==> t[i] == SEP
    ensures Names(t[..q]) == Names(t[..p])
    decreases q - p
  {
    if p == q {
    } else {
      NamesSepRun(t, p, q - 1);
      assert t[..q] == t[..q - 1] + [SEP];
      NamesTrailingSep(t[..q - 1]);
    }
  }

  lemma SqueezeRun(t: string, p: nat, q: nat)
    requires p < q <= |t| && forall i :: p <= i < q ==> t[i] == SEP
    ensures Shortens(t, t[..p + 1] + t[q..])
  {
    hide Names;
    NamesSepRun(t, p, q - 1);
    var u, w, v := t[..p], t[..q - 1], t[q..];
    NamesConcat(u, v);
    NamesConcat(w, v);
    assert t == w + [SEP] + v by { assert t[q - 1] == SEP; }
    assert t[..p + 1] + v == u + [SEP] + v by { assert t[p] == SEP; }
    assert t[0] == (u + [SEP] + v)[0];
  }

  lemma DropDotStep(t: string, p: nat)
    requires DotStepAt(t, p)
    ensures Shortens(t, t[..p] + t[p + 2..])
  {
    hide Names;
    var u, v := t[..p], t[p + 3..];
    assert t == u + [SEP] + "." + [SEP] + v;
    assert t[..p] + t[p + 2..] == u + [SEP] + v;
    NamesConcat(u + [SEP] + ".", v);
    NamesConcat(u, ".");
    NamesConcat(u, v);
    NamesOfDot();
  }

  ghost predicate SingleBefore(t: string, p: nat) {
    forall i :: 0 <= i < p && i + 1 < |t| ==> !(t[i] == SEP && t[i + 1] == SEP)
  }

  lemma SqueezeKeeps(t: string, p: nat, q: nat)
    requires p < q <= |t| && SingleBefore(t, p) && t[p] == SEP && (q < |t| ==> t[q] != SEP)
    ensures SingleBefore(t[..p + 1] + t[q..], p + 1)
  {
    var r := t[..p + 1] + t[q..];
    assert forall i :: 0 <= i <= p ==> r[i] == t[i];
    assert p + 1 < |r| ==> r[p + 1] == t[q];
  }

  method SkipSeps(a: array<char>, lp: nat, p: nat, ghost t: string) returns (s: nat)
    requires Holds(a, lp, t) && p <= |t|
    ensures p <= s <= |t| && (forall i :: p <= i < s ==> t[i] == SEP) && (s < |t| ==> t[s] != SEP)
  {
    s := p;
    Peek(a, lp, t, s);
    while a[lp + s] == SEP
      invariant p <= s <= |t| && a[lp + s] == if s < |t| then t[s] else '\0'
      invariant forall i :: p <= i < s ==> t[i] == SEP
      decreases |t| - s
    {
      s := s + 1;
      Peek(a, lp, t, s);
    }
  }

  method CollapseSlashes(a: array<char>, lp: nat, ghost t0: string) returns (ghost t: string)
    requires Holds(a, lp, t0) && Plain(t0)
    modifies a
    ensures Holds(a, lp, t) && a[..lp] == old(a[..lp])
    ensures Shortens(t0, t) && NoDoubleSep(t) && Plain(t)
  {
    hide Plain, Names;
    t := t0;
    var p := 0;
    while a[lp + p] != '\0'
      invariant p <= |t| && Holds(a, lp, t) && a[..lp] == old(a[..lp])
      invariant Shortens(t0, t) && SingleBefore(t, p) && Plain(t)
      decreases |t| - p
    {
      Peek(a, lp, t, p);
      Peek(a, lp, t, p + 1);
      if p > 0 {
        Peek(a, lp, t, p - 1);
        NoColonBefore(t, p);
      }
      if a[lp + p] == SEP && a[lp + (p + 1)] == SEP && (p == 0 || a[lp + (p - 1)] != ':') {
        var s := SkipSeps(a, lp, p + 2, t);
        StrMove(a, lp + p + 1, lp + s, lp, t);
        SqueezeRun(t, p, s);
        SqueezeKeeps(t, p, s);
        PlainCut(t, p + 1, s);
        t := t[..p + 1] + t[s..];
      }
      p := p + 1;
    }
    Peek(a, lp, t, p);
  }

  method CollapseDotSteps(a: array<char>, lp: nat, ghost t0: string) returns (ghost t: string)
    requires Holds(a, lp, t0) && NoDoubleSep(t0) && Plain(t0)
    modifies a
    ensures Holds(a, lp, t) && a[..lp] == old(a[..lp])
    ensures Shortens(t0, t) && NoDoubleSep(t) && Plain(t)
    ensures forall i :: !DotStepAt(t, i)
  {
    hide Plain, Names;
    t := t0;
    var p := 0;
    while a[lp + p] != '\0'
      invariant p <= |t| && Holds(a, lp, t) && a[..lp] == old(a[..lp])
      invariant Shortens(t0, t) && NoDoubleSep(t) && Plain(t)
      invariant forall i :: 0 <= i < p ==> !DotStepAt(t, i)
      decreases |t| - p
    {
      Peek(a, lp, t, p);
      Peek(a, lp, t, p + 1);
      if p + 2 <= |t| { Peek(a, lp, t, p + 2); }
      if a[lp + p] == SEP && a[lp + (p + 1)] == '.' && a[lp + (p + 2)] == SEP {
        StrMove(a, lp + p, lp + p + 2, lp, t);
        DropDotStep(t, p);
        DropDotStepKeeps(t, p);
        PlainCut(t, p + 1, p + 3);
        assert t[..p + 1] + t[p + 3..] == t[..p] + t[p + 2..];
        t := t[..p] + t[p + 2..];
      } else {
        p := p + 1;
      }
    }
    Peek(a, lp, t, p);
  }

  lemma DropDotStepKeeps(t: string, p: nat)
    requires DotStepAt(t, p) && NoDoubleSep(t)
    ensures NoDoubleSep(t[..p] + t[p + 2..])
    ensures var r := t[..p] + t[p + 2..];
            (forall i :: 0 <= i < p ==> !DotStepAt(t, i)) ==> forall i :: 0 <= i < p ==> !DotStepAt(r, i)
  {
    var r := t[..p] + t[p + 2..];
    assert forall i :: 0 <= i <= p ==> r[i] == t[i];
    assert forall i :: p <= i < |r| ==> r[i] == t[i + 2];
    forall i | 0 <= i && i + 1 < |r|
      ensures !(r[i] == SEP && r[i + 1] == SEP)
    {
      if i < p { assert r[i] == t[i]; } else { assert r[i] == t[i + 2] && r[i + 1] == t[i + 3]; }
    }
    forall i | 0 <= i < p && !DotStepAt(t, i)
      ensures !DotStepAt(r, i)
    {
      if i == p - 1 { assert r[i] == t[i] && t[i + 1] == SEP; }
    }
  }

  // ----- pass two: trailing separators, leading "./", trailing "/." -----

  lemma LeadEndsWithSep(cs: seq<string>)
    requires cs != []
    ensures Lead(cs) != "" && Lead(cs)[|Lead(cs)| - 1] == SEP
  {
    var n := |cs| - 1;
    assert cs == cs[..n] + [cs[n]];
    LeadSnoc(cs[..n], cs[n]);
  }

  /** t around its component number i. */
  lemma Around(t: string, cs: seq<string>, i: nat)
    requires cs == Split(t) && i < |cs|
    ensures t == Lead(cs[..i]) + cs[i] + Trail(cs[i + 1..])
    ensures i > 0 ==> Lead(cs[..i]) != "" && Lead(cs[..i])[|Lead(cs[..i])| - 1] == SEP
    ensures i + 1 < |cs| ==> Trail(cs[i + 1..]) != "" && Trail(cs[i + 1..])[0] == SEP
    ensures i + 1 == |cs| ==> Trail(cs[i + 1..]) == ""
  {
    JoinSplit(t);
    assert cs == cs[..i] + [cs[i]] + cs[i + 1..];
    JoinAround(cs[..i], cs[i], cs[i + 1..]);
    if i > 0 { LeadEndsWithSep(cs[..i]); }
  }

  ghost predicate Tidy(t: string) {
    && NoDoubleSep(t) && (forall i :: !DotStepAt(t, i))
    && (|t| >= 2 ==> t[|t| - 1] != SEP && !(t[0] == '.' && t[1] == SEP)
                     && !(t[|t| - 1] == '.' && t[|t| - 2] == SEP))
  }

  /** An empty or "." component behind a separator shows in the text. */
  lemma TrivialShows(t: string, cs: seq<string>, i: nat)
    requires cs == Split(t) && 0 < i < |cs| && Trivial(cs[i])
    ensures !NoDoubleSep(t) || (exists k :: DotStepAt(t, k))
         || t[|t| - 1] == SEP || (|t| >= 2 && t[|t| - 1] == '.' && t[|t| - 2] == SEP)
  {
    Around(t, cs, i);
    TrivialBetween(Lead(cs[..i]), cs[i], Trail(cs[i + 1..]));
  }

  lemma TrivialBetween(l: string, c: string, r: string)
    requires Trivial(c) && l != "" && l[|l| - 1] == SEP && (r != "" ==> r[0] == SEP)
    ensures var t := l + c + r;
            !NoDoubleSep(t) || (exists k :: DotStepAt(t, k))
            || t[|t| - 1] == SEP || (|t| >= 2 && t[|t| - 1] == '.' && t[|t| - 2] == SEP)
  {
    var t := l + c + r;
    assert t[|l| - 1] == SEP;
    if c == "" && r != "" {
      assert t[|l|] == SEP;
    } else if c == "." {
      assert t[|l|] == '.';
      if r != "" {
        assert t[|l| + 1] == SEP;
        assert DotStepAt(t, |l| - 1);
      }
    }
  }

  lemma FirstComponent(t: string, cs: seq<string>)
    requires cs == Split(t) && |t| >= 2
    ensures IsAbsolute(t) ==> cs[0] == "" && |cs| > 1
    ensures !IsAbsolute(t) ==> cs[0] != ""
    ensures cs[0] == "." ==> t[0] == '.' && t[1] == SEP
  {
    JoinSplit(t);
    var c, r := cs[0], Trail(cs[1..]);
    assert t == c + r;
    assert r != "" ==> r[0] == SEP;
    assert c != "" ==> t[0] == c[0] && c[0] in c;
    assert c == "." ==> t[1] == r[0];
  }

  lemma TidySplit(t: string, cs: seq<string>)
    requires Tidy(t) && |t| >= 2 && cs == Split(t)
    ensures forall i :: 0 < i < |cs| ==> !Trivial(cs[i])
    ensures IsAbsolute(t) ==> cs[0] == "" && |cs| > 1
    ensures !IsAbsolute(t) ==> !Trivial(cs[0])
  {
    FirstComponent(t, cs);
    forall i | 0 < i < |cs| && Trivial(cs[i])
      ensures false
    {
      TrivialShows(t, cs, i);
    }
  }

  lemma SplitPlainOrRoot(t: string)
    requires |t| == 1
    ensures Names(t) == [] || (Names(t) == [t] && SEP !in t)
  {
    if t[0] == SEP {
      NamesTrailingSep("");
      assert "" + [SEP] == t;
      assert Split("") == [""] && [""][1..] == [];
    } else {
      SplitPlain(t);
      assert [t][1..] == [];
    }
  }

  lemma NamesOfSplit(t: string, cs: seq<string>)
    requires cs == Split(t) && (forall i :: 0 < i < |cs| ==> !Trivial(cs[i]))
    requires cs[0] == "" || !Trivial(cs[0])
    ensures Names(t) == if cs[0] == "" then cs[1..] else cs
  {
    if cs[0] == "" {
      var rest := cs[1..];
      NontrivialId(rest);
      assert Nontrivial(cs) == [] + Nontrivial(rest);
    } else {
      NontrivialId(cs);
    }
  }

  lemma TidyPrintLong(t: string)
    requires |t| >= 2 && Tidy(t)
    ensures t == Print(IsAbsolute(t), Names(t))
  {
    var cs := Split(t);
    JoinSplit(t);
    TidySplit(t, cs);
    NamesOfSplit(t, cs);
    if IsAbsolute(t) { JoinFromRoot(cs); }
  }

  lemma JoinFromRoot(cs: seq<string>)
    requires |cs| > 1 && cs[0] == ""
    ensures Join(cs) == [SEP] + Join(cs[1..])
  {
    hide Trail;
    TrailIsSepJoin(cs[1..]);
    assert "" + Trail(cs[1..]) == Trail(cs[1..]);
  }

  lemma TrailIsSepJoin(cs: seq<string>)
    requires cs != []
    ensures Trail(cs) == [SEP] + Join(cs)
  {
  }

  lemma TidyPrint(t: string)
    requires t != "" && Tidy(t)
    ensures t == Print(IsAbsolute(t), Names(t))
  {
    if |t| >= 2 {
      TidyPrintLong(t);
    } else {
      SplitPlainOrRoot(t);
      if t[0] == SEP {
        assert [SEP] + "" == t;
      } else {
        SplitPlain(t);
        assert t == "." || Names(t) == [t];
        assert t + "" == t;
      }
    }
  }

  /** Removing a prefix or suffix of a text without repeats leaves it without repeats. */
  lemma PartKeeps(t: string, lo: nat, hi: nat)
    requires lo <= hi <= |t| && NoDoubleSep(t) && forall i :: !DotStepAt(t, i)
    ensures NoDoubleSep(t[lo..hi]) && forall i :: !DotStepAt(t[lo..hi], i)
  {
    var r := t[lo..hi];
    assert forall i :: 0 <= i < |r| ==> r[i] == t[lo + i];
    forall i
      ensures DotStepAt(r, i) ==> DotStepAt(t, lo + i)
    {
    }
  }

  lemma NamesOfDot()
    ensures Names(".") == []
  {
    SplitPlain(".");
    assert ["."][1..] == [];
  }

  lemma NamesWithoutTrailingSep(t: string)
    requires |t| >= 1 && t[|t| - 1] == SEP
    ensures Names(t[..|t| - 1]) == Names(t)
  {
    hide Names;
    assert t == t[..|t| - 1] + [SEP];
    NamesTrailingSep(t[..|t| - 1]);
  }

  lemma NamesWithoutLeadingDot(t: string)
    requires |t| >= 2 && t[0] == '.' && t[1] == SEP
    ensures Names(t[2..]) == Names(t)
  {
    hide Names;
    assert t == "." + [SEP] + t[2..];
    NamesOfDot();
    NamesConcat(".", t[2..]);
    assert [] + Names(t[2..]) == Names(t[2..]);
  }

  lemma NamesWithoutTrailingDot(t: string)
    requires |t| >= 2 && t[|t| - 1] == '.' && t[|t| - 2] == SEP
    ensures Names(t[..|t| - 2]) == Names(t)
  {
    hide Names;
    assert t == t[..|t| - 2] + [SEP] + ".";
    NamesOfDot();
    NamesConcat(t[..|t| - 2], ".");
  }

  method RemoveTrailingSeps(a: array<char>, lp: nat, ghost t0: string) returns (ghost t: string)
    requires Holds(a, lp, t0) && t0 != "" && Plain(t0)
    requires NoDoubleSep(t0) && forall i :: !DotStepAt(t0, i)
    modifies a
    ensures Holds(a, lp, t) && a[..lp] == old(a[..lp])
    ensures Shortens(t0, t) && Plain(t) && NoDoubleSep(t) && forall i :: !DotStepAt(t, i)
    ensures |t| >= 2 ==> t[|t| - 1] != SEP
  {
    hide Plain;
    t := t0;
    var len := StrLen(a, lp, t);
    var p := len - 1;
    Peek(a, lp, t, p);
    while p > 0 && a[lp + p] == SEP
      invariant 0 <= p == |t| - 1 && Holds(a, lp, t) && a[..lp] == old(a[..lp])
      invariant a[lp + p] == t[p]
      invariant Shortens(t0, t) && Plain(t) && NoDoubleSep(t) && forall i :: !DotStepAt(t, i)
    {
      var isUrl := EndsUrlPrefix(a, lp, p, t);
      if p > 1 { NoColonBefore(t, p - 1); }
      if isUrl { break; }
      NamesWithoutTrailingSep(t);
      PartKeeps(t, 0, p);
      PlainPrefix(t, p);
      assert t[0..p] == t[..p];
      a[lp + p] := '\0';
      t := t[..p];
      p := p - 1;
      Peek(a, lp, t, p);
    }
  }

  /** Does what is read up to position p end with "://"? */
  method EndsUrlPrefix(a: array<char>, lp: nat, p: nat, ghost t: string) returns (b: bool)
    requires Holds(a, lp, t) && p < |t|
    ensures b <==> p >= 2 && t[p - 2] == ':' && t[p - 1] == SEP && t[p] == SEP
  {
    if p < 2 { return false; }
    Peek(a, lp, t, p);
    Peek(a, lp, t, p - 1);
    Peek(a, lp, t, p - 2);
    b := a[lp + (p - 2)] == ':' && a[lp + (p - 1)] == SEP && a[lp + p] == SEP;
  }

  /** Neither end of the text is a lone dot or a separator that should go. */
  ghost predicate Compact(t: string) {
    t != "" && NoDoubleSep(t) && (forall i :: !DotStepAt(t, i)) && (|t| >= 2 ==> t[|t| - 1] != SEP)
  }

  ghost predicate DotFirst(t: string) {
    |t| >= 2 && t[0] == '.' && t[1] == SEP
  }

  ghost predicate DotLast(t: string) {
    |t| >= 2 && t[|t| - 1] == '.' && t[|t| - 2] == SEP
  }

  lemma CutLeadingDot(t: string)
    requires Compact(t) && DotFirst(t)
    ensures |t| > 2 && Shortens(t, t[2..]) && Compact(t[2..]) && !DotFirst(t[2..])
  {
    NamesWithoutLeadingDot(t);
    PartKeeps(t, 2, |t|);
    assert t[2..|t|] == t[2..];
    assert !DotStepAt(t, 1);
    assert t[1] == SEP && t[2] != SEP;
  }

  lemma CutTrailingDot(t: string)
    requires Compact(t) && !DotFirst(t) && DotLast(t)
    ensures Names(t[..|t| - 2]) == Names(t)
    ensures |t| > 2 ==> Shortens(t, t[..|t| - 2]) && Tidy(t[..|t| - 2])
  {
    NamesWithoutTrailingDot(t);
    var n := |t| - 2;
    PartKeeps(t, 0, n);
    assert t[0..n] == t[..n];
    assert n >= 1 ==> t[n - 1] != SEP;
    assert n >= 2 ==> !DotStepAt(t, n - 2);
  }

  lemma NamesOfEmpty()
    ensures Names("") == []
  {
    assert Split("") == [""] && [""][1..] == [];
  }

  lemma RootText(t0: string, t: string)
    requires t == "/" && IsAbsolute(t0) && Names(t0) == []
    ensures t == Print(IsAbsolute(t0), Names(t0))
  {
    assert [SEP] + "" == t;
  }

  /** Removes a leading "./"; something follows it, since no trailing separator is left. */
  method RemoveLeadingDot(a: array<char>, lp: nat, ghost t0: string) returns (ghost t: string)
    requires Holds(a, lp, t0) && Compact(t0) && Plain(t0)
    modifies a
    ensures Holds(a, lp, t) && a[..lp] == old(a[..lp])
    ensures Shortens(t0, t) && Compact(t) && !DotFirst(t) && Plain(t)
  {
    hide Plain;
    t := t0;
    Peek(a, lp, t, 0);
    Peek(a, lp, t, 1);
    if a[lp + 0] == '.' && a[lp + 1] == SEP {
      CutLeadingDot(t);
      StrMove(a, lp, lp + 2, lp, t);
      PlainSuffix(t, 2);
      assert t[..0] + t[2..] == t[2..];
      t := t[2..];
    }
  }

  /** Removes a trailing "/."; a trailing separator, which would also go but for "://", cannot be left. */
  method RemoveTrailingDot(a: array<char>, lp: nat, ghost t0: string) returns (finished: bool, ghost t: string)
    requires Holds(a, lp, t0) && Compact(t0) && !DotFirst(t0) && Plain(t0)
    modifies a
    ensures Holds(a, lp, t) && a[..lp] == old(a[..lp])
    ensures |t| <= |t0| && t == Print(IsAbsolute(t0), Names(t0)) && Plain(t)
    ensures finished ==> |t| <= 1
  {
    hide Plain, Names, Print;
    t := t0;
    var len := StrLen(a, lp, t);
    if len < 2 {
      TidyPrint(t);
      return true, t;
    }
    Peek(a, lp, t, len - 1);
    Peek(a, lp, t, len - 2);
    finished := false;
    if a[lp + (len - 1)] == '.' && a[lp + (len - 2)] == SEP {
      CutTrailingDot(t);
      if len == 2 {
        a[lp + 1] := '\0';
        PlainPrefix(t, 1);
        t := t[..1];
        NamesOfEmpty();
        RootText(t0, t);
        return true, t;
      }
      a[lp + (len - 2)] := '\0';
      PlainPrefix(t, len - 2);
      t := t[..len - 2];
    }
    TidyPrint(t);
  }

  method RemoveSlashDots(a: array<char>, lp: nat, ghost t0: string) returns (finished: bool, ghost t: string)
    requires Holds(a, lp, t0) && t0 != "" && Plain(t0)
    requires NoDoubleSep(t0) && forall i :: !DotStepAt(t0, i)
    modifies a
    ensures Holds(a, lp, t) && a[..lp] == old(a[..lp])
    ensures |t| <= |t0| && t == Print(IsAbsolute(t0), Names(t0)) && Plain(t)
    ensures finished ==> |t| <= 1
  {
    hide Plain;
    t := RemoveTrailingSeps(a, lp, t0);
    t := RemoveLeadingDot(a, lp, t);
    finished, t := RemoveTrailingDot(a, lp, t);
  }
}
