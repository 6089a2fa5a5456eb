/** The groups of a translated shell pattern, and what replacing by shell pattern does with them
    (lib/search/glob.c, with the expansion of lib/search/regex.c). */
module GlobGroups {
  import opened Glob
  import opened GlobMeaning
  import opened GlobReplace
  import opened Regex
  import opened RegexReplace
  import opened ReplaceMeaning
  import opened Sequences

  // ----- the groups of the translated search pattern -----

  function GroupCount(r: Re): nat {
    match r
    case Cat(a, b) => GroupCount(a) + GroupCount(b)
    case Or(a, b) => GroupCount(a) + GroupCount(b)
    case Star(a) => GroupCount(a)
    case Group(a) => 1 + GroupCount(a)
    case _ => 0
  }

  function Unset(n: nat): seq<string> {
    seq(n, _ => "")
  }

  /** r matches w from i to j and its groups, in the order of their parentheses, hold caps. */
  ghost predicate Captures(r: Re, w: string, i: nat, j: nat, caps: seq<string>)
    requires i <= j <= |w|
    decreases r
  {
    match r
    case Cat(a, b) =>
      exists m: nat, k: nat ::
        i <= m <= j && k <= |caps| && Captures(a, w, i, m, caps[..k]) && Captures(b, w, m, j, caps[k..])
    case Or(a, b) =>
      || (exists c: seq<string> :: Captures(a, w, i, j, c) && caps == c + Unset(GroupCount(b)))
      || (exists c: seq<string> :: Captures(b, w, i, j, c) && caps == Unset(GroupCount(a)) + c)
    case Group(a) => caps != [] && caps[0] == w[i..j] && Captures(a, w, i, j, caps[1..])
    case Star(a) => Matches(r, w, i, j) && |caps| == GroupCount(a)
    case _ => Matches(r, w, i, j) && caps == []
  }

  /** caps are texts that the wildcards of ss can take. */
  ghost predicate Fits(ss: seq<Sign>, caps: seq<string>) {
    if ss == [] then caps == []
    else if ss[0].Char? then Fits(ss[1..], caps)
    else caps != [] && (ss[0].AnyChar? ==> |caps[0]| == 1) && Fits(ss[1..], caps[1..])
  }

  /** The text that ss matches when its wildcards take caps. */
  ghost function Filled(ss: seq<Sign>, caps: seq<string>): string
    requires Fits(ss, caps)
  {
    if ss == [] then ""
    else if ss[0].Char? then [ss[0].c] + Filled(ss[1..], caps)
    else caps[0] + Filled(ss[1..], caps[1..])
  }

  lemma {:induction false} CaptureCount(r: Re, w: string, i: nat, j: nat, caps: seq<string>)
    requires i <= j <= |w| && Captures(r, w, i, j, caps)
    ensures |caps| == GroupCount(r)
    decreases r
  {
    match r
    case Cat(a, b) =>
      var m: nat, k: nat :|
        i <= m <= j && k <= |caps| && Captures(a, w, i, m, caps[..k]) && Captures(b, w, m, j, caps[k..]);
      CaptureCount(a, w, i, m, caps[..k]);
      CaptureCount(b, w, m, j, caps[k..]);
    case Or(a, b) =>
      if c: seq<string> :| Captures(a, w, i, j, c) && caps == c + Unset(GroupCount(b)) {
        CaptureCount(a, w, i, j, c);
      } else {
        var c: seq<string> :| Captures(b, w, i, j, c) && caps == Unset(GroupCount(a)) + c;
        CaptureCount(b, w, i, j, c);
      }
    case Group(a) => CaptureCount(a, w, i, j, caps[1..]);
    case _ =>
  }

  /** The group of a wildcard holds just what the wildcard matches. */
  lemma CapturesSign(s: Sign, w: string, i: nat, j: nat, caps: seq<string>)
    requires i <= j <= |w|
    ensures Captures(SignRe(s, false), w, i, j, caps)
       <==> if s.Char? then caps == [] && w[i..j] == [s.c]
            else caps == [w[i..j]] && (s.AnyChar? ==> j == i + 1)
  {
    match s
    case Char(c, _) =>
      assert i < j ==> w[i..j][0] == w[i];
    case AnyText =>
      StarAny(w, i, j);
      CapturesAtom(Star(Any), w, i, j, caps);
    case AnyChar =>
      CapturesAtom(Any, w, i, j, caps);
  }

  lemma CapturesAtom(r: Re, w: string, i: nat, j: nat, caps: seq<string>)
    requires i <= j <= |w| && (r == Any || r == Star(Any))
    ensures Captures(Group(Cat(r, Eps)), w, i, j, caps) <==> caps == [w[i..j]] && Matches(r, w, i, j)
  {
    if Captures(Group(Cat(r, Eps)), w, i, j, caps) {
      CaptureCount(Group(Cat(r, Eps)), w, i, j, caps);
      assert caps[1..] == [];
      var m: nat, k: nat :|
        && i <= m <= j && k <= |caps[1..]|
        && Captures(r, w, i, m, caps[1..][..k]) && Captures(Eps, w, m, j, caps[1..][k..]);
    }
    if caps == [w[i..j]] && Matches(r, w, i, j) {
      assert caps[1..] == [] && caps[1..][..0] == [] && caps[1..][0..] == [];
      assert Captures(r, w, i, j, []) && Captures(Eps, w, j, j, []);
      assert Captures(Cat(r, Eps), w, i, j, caps[1..]);
    }
  }

  /** The signs, filled with caps, are what stands from i on, and tail goes on behind them. */
  ghost predicate FilledThen(ss: seq<Sign>, tail: Re, w: string, i: nat, j: nat, caps: seq<string>)
    requires i <= j <= |w|
  {
    Fits(ss, caps) && exists m: nat :: i <= m <= j && w[i..m] == Filled(ss, caps) && Captures(tail, w, m, j, [])
  }

  lemma CaptureSplit(a: Re, b: Re, w: string, i: nat, j: nat, caps: seq<string>) returns (m: nat, k: nat)
    requires i <= j <= |w| && Captures(Cat(a, b), w, i, j, caps)
    ensures i <= m <= j && k <= |caps| && Captures(a, w, i, m, caps[..k]) && Captures(b, w, m, j, caps[k..])
  {
    m, k :| i <= m <= j && k <= |caps| && Captures(a, w, i, m, caps[..k]) && Captures(b, w, m, j, caps[k..]);
  }

  lemma CaptureJoin(a: Re, b: Re, w: string, i: nat, m: nat, j: nat, ca: seq<string>, cb: seq<string>)
    requires i <= m <= j <= |w| && Captures(a, w, i, m, ca) && Captures(b, w, m, j, cb)
    ensures Captures(Cat(a, b), w, i, j, ca + cb)
  {
    assert (ca + cb)[..|ca|] == ca && (ca + cb)[|ca|..] == cb;
  }

  /** What the first sign takes of caps. */
  function Taken(s: Sign): nat {
    if s.Char? then 0 else 1
  }

  function FirstText(s: Sign, caps: seq<string>): string
    requires Taken(s) <= |caps|
  {
    if s.Char? then [s.c] else caps[0]
  }

  lemma FilledCons(ss: seq<Sign>, caps: seq<string>)
    requires ss != [] && Taken(ss[0]) <= |caps| && Fits(ss[1..], caps[Taken(ss[0])..])
    requires ss[0].AnyChar? ==> |caps[0]| == 1
    ensures Fits(ss, caps)
    ensures Filled(ss, caps) == FirstText(ss[0], caps) + Filled(ss[1..], caps[Taken(ss[0])..])
  {
    assert caps[0..] == caps;
  }

  lemma FilledUncons(ss: seq<Sign>, caps: seq<string>)
    requires ss != [] && Fits(ss, caps)
    ensures Taken(ss[0]) <= |caps| && Fits(ss[1..], caps[Taken(ss[0])..]) && (ss[0].AnyChar? ==> |caps[0]| == 1)
  {
    assert caps[0..] == caps;
  }

  lemma TakenBySign(s: Sign, w: string, i: nat, m: nat, caps: seq<string>, k: nat)
    requires i <= m <= |w| && k <= |caps| && Captures(SignRe(s, false), w, i, m, caps[..k])
    ensures k == Taken(s) && w[i..m] == FirstText(s, caps) && (s.AnyChar? ==> |caps[0]| == 1)
  {
    CapturesSign(s, w, i, m, caps[..k]);
    if !s.Char? { assert caps[..k][0] == caps[0]; }
  }

  lemma FilledThenEnd(ss: seq<Sign>, tail: Re, w: string, i: nat, j: nat, caps: seq<string>) returns (m: nat)
    requires i <= j <= |w| && FilledThen(ss, tail, w, i, j, caps)
    ensures i <= m <= j && Fits(ss, caps) && w[i..m] == Filled(ss, caps) && Captures(tail, w, m, j, [])
  {
    m :| i <= m <= j && w[i..m] == Filled(ss, caps) && Captures(tail, w, m, j, []);
  }

  lemma {:induction false} CapturesForward(ss: seq<Sign>, tail: Re, w: string, i: nat, j: nat, caps: seq<string>)
    requires i <= j <= |w| && GroupCount(tail) == 0 && Captures(SignsRe(ss, false, tail), w, i, j, caps)
    ensures FilledThen(ss, tail, w, i, j, caps)
    decreases ss
  {
    if ss == [] {
      CaptureCount(tail, w, i, j, caps);
      assert w[i..i] == "";
    } else {
      hide Captures, Fits, Filled, SignsRe, FilledThen;
      var m1 := SplitFirst(ss, tail, w, i, j, caps);
      CapturesForward(ss[1..], tail, w, m1, j, caps[Taken(ss[0])..]);
      FilledThenCons(ss, tail, w, i, m1, j, caps);
    }
  }

  lemma SplitFirst(ss: seq<Sign>, tail: Re, w: string, i: nat, j: nat, caps: seq<string>) returns (m1: nat)
    requires i <= j <= |w| && ss != [] && Captures(SignsRe(ss, false, tail), w, i, j, caps)
    ensures i <= m1 <= j && Taken(ss[0]) <= |caps| && w[i..m1] == FirstText(ss[0], caps)
    ensures ss[0].AnyChar? ==> |caps[0]| == 1
    ensures Captures(SignsRe(ss[1..], false, tail), w, m1, j, caps[Taken(ss[0])..])
  {
    hide Captures;
    var k;
    m1, k := CaptureSplit(SignRe(ss[0], false), SignsRe(ss[1..], false, tail), w, i, j, caps);
    TakenBySign(ss[0], w, i, m1, caps, k);
  }

  lemma FilledThenCons(ss: seq<Sign>, tail: Re, w: string, i: nat, m1: nat, j: nat, caps: seq<string>)
    requires i <= m1 <= j <= |w| && ss != [] && Taken(ss[0]) <= |caps| && w[i..m1] == FirstText(ss[0], caps)
    requires ss[0].AnyChar? ==> |caps[0]| == 1
    requires FilledThen(ss[1..], tail, w, m1, j, caps[Taken(ss[0])..])
    ensures FilledThen(ss, tail, w, i, j, caps)
  {
    hide Captures, Fits, Filled;
    var m := FilledThenEnd(ss[1..], tail, w, m1, j, caps[Taken(ss[0])..]);
    FilledCons(ss, caps);
    assert w[i..m] == w[i..m1] + w[m1..m];
  }

  /** A filling, taken apart behind its first sign. */
  lemma FilledThenUncons(ss: seq<Sign>, tail: Re, w: string, i: nat, j: nat, caps: seq<string>) returns (m1: nat)
    requires i <= j <= |w| && ss != [] && FilledThen(ss, tail, w, i, j, caps)
    ensures i <= m1 <= j && Taken(ss[0]) <= |caps| && w[i..m1] == FirstText(ss[0], caps)
    ensures ss[0].AnyChar? ==> |caps[0]| == 1
    ensures FilledThen(ss[1..], tail, w, m1, j, caps[Taken(ss[0])..])
  {
    hide Fits, Filled, Matches;
    var m := FilledThenEnd(ss, tail, w, i, j, caps);
    FilledUncons(ss, caps);
    FilledCons(ss, caps);
    var first, more := FirstText(ss[0], caps), Filled(ss[1..], caps[Taken(ss[0])..]);
    m1 := i + |first|;
    assert |w[i..m]| == |first| + |more|;
    Slice(w, i, m1, m);
    assert w[i..m1] == first && w[m1..m] == more;
  }

  lemma {:induction false} CapturesBackward(ss: seq<Sign>, tail: Re, w: string, i: nat, j: nat, caps: seq<string>)
    requires i <= j <= |w| && FilledThen(ss, tail, w, i, j, caps)
    ensures Captures(SignsRe(ss, false, tail), w, i, j, caps)
    decreases ss
  {
    if ss == [] {
      var _ := FilledThenEnd(ss, tail, w, i, j, caps);
    } else {
      hide Captures, FilledThen;
      var s, rest := ss[0], ss[1..];
      var k := Taken(s);
      var m1 := FilledThenUncons(ss, tail, w, i, j, caps);
      assert caps[..k] == if s.Char? then [] else [w[i..m1]];
      CapturesSign(s, w, i, m1, caps[..k]);
      CapturesBackward(rest, tail, w, m1, j, caps[k..]);
      CaptureJoin(SignRe(s, false), SignsRe(rest, false, tail), w, i, m1, j, caps[..k], caps[k..]);
      assert caps[..k] + caps[k..] == caps;
    }
  }

  // ----- the theorem -----

  function Singles(ss: seq<Sign>): seq<Item> {
    if ss == [] then [] else [Single(ss[0])] + Singles(ss[1..])
  }

  lemma {:induction false} SinglesRe(ss: seq<Sign>, tail: Re)
    requires ProperSigns(ss, false)
    ensures Proper(Singles(ss)) && ItemsRe(Singles(ss), tail) == SignsRe(ss, false, tail)
  {
    if ss == [] {
    } else {
      SinglesRe(ss[1..], tail);
      assert Singles(ss)[1..] == Singles(ss[1..]);
    }
  }

  /** In an entire-line match of a pattern without braces, the groups hold what the wildcards took:
      the pattern with its wildcards filled from the groups is the matched text. Every filling is
      such a match. */
  lemma GroupsAreWildcards(ss: seq<Sign>, w: string, i: nat, j: nat, caps: seq<string>)
    requires ProperSigns(ss, false) && i <= j <= |w|
    ensures Proper(Singles(ss))
    ensures Captures(GlobRe(Singles(ss), true), w, i, j, caps)
       <==> i == 0 && EndsLine(w, j) && Fits(ss, caps) && w[..j] == Filled(ss, caps)
  {
    hide Fits, Filled, EndsLine;
    var end := Cat(LineEnd, Eps);
    SinglesRe(ss, end);
    var body := SignsRe(ss, false, end);
    assert w[0..j] == w[..j];
    if Captures(GlobRe(Singles(ss), true), w, i, j, caps) {
      var m1, k := CaptureSplit(LineStart, body, w, i, j, caps);
      assert k == 0 && caps[0..] == caps;
      CapturesForward(ss, end, w, 0, j, caps);
      var m := FilledThenEnd(ss, end, w, 0, j, caps);
      var m2, k2 := CaptureSplit(LineEnd, Eps, w, m, j, []);
    }
    if i == 0 && EndsLine(w, j) && Fits(ss, caps) && w[..j] == Filled(ss, caps) {
      assert Captures(LineEnd, w, j, j, []) && Captures(Eps, w, j, j, []) && Captures(LineStart, w, 0, 0, []);
      CaptureJoin(LineEnd, Eps, w, j, j, j, [], []);
      assert FilledThen(ss, end, w, 0, j, caps);
      CapturesBackward(ss, end, w, 0, j, caps);
      CaptureJoin(LineStart, body, w, 0, 0, j, [], caps);
      assert [] + caps == caps;
    }
  }

  lemma {:induction false} WildcardCount(ss: seq<Sign>, caps: seq<string>)
    requires Fits(ss, caps)
    ensures |caps| == WildcardsOf(ss)
  {
    if ss == [] {
    } else {
      if ss[0].Char? { WildcardCount(ss[1..], caps); } else { WildcardCount(ss[1..], caps[1..]); }
    }
  }

  function WildcardsOf(ss: seq<Sign>): nat {
    if ss == [] then 0 else (if ss[0].Char? then 0 else 1) + WildcardsOf(ss[1..])
  }

  /** Replacing: whenever the translated pattern matches with some groups, the expansion of the translated
      replacement puts the text of the n-th pattern wildcard for the n-th wildcard of the replacement, and for a
      group that is named by the number n, converts what is behind a case switch, and keeps everything else as
      written, if and only if there are conversions for every text that is appended at once, and none changes what is
      in front; and it does so for all matches if the replacement is steady. */
  lemma GlobReplacement(ss: seq<Sign>, ps: seq<Part>, w: string, j: nat, caps: seq<string>, isUtf8: bool)
    requires ProperSigns(ss, false) && ProperParts(ps) && Proper(Singles(ss))
    requires Wilds(ps) <= 9 && Wilds(ps) <= WildcardsOf(ss)
    requires AllBelow(ps, WildcardsOf(ss) + 1) && AllBelow(ps, NUM_REPLACE_ARGS + 1)
    requires j <= |w| && Captures(GlobRe(Singles(ss), true), w, 0, j, caps)
    ensures Fits(ss, caps) && w[..j] == Filled(ss, caps) && |caps| == WildcardsOf(ss)
    ensures var m := Found([w[..j]] + caps, isUtf8);
            && NamesBelow(PiecesOf(ps, 1), |m.groups|)
            && (AllRight(PiecesOf(ps, 1), "", NO_TRANSFORM, m) <==>
                  Expand(Replacement(PartsText(ps), 0, false), m) == Expansion(Substituted(ps, m), Done))
            && (SteadyParts(ps) ==> AllRight(PiecesOf(ps, 1), "", NO_TRANSFORM, m))
  {
    hide Captures, Filled, Fits, Expand, Substituted, Replacement, NamedBelow, ProperPart, Separate, Steady, AllRight,
      Wilds, WildcardsOf, GlobRe;
    GroupsAreWildcards(ss, w, 0, j, caps);
    WildcardCount(ss, caps);
    var m := Found([w[..j]] + caps, isUtf8);
    ReplacementExpands(ps, m);
    if SteadyParts(ps) { SteadyIsRight(PiecesOf(ps, 1), "", NO_TRANSFORM, NO_TRANSFORM, m); }
  }
}
