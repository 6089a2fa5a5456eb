/** mc_build_filenamev of lib/utilunix.c: elements are normalised one by one, joined and normalised again. */
module BuildFilename {
  import opened Canonicalize
  import opened PathAlgebra
  import opened PathBuffer
  import opened PlainPath
  import opened Sequences
  import opened Wrappers

  // ----- the result, as a function of the elements -----

  function DropSep(c: string): string {
    if IsAbsolute(c) then c[1..] else c
  }

  /** What one normalised element adds to the path under construction. */
  function Piece(c: string, last: bool): string
    requires c != ""
  {
    DropSep(c) + if c[|c| - 1] != SEP && !last then [SEP] else ""
  }

  function Gather(es: seq<string>): string {
    if es == [] then ""
    else if es[0] == "" then Gather(es[1..])
    else
      CanonNonEmpty(es[0]);
      Piece(Canon(es[0], false), |es| == 1) + Gather(es[1..])
  }

  lemma GatherUnfold(es: seq<string>)
    requires es != [] && es[0] != ""
    ensures Canon(es[0], false) != ""
    ensures Gather(es) == Piece(Canon(es[0], false), es[1..] == []) + Gather(es[1..])
  {
    CanonNonEmpty(es[0]);
  }

  function Built(es: seq<string>): string
    requires es != []
  {
    Canon((if IsAbsolute(es[0]) then [SEP] else "") + Gather(es), false)
  }

  function NonEmpty(es: seq<string>): (r: seq<string>)
    ensures forall i :: 0 <= i < |r| ==> r[i] != "" && r[i] in es
  {
    if es == [] then [] else (if es[0] == "" then [] else [es[0]]) + NonEmpty(es[1..])
  }

  lemma CanonNonEmpty(t: string)
    requires t != ""
    ensures Canon(t, false) != ""
  {
    if t[UncLength(t)..] != "" { CanonNames(t[UncLength(t)..], false); }
  }

  // ----- normalising piece by piece -----

  lemma JoinLast(ns: seq<string>)
    requires ns != [] && forall i :: 0 <= i < |ns| ==> !Trivial(ns[i]) && SEP !in ns[i]
    ensures Join(ns) != "" && Join(ns)[|Join(ns)| - 1] != SEP
  {
    var n := |ns| - 1;
    assert ns == ns[..n] + [ns[n]] + [];
    JoinAround(ns[..n], ns[n], []);
    assert Join(ns) == Lead(ns[..n]) + ns[n];
    assert ns[n][|ns[n]| - 1] in ns[n];
  }

  lemma PrintEnds(abs: bool, ns: seq<string>)
    requires forall i :: 0 <= i < |ns| ==> !Trivial(ns[i]) && SEP !in ns[i]
    ensures var c := Print(abs, ns);
            c != "" && (c[|c| - 1] == SEP ==> c == [SEP] && ns == [])
            && !IsAbsolute(DropSep(c)) && c == (if abs then [SEP] else "") + DropSep(c)
  {
    if ns == [] {
      assert Print(abs, ns) == if abs then [SEP] else ".";
    } else {
      JoinLast(ns);
      assert Join(ns)[0] == ns[0][0] && ns[0][0] in ns[0];
    }
  }

  /** Only the root ends in a separator. */
  lemma CanonEnds(t: string)
    requires t != ""
    ensures var c := CanonLocal(t, false);
            c != "" && IsAbsolute(c) == IsAbsolute(t)
            && Names(c) == Norm(IsAbsolute(t), Names(t))
            && (c[|c| - 1] == SEP ==> c == [SEP] && Names(c) == [])
            && Names(DropSep(c)) == Names(c) && !IsAbsolute(DropSep(c))
  {
    hide Names, Norm, Print, DropSep;
    var abs, ns := IsAbsolute(t), Norm(IsAbsolute(t), Names(t));
    CanonNames(t, false);
    NormSettled(abs, Names(t));
    PrintEnds(abs, ns);
    NamesDropSep(CanonLocal(t, false));
  }

  lemma NormSettled(abs: bool, ns: seq<string>)
    requires forall i :: 0 <= i < |ns| ==> !Trivial(ns[i]) && SEP !in ns[i]
    ensures var r := Norm(abs, ns); forall i :: 0 <= i < |r| ==> !Trivial(r[i]) && SEP !in r[i]
  {
    FoldSettled(abs, [], ns);
  }

  lemma NamesDropSep(c: string)
    ensures Names(DropSep(c)) == Names(c)
  {
    hide Names;
    if IsAbsolute(c) {
      NoNames();
      NamesConcat("", DropSep(c));
      assert "" + [SEP] + DropSep(c) == c;
      assert [] + Names(DropSep(c)) == Names(DropSep(c));
    }
  }

  lemma RelativeIsLocal(t: string)
    requires !IsAbsolute(t)
    ensures UncLength(t) == 0 && Canon(t, false) == CanonLocal(t, false)
  {
    assert t[0..] == t && t[..0] == "";
  }

  lemma NoNames()
    ensures Names("") == []
  {
    assert Split("") == [""] && [""][1..] == [];
  }

  /** The names a piece adds, and those of what follows it. */
  lemma PieceNames(e: string, g: string, last: bool)
    requires e != "" && (last ==> g == "")
    ensures CanonLocal(e, false) != ""
    ensures Names(Piece(CanonLocal(e, false), last) + g) == Norm(IsAbsolute(e), Names(e)) + Names(g)
    ensures Piece(CanonLocal(e, false), last) + g == ""
       <==> CanonLocal(e, false) == [SEP] && g == ""
    ensures IsAbsolute(Piece(CanonLocal(e, false), last) + g) ==> CanonLocal(e, false) == [SEP] && IsAbsolute(g)
  {
    hide Names, Norm, CanonLocal, Piece, DropSep;
    CanonEnds(e);
    PieceText(CanonLocal(e, false), g, last);
    var c := CanonLocal(e, false);
    if c != [SEP] {
      if last {
        NoNames();
        assert Names(c) + [] == Names(c);
      } else {
        NamesConcat(DropSep(c), g);
      }
    }
  }

  lemma PieceText(c: string, g: string, last: bool)
    requires c != "" && (c[|c| - 1] == SEP ==> c == [SEP]) && (last ==> g == "")
    ensures Piece(c, last) + g == if c == [SEP] then g else if last then DropSep(c) else DropSep(c) + [SEP] + g
    ensures c != [SEP] ==> DropSep(c) != ""
  {
    var d := DropSep(c);
    if c == [SEP] {
      assert Piece(c, last) == "";
    } else if last {
      assert Piece(c, last) == d;
    }
  }

  lemma JoinCons(e: string, r: seq<string>)
    ensures Join([e] + r) == if r == [] then e else e + [SEP] + Join(r)
  {
    assert ([e] + r)[1..] == r;
    if r == [] {
      assert e + "" == e;
    } else {
      Assoc(e, [SEP], Join(r));
      TrailOf(r);
    }
  }

  lemma TrailOf(r: seq<string>)
    requires r != []
    ensures Trail(r) == [SEP] + Join(r)
  {
    Assoc([SEP], r[0], Trail(r[1..]));
  }

  lemma JoinHead(e: string, r: seq<string>)
    ensures Join([e] + r) == if r == [] then e else e + [SEP] + Join(r)
    ensures Names(Join([e] + r)) == Names(e) + Names(Join(r))
  {
    JoinCons(e, r);
    if r == [] {
      NoNames();
      assert Names(e) + [] == Names(e);
    } else {
      NamesConcat(e, Join(r));
    }
  }

  ghost predicate AllRelative(es: seq<string>) {
    forall i :: 0 <= i < |es| ==> !IsAbsolute(es[i])
  }

  lemma {:induction false} GatherRelative(abs: bool, st: seq<string>, es: seq<string>)
    requires AllRelative(es)
    ensures !IsAbsolute(Gather(es))
    ensures Gather(es) == "" <==> NonEmpty(es) == []
    ensures Fold(abs, st, Names(Gather(es))) == Fold(abs, st, Names(Join(NonEmpty(es))))
    decreases |es|
  {
    hide Names, Norm, CanonLocal, Piece, Fold, Canon, UncLength;
    NoNames();
    if es == [] {
    } else {
      var e, rest := es[0], es[1..];
      if e == "" {
        GatherRelative(abs, st, rest);
        assert NonEmpty(es) == NonEmpty(rest);
      } else {
        RelativeIsLocal(e);
        var g, j := Gather(rest), Join(NonEmpty(rest));
        var st' := Fold(abs, st, Names(e));
        GatherRelative(abs, st', rest);
        PieceNames(e, g, |es| == 1);
        CanonEnds(e);
        JoinHead(e, NonEmpty(rest));
        FoldNorm(abs, st, Names(e));
        FoldConcat(abs, st, Norm(false, Names(e)), Names(g));
        FoldConcat(abs, st, Names(e), Names(j));
      }
    }
  }

  /** The path under construction once the first element, which may be absolute, is in. */
  function Start(e: string, es: seq<string>): string
    requires CanonLocal(e, false) != ""
  {
    (if IsAbsolute(e) then [SEP] else "") + (Piece(CanonLocal(e, false), es == []) + Gather(es))
  }

  lemma StartText(e: string, es: seq<string>)
    requires e != "" && AllRelative(es)
    ensures CanonLocal(e, false) != ""
    ensures var p := Start(e, es);
            p != "" && IsAbsolute(p) == IsAbsolute(e) && !(|p| >= 2 && p[0] == SEP && p[1] == SEP)
            && Names(p) == Norm(IsAbsolute(e), Names(e)) + Names(Gather(es))
  {
    hide Names, Norm, Gather, Piece, CanonLocal;
    var abs, g := IsAbsolute(e), Gather(es);
    GatherRelative(false, [], es);
    PieceNames(e, g, es == []);
    CanonEnds(e);
    var body := Piece(CanonLocal(e, false), es == []) + g;
    if abs {
      NamesConcat("", body);
      NoNames();
      assert Start(e, es) == "" + [SEP] + body;
    } else {
      assert Start(e, es) == body;
    }
  }

  lemma StartFold(abs: bool, ns: seq<string>, es: seq<string>)
    requires AllRelative(es) && forall i :: 0 <= i < |ns| ==> SEP !in ns[i]
    ensures Fold(abs, [], Norm(abs, ns) + Names(Gather(es))) == Fold(abs, [], ns + Names(Join(NonEmpty(es))))
  {
    var g, j, st := Names(Gather(es)), Names(Join(NonEmpty(es))), Norm(abs, ns);
    FoldConcat(abs, [], st, g);
    FoldConcat(abs, [], ns, j);
    GatherRelative(abs, st, es);
    FoldSettled(abs, [], ns);
    SettledFold(abs, st);
  }

  lemma StartCanon(e: string, es: seq<string>)
    requires e != "" && AllRelative(es)
    ensures CanonLocal(e, false) != ""
    ensures CanonLocal(Start(e, es), false) == CanonLocal(Join([e] + NonEmpty(es)), false)
  {
    StartText(e, es);
    StartFold(IsAbsolute(e), Names(e), es);
    JoinHead(e, NonEmpty(es));
  }

  lemma NotUnc(p: string)
    requires !(|p| >= 2 && p[0] == SEP && p[1] == SEP)
    ensures UncLength(p) == 0 && Canon(p, false) == CanonLocal(p, false)
  {
    assert p[0..] == p && p[..0] == "";
  }

  // ----- the theorem -----

  /** Elements of which only the first may be absolute. */
  ghost predicate OnlyFirstAbsolute(es: seq<string>) {
    es != [] && AllRelative(es[1..])
  }

  lemma LeadingEmpty(es: seq<string>)
    requires OnlyFirstAbsolute(es) && es[0] == ""
    ensures Built(es) == Canon(Gather(es[1..]), false) && NonEmpty(es) == NonEmpty(es[1..])
  {
    assert "" + Gather(es) == Gather(es[1..]);
  }

  lemma BuiltFromStart(es: seq<string>)
    requires OnlyFirstAbsolute(es) && es[0] != "" && UncLength(es[0]) == 0
    ensures CanonLocal(es[0], false) != ""
    ensures Built(es) == Canon(Start(es[0], es[1..]), false)
  {
    var e, rest := es[0], es[1..];
    assert e[0..] == e && e[..0] == "";
    assert Canon(e, false) == CanonLocal(e, false);
    CanonEnds(e);
    assert Gather(es) == Piece(CanonLocal(e, false), rest == []) + Gather(rest);
  }

  lemma LocalBuild(es: seq<string>)
    requires OnlyFirstAbsolute(es) && UncLength(es[0]) == 0
    ensures Built(es) == CanonLocal(Join(NonEmpty(es)), false)
  {
    var e, rest := es[0], es[1..];
    if e == "" {
      LeadingEmpty(es);
      GatherRelative(false, [], rest);
      RelativeIsLocal(Gather(rest));
      RelativeJoin(NonEmpty(rest));
    } else {
      BuiltFromStart(es);
      StartText(e, rest);
      StartCanon(e, rest);
      NotUnc(Start(e, rest));
    }
  }

  lemma RelativeJoin(es: seq<string>)
    requires AllRelative(es) && forall i :: 0 <= i < |es| ==> es[i] != ""
    ensures !IsAbsolute(Join(es)) && (Join(es) == "" <==> es == [])
  {
  }

  lemma PrefixedCanon(t: string, pre: string, v: string, u: string)
    requires |pre| == UncLength(u) > 0 && pre == u[..|pre|] && IsAbsolute(v) && t == pre + v
    ensures UncLength(t) == |pre| && Canon(t, false) == pre + CanonLocal(v, false)
  {
    UncKept(u, v, |pre|);
    assert t[..|pre|] == pre && t[|pre|..] == v;
  }

  /** pre is a "//server" prefix and l the rooted text behind it. */
  ghost predicate UncSplit(e: string, pre: string, l: string) {
    e == pre + l && |pre| == UncLength(e) > 0 && IsAbsolute(l)
  }

  lemma UncPiece(pre: string, c: string, last: bool)
    requires IsAbsolute(pre) && IsAbsolute(c)
    ensures [SEP] + Piece(pre + c, last) == pre + ([SEP] + Piece(c, last))
  {
    var end := if c[|c| - 1] != SEP && !last then [SEP] else "";
    PieceOfRooted(pre + c, end, last);
    PieceOfRooted(c, end, last);
    Assoc(pre, c, end);
  }

  lemma PieceOfRooted(c: string, end: string, last: bool)
    requires IsAbsolute(c) && end == if c[|c| - 1] != SEP && !last then [SEP] else ""
    ensures [SEP] + Piece(c, last) == c + end
  {
    assert c == [SEP] + c[1..];
    Assoc([SEP], c[1..], end);
  }

  /** With a "//server" element in front, the path under construction is that prefix and a local path. */
  lemma UncGather(es: seq<string>, pre: string, l: string)
    requires OnlyFirstAbsolute(es) && UncSplit(es[0], pre, l)
    ensures CanonLocal(l, false) != ""
    ensures [SEP] + Gather(es) == pre + Start(l, es[1..])
  {
    hide Names, CanonLocal, Piece, Gather, Canon;
    var e, rest := es[0], es[1..];
    var c, g := CanonLocal(l, false), Gather(rest);
    CanonEnds(l);
    PrefixedCanon(e, pre, l, e);
    assert pre[0] == SEP;
    UncPiece(pre, c, rest == []);
    var x, y := Piece(pre + c, rest == []), Piece(c, rest == []);
    GatherUnfold(es);
    Assoc([SEP], x, g);
    Assoc(pre, [SEP] + y, g);
    Assoc([SEP], y, g);
  }

  lemma UncJoin(e: string, pre: string, l: string, more: seq<string>)
    requires UncSplit(e, pre, l)
    ensures Join([e] + more) == pre + Join([l] + more) && IsAbsolute(Join([l] + more))
  {
    hide Names, Join;
    JoinHead(e, more);
    JoinHead(l, more);
    if more != [] {
      Assoc(pre, l, [SEP]);
      Assoc(pre, l + [SEP], Join(more));
    }
  }

  lemma UncBuild(es: seq<string>)
    requires OnlyFirstAbsolute(es) && UncLength(es[0]) > 0
    ensures Built(es) == Canon(Join(NonEmpty(es)), false)
  {
    var e, rest := es[0], es[1..];
    var k := UncLength(e);
    var pre, l := e[..k], e[k..];
    assert UncSplit(e, pre, l);
    var more := NonEmpty(rest);
    assert Built(es) == pre + CanonLocal(Start(l, rest), false) by {
      StartText(l, rest);
      UncGather(es, pre, l);
      PrefixedCanon([SEP] + Gather(es), pre, Start(l, rest), e);
    }
    assert Canon(Join(NonEmpty(es)), false) == pre + CanonLocal(Join([l] + more), false) by {
      assert NonEmpty(es) == [e] + more;
      UncJoin(e, pre, l, more);
      PrefixedCanon(Join([e] + more), pre, Join([l] + more), e);
    }
    StartCanon(l, rest);
  }

  /** Normalising every element first and the joined text afterwards equals normalising the join
      once, unless joining makes a "//server/" prefix that the first element did not have. */
  lemma BuiltIsNormalisedJoin(es: seq<string>)
    requires OnlyFirstAbsolute(es)
    ensures Built(es) == Canon(Join(NonEmpty(es)), false)
       <==> (UncLength(Join(NonEmpty(es))) > 0 ==> UncLength(es[0]) > 0)
  {
    var j := Join(NonEmpty(es));
    if UncLength(es[0]) > 0 {
      UncBuild(es);
    } else {
      LocalBuild(es);
      LocalHasNoUnc(j, false);
      if UncLength(j) == 0 {
        assert j[0..] == j && j[..0] == "";
      } else {
        CanonIdempotent(j, false);
      }
    }
  }

  /** The exception is real: "/" followed by "s/x" joins to "//s/x". */
  lemma JoinCanInventAServer()
    ensures Built(["/", "s/x"]) != Canon(Join(NonEmpty(["/", "s/x"])), false)
  {
    hide Built, Canon, Split, NextSep, Gather, UncLength, Join, NonEmpty;
    RootAndServer();
    BuiltIsNormalisedJoin(["/", "s/x"]);
  }

  lemma RootAndServer()
    ensures Join(NonEmpty(["/", "s/x"])) == "//s/x"
    ensures UncLength("//s/x") > 0 && UncLength("/") == 0
  {
    hide Canon, Split, NextSep;
    var es := ["/", "s/x"];
    assert es[1..] == ["s/x"];
    assert NonEmpty(["s/x"]) == ["s/x"] by { assert NonEmpty(["s/x"][1..]) == []; }
    JoinHead("/", ["s/x"]);
    JoinHead("s/x", []);
    assert NonEmpty(es) == ["/"] + ["s/x"];
    assert ["s/x"] + [] == ["s/x"];
    NextSepUnique("//s/x", 2, 3);
  }

  // ----- elements that are absolute behind the first -----

  /** An element as it is taken behind the first: normalised, and without its leading separator. */
  function Taken(e: string): string {
    if e == "" then "" else DropSep(Canon(e, false))
  }

  function TakenAll(es: seq<string>): (r: seq<string>)
    ensures |r| == |es| && forall i :: 0 <= i < |es| ==> r[i] == Taken(es[i])
  {
    if es == [] then [] else [Taken(es[0])] + TakenAll(es[1..])
  }

  /** The first element, and the others as they are taken. */
  function Relativized(es: seq<string>): seq<string>
    requires es != []
  {
    [es[0]] + TakenAll(es[1..])
  }

  ghost predicate NoServer(es: seq<string>) {
    forall i :: 0 <= i < |es| ==> UncLength(es[i]) == 0
  }

  lemma NoServerIsLocal(e: string)
    requires UncLength(e) == 0
    ensures Canon(e, false) == CanonLocal(e, false)
  {
    assert e[0..] == e && e[..0] == "";
  }

  /** An element that is taken is normal already, and stands for the same piece. */
  lemma TakenPiece(e: string, last: bool)
    requires e != "" && UncLength(e) == 0
    ensures Canon(e, false) != "" && !IsAbsolute(Taken(e))
    ensures Taken(e) == "" ==> Piece(Canon(e, false), last) == ""
    ensures Taken(e) != "" ==>
              Canon(Taken(e), false) == Taken(e) && Piece(Taken(e), last) == Piece(Canon(e, false), last)
  {
    hide Names, CanonLocal, Norm;
    var c, d := CanonLocal(e, false), Taken(e);
    NoServerIsLocal(e);
    CanonEnds(e);
    if d == "" {
      assert c == [SEP];
    } else {
      RelativeIsLocal(d);
      TakenIsNormal(e);
      assert c[|c| - 1] == d[|d| - 1];
    }
  }

  lemma TakenIsNormal(e: string)
    requires e != "" && DropSep(CanonLocal(e, false)) != ""
    ensures var d := DropSep(CanonLocal(e, false)); CanonLocal(d, false) == d
  {
    hide Names, Join;
    var abs, c := IsAbsolute(e), CanonLocal(e, false);
    var ns := Norm(abs, Names(e));
    CanonEnds(e);
    FoldSettled(abs, [], Names(e));
    if abs {
      SettledFold(false, ns);
      assert c == [SEP] + Join(ns) && DropSep(c) == Join(ns);
      NothingJoined();
      assert ns != [];
    } else {
      CanonLocalIdempotent(e, false);
    }
  }

  lemma NothingJoined()
    ensures Join([]) == ""
  {
  }

  lemma {:induction false} GatherTaken(es: seq<string>)
    requires NoServer(es)
    ensures Gather(TakenAll(es)) == Gather(es) && AllRelative(TakenAll(es))
  {
    hide Canon, Piece, Taken;
    if es == [] {
    } else {
      var e, rest := es[0], es[1..];
      var r := TakenAll(es);
      assert r[1..] == TakenAll(rest) && r[0] == Taken(e);
      GatherTaken(rest);
      NothingTaken();
      if e != "" {
        TakenPiece(e, rest == []);
        GatherUnfold(es);
        if Taken(e) != "" { GatherUnfold(r); }
        assert "" + Gather(rest) == Gather(rest);
      }
    }
  }

  lemma NothingTaken()
    ensures Taken("") == ""
  {
  }

  /** Only the first element decides whether the result is absolute, if none behind it has a "//server/" prefix;
      the others come in as they are taken. So for all such elements the result is the normal form of the join of the
      elements as they are taken, unless joining makes a "//server/" prefix that the first did not have. */
  lemma BuiltOfAny(es: seq<string>)
    requires es != [] && NoServer(es[1..])
    ensures Built(es) == Built(Relativized(es)) && OnlyFirstAbsolute(Relativized(es))
    ensures IsAbsolute(Built(es)) <==> IsAbsolute(es[0])
    ensures var j := Join(NonEmpty(Relativized(es)));
            Built(es) == Canon(j, false) <==> (UncLength(j) > 0 ==> UncLength(es[0]) > 0)
  {
    hide Canon, Gather, Taken, UncLength, NonEmpty, Join;
    var r := Relativized(es);
    assert r[1..] == TakenAll(es[1..]) && r[0] == es[0];
    GatherTaken(es[1..]);
    GatherFirst(es);
    GatherFirst(r);
    AbsoluteIff(es);
    NoneIsServer(es[1..]);
    assert es == [es[0]] + es[1..];
    BuiltIsNormalisedJoin(r);
  }

  lemma GatherFirst(es: seq<string>)
    requires es != []
    ensures es[0] == "" ==> Gather(es) == Gather(es[1..])
    ensures es[0] != "" ==>
              Canon(es[0], false) != "" && Gather(es) == Piece(Canon(es[0], false), es[1..] == []) + Gather(es[1..])
  {
    hide Canon, Piece;
    if es[0] != "" { GatherUnfold(es); }
  }

  /** The first element that adds anything has a "//server/" prefix. */
  predicate ServerFirst(es: seq<string>) {
    es != [] &&
    if es[0] == "" || Canon(es[0], false) == [SEP] then ServerFirst(es[1..]) else UncLength(es[0]) > 0
  }

  lemma {:induction false} NoneIsServer(es: seq<string>)
    requires NoServer(es)
    ensures !ServerFirst(es)
  {
    hide Canon, UncLength;
    if es != [] { NoneIsServer(es[1..]); }
  }

  lemma CanonAbsolute(t: string)
    ensures IsAbsolute(Canon(t, false)) <==> IsAbsolute(t)
  {
    var k := UncLength(t);
    if k == 0 {
      NoServerIsLocal(t);
      if t != "" { CanonNames(t, false); }
    } else {
      assert t[..k][0] == t[0];
    }
  }

  /** Where a piece starts. */
  lemma PieceStart(e: string, last: bool)
    requires e != ""
    ensures var c := Canon(e, false);
            && c != "" && (Piece(c, last) == "" <==> c == [SEP])
            && (c != [SEP] ==> (IsAbsolute(Piece(c, last)) <==> UncLength(e) > 0))
  {
    hide Names, Norm, CanonLocal;
    CanonNonEmpty(e);
    var c, k := Canon(e, false), UncLength(e);
    if k == 0 {
      NoServerIsLocal(e);
      CanonEnds(e);
    } else {
      assert c[0] == SEP && c[1] == SEP;
    }
    if c != [SEP] {
      assert DropSep(c) != "" && Piece(c, last)[0] == DropSep(c)[0];
    } else {
      assert Piece(c, last) == "";
    }
  }

  lemma {:induction false} GatherAbsolute(es: seq<string>)
    ensures IsAbsolute(Gather(es)) <==> ServerFirst(es)
  {
    hide Canon, Piece, UncLength;
    if es == [] {
    } else {
      GatherAbsolute(es[1..]);
      GatherFirst(es);
      if es[0] != "" {
        var p := Piece(Canon(es[0], false), es[1..] == []);
        PieceStart(es[0], es[1..] == []);
        if p == "" {
          assert "" + Gather(es[1..]) == Gather(es[1..]);
        } else {
          assert (p + Gather(es[1..]))[0] == p[0];
        }
      }
    }
  }

  /** For all elements: the result is absolute if and only if the first element is, or the first that adds anything
      has a "//server/" prefix. */
  lemma AbsoluteIff(es: seq<string>)
    requires es != []
    ensures IsAbsolute(Built(es)) <==> IsAbsolute(es[0]) || ServerFirst(es)
    ensures !IsAbsolute(es[0]) && ServerFirst(es) ==> ServerFirst(es[1..])
  {
    hide Canon, Gather, UncLength;
    var start := if IsAbsolute(es[0]) then [SEP] else "";
    CanonAbsolute(start + Gather(es));
    GatherAbsolute(es);
    assert "" + Gather(es) == Gather(es);
    RelativeIsNoServer(es[0]);
  }

  lemma RelativeIsNoServer(e: string)
    ensures !IsAbsolute(e) ==> UncLength(e) == 0 && Canon(e, false) != [SEP]
  {
    CanonAbsolute(e);
    assert IsAbsolute([SEP]);
  }

  lemma PrintIsNormal(abs: bool, ns: seq<string>)
    requires ns != [] && forall i :: 0 <= i < |ns| ==> IsName(ns[i])
    ensures CanonLocal(Print(abs, ns), false) == Print(abs, ns)
  {
    NamesPrint(abs, ns);
    SettledFold(abs, ns);
  }

  /** An input: behind an empty first element an absolute one is relative. */
  lemma EmptyFirst()
    ensures Built(["", "/path"]) == "path"
  {
    hide Built, Canon, CanonLocal, Gather, Join;
    var es := ["", "/path"];
    PathIsNormal();
    assert es[1..] == ["/path"];
    BuiltOfAny(es);
    TakenPath();
    assert Relativized(es) == ["", "path"];
    LocalBuild(["", "path"]);
    OnlyPath();
  }

  lemma PathIsNormal()
    ensures UncLength("/path") == 0 && UncLength("") == 0
    ensures CanonLocal("/path", false) == "/path" && CanonLocal("path", false) == "path"
  {
    hide CanonLocal;
    PrintIsNormal(true, ["path"]);
    PrintIsNormal(false, ["path"]);
    OnePrinted();
  }

  lemma OnePrinted()
    ensures Print(true, ["path"]) == "/path" && Print(false, ["path"]) == "path"
  {
    JoinCons("path", []);
    assert ["path"] + [] == ["path"];
  }

  lemma TakenPath()
    ensures TakenAll(["/path"]) == ["path"]
  {
    hide CanonLocal, Canon;
    PathIsNormal();
    NoServerIsLocal("/path");
    assert ["/path"][1..] == [] && "/path"[1..] == "path";
  }

  lemma OnlyPath()
    ensures Join(NonEmpty(["", "path"])) == "path"
  {
    assert ["", "path"][1..] == ["path"] && ["path"][1..] == [];
    JoinCons("path", []);
    assert NonEmpty(["path"]) == ["path"] && NonEmpty(["", "path"]) == ["path"];
    assert ["path"] + [] == ["path"];
  }

  // ----- the method -----

  /** A fresh buffer holding s, as g_strdup makes it. */
  method StrDup(s: string) returns (a: array<char>)
    requires '\0' !in s
    ensures fresh(a) && a.Length == |s| + 1 && IsCString(a) && TextOf(a) == s
  {
    a := new char[|s| + 1];
    for i := 0 to |s|
      invariant forall j :: 0 <= j < i ==> a[j] == s[j]
    {
      a[i] := s[i];
    }
    a[|s|] := '\0';
    assert forall j :: 0 <= j < |s| ==> a[0 + j] == s[j] && s[j] in s;
    HoldsText(a, s);
  }

  /** An element normalised in a buffer of its own. */
  method Canonicalized(element: string) returns (r: string)
    requires '\0' !in element && Plain(element)
    ensures r == Canon(element, false) && Plain(r)
  {
    hide Plain;
    var tmp := StrDup(element);
    ServerIsPlain(element);
    CustomCanonicalizePathname(tmp, false);
    ghost var t := TextOf(tmp);
    TextHolds(tmp, t);
    var len := StrLen(tmp, 0, t);
    r := tmp[..len];
    assert forall i :: 0 <= i < len ==> tmp[0 + i] == t[i];
    assert r == element[..UncLength(element)] + CanonLocal(LocalPart(element), false);
    if UncLength(element) > 0 { CanonNames(LocalPart(element), false); }
    PlainBeforeSepOrAlone(element[..UncLength(element)], CanonLocal(LocalPart(element), false));
  }

  lemma ServerIsPlain(t: string)
    requires Plain(t)
    ensures Plain(LocalPart(t)) && Plain(t[..UncLength(t)])
    ensures var k := UncLength(t); k > 0 ==> t[k] == SEP && t[k - 1] != ':'
  {
    hide Plain;
    var k := UncLength(t);
    PlainSuffix(t, k);
    PlainPrefix(t, k);
    if k > 0 { NoColonBefore(t, k); }
  }

  lemma PlainBeforeSepOrAlone(a: string, b: string)
    requires Plain(a) && Plain(b)
    requires a != "" ==> a[|a| - 1] != ':' && b != "" && b[0] == SEP
    ensures Plain(a + b)
  {
    hide Plain;
    if a == "" {
      assert a + b == b;
    } else {
      PlainBeforeSep(a, b);
    }
  }

  // ----- colons at the end -----

  predicate EndsInColon(x: string) {
    x != "" && x[|x| - 1] == ':'
  }

  lemma SplitEnds(t: string)
    requires Plain(t) && !EndsInColon(t)
    ensures forall x :: x in Split(t) ==> !EndsInColon(x)
  {
    hide Plain;
    var cs := Split(t);
    forall i | 0 <= i < |cs|
      ensures !EndsInColon(cs[i])
    {
      Around(t, cs, i);
      var l, r := Lead(cs[..i]), Trail(cs[i + 1..]);
      var p := |l| + |cs[i]|;
      if p > 0 { NoColonBefore(t, p); }
      assert cs[i] != "" ==> t[p - 1] == cs[i][|cs[i]| - 1];
      assert r != "" ==> t[p] == SEP;
    }
  }

  lemma {:induction false} NormEnds(abs: bool, st: seq<string>, cs: seq<string>)
    requires (forall x :: x in st ==> !EndsInColon(x)) && (forall x :: x in cs ==> !EndsInColon(x))
    ensures forall x :: x in Fold(abs, st, cs) ==> !EndsInColon(x)
    decreases |cs|
  {
    if cs == [] {
    } else {
      NormEnds(abs, Step(abs, st, cs[0]), cs[1..]);
    }
  }

  lemma JoinEnds(ns: seq<string>)
    requires ns != [] && ns[|ns| - 1] != ""
    ensures EndsInColon(Join(ns)) <==> EndsInColon(ns[|ns| - 1])
    ensures Join(ns) != ""
  {
    var n := |ns| - 1;
    assert ns == ns[..n] + [ns[n]] + [];
    JoinAround(ns[..n], ns[n], []);
    assert Join(ns) == Lead(ns[..n]) + ns[n];
  }

  lemma PrintColon(abs: bool, ns: seq<string>)
    requires ns != [] ==> ns[|ns| - 1] != "" && !EndsInColon(ns[|ns| - 1])
    ensures Print(abs, ns) != "" && !EndsInColon(Print(abs, ns))
  {
    if ns == [] {
      assert Print(abs, ns) == if abs then [SEP] else ".";
    } else {
      JoinEnds(ns);
    }
  }

  /** Normalising brings no colon to the end. */
  lemma CanonColon(t: string)
    requires Plain(t) && !EndsInColon(t)
    ensures !EndsInColon(Canon(t, false))
  {
    hide Plain, Fold, Join;
    var l := LocalPart(t);
    ServerIsPlain(t);
    if l == "" {
      assert Canon(t, false) == t[..UncLength(t)] + "";
    } else {
      var abs, ns := IsAbsolute(l), Norm(IsAbsolute(l), Names(l));
      assert l[|l| - 1] == t[|t| - 1];
      SplitEnds(l);
      NormEnds(abs, [], Names(l));
      FoldSettled(abs, [], Names(l));
      PrintColon(abs, ns);
      var c := CanonLocal(l, false);
      assert c == Print(abs, ns);
      assert Canon(t, false) == t[..UncLength(t)] + c;
    }
  }

  /** A piece fits behind a path that is empty or ends with a separator, and unless it is the last one,
      leaves such a path. */
  lemma PieceIsPlain(path: string, c: string, last: bool)
    requires c != "" && Plain(path) && Plain(c) && (last || !EndsInColon(c))
    requires path == "" || path[|path| - 1] == SEP
    ensures var r := path + Piece(c, last);
            Plain(r) && (last || r == "" || r[|r| - 1] == SEP)
  {
    hide Plain;
    var d := DropSep(c);
    PlainSuffix(c, if IsAbsolute(c) then 1 else 0);
    assert c[0..] == c;
    var tail := Piece(c, last)[|d|..];
    assert Piece(c, last) == d + tail;
    if tail != "" {
      assert Plain([SEP]) by { SepIsPlain(); }
      PlainBeforeSep(d, tail);
    } else {
      assert d + tail == d;
    }
    PlainConcat(path, d + tail);
    var r := path + Piece(c, last);
    if !last && d == "" { assert c == [SEP]; }
  }

  lemma SepIsPlain()
    ensures Plain([SEP]) && Plain("")
  {
  }

  /** Elements that joining makes no "://" of: only the last may end with a colon. */
  ghost predicate PlainElements(es: seq<string>) {
    forall i :: 0 <= i < |es| ==> Plain(es[i]) && (EndsInColon(es[i]) ==> i == |es| - 1)
  }

  lemma CanonChars(t: string, c: char)
    requires c != SEP && c != '.' && c !in t
    ensures c !in Canon(t, false)
  {
    var k := UncLength(t);
    var l := t[k..];
    if l != "" {
      NamesChars(l, c);
      NormChars(IsAbsolute(l), [], Names(l), c);
      JoinChars(Norm(IsAbsolute(l), Names(l)), c);
    }
  }

  lemma {:induction false} SplitChars(t: string, c: char)
    requires c !in t
    ensures forall x :: x in Split(t) ==> c !in x
  {
    if t == "" {
    } else {
      SplitChars(t[1..], c);
    }
  }

  lemma NamesChars(t: string, c: char)
    requires c !in t
    ensures forall x :: x in Names(t) ==> c !in x
  {
    SplitChars(t, c);
  }

  lemma {:induction false} NormChars(abs: bool, st: seq<string>, cs: seq<string>, c: char)
    requires c != '.' && (forall x :: x in st ==> c !in x) && (forall x :: x in cs ==> c !in x)
    ensures forall x :: x in Fold(abs, st, cs) ==> c !in x
    decreases |cs|
  {
    if cs == [] {
    } else {
      NormChars(abs, Step(abs, st, cs[0]), cs[1..], c);
    }
  }

  lemma {:induction false} JoinChars(cs: seq<string>, c: char)
    requires c != SEP && forall x :: x in cs ==> c !in x
    ensures c !in Join(cs) && c !in Trail(cs)
  {
    if cs == [] {
    } else {
      JoinChars(cs[1..], c);
    }
  }

  lemma {:induction false} GatherChars(es: seq<string>, c: char)
    requires c != SEP && c != '.' && forall i :: 0 <= i < |es| ==> c !in es[i]
    ensures c !in Gather(es)
  {
    if es == [] {
    } else {
      GatherChars(es[1..], c);
      CanonChars(es[0], c);
      if es[0] != "" { CanonNonEmpty(es[0]); }
    }
  }

  method AppendPiece(path: string, tmp: string, last: bool) returns (r: string)
    requires tmp != ""
    ensures r == path + Piece(tmp, last)
  {
    var len := |tmp|;
    var start := if tmp[0] == SEP then 1 else 0;
    assert tmp[0..] == tmp;
    r := path + tmp[start..];
    if tmp[len - 1] != SEP && !last {
      r := r + [SEP];
    }
  }

  method GatherAll(elements: seq<string>) returns (path: string)
    requires (forall i :: 0 <= i < |elements| ==> '\0' !in elements[i]) && PlainElements(elements)
    ensures path == Gather(elements) && Plain(path)
  {
    hide Plain, Gather, Canon, Piece, EndsInColon;
    path := "";
    SepIsPlain();
    NothingGathered();
    var i := 0;
    while i < |elements|
      invariant 0 <= i <= |elements| && Plain(path)
      invariant i == |elements| || path == "" || path[|path| - 1] == SEP
      invariant path + Gather(elements[i..]) == Gather(elements)
    {
      var element := elements[i];
      ghost var todo, before := elements[i..], path;
      assert todo[0] == element && todo[1..] == elements[i + 1..];
      i := i + 1;
      if element != "" {
        GatherUnfold(todo);
        var tmp := Canonicalized(element);
        path := AppendPiece(path, tmp, i == |elements|);
        if i < |elements| { CanonColon(element); }
        PieceIsPlain(before, tmp, i == |elements|);
        Assoc(before, Piece(tmp, i == |elements|), Gather(elements[i..]));
      } else {
        GatherSkip(todo);
      }
    }
    assert elements[i..] == [];
  }

  lemma NothingGathered()
    ensures forall x :: x + Gather([]) == x
  {
  }

  lemma GatherSkip(es: seq<string>)
    requires es != [] && es[0] == ""
    ensures Gather(es) == Gather(es[1..])
  {
  }

  /** The elements stand before the NULL that ends the argument list; with none the result is NULL. */
  method McBuildFilenamev(elements: seq<string>) returns (r: Option<string>)
    requires (forall i :: 0 <= i < |elements| ==> '\0' !in elements[i]) && PlainElements(elements)
    ensures r == if elements == [] then None else Some(Built(elements))
  {
    hide Plain, Gather, PlainElements;
    if elements == [] { return None; }
    var absolute := IsAbsolute(elements[0]);
    var path := GatherAll(elements);
    GatherChars(elements, '\0');
    SepIsPlain();
    if absolute {
      PlainConcat([SEP], path);
      path := [SEP] + path;
    }
    assert path == (if absolute then [SEP] else "") + Gather(elements);
    var ret := Canonicalized(path);
    r := Some(ret);
  }
}
