/** What the manual promises of replacement texts, and when their expansion keeps it (lib/search/regex.c). */
module ReplaceMeaning {
  import opened RegexReplace
  import opened Sequences
  import opened Wrappers

  // ----- what is meant -----

  /** What should be written for a piece, with the conversions that are then in force. */
  function Intended(p: Piece, f: Flags, m: Found): (string, Flags)
    requires p.GroupNumber? ==> p.k < |m.groups|
  {
    if p.Number? then (Encoded(p.code, m.isUtf8), f) else Cased(TextOf(p, m), Ahead(p, f))
  }

  /** Every character and every group is written in full, with the conversions that stand in front of it. */
  function Meaning(ps: seq<Piece>, f: Flags, m: Found): Expansion
    requires NamesBelow(ps, |m.groups|)
  {
    if ps == [] then Expansion("", Done)
    else if ps[0].Beyond? then Expansion("", Unsaid)
    else
      var (x, g) := Intended(ps[0], f, m);
      Prepend(x, Meaning(ps[1..], g, m))
  }

  function Meant(t: string, m: Found): Expansion {
    NamesAreCounted(t, false, |m.groups|);
    if GroupsThere(t, m) then Meaning(Pieces(t, false), NO_TRANSFORM, m) else Expansion("", NoGroup)
  }

  /** No \u, \l or \E stands directly behind an ordinary character; open says that one stands in front of ps. */
  predicate Separate(ps: seq<Piece>, open: bool) {
    ps == [] || (!(open && ps[0].Switch? && !SetsLasting(ps[0].c)) && Separate(ps[1..], ps[0].Ordinary?))
  }

  predicate SetsLasting(c: char) {
    c == 'U' || c == 'L'
  }

  // ----- for given groups -----

  function LastingChar(c: char, f: Flags): char {
    if f.upper then ToUpper(c) else if f.lower then ToLower(c) else c
  }

  /** The lasting conversions of f and of g do the same to the characters that have none of their own. */
  predicate SameCase(s: string, f: Flags, g: Flags) {
    forall i :: Ones(f) <= i < |s| ==> LastingChar(s[i], f) == LastingChar(s[i], g)
  }

  /** No switch changes the case of ordinary characters in front of it, and every call that appends a text is for as
      many characters as there are conversions, or for any number. */
  predicate AllRight(ps: seq<Piece>, pending: string, f: Flags, m: Found)
    requires NamesBelow(ps, |m.groups|)
  {
    if ps == [] || ps[0].Beyond? then Covers(f, |pending|)
    else if ps[0].Ordinary? then AllRight(ps[1..], pending + [ps[0].c], f, m)
    else
      var h := Ahead(ps[0], f);
      var g := Used(h, |pending|);
      var n := |TextOf(ps[0], m)|;
      && SameCase(pending, f, h) && Covers(h, |pending|)
      && Covers(g, n) && AllRight(ps[1..], "", Used(g, n), m)
  }

  /** The conversions that are left behind n characters. */
  function Used(f: Flags, n: nat): Flags
    decreases n
  {
    if n == 0 then f
    else if f.nextUpper then Used(f.(nextUpper := false), n - 1)
    else if f.nextLower then Used(f.(nextLower := false), n - 1)
    else f
  }

  lemma {:induction false} CasedUses(s: string, f: Flags)
    ensures Cased(s, f).1 == Used(f, |s|)
  {
    if s == "" {
    } else {
      CasedUses(s[1..], CasedChar(s[0], f).1);
    }
  }

  lemma CasedOne(c: char, f: Flags)
    ensures Cased([c], f) == ([CasedChar(c, f).0], CasedChar(c, f).1)
  {
    assert [c][1..] == "";
    assert [CasedChar(c, f).0] + "" == [CasedChar(c, f).0];
  }

  lemma CasedSnoc(s: string, c: char, f: Flags)
    ensures var (x, g) := Cased(s, f);
            var (d, h) := Cased([c], g);
            Cased(s + [c], f) == (x + d, h)
  {
    CasedConcat(s, [c], f);
  }

  lemma NothingCased(s: string, f: Flags)
    ensures s == "" ==> Cased(s, f) == ("", f)
  {
  }

  lemma {:induction false} SameCaseIff(s: string, f: Flags, g: Flags)
    requires f.nextUpper == g.nextUpper && f.nextLower == g.nextLower
    ensures Cased(s, f).0 == Cased(s, g).0 <==> SameCase(s, f, g)
  {
    if s == "" {
    } else {
      var (c, f1) := CasedChar(s[0], f);
      var (d, g1) := CasedChar(s[0], g);
      var k := if f.nextUpper || f.nextLower then 1 else 0;
      SameCaseIff(s[1..], f1, g1);
      assert Ones(f1) == Ones(f) - k;
      assert forall i :: 0 < i < |s| ==> s[1..][i - 1] == s[i];
      assert c == d <==> (Ones(f) == 0 ==> LastingChar(s[0], f) == LastingChar(s[0], g));
      assert Cased(s, f).0[1..] == Cased(s[1..], f1).0 && Cased(s, g).0[1..] == Cased(s[1..], g1).0;
      assert SameCase(s[1..], f1, g1) <==> forall i :: Ones(f) <= i < |s| && i > 0 ==>
               LastingChar(s[i], f) == LastingChar(s[i], g);
    }
  }

  lemma {:induction false} SwitchedBehind(f: Flags, c: char, n: nat)
    requires SetsLasting(c)
    ensures Switched(Used(f, n), c) == Used(Switched(f, c), n)
    decreases n
  {
    if n > 0 {
      if f.nextUpper { SwitchedBehind(f.(nextUpper := false), c, n - 1); }
      else if f.nextLower { SwitchedBehind(f.(nextLower := false), c, n - 1); }
    }
  }

  /** The conversions behind a piece. */
  lemma FlagsBehind(p: Piece, pending: string, f: Flags, m: Found)
    requires (p.GroupNumber? ==> p.k < |m.groups|) && !p.Ordinary?
    requires p.Switch? && !SetsLasting(p.c) ==> pending == ""
    ensures var g, n := Used(Ahead(p, f), |pending|), |TextOf(p, m)|;
            && Appended(pending, Ahead(p, f)).1 == g == Ahead(p, Cased(pending, f).1)
            && Written(p, g, m).1 == Used(g, n) == Intended(p, Cased(pending, f).1, m).1
  {
    hide Appended, Cased;
    CasedUses(pending, f);
    CasedUses(pending, Ahead(p, f));
    AppendedInFullIff(pending, Ahead(p, f));
    if p.Switch? && SetsLasting(p.c) { SwitchedBehind(f, p.c, |pending|); }
    var g := Used(Ahead(p, f), |pending|);
    AppendedInFullIff(TextOf(p, m), g);
    CasedUses(TextOf(p, m), g);
  }

  /** One piece that is no ordinary character. */
  lemma OnePiece(p: Piece, pending: string, f: Flags, m: Found)
    requires (p.GroupNumber? ==> p.k < |m.groups|) && !p.Ordinary?
    requires p.Switch? && !SetsLasting(p.c) ==> pending == ""
    ensures var (x, g) := Appended(pending, Ahead(p, f));
            var (y, h) := Written(p, g, m);
            var (u, d) := Cased(pending, f);
            var (v, e) := Intended(p, d, m);
            var n := |TextOf(p, m)|;
            && h == e == Used(Used(Ahead(p, f), |pending|), n)
            && |x| <= |u| && |y| <= |v|
            && (x == u && y == v <==>
                  SameCase(pending, f, Ahead(p, f)) && Covers(Ahead(p, f), |pending|)
                  && Covers(Used(Ahead(p, f), |pending|), n))
  {
    hide Appended, Cased, Used, SameCase;
    FlagsBehind(p, pending, f, m);
    AppendedInFullIff(pending, Ahead(p, f));
    PendingCase(p, pending, f);
    if !p.Number? {
      AppendedInFullIff(TextOf(p, m), Used(Ahead(p, f), |pending|));
    }
  }

  lemma PendingCase(p: Piece, pending: string, f: Flags)
    requires p.Switch? && !SetsLasting(p.c) ==> pending == ""
    ensures Cased(pending, Ahead(p, f)).0 == Cased(pending, f).0 <==> SameCase(pending, f, Ahead(p, f))
  {
    hide Cased;
    NothingCased(pending, f);
    NothingCased(pending, Ahead(p, f));
    if pending != "" { SameCaseIff(pending, f, Ahead(p, f)); }
  }

  /** If no \u, \l or \E stands directly behind an ordinary character, then for all groups the expansion is what is
      meant if and only if all is right; it is never longer. */
  lemma {:induction false} ExpandedAsMeantIff(ps: seq<Piece>, pending: string, f: Flags, m: Found)
    requires Separate(ps, pending != "") && NamesBelow(ps, |m.groups|)
    ensures var (x, g) := Cased(pending, f);
            var done, meant := Expanded(ps, pending, f, m), Prepend(x, Meaning(ps, g, m));
            && done.end == meant.end && |done.text| <= |meant.text|
            && (done == meant <==> AllRight(ps, pending, f, m))
    decreases |ps|
  {
    hide Cased, Appended, Written, Intended, Used, Covers, SameCase;
    var (x, g) := Cased(pending, f);
    if ps == [] || ps[0].Beyond? {
      LastCall(pending, f);
    } else if ps[0].Ordinary? {
      var c := ps[0].c;
      CasedSnoc(pending, c, f);
      assert Intended(ps[0], g, m) == Cased([c], g) by { OrdinaryIntended(c, g, m); }
      ExpandedAsMeantIff(ps[1..], pending + [c], f, m);
      PrependTwice(x, Cased([c], g).0, Meaning(ps[1..], Cased([c], g).1, m));
    } else {
      OnePiece(ps[0], pending, f, m);
      var (a, d) := Appended(pending, Ahead(ps[0], f));
      var (b, h) := Written(ps[0], d, m);
      var (v, e) := Intended(ps[0], g, m);
      ExpandedAsMeantIff(ps[1..], "", e, m);
      NothingCased("", e);
      var done, meant := Expanded(ps[1..], "", e, m), Meaning(ps[1..], e, m);
      assert Prepend("", meant) == meant;
      PrependTwice(x, v, meant);
      ThreeParts(a, b, done.text, x, v, meant.text);
    }
  }

  lemma ThreeParts(a: string, b: string, c: string, x: string, y: string, z: string)
    requires |a| <= |x| && |b| <= |y| && |c| <= |z|
    ensures a + b + c == x + y + z <==> a == x && b == y && c == z
  {
    if a + b + c == x + y + z {
      assert |a + b + c| == |a| + |b| + |c| && |x + y + z| == |x| + |y| + |z|;
      assert (a + b + c)[..|a|] == a && (x + y + z)[..|a|] == x;
      assert (a + b + c)[|a|..|a| + |b|] == b && (x + y + z)[|a|..|a| + |b|] == y;
      assert (a + b + c)[|a| + |b|..] == c && (x + y + z)[|a| + |b|..] == z;
    }
  }

  lemma OrdinaryIntended(c: char, f: Flags, m: Found)
    ensures Intended(Ordinary(c), f, m) == Cased([c], f)
  {
  }

  lemma LastCall(pending: string, f: Flags)
    ensures var x := Cased(pending, f).0;
            && (Appended(pending, f).0 == x <==> Covers(f, |pending|))
            && |Appended(pending, f).0| <= |x| && x + "" == x
  {
    hide Cased, Appended;
    AppendedInFullIff(pending, f);
  }

  // ----- for all groups -----

  /** No \u or \l without \U or \L in force stands in front of a group, or in front of more characters than there
      are of them, and no \U or \L behind characters that it would change; pending are the ordinary characters in
      front of ps, with the conversions f. */
  predicate Steady(ps: seq<Piece>, pending: string, f: Flags) {
    if ps == [] || ps[0].Beyond? then Covers(f, |pending|)
    else if ps[0].Ordinary? then Steady(ps[1..], pending + [ps[0].c], f)
    else
      var h := Ahead(ps[0], f);
      var g := Used(h, |pending|);
      && SameCase(pending, f, h) && Covers(h, |pending|)
      && if ps[0].GroupNumber? then (g == NO_TRANSFORM || Lasting(g)) && Steady(ps[1..], "", WithoutOnes(g))
         else var k := if ps[0].Literal? then |ps[0].text| else 0; Covers(g, k) && Steady(ps[1..], "", Used(g, k))
  }

  function WithoutOnes(f: Flags): Flags {
    f.(nextUpper := false, nextLower := false)
  }

  /** f is g, or has more conversions of one character besides the same lasting one. */
  predicate Exceeds(f: Flags, g: Flags) {
    || f == g
    || (Lasting(f) && f.upper == g.upper && f.lower == g.lower
        && (g.nextUpper ==> f.nextUpper) && (g.nextLower ==> f.nextLower))
  }

  lemma {:induction false} UsedLasts(f: Flags, n: nat)
    ensures Used(f, n).upper == f.upper && Used(f, n).lower == f.lower
    ensures n >= 2 ==> Used(f, n) == WithoutOnes(f)
    decreases n
  {
    if n > 0 {
      if f.nextUpper { UsedLasts(f.(nextUpper := false), n - 1); }
      else if f.nextLower { UsedLasts(f.(nextLower := false), n - 1); }
    }
  }

  lemma {:induction false} ExceedsBehind(f: Flags, g: Flags, n: nat)
    requires Exceeds(f, g)
    ensures Exceeds(Used(f, n), Used(g, n))
    decreases n
  {
    if n > 0 && f != g {
      var f1 := if f.nextUpper then f.(nextUpper := false) else f.(nextLower := false);
      var g1 := if g.nextUpper then g.(nextUpper := false) else g.(nextLower := false);
      assert Used(f, n) == Used(f1, n - 1) by { NoneLeft(f, n); }
      assert Used(g, n) == Used(g1, n - 1) by { NoneLeft(g, n); }
      ExceedsBehind(f1, g1, n - 1);
    }
  }

  lemma NoneLeft(f: Flags, n: nat)
    requires n > 0
    ensures Ones(f) == 0 ==> Used(f, n) == f == Used(f, n - 1)
    ensures f.nextUpper ==> Used(f, n) == Used(f.(nextUpper := false), n - 1)
    ensures !f.nextUpper ==> Used(f, n) == Used(f.(nextLower := false), n - 1)
  {
  }

  lemma ExceedsAhead(f: Flags, g: Flags, p: Piece, s: string, n: nat)
    requires Exceeds(f, g)
    ensures Exceeds(Ahead(p, f), Ahead(p, g)) && Covers(f, n) == Covers(g, n)
    ensures SameCase(s, g, Ahead(p, g)) ==> SameCase(s, f, Ahead(p, f))
  {
  }

  lemma {:induction false} SteadyIsRight(ps: seq<Piece>, pending: string, f: Flags, g: Flags, m: Found)
    requires NamesBelow(ps, |m.groups|) && Steady(ps, pending, g) && Exceeds(f, g)
    ensures AllRight(ps, pending, f, m)
    decreases |ps|
  {
    hide Used, Covers, Exceeds, SameCase;
    if ps == [] || ps[0].Beyond? {
      ExceedsAhead(f, g, Beyond, "", |pending|);
    } else if ps[0].Ordinary? {
      SteadyIsRight(ps[1..], pending + [ps[0].c], f, g, m);
    } else {
      var p, n := ps[0], |pending|;
      ExceedsAhead(f, g, p, pending, n);
      ExceedsAhead(Ahead(p, f), Ahead(p, g), p, "", n);
      ExceedsBehind(Ahead(p, f), Ahead(p, g), n);
      var d, e := Used(Ahead(p, f), n), Used(Ahead(p, g), n);
      var k := |TextOf(p, m)|;
      ExceedsAhead(d, e, p, "", k);
      ExceedsBehind(d, e, k);
      if p.GroupNumber? {
        GroupCovers(e, k);
        ExceedsTwice(Used(d, k), Used(e, k), WithoutOnes(e));
        SteadyIsRight(ps[1..], "", Used(d, k), WithoutOnes(e), m);
      } else {
        SteadyIsRight(ps[1..], "", Used(d, k), Used(e, k), m);
      }
    }
  }

  lemma ExceedsTwice(f: Flags, g: Flags, h: Flags)
    requires Exceeds(f, g) && Exceeds(g, h)
    ensures Exceeds(f, h)
  {
  }

  lemma GroupCovers(f: Flags, n: nat)
    requires f == NO_TRANSFORM || Lasting(f)
    ensures Covers(f, n) && Exceeds(Used(f, n), WithoutOnes(f))
  {
    UsedLasts(f, n);
    if n > 0 { NoneLeft(f, n); }
  }

  /** Groups of three characters use up all conversions of one character. */
  lemma {:induction false} RightIsSteady(ps: seq<Piece>, pending: string, f: Flags, m: Found)
    requires NamesBelow(ps, |m.groups|) && AllRight(ps, pending, f, m)
    requires forall i :: 0 <= i < |m.groups| ==> |m.groups[i]| == 3
    ensures Steady(ps, pending, f)
    decreases |ps|
  {
    hide Used, SameCase;
    if ps == [] || ps[0].Beyond? {
    } else if ps[0].Ordinary? {
      RightIsSteady(ps[1..], pending + [ps[0].c], f, m);
    } else {
      var g := Used(Ahead(ps[0], f), |pending|);
      var k := |TextOf(ps[0], m)|;
      UsedLasts(g, k);
      RightIsSteady(ps[1..], "", Used(g, k), m);
    }
  }

  /** A replacement without a \u, \l or \E directly behind an ordinary character comes out as meant for all groups if
      and only if it is steady, or names a group that no match has. */
  lemma AllAsMeantIff(t: string)
    requires Separate(Pieces(t, false), false)
    ensures (forall m: Found :: Expand(t, m) == Meant(t, m))
       <==> MaxName(t, false) > NUM_REPLACE_ARGS || Steady(Pieces(t, false), "", NO_TRANSFORM)
  {
    hide Pieces, Separate, Steady, Expanded, Meaning, MaxName, AllRight;
    var ps := Pieces(t, false);
    if MaxName(t, false) > NUM_REPLACE_ARGS || Steady(ps, "", NO_TRANSFORM) {
      forall m: Found
        ensures Expand(t, m) == Meant(t, m)
      {
        if GroupsThere(t, m) {
          NamesAreCounted(t, false, |m.groups|);
          SteadyIsRight(ps, "", NO_TRANSFORM, NO_TRANSFORM, m);
          FromTheStart(ps, m);
        }
      }
    } else {
      var m := Found(seq(NUM_REPLACE_ARGS + 1, _ => "..."), false);
      NamesAreCounted(t, false, |m.groups|);
      FromTheStart(ps, m);
      if AllRight(ps, "", NO_TRANSFORM, m) { RightIsSteady(ps, "", NO_TRANSFORM, m); }
      assert Expand(t, m) != Meant(t, m);
    }
  }

  lemma FromTheStart(ps: seq<Piece>, m: Found)
    requires Separate(ps, false) && NamesBelow(ps, |m.groups|)
    ensures Expanded(ps, "", NO_TRANSFORM, m) == Meaning(ps, NO_TRANSFORM, m) <==> AllRight(ps, "", NO_TRANSFORM, m)
  {
    hide Expanded, Meaning, AllRight, Separate;
    NothingCased("", NO_TRANSFORM);
    ExpandedAsMeantIff(ps, "", NO_TRANSFORM, m);
    assert Prepend("", Meaning(ps, NO_TRANSFORM, m)) == Meaning(ps, NO_TRANSFORM, m);
  }

  // ----- one switch between two texts -----

  /** A text of ordinary characters. */
  predicate PlainText(x: string) {
    '\\' !in x && '$' !in x
  }

  function Ordinaries(x: string): (ps: seq<Piece>)
    ensures |ps| == |x| && forall i :: 0 <= i < |x| ==> ps[i] == Ordinary(x[i])
  {
    if x == "" then [] else [Ordinary(x[0])] + Ordinaries(x[1..])
  }

  lemma {:induction false} PiecesOfPlain(x: string, t: string)
    requires PlainText(x)
    ensures Pieces(x + t, false) == Ordinaries(x) + Pieces(t, false)
  {
    var u := x + t;
    if x == "" {
      assert u == t;
    } else {
      assert u[1..] == x[1..] + t && u[0] == x[0] && x[0] in x;
      PiecesOfPlain(x[1..], t);
      if |u| == 1 {
        assert u[1..] == "";
      } else {
        OneBehind(u);
      }
    }
  }

  lemma OneBehind(u: string)
    requires |u| >= 2 && u[0] != '\\' && u[0] != '$'
    ensures Pieces(u, false) == [Ordinary(u[0])] + Pieces(u[1..], false)
  {
    FirstPiece(u, Ordinary(u[0]), 1);
    OneAfter(u[..1], false);
  }

  lemma FirstPiece(t: string, p: Piece, n: nat)
    requires |t| >= 2 && Token(t, false) == (p, n) && !p.Beyond?
    ensures Pieces(t, false) == [p] + Pieces(t[n..], EscapedAfter(t[..n], false))
  {
    hide Token;
  }

  lemma TwoAfter(t: string, c: char)
    requires |t| >= 2 && t[0] == '\\' && t[1] == c
    ensures !EscapedAfter(t[..2], false)
  {
    var s := t[..2];
    assert s == ['\\', c] && s[1..] == [c];
    OneAfter([c], true);
  }

  lemma {:induction false} ExpandedPlain(x: string, ps: seq<Piece>, pending: string, f: Flags, m: Found)
    requires NamesBelow(ps, |m.groups|)
    ensures NamesBelow(Ordinaries(x) + ps, |m.groups|)
    ensures Expanded(Ordinaries(x) + ps, pending, f, m) == Expanded(ps, pending + x, f, m)
  {
    var all := Ordinaries(x) + ps;
    if x == "" {
      assert all == ps && pending + x == pending;
    } else {
      assert all[1..] == Ordinaries(x[1..]) + ps && all[0] == Ordinary(x[0]);
      assert pending + [x[0]] + x[1..] == pending + x;
      ExpandedPlain(x[1..], ps, pending + [x[0]], f, m);
    }
  }

  lemma {:induction false} MeaningPlain(x: string, ps: seq<Piece>, f: Flags, m: Found)
    requires NamesBelow(ps, |m.groups|)
    ensures NamesBelow(Ordinaries(x) + ps, |m.groups|)
    ensures Meaning(Ordinaries(x) + ps, f, m) == Prepend(Cased(x, f).0, Meaning(ps, Cased(x, f).1, m))
  {
    hide Cased;
    var all := Ordinaries(x) + ps;
    if x == "" {
      NothingCased(x, f);
      assert all == ps && Prepend("", Meaning(ps, f, m)) == Meaning(ps, f, m);
    } else {
      assert all[1..] == Ordinaries(x[1..]) + ps && all[0] == Ordinary(x[0]);
      var (c, g) := Cased([x[0]], f);
      CasedConcat([x[0]], x[1..], f);
      assert [x[0]] + x[1..] == x;
      OrdinaryIntended(x[0], f, m);
      MeaningPlain(x[1..], ps, g, m);
      PrependTwice(c, Cased(x[1..], g).0, Meaning(ps, Cased(x[1..], g).1, m));
    }
  }

  function WithSwitch(x: string, c: char, y: string): string {
    x + (['\\', c] + y)
  }

  lemma PiecesWithSwitch(x: string, c: char, y: string)
    requires PlainText(x) && PlainText(y) && CaseSwitch(c)
    ensures Pieces(WithSwitch(x, c, y), false) == Ordinaries(x) + ([Switch(c)] + Ordinaries(y))
  {
    hide Ordinaries;
    var u := ['\\', c] + y;
    PiecesOfPlain(x, u);
    assert u[2..] == y;
    FirstPiece(u, Switch(c), 2);
    TwoAfter(u, c);
    PiecesOfPlain(y, "");
    assert y + "" == y && Ordinaries(y) + [] == Ordinaries(y);
  }

  /** What comes of a text, a switch and a text, and what is meant. */
  lemma AroundSwitch(x: string, c: char, y: string, m: Found)
    requires PlainText(x) && PlainText(y) && CaseSwitch(c) && m.groups != []
    ensures var f := Switched(NO_TRANSFORM, c);
            var (z, g) := Appended(x, f);
            && Expand(WithSwitch(x, c, y), m) == Expansion(z + Appended(y, g).0, Done)
            && Meant(WithSwitch(x, c, y), m) == Expansion(x + Cased(y, f).0, Done)
  {
    hide Expanded, Meaning, Cased, Appended, Ordinaries, WithSwitch, Pieces, MaxName;
    var f := Switched(NO_TRANSFORM, c);
    var ys := Ordinaries(y);
    PiecesWithSwitch(x, c, y);
    NothingNamed(x, c, y);
    ExpandedPlain(y, [], "", Appended(x, f).1, m);
    MeaningPlain(y, [], f, m);
    assert ys + [] == ys && "" + y == y;
    SwitchFirst(c, ys, x, m);
    ExpandedPlain(x, [Switch(c)] + ys, "", NO_TRANSFORM, m);
    MeaningPlain(x, [Switch(c)] + ys, NO_TRANSFORM, m);
    assert "" + x == x;
    CasedAsWritten(x);
    NothingExpanded(y, Appended(x, f).1, m);
    NothingExpanded(y, Cased(y, f).1, m);
    assert Cased(y, f).0 + "" == Cased(y, f).0;
  }

  lemma NothingExpanded(pending: string, f: Flags, m: Found)
    ensures Expanded([], pending, f, m) == Expansion(Appended(pending, f).0, Done)
    ensures Meaning([], f, m) == Expansion("", Done)
  {
  }

  lemma SwitchFirst(c: char, ps: seq<Piece>, pending: string, m: Found)
    requires NamesBelow(ps, |m.groups|)
    ensures NamesBelow([Switch(c)] + ps, |m.groups|)
    ensures var (x, g) := Appended(pending, Switched(NO_TRANSFORM, c));
            Expanded([Switch(c)] + ps, pending, NO_TRANSFORM, m) == Prepend(x, Expanded(ps, "", g, m))
    ensures Meaning([Switch(c)] + ps, NO_TRANSFORM, m) == Meaning(ps, Switched(NO_TRANSFORM, c), m)
  {
    hide Appended, Cased;
    var f := Switched(NO_TRANSFORM, c);
    var (x, g) := Appended(pending, f);
    var all := [Switch(c)] + ps;
    assert all[1..] == ps && all[0] == Switch(c);
    NothingAppended(x, g);
    NothingCased("", f);
    assert Written(Switch(c), g, m) == Appended("", g);
    assert Prepend("", Meaning(ps, f, m)) == Meaning(ps, f, m);
  }

  lemma NothingNamed(x: string, c: char, y: string)
    requires PlainText(x) && PlainText(y) && CaseSwitch(c)
    ensures MaxName(WithSwitch(x, c, y), false) == 0
  {
    hide MaxName;
    var u := ['\\', c] + y;
    PlainNamesNothing(x, u);
    PlainNamesNothing(y, "");
    assert y + "" == y && u[1..] == [c] + y && u[1..][1..] == y;
    MaxNameStep(u, false);
    MaxNameStep(u[1..], true);
    MaxNameStep("", false);
  }

  lemma MaxNameStep(t: string, escaped: bool)
    ensures MaxName(t, escaped)
         == if |t| <= 1 then 0 else Greater(NameAt(t, escaped), MaxName(t[1..], t[0] == '\\' && !escaped))
  {
  }

  lemma {:induction false} PlainNamesNothing(x: string, t: string)
    requires PlainText(x)
    ensures MaxName(x + t, false) == MaxName(t, false)
  {
    hide MaxName;
    var u := x + t;
    if x == "" {
      assert u == t;
    } else {
      assert u[1..] == x[1..] + t && u[0] == x[0] && x[0] in x;
      MaxNameStep(u, false);
      MaxNameStep(u[1..], false);
      PlainNamesNothing(x[1..], t);
    }
  }

  /** A letter that the switch converts. */
  predicate Converts(c: char, d: char) {
    if c == 'u' || c == 'U' then 'a' <= d <= 'z' else 'A' <= d <= 'Z'
  }

  /** When a switch between x and y does what is meant: \U and \L if they convert no letter of x, \E always. And \u
      and \l if nothing is in front and at most one character behind, or if there is one character in front and they
      convert neither that one nor the next. */
  predicate RightBetween(x: string, c: char, y: string) {
    match c
    case 'U' => forall i :: 0 <= i < |x| ==> !Converts(c, x[i])
    case 'L' => forall i :: 0 <= i < |x| ==> !Converts(c, x[i])
    case 'E' => true
    case _ =>
      if x == "" then |y| <= 1 else |x| == 1 && !Converts(c, x[0]) && (y != "" ==> !Converts(c, y[0]))
  }

  lemma {:induction false} LastingCased(x: string, c: char)
    requires c == 'U' || c == 'L'
    ensures var f := Switched(NO_TRANSFORM, c);
            && Cased(x, f).1 == f && Lasting(f)
            && (Cased(x, f).0 == x <==> forall i :: 0 <= i < |x| ==> !Converts(c, x[i]))
  {
    if x == "" {
    } else {
      LastingCased(x[1..], c);
      assert x == [x[0]] + x[1..];
      assert forall i :: 0 < i < |x| ==> x[i] == x[1..][i - 1];
    }
  }

  /** What a conversion of one character does to a text, as the program writes it and as it is meant. */
  lemma OneConversion(s: string, c: char)
    requires c == 'u' || c == 'l'
    ensures var f := Switched(NO_TRANSFORM, c);
            && Appended("", f) == Cased("", f) == ("", f)
            && (s != "" ==> var d := CasedChar(s[0], f).0;
                  && (d == s[0] <==> !Converts(c, s[0]))
                  && Appended(s, f) == ([d], NO_TRANSFORM) && Cased(s, f) == ([d] + s[1..], NO_TRANSFORM))
  {
    var f := Switched(NO_TRANSFORM, c);
    if s != "" {
      CasedAsWritten(s[1..]);
      assert Converted(s[1..], NO_TRANSFORM) == ("", NO_TRANSFORM);
      assert [CasedChar(s[0], f).0] + "" == [CasedChar(s[0], f).0];
    }
  }

  /** A switch between two texts of ordinary characters does what is meant if and only if it is right there. */
  lemma SwitchIsRight(x: string, c: char, y: string, m: Found)
    requires PlainText(x) && PlainText(y) && CaseSwitch(c) && m.groups != []
    ensures Expand(WithSwitch(x, c, y), m) == Meant(WithSwitch(x, c, y), m) <==> RightBetween(x, c, y)
  {
    hide Expand, Meant, Cased, Appended, WithSwitch;
    AroundSwitch(x, c, y, m);
    if c == 'E' {
      CopiedWhole(x, y);
    } else if c == 'u' || c == 'l' {
      OneSwitchIsRight(x, c, y);
    } else {
      LastingCased(x, c);
      LastingCased(y, c);
      AppendedInFullIff(x, Switched(NO_TRANSFORM, c));
      AppendedInFullIff(y, Switched(NO_TRANSFORM, c));
      SameTail(Appended(x, Switched(NO_TRANSFORM, c)).0, x, Cased(y, Switched(NO_TRANSFORM, c)).0);
    }
  }

  lemma SameTail(a: string, b: string, s: string)
    requires |a| == |b|
    ensures a + s == b + s <==> a == b
  {
    assert (a + s)[..|a|] == a && (b + s)[..|a|] == b;
  }

  lemma CopiedWhole(x: string, y: string)
    ensures Appended(x, NO_TRANSFORM) == (x, NO_TRANSFORM) && Cased(y, NO_TRANSFORM) == (y, NO_TRANSFORM)
    ensures Appended(y, NO_TRANSFORM) == (y, NO_TRANSFORM)
  {
    CasedAsWritten(y);
  }

  lemma OneSwitchIsRight(x: string, c: char, y: string)
    requires c == 'u' || c == 'l'
    ensures var f := Switched(NO_TRANSFORM, c);
            var (z, g) := Appended(x, f);
            z + Appended(y, g).0 == x + Cased(y, f).0 <==> RightBetween(x, c, y)
  {
    hide Cased, Appended;
    var f := Switched(NO_TRANSFORM, c);
    OneConversion(x, c);
    OneConversion(y, c);
    CopiedWhole(x, y);
    if x != "" {
      var d := CasedChar(x[0], f).0;
      var done, meant := [d] + y, x + Cased(y, f).0;
      assert |Cased(y, f).0| == |y|;
      if |x| == 1 {
        assert done[0] == d && meant[0] == x[0];
        if y != "" {
          assert done[1] == y[0] && meant[1] == CasedChar(y[0], f).0;
          assert [y[0]] + y[1..] == y;
        }
        assert d == x[0] ==> [d] == x;
      }
    }
  }

  /** An input: the text in front of the switch is converted as well. */
  lemma SwitchReachesBack(m: Found)
    requires m.groups != []
    ensures Expand("ab\\Ucd", m) == Expansion("ABCD", Done)
    ensures Meant("ab\\Ucd", m) == Expansion("abCD", Done)
  {
    hide Cased, Appended, Expand, Meant;
    var f := Switched(NO_TRANSFORM, 'U');
    AroundSwitch("ab", 'U', "cd", m);
    assert WithSwitch("ab", 'U', "cd") == "ab\\Ucd";
    AppendedInFullIff("ab", f);
    AppendedInFullIff("cd", f);
    CasedTwo('a', 'b', f);
    CasedTwo('c', 'd', f);
    assert "AB" + "CD" == "ABCD" && "ab" + "CD" == "abCD";
  }

  lemma CasedTwo(a: char, b: char, f: Flags)
    ensures var (c, g) := CasedChar(a, f);
            var (d, h) := CasedChar(b, g);
            Cased([a, b], f) == ([c, d], h)
  {
    hide Cased;
    var (c, g) := CasedChar(a, f);
    CasedOne(a, f);
    CasedOne(b, g);
    CasedSnoc([a], b, f);
    assert [a] + [b] == [a, b] && [c] + [CasedChar(b, g).0] == [c, CasedChar(b, g).0];
  }

  /** An input: behind \u only one character is written. */
  lemma RestIsLost(m: Found)
    requires m.groups != []
    ensures Expand("\\uab", m) == Expansion("A", Done)
    ensures Meant("\\uab", m) == Expansion("Ab", Done)
  {
    hide Cased, Appended, Expand, Meant;
    var f := Switched(NO_TRANSFORM, 'u');
    AroundSwitch("", 'u', "ab", m);
    assert WithSwitch("", 'u', "ab") == "\\uab";
    OneConversion("ab", 'u');
    assert "" + "A" == "A" && ['A'] + "ab"[1..] == "Ab" && "" + "Ab" == "Ab";
  }
}
