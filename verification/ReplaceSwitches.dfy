/** What the case switches of a replacement mean, letter by letter (the manual's \u, \l, \U, \L and \E, read in
    lib/search/regex.c). */
module ReplaceSwitches {
  import opened RegexReplace
  import opened ReplaceMeaning
  import opened Sequences
  import opened Wrappers

  datatype Case = Keep | Up | Down

  /** One of the 26 letters in the other case; anything else as it is. */
  function Apply(k: Case, c: char): char {
    match k
    case Keep => c
    case Up => if 97 <= c as int <= 122 then (c as int - 32) as char else c
    case Down => if 65 <= c as int <= 90 then (c as int + 32) as char else c
  }

  /** What becomes of the i-th character behind two switches, c and then d, between which there may be text: \E ends
      everything; \u and \l are for one character, in this order, and go before \U and \L, of which the later
      one counts. */
  function CaseBehind(c: char, d: char, between: bool, i: nat): Case {
    if d == 'E' then Keep
    else if i == 0 && (d == 'u' || (!between && c == 'u')) then Up
    else if i == 0 && (d == 'l' || (!between && c == 'l')) then Down
    else if i == 1 && !between && ((c == 'u' && d == 'l') || (c == 'l' && d == 'u')) then Down
    else if d == 'U' || (c == 'U' && d != 'L') then Up
    else if d == 'L' || c == 'L' then Down
    else Keep
  }

  function CasedBehind(c: char, d: char, between: bool, s: string): (r: string)
    ensures |r| == |s| && forall i :: 0 <= i < |s| ==> r[i] == Apply(CaseBehind(c, d, between, i), s[i])
  {
    seq(|s|, i requires 0 <= i < |s| => Apply(CaseBehind(c, d, between, i), s[i]))
  }

  /** What conversions in force do to the i-th character. */
  function CaseAt(f: Flags, i: nat): Case {
    if i == 0 && f.nextUpper then Up
    else if f.nextLower && i == (if f.nextUpper then 1 else 0) then Down
    else if f.upper then Up
    else if f.lower then Down
    else Keep
  }

  lemma OneCase(c: char, f: Flags)
    ensures CasedChar(c, f).0 == Apply(CaseAt(f, 0), c)
  {
  }

  lemma CaseAfter(c: char, f: Flags, i: nat)
    ensures CaseAt(CasedChar(c, f).1, i) == CaseAt(f, i + 1)
  {
  }

  lemma {:induction false} CasedAt(s: string, f: Flags)
    ensures |Cased(s, f).0| == |s| && forall i :: 0 <= i < |s| ==> Cased(s, f).0[i] == Apply(CaseAt(f, i), s[i])
  {
    hide CaseAt, CasedChar, Apply;
    if s != "" {
      var g := CasedChar(s[0], f).1;
      CasedAt(s[1..], g);
      OneCase(s[0], f);
      forall i | 0 < i < |s| ensures Cased(s, f).0[i] == Apply(CaseAt(f, i), s[i]) {
        CaseAfter(s[0], f, i - 1);
        assert s[1..][i - 1] == s[i];
      }
    }
  }

  /** The conversions in force behind c, a text, and d. */
  lemma TwoSwitched(c: char, y: string, d: char, i: nat)
    requires CaseSwitch(c) && CaseSwitch(d)
    ensures CaseAt(Switched(NO_TRANSFORM, c), i) == CaseBehind('E', c, false, i)
    ensures CaseAt(Switched(Cased(y, Switched(NO_TRANSFORM, c)).1, d), i) == CaseBehind(c, d, y != "", i)
  {
    CasedUses(y, Switched(NO_TRANSFORM, c));
    if y != "" { UsedOnes(c, |y|); }
  }

  lemma UsedOnes(c: char, n: nat)
    requires CaseSwitch(c) && n > 0
    ensures Used(Switched(NO_TRANSFORM, c), n)
         == if c == 'u' || c == 'l' then NO_TRANSFORM else Switched(NO_TRANSFORM, c)
  {
    var f := Switched(NO_TRANSFORM, c);
    if c == 'u' {
      assert Used(f, n) == Used(NO_TRANSFORM, n - 1);
    } else if c == 'l' {
      assert Used(f, n) == Used(NO_TRANSFORM, n - 1);
    }
  }

  lemma MeaningSwitch(d: char, ps: seq<Piece>, f: Flags, m: Found)
    requires NamesBelow(ps, |m.groups|)
    ensures NamesBelow([Switch(d)] + ps, |m.groups|)
    ensures Meaning([Switch(d)] + ps, f, m) == Meaning(ps, Switched(f, d), m)
  {
    var all := [Switch(d)] + ps;
    assert all[1..] == ps && all[0] == Switch(d);
    NothingCased("", Switched(f, d));
    assert Prepend("", Meaning(ps, Switched(f, d), m)) == Meaning(ps, Switched(f, d), m);
  }

  lemma SwitchFirstPiece(c: char, t: string)
    requires CaseSwitch(c)
    ensures Pieces(['\\', c] + t, false) == [Switch(c)] + Pieces(t, false)
    ensures MaxName(['\\', c] + t, false) == MaxName(t, false)
  {
    hide MaxName;
    var u := ['\\', c] + t;
    assert u[2..] == t;
    FirstPiece(u, Switch(c), 2);
    TwoAfter(u, c);
    assert u[1..] == [c] + t && u[1..][1..] == t;
    MaxNameStep(u, false);
    MaxNameStep(u[1..], true);
    MaxNameStep(t, false);
  }

  function TwoSwitches(x: string, c: char, y: string, d: char, z: string): string {
    x + (['\\', c] + (y + (['\\', d] + z)))
  }

  lemma PiecesOfSwitches(x: string, c: char, y: string, d: char, z: string)
    requires PlainText(x) && PlainText(y) && PlainText(z) && CaseSwitch(c) && CaseSwitch(d)
    ensures Pieces(TwoSwitches(x, c, y, d, z), false)
         == Ordinaries(x) + ([Switch(c)] + (Ordinaries(y) + ([Switch(d)] + Ordinaries(z))))
    ensures MaxName(TwoSwitches(x, c, y, d, z), false) == 0
  {
    hide Ordinaries, MaxName, Pieces;
    var u := ['\\', d] + z;
    var v := ['\\', c] + (y + u);
    PiecesOfPlain(x, v);
    SwitchFirstPiece(c, y + u);
    PiecesOfPlain(y, u);
    SwitchFirstPiece(d, z);
    PiecesOfPlain(z, "");
    NoPieces();
    assert z + "" == z && Ordinaries(z) + [] == Ordinaries(z);
    PlainNamesNothing(x, v);
    PlainNamesNothing(y, u);
    PlainNamesNothing(z, "");
  }

  lemma NoPieces()
    ensures Pieces("", false) == [] && MaxName("", false) == 0
  {
  }

  /** The meaning of two switches with texts around them, character by character. */
  lemma SwitchesMean(x: string, c: char, y: string, d: char, z: string, m: Found)
    requires PlainText(x) && PlainText(y) && PlainText(z) && CaseSwitch(c) && CaseSwitch(d) && m.groups != []
    ensures Meant(TwoSwitches(x, c, y, d, z), m)
         == Expansion(x + (CasedBehind('E', c, false, y) + CasedBehind(c, d, y != "", z)), Done)
  {
    hide Cased, Switched, Meaning, Pieces, MaxName, Ordinaries, CaseAt, CaseBehind, Apply;
    PiecesOfSwitches(x, c, y, d, z);
    var f := Switched(NO_TRANSFORM, c);
    var (ys, g) := Cased(y, f);
    var h := Switched(g, d);
    var zs := Cased(z, h).0;
    MeaningPlain(z, [], h, m);
    assert Ordinaries(z) + [] == Ordinaries(z);
    NothingExpanded("", Cased(z, h).1, m);
    assert zs + "" == zs;
    MeaningSwitch(d, Ordinaries(z), g, m);
    MeaningPlain(y, [Switch(d)] + Ordinaries(z), f, m);
    MeaningSwitch(c, Ordinaries(y) + ([Switch(d)] + Ordinaries(z)), NO_TRANSFORM, m);
    MeaningPlain(x, [Switch(c)] + (Ordinaries(y) + ([Switch(d)] + Ordinaries(z))), NO_TRANSFORM, m);
    CasedAsWritten(x);
    CasedAt(y, f);
    CasedAt(z, h);
    forall i: nat ensures CaseAt(f, i) == CaseBehind('E', c, false, i) && CaseAt(h, i) == CaseBehind(c, d, y != "", i) {
      TwoSwitched(c, y, d, i);
    }
    assert ys == CasedBehind('E', c, false, y) && zs == CasedBehind(c, d, y != "", z);
  }
}
