/** The order of names that does not look at the case of ASCII letters (g_ascii_strcasecmp, as used in
    lib/keybind.c). */
module CaseOrder {
  function Lower(c: char): char {
    if 'A' <= c <= 'Z' then c - 'A' + 'a' else c
  }

  function Fold(s: string): (r: string)
    ensures |r| == |s| && forall i :: 0 <= i < |s| ==> r[i] == Lower(s[i])
  {
    if s == "" then "" else [Lower(s[0])] + Fold(s[1..])
  }

  /** Folded texts as in a dictionary. */
  predicate Upto(a: string, b: string) {
    a == "" || (b != "" && (a[0] < b[0] || (a[0] == b[0] && Upto(a[1..], b[1..]))))
  }

  /** Negative, zero or positive. */
  function StrCaseCmp(a: string, b: string): int {
    if Fold(a) == Fold(b) then 0 else if Upto(Fold(a), Fold(b)) then -1 else 1
  }

  lemma {:induction false} UptoReflexive(a: string)
    ensures Upto(a, a)
  {
    if a == "" {
    } else {
      UptoReflexive(a[1..]);
    }
  }

  lemma {:induction false} UptoTotal(a: string, b: string)
    ensures Upto(a, b) || Upto(b, a)
  {
    if a == "" || b == "" {
    } else {
      UptoTotal(a[1..], b[1..]);
    }
  }

  lemma {:induction false} UptoAntisymmetric(a: string, b: string)
    requires Upto(a, b) && Upto(b, a)
    ensures a == b
  {
    if a == "" || b == "" {
    } else {
      UptoAntisymmetric(a[1..], b[1..]);
      assert a == [a[0]] + a[1..] && b == [b[0]] + b[1..];
    }
  }

  lemma {:induction false} UptoTransitive(a: string, b: string, c: string)
    requires Upto(a, b) && Upto(b, c)
    ensures Upto(a, c)
  {
    if a == "" {
    } else if a[0] == b[0] == c[0] {
      UptoTransitive(a[1..], b[1..], c[1..]);
    }
  }

  /** The same character, or the capital and the small form of one of the 26 letters. */
  predicate SameLetter(c: char, d: char) {
    || c == d
    || (65 <= c as int <= 90 && d as int == c as int + 32)
    || (65 <= d as int <= 90 && c as int == d as int + 32)
  }

  /** The code of a character; a capital counts as its small letter. */
  function Rank(c: char): nat {
    c as int + if 65 <= c as int <= 90 then 32 else 0
  }

  /** Two names are one if and only if they have the same letters, whatever their case. */
  lemma LowerSame(c: char, d: char)
    ensures Lower(c) == Lower(d) <==> SameLetter(c, d)
  {
  }

  lemma SameNameIff(a: string, b: string)
    ensures StrCaseCmp(a, b) == 0 <==> |a| == |b| && forall i :: 0 <= i < |a| ==> SameLetter(a[i], b[i])
  {
    hide Lower, SameLetter, Upto;
    if |a| == |b| {
      forall i | 0 <= i < |a| ensures Fold(a)[i] == Fold(b)[i] <==> SameLetter(a[i], b[i]) {
        LowerSame(a[i], b[i]);
      }
    }
  }

  lemma {:induction false} UptoFirst(a: string, b: string, k: nat)
    requires k <= |a| && k <= |b| && a[..k] == b[..k]
    ensures Upto(a, b) <==> k == |a| || (k < |b| && (a[k] < b[k] || (a[k] == b[k] && Upto(a[k..], b[k..]))))
  {
    if k == 0 {
      assert a[0..] == a && b[0..] == b;
    } else {
      assert a[0] == a[..k][0] && b[0] == b[..k][0];
      assert a[1..][..k - 1] == a[..k][1..] && b[1..][..k - 1] == b[..k][1..];
      UptoFirst(a[1..], b[1..], k - 1);
      assert k < |a| && k < |b| ==> a[1..][k - 1..] == a[k..] && b[1..][k - 1..] == b[k..];
    }
  }

  /** Which of two names comes first: the one that ends where the other goes on, or the one with the lower
      character where they differ. */
  lemma FirstDifference(a: string, b: string, k: nat)
    requires k <= |a| && k <= |b| && forall i :: 0 <= i < k ==> SameLetter(a[i], b[i])
    requires k < |a| && k < |b| ==> !SameLetter(a[k], b[k])
    requires k < |a| || k < |b|
    ensures StrCaseCmp(a, b) < 0 <==> k == |a| || (k < |b| && Rank(a[k]) < Rank(b[k]))
    ensures StrCaseCmp(a, b) > 0 <==> k == |b| || (k < |a| && Rank(a[k]) > Rank(b[k]))
  {
    SameNameIff(a, b);
    var x, y := Fold(a), Fold(b);
    assert forall i :: 0 <= i < k ==> x[i] == y[i];
    assert x[..k] == y[..k];
    UptoFirst(x, y, k);
  }
}
