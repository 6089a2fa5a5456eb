/** Paths in which nothing calls for a virtual file system: no "://" can be seen in them, and no
    component names an encoding. */
module PlainPath {
  import opened PathAlgebra

  /** A component starts at position i with "#enc:", the prefix of an encoding. */
  ghost predicate EncodingAt(t: string, i: int) {
    && 0 <= i && i + 4 < |t| && (i == 0 || t[i - 1] == SEP)
    && t[i] == '#' && t[i + 1] == 'e' && t[i + 2] == 'n' && t[i + 3] == 'c' && t[i + 4] == ':'
  }

  ghost predicate ColonSepAt(t: string, i: int) {
    0 <= i && i + 1 < |t| && t[i] == ':' && t[i + 1] == SEP
  }

  /** No colon stands before a separator, and no component starts with the prefix of an encoding. */
  ghost predicate Plain(t: string) {
    forall i :: !ColonSepAt(t, i) && !EncodingAt(t, i)
  }

  lemma ShortIsPlain(t: string)
    requires |t| <= 1
    ensures Plain(t)
  {
  }

  lemma NoColonBefore(t: string, p: nat)
    requires Plain(t) && 0 < p <= |t|
    ensures p < |t| && t[p] == SEP ==> t[p - 1] != ':'
  {
    assert !ColonSepAt(t, p - 1);
  }

  lemma EncodingOfPart(t: string, lo: nat, hi: nat, i: int)
    requires lo <= hi <= |t| && (lo == 0 || lo == |t| || t[lo - 1] == SEP || t[lo] == SEP)
    ensures EncodingAt(t[lo..hi], i) ==> EncodingAt(t, lo + i)
  {
    var r := t[lo..hi];
    assert EncodingAt(r, i) ==> r[i] == t[lo + i] == '#' && (i > 0 ==> r[i - 1] == t[lo + i - 1]);
  }

  /** A part that starts behind a separator, or with one. */
  lemma PlainPart(t: string, lo: nat, hi: nat)
    requires Plain(t) && lo <= hi <= |t| && (lo == 0 || lo == |t| || t[lo - 1] == SEP || t[lo] == SEP)
    ensures Plain(t[lo..hi])
  {
    hide EncodingAt;
    forall i
      ensures !ColonSepAt(t[lo..hi], i) && !EncodingAt(t[lo..hi], i)
    {
      EncodingOfPart(t, lo, hi, i);
      assert !ColonSepAt(t, lo + i) && !EncodingAt(t, lo + i);
    }
  }

  lemma PlainPrefix(t: string, k: nat)
    requires k <= |t| && Plain(t)
    ensures Plain(t[..k])
  {
    hide Plain;
    PlainPart(t, 0, k);
    assert t[0..k] == t[..k];
  }

  lemma PlainSuffix(t: string, k: nat)
    requires k <= |t| && Plain(t) && (k == 0 || k == |t| || t[k - 1] == SEP || t[k] == SEP)
    ensures Plain(t[k..])
  {
    hide Plain;
    PlainPart(t, k, |t|);
    assert t[k..|t|] == t[k..];
  }

  /** The prefix of an encoding has no separator in it. */
  lemma EncodingOfEither(a: string, b: string, i: int)
    requires a == "" || a[|a| - 1] == SEP
    ensures EncodingAt(a + b, i) ==> EncodingAt(a, i) || EncodingAt(b, i - |a|)
  {
    var t, n := a + b, |a|;
    assert n > 0 ==> t[n - 1] == SEP;
    assert EncodingAt(t, i) && i < n ==> i + 4 < n - 1;
    assert i > n && i < |t| ==> t[i - 1] == b[i - n - 1];
  }

  /** Plain texts put together at a separator. */
  lemma PlainConcat(a: string, b: string)
    requires Plain(a) && Plain(b) && (a == "" || a[|a| - 1] == SEP)
    ensures Plain(a + b)
  {
    hide EncodingAt;
    forall i
      ensures !ColonSepAt(a + b, i) && !EncodingAt(a + b, i)
    {
      EncodingOfEither(a, b, i);
      assert !ColonSepAt(a, i) && !EncodingAt(a, i);
      assert !ColonSepAt(b, i - |a|) && !EncodingAt(b, i - |a|);
    }
  }

  /** A separator may follow a text that does not end with a colon, and then anything plain. */
  lemma PlainBeforeSep(a: string, b: string)
    requires Plain(a) && Plain(b) && (b != "" ==> b[0] == SEP) && (a != "" ==> a[|a| - 1] != ':')
    ensures Plain(a + b)
  {
    var t, n := a + b, |a|;
    forall i
      ensures !ColonSepAt(t, i) && !EncodingAt(t, i)
    {
      assert !ColonSepAt(a, i) && !EncodingAt(a, i);
      assert !ColonSepAt(b, i - n) && !EncodingAt(b, i - n);
      assert n < |t| ==> t[n] == SEP;
      assert i > n && i < |t| ==> t[i - 1] == b[i - n - 1];
    }
  }

  /** What stands between two separators, or before the second, is cut out. */
  lemma PlainCut(t: string, from: nat, to: nat)
    requires from <= to <= |t| && Plain(t) && (from == 0 || t[from - 1] == SEP)
    requires to == 0 || to == |t| || t[to - 1] == SEP || t[to] == SEP
    ensures Plain(t[..from] + t[to..])
  {
    hide Plain;
    PlainPrefix(t, from);
    PlainSuffix(t, to);
    PlainConcat(t[..from], t[to..]);
  }
}
