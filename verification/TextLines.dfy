/** A text file as fgets reads it, with the buffer that the position file is read with (lib/sub-util.c). */
module TextLines {
  import opened Sequences

  /** sizeof (buf): MC_MAXPATHLEN + 100. */
  const BUF_SIZE := 4196

  /** How much one fgets takes of the rest of a file: up to a newline, but no more than fits. */
  function Fgets(s: string): (k: nat)
    requires s != ""
    ensures 1 <= k <= |s| && k < BUF_SIZE
  {
    var n := IndexOf(s, '\n');
    var line := if n < |s| then n + 1 else |s|;
    if line < BUF_SIZE then line else BUF_SIZE - 1
  }

  /** What a loop of fgets gets to see. */
  function Chunks(s: string): seq<string>
    decreases |s|
  {
    if s == "" then [] else [s[..Fgets(s)]] + Chunks(s[Fgets(s)..])
  }

  function Concat(cs: seq<string>): string {
    if cs == [] then "" else cs[0] + Concat(cs[1..])
  }

  /** Something that one fgets can return. */
  ghost predicate IsChunk(c: string) {
    0 < |c| < BUF_SIZE && forall i :: 0 <= i < |c| - 1 ==> c[i] != '\n'
  }

  /** Something that fgets returns whatever follows in the file. */
  ghost predicate Closed(c: string) {
    IsChunk(c) && (c[|c| - 1] == '\n' || |c| == BUF_SIZE - 1)
  }

  /** Every chunk but the last is closed. */
  ghost predicate WellCut(cs: seq<string>) {
    cs == [] || (IsChunk(cs[0]) && (|cs| > 1 ==> Closed(cs[0])) && WellCut(cs[1..]))
  }

  lemma FgetsOfChunk(c: string, rest: string)
    requires IsChunk(c) && (rest != "" ==> Closed(c))
    ensures Fgets(c + rest) == |c| && (c + rest)[..|c|] == c && (c + rest)[|c|..] == rest
  {
    hide IndexOf;
    var s := c + rest;
    var n := IndexOf(s, '\n');
    assert forall i :: 0 <= i < |c| ==> s[i] == c[i];
    assert n >= |c| - 1;
    if rest == "" {
      assert n < |s| ==> n == |c| - 1;
    } else {
      assert c[|c| - 1] == '\n' ==> n == |c| - 1;
    }
  }

  /** Writing chunks one behind the other and reading the file again gives the same chunks. */
  lemma {:induction false} ChunksOfConcat(cs: seq<string>)
    requires WellCut(cs)
    ensures Chunks(Concat(cs)) == cs
  {
    hide Fgets, IsChunk, Closed;
    if cs == [] {
    } else {
      assert cs[0] != "" by { ChunkNotEmpty(cs[0]); }
      if |cs| == 1 {
        assert Concat(cs[1..]) == "";
      }
      FgetsOfChunk(cs[0], Concat(cs[1..]));
      ChunksOfConcat(cs[1..]);
    }
  }

  lemma ChunkNotEmpty(c: string)
    requires IsChunk(c)
    ensures c != ""
  {
  }

  lemma FgetsIsChunk(s: string)
    requires s != ""
    ensures IsChunk(s[..Fgets(s)])
    ensures Fgets(s) < |s| ==> Closed(s[..Fgets(s)])
  {
    hide IndexOf;
  }

  lemma {:induction false} ChunksWellCut(s: string)
    ensures WellCut(Chunks(s))
    decreases |s|
  {
    hide Fgets, IsChunk, Closed;
    if s == "" {
    } else {
      FgetsIsChunk(s);
      ChunksWellCut(s[Fgets(s)..]);
      assert Chunks(s)[1..] == Chunks(s[Fgets(s)..]);
      if |Chunks(s)| > 1 { assert s[Fgets(s)..] != ""; }
    }
  }

  lemma WellCutCons(c: string, cs: seq<string>)
    requires WellCut(cs) && IsChunk(c) && (cs != [] ==> Closed(c))
    ensures WellCut([c] + cs)
  {
    assert ([c] + cs)[1..] == cs;
  }

  lemma {:induction false} WellCutPrefix(cs: seq<string>, n: nat)
    requires WellCut(cs) && n <= |cs|
    ensures WellCut(cs[..n])
  {
    hide IsChunk, Closed;
    if n == 0 {
    } else {
      WellCutPrefix(cs[1..], n - 1);
      assert cs[..n][1..] == cs[1..][..n - 1];
    }
  }

  ghost predicate EndsLine(a: string) {
    a == "" || a[|a| - 1] == '\n'
  }

  /** Behind a newline reading starts afresh. */
  lemma {:induction false} ChunksAppend(a: string, b: string)
    requires EndsLine(a)
    ensures Chunks(a + b) == Chunks(a) + Chunks(b)
    decreases |a|
  {
    hide Fgets, IsChunk, Closed;
    if a == "" {
      assert a + b == b;
    } else {
      var k := Fgets(a);
      FirstChunk(a, b);
      assert (a + b)[..k] == a[..k] && (a + b)[k..] == a[k..] + b;
      assert a[k..] != "" ==> a[k..][|a[k..]| - 1] == a[|a| - 1];
      ChunksAppend(a[k..], b);
      Assoc([a[..k]], Chunks(a[k..]), Chunks(b));
    }
  }

  lemma FirstChunk(a: string, b: string)
    requires a != "" && EndsLine(a)
    ensures Fgets(a + b) == Fgets(a)
  {
    hide IndexOf;
    var n, m := IndexOf(a, '\n'), IndexOf(a + b, '\n');
    assert a[|a| - 1] == '\n' && n < |a|;
    assert (a + b)[n] == '\n' && forall i :: 0 <= i < |a| ==> (a + b)[i] == a[i];
    assert m == n;
  }

  /** A text is one chunk and closed by its newline. */
  lemma OneLine(a: string)
    requires a != "" && a[|a| - 1] == '\n'
    ensures Chunks(a) == [a] <==> |a| < BUF_SIZE && forall i :: 0 <= i < |a| - 1 ==> a[i] != '\n'
  {
    hide IndexOf;
    var k := Fgets(a);
    var n := IndexOf(a, '\n');
    if |a| < BUF_SIZE && forall i :: 0 <= i < |a| - 1 ==> a[i] != '\n' {
      assert n == |a| - 1;
      assert a[..k] == a && a[k..] == "";
    } else {
      assert k < |a|;
      assert Chunks(a)[0] == a[..k];
    }
  }
}
