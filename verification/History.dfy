/** Input histories in a configuration (lib/mcconfig/mcconf-history.c), and the list that keeps each
    text once (lib/sub-util.c, list_append_unique). */
module History {
  import opened Numbers
  import opened Sequences
  import opened Serialize
  import opened Wrappers

  // ----- a list without repetitions -----

  function Remove(s: seq<string>, x: string): (r: seq<string>)
    ensures x !in r && |r| <= |s|
  {
    if s == [] then [] else (if s[0] == x then [] else [s[0]]) + Remove(s[1..], x)
  }

  lemma {:induction false} RemoveConcat(a: seq<string>, b: seq<string>, x: string)
    ensures Remove(a + b, x) == Remove(a, x) + Remove(b, x)
  {
    if a == [] {
      assert a + b == b;
    } else {
      assert (a + b)[1..] == a[1..] + b;
      RemoveConcat(a[1..], b, x);
      Assoc(if a[0] == x then [] else [a[0]], Remove(a[1..], x), Remove(b, x));
    }
  }

  lemma RemoveLast(s: seq<string>, i: nat, x: string)
    requires i < |s|
    ensures Remove(s[i..], x) == (if s[i] == x then [] else [s[i]]) + Remove(s[i + 1..], x)
  {
    assert s[i..][1..] == s[i + 1..];
  }

  /** Appends the text, then goes back from the last entry but one and takes out what equals it. */
  method ListAppendUnique(list: seq<string>, text: string) returns (r: seq<string>)
    ensures r == Remove(list, text) + [text]
  {
    r := list + [text];
    var i := |list|;
    assert r == list[..i] + (Remove(list[i..], text) + [text]);
    while i > 0
      invariant 0 <= i <= |list|
      invariant r == list[..i] + (Remove(list[i..], text) + [text])
    {
      i := i - 1;
      ghost var tail := Remove(list[i + 1..], text) + [text];
      RemoveLast(list, i, text);
      assert list[..i + 1] == list[..i] + [list[i]];
      assert r[i] == list[i] && r[..i] == list[..i] && r[i + 1..] == tail;
      if r[i] == text {
        r := r[..i] + r[i + 1..];
        assert [] + tail == tail;
      } else {
        assert r == list[..i] + ([list[i]] + tail);
        assert [list[i]] + tail == ([list[i]] + Remove(list[i + 1..], text)) + [text];
      }
    }
    assert list[..0] == [] && list[0..] == list;
  }

  /** Each text where it occurs last. */
  function KeepLast(s: seq<string>): seq<string> {
    if s == [] then []
    else if s[0] in s[1..] then KeepLast(s[1..])
    else [s[0]] + KeepLast(s[1..])
  }

  /** The index of the last occurrence. */
  function LastIndex(s: seq<string>, x: string): (i: nat)
    requires x in s
    ensures i < |s| && s[i] == x && forall j :: i < j < |s| ==> s[j] != x
  {
    if s[|s| - 1] == x then |s| - 1
    else
      assert s == s[..|s| - 1] + [s[|s| - 1]];
      LastIndex(s[..|s| - 1], x)
  }

  lemma LastIndexIs(s: seq<string>, x: string, i: nat)
    requires i < |s| && s[i] == x && forall j :: i < j < |s| ==> s[j] != x
    ensures LastIndex(s, x) == i
  {
    hide LastIndex;
  }

  lemma {:induction false} KeepLastMembers(s: seq<string>)
    ensures forall x :: x in KeepLast(s) <==> x in s
  {
    if s == [] {
    } else {
      KeepLastMembers(s[1..]);
      assert s == [s[0]] + s[1..];
    }
  }

  lemma LastIndexShifts(s: seq<string>, x: string)
    requires s != [] && x in s[1..]
    ensures x in s && LastIndex(s, x) == LastIndex(s[1..], x) + 1
  {
    hide LastIndex;
    var t := s[1..];
    assert s == [s[0]] + t;
    assert s[LastIndex(t, x) + 1] == x;
    assert forall j :: LastIndex(t, x) + 1 < j < |s| ==> s[j] == t[j - 1];
    LastIndexIs(s, x, LastIndex(t, x) + 1);
  }

  /** r holds texts of s, each once, in the order of their last occurrences in s. */
  ghost predicate InOrder(s: seq<string>, r: seq<string>) {
    && (forall i :: 0 <= i < |r| ==> r[i] in s)
    && forall i, j :: 0 <= i < j < |r| ==> LastIndex(s, r[i]) < LastIndex(s, r[j])
  }

  lemma InOrderShifts(s: seq<string>, r: seq<string>)
    requires s != [] && InOrder(s[1..], r)
    ensures InOrder(s, r)
    ensures forall i :: 0 <= i < |r| ==> LastIndex(s, r[i]) >= 1
  {
    hide LastIndex;
    forall i | 0 <= i < |r|
      ensures r[i] in s && LastIndex(s, r[i]) == LastIndex(s[1..], r[i]) + 1
    {
      LastIndexShifts(s, r[i]);
    }
  }

  /** Nothing is repeated or lost, and what is kept stands in the order of the last occurrences. */
  lemma {:induction false} KeepLastInOrder(s: seq<string>)
    ensures InOrder(s, KeepLast(s))
    ensures forall x :: x in KeepLast(s) <==> x in s
  {
    hide LastIndex, InOrder;
    KeepLastMembers(s);
    if s == [] {
      NothingInOrder(s);
    } else {
      KeepLastInOrder(s[1..]);
      InOrderShifts(s, KeepLast(s[1..]));
      if s[0] !in s[1..] { InOrderWithFirst(s, KeepLast(s[1..])); }
    }
  }

  lemma NothingInOrder(s: seq<string>)
    ensures InOrder(s, [])
  {
  }

  lemma InOrderWithFirst(s: seq<string>, r: seq<string>)
    requires s != [] && s[0] !in s[1..] && InOrder(s, r)
    requires forall i :: 0 <= i < |r| ==> LastIndex(s, r[i]) >= 1
    ensures InOrder(s, [s[0]] + r)
  {
    hide LastIndex;
    LastIndexIs(s, s[0], 0);
  }

  lemma KeepFirst(s: seq<string>)
    requires s != []
    ensures KeepLast(s) == (if s[0] in s[1..] then [] else [s[0]]) + KeepLast(s[1..])
  {
    assert [] + KeepLast(s[1..]) == KeepLast(s[1..]);
  }

  lemma {:induction false} KeepLastSnoc(s: seq<string>, x: string)
    ensures KeepLast(s + [x]) == Remove(KeepLast(s), x) + [x]
  {
    if s == [] {
      assert s + [x] == [x] && [x][1..] == [];
    } else {
      hide KeepLast, Remove;
      var t := s[1..];
      assert (s + [x])[1..] == t + [x] && (s + [x])[0] == s[0];
      KeepFirst(s);
      KeepFirst(s + [x]);
      KeepLastSnoc(t, x);
      assert s[0] in t + [x] <==> s[0] in t || s[0] == x;
      if s[0] in t {
        assert [] + KeepLast(t) == KeepLast(t) && [] + KeepLast(t + [x]) == KeepLast(t + [x]);
      } else {
        RemoveConcat([s[0]], KeepLast(t), x);
        RemoveOne(s[0], x);
        Assoc(Remove([s[0]], x), Remove(KeepLast(t), x), [x]);
      }
    }
  }

  lemma RemoveOne(y: string, x: string)
    ensures Remove([y], x) == if y == x then [] else [y]
  {
    assert [y][1..] == [];
  }

  /** A list without repetitions is kept as it is. */
  lemma {:induction false} KeepLastTwice(s: seq<string>)
    ensures KeepLast(KeepLast(s)) == KeepLast(s)
  {
    if s == [] {
    } else {
      KeepLastTwice(s[1..]);
      KeepLastMembers(s[1..]);
      if s[0] !in s[1..] {
        assert KeepLast(s)[1..] == KeepLast(s[1..]);
      }
    }
  }

  // ----- a history in a configuration -----

  function GetString(c: Config, name: string, key: string): Option<string> {
    var i := FindGroup(c, name);
    if i == |c| then None
    else
      var j := FindParam(c[i].params, key);
      if j == |c[i].params| then None else Some(c[i].params[j].value)
  }

  function KeyCount(c: Config, name: string): nat {
    var i := FindGroup(c, name);
    if i == |c| then 0 else |c[i].params|
  }

  /** The texts under the keys "0", "1" and so on. */
  function Numbered(texts: seq<string>): (ps: seq<Param>)
    ensures |ps| == |texts| && forall i :: 0 <= i < |texts| ==> ps[i] == Param(Decimal(i), texts[i])
  {
    if texts == [] then []
    else
      var n := |texts| - 1;
      Numbered(texts[..n]) + [Param(Decimal(n), texts[n])]
  }

  /** The entries of a list that are not NULL. */
  function Texts(h: seq<Option<string>>): (r: seq<string>)
    ensures |r| <= |h|
  {
    if h == [] then []
    else
      var n := |h| - 1;
      Texts(h[..n]) + (if h[n].Some? then [h[n].value] else [])
  }

  /** The last entries of the list, as many as are recorded but one at least. */
  function Window(h: seq<Option<string>>, recorded: int): seq<Option<string>> {
    var n := if recorded < 1 then 1 else recorded;
    if n >= |h| then h else h[|h| - n..]
  }

  function Stored(c: Config, name: string, texts: seq<string>): Config {
    Partial(WithoutGroup(c, name), name, Numbered(texts))
  }

  lemma StoreNext(d: Config, name: string, texts: seq<string>, x: string)
    requires forall i :: 0 <= i < |d| ==> d[i].name != name
    ensures SetString(Partial(d, name, Numbered(texts)), name, Decimal(|texts|), x)
              == Partial(d, name, Numbered(texts + [x]))
  {
    hide SetString, Decimal, Partial;
    forall j | 0 <= j < |texts|
      ensures Numbered(texts)[j].key != Decimal(|texts|)
    {
      if Numbered(texts)[j].key == Decimal(|texts|) { DecimalIsInjective(j, |texts|); }
    }
    SetNext(d, name, Numbered(texts), Param(Decimal(|texts|), x));
    assert (texts + [x])[..|texts|] == texts;
  }

  method McConfigHistorySave(cfg: McConfig, name: string, h: seq<Option<string>>, recorded: int)
    modifies cfg
    ensures cfg.groups == if name == "" || h == [] then old(cfg.groups)
                          else Stored(old(cfg.groups), name, Texts(Window(h, recorded)))
  {
    hide SetString, Decimal, Partial, Numbered, Texts, WithoutGroup;
    if name == "" || h == [] { return; }
    var at := |h| - 1;
    var i := 0;
    while i < recorded - 1 && at > 0
      invariant 0 <= i && at == |h| - 1 - i >= 0 && (i == 0 || i <= recorded - 1)
    {
      at := at - 1;
      i := i + 1;
    }
    assert h[at..] == Window(h, recorded);
    cfg.DeleteGroup(name);
    ghost var d := cfg.groups;
    NothingStored(d, name);
    assert h[at..at] == [];
    i := 0;
    var k := at;
    while k < |h|
      invariant at <= k <= |h| && i == |Texts(h[at..k])|
      invariant cfg.groups == Partial(d, name, Numbered(Texts(h[at..k])))
    {
      TextsNext(h, at, k);
      if h[k].Some? {
        StoreNext(d, name, Texts(h[at..k]), h[k].value);
        cfg.Set(name, Decimal(i), h[k].value);
        i := i + 1;
      }
      k := k + 1;
    }
    assert h[at..|h|] == h[at..];
  }

  lemma TextsNext(h: seq<Option<string>>, at: nat, k: nat)
    requires at <= k < |h|
    ensures Texts(h[at..k + 1]) == if h[k].Some? then Texts(h[at..k]) + [h[k].value] else Texts(h[at..k])
  {
    assert h[at..k + 1][..k - at] == h[at..k];
  }

  lemma NothingStored(d: Config, name: string)
    ensures Partial(d, name, Numbered([])) == d && Texts([]) == []
  {
  }

  /** Reading on from key i of n: a missing key is set to the empty text. */
  function LoadKeys(c: Config, name: string, i: nat, n: nat, hist: seq<string>): (Config, seq<string>)
    decreases n - i
  {
    if i >= n then (c, hist)
    else match GetString(c, name, Decimal(i))
      case None => LoadKeys(SetString(c, name, Decimal(i), ""), name, i + 1, n, Remove(hist, "") + [""])
      case Some(text) => LoadKeys(c, name, i + 1, n, Remove(hist, text) + [text])
  }

  method McConfigHistoryLoad(cfg: McConfig, name: string) returns (hist: seq<string>)
    modifies cfg
    ensures (cfg.groups, hist) == if name == "" then (old(cfg.groups), [])
                                  else LoadKeys(old(cfg.groups), name, 0, KeyCount(old(cfg.groups), name), [])
  {
    hide SetString, GetString, Decimal, Remove, KeyCount;
    hist := [];
    if name == "" { return; }
    var n := KeyCount(cfg.groups, name);
    for i := 0 to n
      invariant LoadKeys(cfg.groups, name, i, n, hist) == LoadKeys(old(cfg.groups), name, 0, n, [])
    {
      var entry := GetString(cfg.groups, name, Decimal(i));
      if entry == None {
        cfg.Set(name, Decimal(i), "");
        entry := Some("");
      }
      hist := ListAppendUnique(hist, entry.value);
    }
  }

  /** The entries that are saved are the last ones: all of them, or as many as are recorded, or just one. */
  lemma WindowIs(h: seq<Option<string>>, recorded: int)
    ensures var w := Window(h, recorded);
            && |w| <= |h| && w == h[|h| - |w|..]
            && (recorded >= |h| ==> w == h) && (1 <= recorded <= |h| ==> |w| == recorded)
            && (recorded <= 0 && h != [] ==> |w| == 1)
  {
  }

  // ----- any group loaded -----

  lemma SetThenGet(c: Config, name: string, key: string, value: string, other: string, key': string)
    ensures GetString(SetString(c, name, key, value), other, key')
         == if other == name && key' == key then Some(value) else GetString(c, other, key')
  {
    hide FindGroup, FindParam;
    var i, d := FindGroup(c, name), SetString(c, name, key, value);
    var n, m := FindGroup(c, other), FindGroup(d, other);
    if i < |c| {
      assert forall k :: 0 <= k < |c| ==> d[k].name == c[k].name;
      assert n == m;
      if other == name { SetThenFind(c[i].params, key, value, key'); }
    } else if other == name {
      assert d[|c|].name == name && m == |c|;
      SetThenFind([], key, value, key');
    } else {
      FindSnoc(c, Group(name, [Param(key, value)]), other);
    }
  }

  lemma SetThenFind(ps: seq<Param>, key: string, value: string, key': string)
    ensures var qs := SetParam(ps, key, value);
            var i, j := FindParam(ps, key'), FindParam(qs, key');
            if key' == key then j < |qs| && qs[j].value == value
            else (i < |ps| <==> j < |qs|) && (i < |ps| ==> qs[j].value == ps[i].value)
  {
    hide FindParam;
    var k, qs := FindParam(ps, key), SetParam(ps, key, value);
    var i, j := FindParam(ps, key'), FindParam(qs, key');
    assert if k < |ps| then qs[k].key == key else qs[|ps|].key == key;
    if i < |ps| { assert qs[i].key == if i == k then key else key'; }
    if j < |ps| { assert qs[j].key == ps[j].key; }
  }

  /** What stands under the keys 0, 1 and so on; an empty text where there is no such key. */
  ghost function Entries(c: Config, name: string, n: nat): (texts: seq<string>)
    ensures |texts| == n
    ensures forall i :: 0 <= i < n ==>
              texts[i] == match GetString(c, name, Decimal(i)) case Some(text) => text case None => ""
  {
    seq(n, i requires 0 <= i < n => match GetString(c, name, Decimal(i)) case Some(text) => text case None => "")
  }

  /** Some number from i on, below n, is the key. */
  ghost predicate KeyFrom(key: string, i: nat, n: nat) {
    exists k :: i <= k < n && key == Decimal(k)
  }

  /** The keys from i on that were missing have an empty text; nothing else is different. */
  ghost predicate Fills(c: Config, d: Config, name: string, i: nat, n: nat) {
    forall other, key ::
      GetString(d, other, key) ==
      if other == name && KeyFrom(key, i, n) && GetString(c, name, key) == None then Some("")
      else GetString(c, other, key)
  }

  lemma {:induction false} LoadFrom(c: Config, name: string, i: nat, n: nat, hist: seq<string>, texts: seq<string>)
    requires i <= n == |texts| && hist == KeepLast(texts[..i])
    requires forall k :: i <= k < n ==>
               texts[k] == match GetString(c, name, Decimal(k)) case Some(text) => text case None => ""
    ensures LoadKeys(c, name, i, n, hist).1 == KeepLast(texts)
    ensures Fills(c, LoadKeys(c, name, i, n, hist).0, name, i, n)
    decreases n - i
  {
    hide GetString, SetString, Decimal, Remove, KeepLast;
    if i == n {
      assert texts[..i] == texts;
    } else {
      assert texts[..i + 1] == texts[..i] + [texts[i]];
      KeepLastSnoc(texts[..i], texts[i]);
      var d := LoadStep(c, name, i);
      var more := Remove(hist, texts[i]) + [texts[i]];
      forall k | i + 1 <= k < n
        ensures texts[k] == match GetString(d, name, Decimal(k)) case Some(text) => text case None => ""
      {
        if Decimal(k) == Decimal(i) { DecimalIsInjective(k, i); }
      }
      LoadFrom(d, name, i + 1, n, more, texts);
      forall key ensures KeyFrom(key, i, n) <==> key == Decimal(i) || KeyFrom(key, i + 1, n) {
        if KeyFrom(key, i, n) {
          var k :| i <= k < n && key == Decimal(k);
          if k > i { assert KeyFrom(key, i + 1, n); }
        }
      }
    }
  }

  lemma LoadStep(c: Config, name: string, i: nat) returns (d: Config)
    ensures d == if GetString(c, name, Decimal(i)) == None then SetString(c, name, Decimal(i), "") else c
    ensures forall other, key ::
              GetString(d, other, key) ==
              if other == name && key == Decimal(i) && GetString(c, name, key) == None then Some("")
              else GetString(c, other, key)
  {
    hide GetString, SetString, Decimal;
    d := c;
    if GetString(c, name, Decimal(i)) == None {
      d := SetString(c, name, Decimal(i), "");
      forall other, key
        ensures GetString(d, other, key)
             == if other == name && key == Decimal(i) then Some("") else GetString(c, other, key)
      {
        SetThenGet(c, name, Decimal(i), "", other, key);
      }
    }
  }

  /** Loading any group, whoever wrote it: with n keys in the group, the texts under 0 to n - 1 in this order,
      each where it occurs last; a number that is not a key counts as an empty text and becomes a key with an
      empty text. No other key and no other group changes. */
  lemma LoadsByNumber(c: Config, name: string)
    ensures var n := KeyCount(c, name);
            var (d, hist) := LoadKeys(c, name, 0, n, []);
            && hist == KeepLast(Entries(c, name, n))
            && Fills(c, d, name, 0, n)
  {
    hide KeepLast, GetString, Decimal, LoadKeys;
    var n := KeyCount(c, name);
    EmptyKept();
    assert Entries(c, name, n)[..0] == [];
    LoadFrom(c, name, 0, n, [], Entries(c, name, n));
  }

  // ----- saved and loaded -----

  lemma StoredKey(c: Config, name: string, texts: seq<string>, i: nat)
    requires i < |texts|
    ensures GetString(Stored(c, name, texts), name, Decimal(i)) == Some(texts[i])
    ensures KeyCount(Stored(c, name, texts), name) == |texts|
  {
    hide Decimal, FindGroup, FindParam;
    var d, ps := WithoutGroup(c, name), Numbered(texts);
    var all := d + [Group(name, ps)];
    assert all[|d|].name == name && FindGroup(all, name) == |d|;
    var j := FindParam(ps, Decimal(i));
    assert ps[i].key == Decimal(i);
    DecimalIsInjective(i, j);
  }

  lemma {:induction false} LoadStored(c: Config, name: string, texts: seq<string>, i: nat)
    requires i <= |texts|
    ensures var s := Stored(c, name, texts);
            LoadKeys(s, name, i, |texts|, KeepLast(texts[..i])) == (s, KeepLast(texts))
    decreases |texts| - i
  {
    hide Stored, GetString, SetString, Decimal, Remove, KeepLast;
    if i == |texts| {
      assert texts[..i] == texts;
    } else {
      StoredKey(c, name, texts, i);
      assert texts[..i + 1] == texts[..i] + [texts[i]];
      KeepLastSnoc(texts[..i], texts[i]);
      LoadStored(c, name, texts, i + 1);
    }
  }

  /** Loading what was saved gives the last entries of the list, each text only where it occurs last, and
      leaves the configuration as it is. */
  lemma SaveThenLoad(c: Config, name: string, h: seq<Option<string>>, recorded: int)
    ensures var texts := Texts(Window(h, recorded));
            var s := Stored(c, name, texts);
            LoadKeys(s, name, 0, KeyCount(s, name), []) == (s, KeepLast(texts))
  {
    hide Stored, KeepLast, Texts, Window;
    var texts := Texts(Window(h, recorded));
    assert KeyCount(Stored(c, name, texts), name) == |texts| by {
      if texts == [] { NoneStored(c, name); } else { StoredKey(c, name, texts, 0); }
    }
    assert texts[..0] == [];
    EmptyKept();
    LoadStored(c, name, texts, 0);
  }

  lemma EmptyKept()
    ensures KeepLast([]) == []
  {
  }

  lemma NoneStored(c: Config, name: string)
    ensures KeyCount(Stored(c, name, []), name) == 0
  {
    hide FindGroup;
  }

  lemma FindCons(x: Group, c: Config, name: string)
    ensures FindGroup([x] + c, name) == if x.name == name then 0 else FindGroup(c, name) + 1
  {
    assert ([x] + c)[1..] == c;
  }

  lemma FindSnoc(c: Config, x: Group, name: string)
    requires x.name != name
    ensures FindGroup(c + [x], name) == if FindGroup(c, name) < |c| then FindGroup(c, name) else |c| + 1
  {
    hide FindGroup;
    var i, j := FindGroup(c + [x], name), FindGroup(c, name);
    if j < |c| {
      assert (c + [x])[j].name == name;
    } else {
      assert forall k :: 0 <= k < |c| ==> (c + [x])[k] == c[k];
    }
  }

  lemma {:induction false} FindWithout(c: Config, name: string, other: string)
    requires other != name
    ensures var i, j := FindGroup(c, other), FindGroup(WithoutGroup(c, name), other);
            (i < |c| <==> j < |WithoutGroup(c, name)|) && (i < |c| ==> WithoutGroup(c, name)[j] == c[i])
  {
    hide FindGroup, WithoutGroup;
    WithoutCons(c, name);
    if c == [] {
    } else {
      FindWithout(c[1..], name, other);
      assert c == [c[0]] + c[1..];
      FindCons(c[0], c[1..], other);
      FindCons(c[0], WithoutGroup(c[1..], name), other);
    }
  }

  lemma WithoutCons(c: Config, name: string)
    ensures c == [] ==> WithoutGroup(c, name) == []
    ensures c != [] && c[0].name == name ==> WithoutGroup(c, name) == WithoutGroup(c[1..], name)
    ensures c != [] && c[0].name != name ==> WithoutGroup(c, name) == [c[0]] + WithoutGroup(c[1..], name)
  {
  }

  /** The other groups are not touched. */
  lemma OthersUntouched(c: Config, name: string, texts: seq<string>, other: string, key: string)
    requires other != name
    ensures GetString(Stored(c, name, texts), other, key) == GetString(c, other, key)
  {
    hide FindGroup, FindParam, WithoutGroup, Numbered;
    var d := WithoutGroup(c, name);
    var s := Stored(c, name, texts);
    FindWithout(c, name, other);
    FindSnoc(d, Group(name, Numbered(texts)), other);
  }

  /** A loaded history as the list that the next save gets. */
  function AsList(texts: seq<string>): (h: seq<Option<string>>)
    ensures |h| == |texts|
  {
    if texts == [] then [] else AsList(texts[..|texts| - 1]) + [Some(texts[|texts| - 1])]
  }

  lemma {:induction false} TextsOfList(texts: seq<string>)
    ensures Texts(AsList(texts)) == texts
  {
    if texts == [] {
    } else {
      var n := |texts| - 1;
      TextsOfList(texts[..n]);
      assert AsList(texts)[..n] == AsList(texts[..n]);
    }
  }

  lemma {:induction false} KeepLastLength(s: seq<string>)
    ensures |KeepLast(s)| <= |s|
  {
    if s == [] {
    } else {
      KeepLastLength(s[1..]);
    }
  }

  /** Saving and loading once more changes nothing. */
  lemma SaveAgain(h: seq<Option<string>>, recorded: int)
    ensures var loaded := KeepLast(Texts(Window(h, recorded)));
            KeepLast(Texts(Window(AsList(loaded), recorded))) == loaded
  {
    hide Texts, KeepLast, AsList;
    var texts := Texts(Window(h, recorded));
    KeepLastLength(texts);
    TextsOfList(KeepLast(texts));
    KeepLastTwice(texts);
  }
}
