/** The registry of command names (lib/keybind.c): an array that is kept sorted and searched by halves. */
module Keybind {
  import opened CaseOrder
  import opened Wrappers

  const CK_IGNORE_KEY := 0

  /** The sentinel has no name. */
  datatype Entry = Entry(name: Option<string>, val: int)

  const SENTINEL := Entry(None, CK_IGNORE_KEY)

  function Key(e: Entry): string {
    if e.name.Some? then Fold(e.name.value) else ""
  }

  ghost predicate Named(s: seq<Entry>) {
    forall i :: 0 <= i < |s| ==> s[i].name.Some?
  }

  ghost predicate Sorted(s: seq<Entry>) {
    forall i, j :: 0 <= i < j < |s| ==> Upto(Key(s[i]), Key(s[j]))
  }

  ghost predicate Distinct(s: seq<Entry>) {
    forall i, j :: 0 <= i < j < |s| ==> Key(s[i]) != Key(s[j])
  }

  // ----- sorting and searching -----

  function Insert(e: Entry, s: seq<Entry>): (r: seq<Entry>)
    ensures multiset(r) == multiset(s) + multiset{e}
  {
    if s == [] then [e]
    else if Upto(Key(e), Key(s[0])) then [e] + s
    else
      assert s == [s[0]] + s[1..];
      [s[0]] + Insert(e, s[1..])
  }

  function Sort(s: seq<Entry>): (r: seq<Entry>)
    ensures multiset(r) == multiset(s)
  {
    if s == [] then []
    else
      assert s == [s[0]] + s[1..];
      Insert(s[0], Sort(s[1..]))
  }

  lemma {:induction false} InsertSorted(e: Entry, s: seq<Entry>)
    requires Sorted(s)
    ensures Sorted(Insert(e, s))
  {
    hide Upto, Key;
    if s == [] {
    } else {
      var r := Insert(e, s);
      if Upto(Key(e), Key(s[0])) {
        forall j | 0 < j < |r|
          ensures Upto(Key(e), Key(r[j]))
        {
          if j > 1 { UptoTransitive(Key(e), Key(s[0]), Key(s[j - 1])); }
        }
      } else {
        var t := Insert(e, s[1..]);
        InsertSorted(e, s[1..]);
        UptoTotal(Key(e), Key(s[0]));
        forall j | 0 < j < |r|
          ensures Upto(Key(s[0]), Key(r[j]))
        {
          assert r[j] == t[j - 1] && t[j - 1] in multiset(t);
          assert t[j - 1] == e || t[j - 1] in s[1..];
        }
      }
    }
  }

  lemma {:induction false} SortSorts(s: seq<Entry>)
    ensures Sorted(Sort(s))
  {
    if s == [] {
    } else {
      SortSorts(s[1..]);
      InsertSorted(s[0], Sort(s[1..]));
    }
  }

  /** Sorts the first n elements in place. */
  method QSort(a: array<Entry>, n: nat)
    requires n <= a.Length
    modifies a
    ensures Sorted(a[..n]) && multiset(a[..n]) == multiset(old(a[..n]))
    ensures a[n..] == old(a[n..])
  {
    hide Sort, Sorted;
    var t := Sort(a[..n]);
    SortSorts(a[..n]);
    assert |t| == |multiset(t)| == n;
    for i := 0 to n
      invariant forall k :: 0 <= k < i ==> a[k] == t[k]
      invariant a[n..] == old(a[n..])
    {
      a[i] := t[i];
    }
    assert a[..n] == t;
  }

  /** Looks for a name among the first n elements; -1 if it is not found. */
  method BSearch(name: string, a: seq<Entry>) returns (r: int)
    requires Named(a)
    ensures -1 <= r < |a| && (r >= 0 ==> Key(a[r]) == Fold(name))
    ensures Sorted(a) && r < 0 ==> forall i :: 0 <= i < |a| ==> Key(a[i]) != Fold(name)
  {
    hide Fold, Upto;
    var lo, hi := 0, |a|;
    while lo < hi
      invariant 0 <= lo <= hi <= |a|
      invariant Sorted(a) ==> forall i :: 0 <= i < lo ==> Key(a[i]) != Fold(name)
      invariant Sorted(a) ==> forall i :: hi <= i < |a| ==> Key(a[i]) != Fold(name)
    {
      var mid := (lo + hi) / 2;
      var c := StrCaseCmp(name, a[mid].name.value);
      if c == 0 { return mid; }
      if Sorted(a) { Beyond(a, mid, Fold(name)); }
      if c < 0 { hi := mid; } else { lo := mid + 1; }
    }
    r := -1;
  }

  /** In a sorted array a smaller name cannot stand after the middle, nor a greater one before it. */
  lemma Beyond(a: seq<Entry>, mid: nat, k: string)
    requires Sorted(a) && mid < |a| && Key(a[mid]) != k
    ensures Upto(k, Key(a[mid])) ==> forall i :: mid <= i < |a| ==> Key(a[i]) != k
    ensures !Upto(k, Key(a[mid])) ==> forall i :: 0 <= i <= mid ==> Key(a[i]) != k
  {
    hide Key, Upto;
    forall i | mid <= i < |a| && Upto(k, Key(a[mid]))
      ensures Key(a[i]) != k
    {
      if Key(a[i]) == k { UptoAntisymmetric(k, Key(a[mid])); }
    }
    UptoTotal(k, Key(a[mid]));
  }

  // ----- the registry as a map -----

  /** From the folded names to the ids. */
  function View(s: seq<Entry>): map<string, int> {
    if s == [] then map[] else View(s[..|s| - 1])[Key(s[|s| - 1]) := s[|s| - 1].val]
  }

  lemma {:induction false} ViewHas(s: seq<Entry>, k: string)
    requires Distinct(s)
    ensures k in View(s) <==> exists i :: 0 <= i < |s| && Key(s[i]) == k
    ensures forall i :: 0 <= i < |s| && Key(s[i]) == k ==> k in View(s) && View(s)[k] == s[i].val
  {
    hide Key;
    if s == [] {
    } else {
      var n := |s| - 1;
      ViewHas(s[..n], k);
      assert forall i :: 0 <= i < n ==> s[..n][i] == s[i];
    }
  }

  /** The order does not matter. */
  lemma SameView(s: seq<Entry>, t: seq<Entry>)
    requires multiset(s) == multiset(t) && Distinct(s) && Distinct(t)
    ensures View(s) == View(t)
  {
    hide Key, View;
    forall k
      ensures k in View(s) <==> k in View(t)
      ensures k in View(s) ==> View(s)[k] == View(t)[k]
    {
      ViewHas(s, k);
      ViewHas(t, k);
      assert forall i :: 0 <= i < |s| ==> s[i] in multiset(t);
      assert forall i :: 0 <= i < |t| ==> t[i] in multiset(s);
    }
  }

  lemma {:induction false} OnceOnly(s: seq<Entry>, e: Entry)
    requires Distinct(s)
    ensures multiset(s)[e] <= 1
  {
    hide Key;
    if s == [] {
    } else {
      var n := |s| - 1;
      OnceOnly(s[..n], e);
      assert s == s[..n] + [s[n]];
      if s[n] == e {
        assert e !in s[..n];
      }
    }
  }

  lemma DistinctPermuted(s: seq<Entry>, t: seq<Entry>)
    requires multiset(s) == multiset(t) && Distinct(s)
    ensures Distinct(t)
  {
    hide Key;
    forall i, j | 0 <= i < j < |t|
      ensures Key(t[i]) != Key(t[j])
    {
      assert t == t[..i] + [t[i]] + t[i + 1..];
      assert t[j] in t[i + 1..];
      OnceOnly(s, t[i]);
      assert t[i] in multiset(s) && t[j] in multiset(s);
    }
  }

  /** What a registration makes of the map: the first id of a name stays. */
  function Registered(m: map<string, int>, key: string, id: int): map<string, int> {
    if key in m then m else m[key := id]
  }

  lemma ViewAdds(s: seq<Entry>, e: Entry, t: seq<Entry>)
    requires Distinct(s) && forall i :: 0 <= i < |s| ==> Key(s[i]) != Key(e)
    requires multiset(t) == multiset(s) + multiset{e}
    ensures Distinct(t) && View(t) == View(s)[Key(e) := e.val]
  {
    hide Key;
    assert multiset(s + [e]) == multiset(t);
    assert Distinct(s + [e]);
    DistinctPermuted(s + [e], t);
    SameView(s + [e], t);
    assert (s + [e])[..|s|] == s;
  }

  /** The id is that of the entry with the name in whatever case, 0 if there is none. */
  ghost predicate Answers(s: seq<Entry>, name: string, id: int) {
    && (forall i :: 0 <= i < |s| && s[i].name.Some? && StrCaseCmp(s[i].name.value, name) == 0 ==> id == s[i].val)
    && ((forall i :: 0 <= i < |s| && s[i].name.Some? ==> StrCaseCmp(s[i].name.value, name) != 0) ==> id == 0)
  }

  lemma LookedUp(s: seq<Entry>, name: string)
    requires Distinct(s) && Named(s)
    ensures Answers(s, name, if Fold(name) in View(s) then View(s)[Fold(name)] else CK_IGNORE_KEY)
  {
    hide Fold, View;
    ViewHas(s, Fold(name));
    assert forall i :: 0 <= i < |s| ==> (StrCaseCmp(s[i].name.value, name) == 0 <==> Key(s[i]) == Fold(name));
  }

  class Registry {
    /** The names that are compiled in, without the sentinel. */
    const start: seq<Entry>
    var commandNames: array?<Entry>
    var numCommandNames: nat
    var hasBeenSorted: bool

    ghost predicate Valid()
      reads this, commandNames
    {
      && Named(start)
      && (commandNames != null ==>
            && numCommandNames < commandNames.Length
            && Named(commandNames[..numCommandNames]) && commandNames[numCommandNames] == SENTINEL)
      && (hasBeenSorted ==> commandNames != null && Sorted(commandNames[..numCommandNames]))
    }

    ghost function Contents(): seq<Entry>
      requires Valid()
      reads this, commandNames
    {
      if commandNames == null then start else commandNames[..numCommandNames]
    }

    constructor (start: seq<Entry>)
      requires Named(start)
      ensures Valid() && commandNames == null && Contents() == start && !hasBeenSorted
    {
      this.start := start;
      commandNames, numCommandNames, hasBeenSorted := null, 0, false;
    }

    /** Counts the names before the sentinel. */
    method CountNames() returns (size: nat)
      requires Valid()
      ensures size == |Contents()|
    {
      if commandNames == null { return |start|; }
      size := 0;
      while commandNames[size].name.Some?
        invariant size <= numCommandNames
        decreases numCommandNames - size
      {
        assert size != numCommandNames;
        size := size + 1;
      }
      assert forall k :: 0 <= k < numCommandNames ==> commandNames[k] == commandNames[..numCommandNames][k];
    }

    /** Copies the old names to the front of another array. */
    method CopyNames(a: array<Entry>, size: nat)
      requires Valid() && size == |Contents()| && size < a.Length && a != commandNames
      modifies a
      ensures forall k :: 0 <= k < size ==> a[k] == Contents()[k]
      ensures forall k :: size <= k < a.Length ==> a[k] == old(a[k])
    {
      hide Named, Sorted;
      for i := 0 to size
        invariant forall k :: 0 <= k < i ==> a[k] == Contents()[k]
        invariant forall k :: size <= k < a.Length ==> a[k] == old(a[k])
      {
        a[i] := if commandNames == null then start[i] else commandNames[i];
      }
    }

    /** A new array with the old names, the new one if there is one, and the sentinel. */
    method Extended(size: nat, newName: Option<string>, newId: int) returns (a: array<Entry>)
      requires Valid() && size == |Contents()|
      ensures fresh(a) && a.Length == size + (if newName.Some? then 2 else 1)
      ensures a[..] == Contents() + (if newName.Some? then [Entry(newName, newId)] else []) + [SENTINEL]
    {
      hide Named, Sorted;
      a := new Entry[size + (if newName.Some? then 2 else 1)](_ => SENTINEL);
      CopyNames(a, size);
      if newName.Some? {
        a[size] := Entry(newName, newId);
        a[size + 1] := SENTINEL;
      }
      assert a[..size] == Contents();
      assert a[..] == a[..size] + a[size..];
      assert a[size..] == (if newName.Some? then [Entry(newName, newId)] else []) + [SENTINEL];
    }

    /** Adds a name unless it is there already; without a name, only sets up the array. Returns 1 if a
        name was added. */
    method AddNewAction(newName: Option<string>, newId: int) returns (ret: int)
      requires Valid()
      modifies this, commandNames
      ensures Valid() && (commandNames == old(commandNames) || (commandNames != null && fresh(commandNames)))
      ensures ret == 0 || ret == 1
      ensures newName == None ==> ret == 0 && commandNames != null
      ensures ret == 0 ==> Contents() == old(Contents()) && hasBeenSorted == old(hasBeenSorted)
      ensures ret == 1 ==> newName.Some? && hasBeenSorted
      ensures ret == 1 ==> multiset(Contents()) == multiset(old(Contents())) + multiset{Entry(newName, newId)}
      ensures newName == Some("") ==> ret == 1
      ensures newName.Some? && (newName.value != "" || Fold("") !in View(old(Contents())))
              && old(hasBeenSorted) && Distinct(old(Contents())) ==>
                && Distinct(Contents()) && hasBeenSorted
                && (ret == 0 <==> Fold(newName.value) in View(old(Contents())))
                && View(Contents()) == Registered(View(old(Contents())), Fold(newName.value), newId)
      decreases if newName.Some? then 3 else 1
    {
      hide Fold, View, Upto, Distinct, Sorted;
      ghost var was := Contents();
      var size := CountNames();
      numCommandNames := size;
      assert Contents() == was;
      var res := -1;
      if newName.Some? && |newName.value| != 0 {
        res := BSearch(newName.value, if commandNames == null then start else commandNames[..size]);
        if Distinct(was) { FoundOrNot(was, newName.value, res); }
      }
      if res >= 0 || (newName == None && commandNames != null) {
        return 0;
      }
      var extended := Extended(size, newName, newId);
      if newName.Some? {
        Append(extended, newName.value, newId);
        if (newName.value != "" || Fold("") !in View(was)) && old(hasBeenSorted) && Distinct(was) {
          if newName.value == "" { Unregistered(was, ""); }
          ViewAdds(was, Entry(newName, newId), Contents());
        }
        ret := 1;
      } else {
        Install(extended, size);
        ret := 0;
      }
    }

    /** Takes over an array that ends with the sentinel. */
    method Install(a: array<Entry>, size: nat)
      requires Named(start) && a.Length == size + 1 && Named(a[..size]) && a[size] == SENTINEL
      modifies this
      ensures commandNames == a && numCommandNames == size && !hasBeenSorted
      ensures Valid()
    {
      commandNames, numCommandNames, hasBeenSorted := a, size, false;
    }

    /** Takes over an array with one more name, and sorts it. */
    method Append(a: array<Entry>, newName: string, newId: int)
      requires Valid() && numCommandNames == |Contents()|
      requires a[..] == Contents() + [Entry(Some(newName), newId)] + [SENTINEL]
      modifies this, a
      ensures Valid() && commandNames == a && hasBeenSorted
      ensures multiset(Contents()) == multiset(old(Contents())) + multiset{Entry(Some(newName), newId)}
      decreases 3, 0
    {
      hide Sorted;
      ghost var was := Contents();
      var size := numCommandNames + 1;
      assert a[..size] == was + [Entry(Some(newName), newId)];
      Install(a, size);
      SortCommandNames();
    }

    /** Sets up the array if need be, and sorts it if it is not. */
    method SortCommandNames()
      requires Valid()
      modifies this, commandNames
      ensures Valid() && commandNames != null
      ensures commandNames == old(commandNames) || (old(commandNames) == null && fresh(commandNames))
      ensures hasBeenSorted && multiset(Contents()) == multiset(old(Contents()))
      ensures old(hasBeenSorted) ==> Contents() == old(Contents())
      decreases 2
    {
      hide Sorted;
      if commandNames == null {
        var _ := AddNewAction(None, -1);
      }
      if !hasBeenSorted {
        ghost var was := commandNames[..numCommandNames];
        QSort(commandNames, numCommandNames);
        NamedPermuted(was, commandNames[..numCommandNames]);
        assert commandNames[numCommandNames] == commandNames[numCommandNames..][0];
        hasBeenSorted := true;
      }
    }

    lemma ContentsNamed()
      requires Valid()
      ensures Named(Contents())
    {
    }

    /** The id of a name, CK_IgnoreKey if there is no such name. */
    method LookupAction(name: string) returns (id: int)
      requires Valid()
      modifies this, commandNames
      ensures Valid() && commandNames != null && hasBeenSorted && multiset(Contents()) == multiset(old(Contents()))
      ensures commandNames == old(commandNames) || (old(commandNames) == null && fresh(commandNames))
      ensures Distinct(old(Contents())) ==>
                && Distinct(Contents()) && View(Contents()) == View(old(Contents()))
                && var m := View(old(Contents())); id == if Fold(name) in m then m[Fold(name)] else CK_IGNORE_KEY
      ensures Distinct(old(Contents())) ==> Answers(old(Contents()), name, id)
    {
      hide Fold, View, Distinct, Sorted, Named, Answers;
      ghost var was := Contents();
      assert Named(was) by { ContentsNamed(); }
      if Distinct(was) { LookedUp(was, name); }
      SortCommandNames();
      var names := commandNames[..numCommandNames];
      var res := BSearch(name, names);
      id := if res >= 0 then names[res].val else CK_IGNORE_KEY;
      if Distinct(was) {
        DistinctPermuted(was, names);
        SameView(was, names);
        FoundOrNot(names, name, res);
      }
    }
  }

  lemma NamedPermuted(s: seq<Entry>, t: seq<Entry>)
    requires multiset(s) == multiset(t) && Named(s)
    ensures Named(t)
  {
    assert forall i :: 0 <= i < |t| ==> t[i] in multiset(s);
  }

  lemma Unregistered(s: seq<Entry>, name: string)
    requires Distinct(s) && Fold(name) !in View(s)
    ensures forall i :: 0 <= i < |s| ==> Key(s[i]) != Fold(name)
  {
    hide Key, Fold, View;
    ViewHas(s, Fold(name));
  }

  /** What a search says about the map. */
  lemma FoundOrNot(s: seq<Entry>, name: string, res: int)
    requires Distinct(s) && -1 <= res < |s|
    ensures res >= 0 && Key(s[res]) == Fold(name) ==> Fold(name) in View(s) && View(s)[Fold(name)] == s[res].val
    ensures (forall i :: 0 <= i < |s| ==> Key(s[i]) != Fold(name)) ==> Fold(name) !in View(s)
  {
    hide Key, Fold, View;
    ViewHas(s, Fold(name));
  }

  // ----- whole runs -----

  datatype Registration = Registration(name: string, id: int)

  function AfterAll(m: map<string, int>, adds: seq<Registration>): map<string, int> {
    if adds == [] then m
    else Registered(AfterAll(m, adds[..|adds| - 1]), Fold(adds[|adds| - 1].name), adds[|adds| - 1].id)
  }

  /** The first registration of a name, |adds| if there is none. */
  function FirstOf(adds: seq<Registration>, name: string): (i: nat)
    ensures i <= |adds| && (i < |adds| ==> Fold(adds[i].name) == Fold(name))
    ensures forall j :: 0 <= j < i ==> Fold(adds[j].name) != Fold(name)
  {
    if adds == [] || Fold(adds[0].name) == Fold(name) then 0 else FirstOf(adds[1..], name) + 1
  }

  /** After any run of registrations a name has the id that it had before, or else the id of its first
      registration; later ones in whatever case do not change it. */
  lemma {:induction false} FirstRegistrationStays(m: map<string, int>, adds: seq<Registration>, name: string)
    ensures var k, i := Fold(name), FirstOf(adds, name);
            && (k in AfterAll(m, adds) <==> k in m || i < |adds|)
            && (k in AfterAll(m, adds) ==> AfterAll(m, adds)[k] == if k in m then m[k] else adds[i].id)
  {
    hide Fold, FirstOf;
    if adds == [] {
    } else {
      var n := |adds| - 1;
      FirstRegistrationStays(m, adds[..n], name);
      var i, j := FirstOf(adds, name), FirstOf(adds[..n], name);
      assert forall k :: 0 <= k < n ==> adds[..n][k] == adds[k];
      assert j < n ==> i == j;
      assert j == n ==> i >= n;
    }
  }

  /** What the keys of a section come to: the registrations that are made, and the action of each key. */
  datatype Load = Load(adds: seq<Registration>, actions: seq<int>)

  function WithKey(m: map<string, int>, first: int, l: Load, key: string): (r: Load) {
    var now, k, id := AfterAll(m, l.adds), Fold(key), first + |l.adds|;
    if k !in now then Load(l.adds + [Registration(key, id)], l.actions + [id])
    else Load(l.adds, l.actions + [if now[k] > 0 then now[k] else CK_IGNORE_KEY])
  }

  function Loading(m: map<string, int>, first: int, keys: seq<string>): (l: Load)
    ensures |l.actions| == |keys|
  {
    if keys == [] then Load([], [])
    else WithKey(m, first, Loading(m, first, keys[..|keys| - 1]), keys[|keys| - 1])
  }

  /** Finds the action of a key, and registers the key with an id of its own if it has none. */
  method LoadKey(reg: Registry, key: string, dynamicId: int) returns (action: int, added: int)
    requires reg.Valid() && Distinct(reg.Contents()) && key != ""
    modifies reg, reg.commandNames
    ensures reg.Valid() && Distinct(reg.Contents())
    ensures reg.commandNames == old(reg.commandNames) || (reg.commandNames != null && fresh(reg.commandNames))
    ensures View(reg.Contents()) == Registered(View(old(reg.Contents())), Fold(key), dynamicId)
    ensures added == if Fold(key) in View(old(reg.Contents())) then 0 else 1
    ensures var m := View(old(reg.Contents()));
            action == if Fold(key) !in m then dynamicId
                      else if m[Fold(key)] > 0 then m[Fold(key)] else CK_IGNORE_KEY
  {
    hide Fold, View, Distinct, Named, Sorted;
    added := 0;
    action := reg.LookupAction(key);
    if action <= 0 {
      added := reg.AddNewAction(Some(key), dynamicId);
      action := if added != 0 then dynamicId else 0;
    }
  }

  /** Goes through the keys of a section of a keymap file; the keys of a key file are not empty. */
  method LoadKeymapFromSection(reg: Registry, keys: seq<string>, dynamicId: int)
    returns (actions: seq<int>, nextId: int)
    requires reg.Valid() && Distinct(reg.Contents()) && "" !in keys
    modifies reg, reg.commandNames
    ensures reg.Valid() && Distinct(reg.Contents())
    ensures var was, l := View(old(reg.Contents())), Loading(View(old(reg.Contents())), dynamicId, keys);
            && View(reg.Contents()) == AfterAll(was, l.adds)
            && actions == l.actions && nextId == dynamicId + |l.adds|
  {
    hide Fold, View, Distinct, Named, Sorted, AfterAll, Loading;
    ghost var was := View(reg.Contents());
    ghost var l := Load([], []);
    LoadingNone(was, dynamicId);
    actions, nextId := [], dynamicId;
    for i := 0 to |keys|
      invariant reg.commandNames == old(reg.commandNames) || (reg.commandNames != null && fresh(reg.commandNames))
      invariant reg.Valid() && Distinct(reg.Contents())
      invariant l == Loading(was, dynamicId, keys[..i])
      invariant View(reg.Contents()) == AfterAll(was, l.adds)
      invariant actions == l.actions && nextId == dynamicId + |l.adds|
    {
      LoadingOneMore(was, dynamicId, keys, i);
      var action, added := LoadKey(reg, keys[i], nextId);
      l := WithKey(was, dynamicId, l, keys[i]);
      actions, nextId := actions + [action], nextId + added;
    }
    assert keys[..|keys|] == keys;
  }

  lemma LoadingNone(m: map<string, int>, first: int)
    ensures Loading(m, first, []) == Load([], []) && AfterAll(m, []) == m
  {
  }

  lemma LoadingOneMore(m: map<string, int>, first: int, keys: seq<string>, i: nat)
    requires i < |keys|
    ensures var l, l1 := Loading(m, first, keys[..i]), Loading(m, first, keys[..i + 1]);
            && l1 == WithKey(m, first, l, keys[i])
            && AfterAll(m, l1.adds) == Registered(AfterAll(m, l.adds), Fold(keys[i]), first + |l.adds|)
  {
    hide Fold, AfterAll;
    var l := Loading(m, first, keys[..i]);
    assert keys[..i + 1][..i] == keys[..i];
    AfterOneMore(m, l.adds, Registration(keys[i], first + |l.adds|));
  }

  lemma AfterOneMore(m: map<string, int>, adds: seq<Registration>, r: Registration)
    ensures AfterAll(m, adds + [r]) == Registered(AfterAll(m, adds), Fold(r.name), r.id)
  {
    hide Fold;
    assert (adds + [r])[..|adds|] == adds;
  }

  /** All ids are proper ones, and the ones from next on are free. */
  ghost predicate Below(m: map<string, int>, next: int) {
    next > 0 && forall k :: k in m ==> 0 < m[k] < next
  }

  /** The names of the first map keep their ids; the others have later ids, each its own. */
  ghost predicate Grown(m: map<string, int>, first: int, now: map<string, int>) {
    && (forall k :: k in m ==> k in now && now[k] == m[k])
    && (forall k :: k in now && k !in m ==> now[k] >= first)
    && (forall j, k :: j in now && k in now && j !in m && k !in m && now[j] == now[k] ==> j == k)
  }

  /** After a section is loaded its keys have the actions that any later search finds for them; names that
      were known keep their ids, the others get ids that are free and differ as the names do. */
  lemma {:induction false} LoadedKeys(m: map<string, int>, first: int, keys: seq<string>)
    requires Below(m, first)
    ensures var l := Loading(m, first, keys);
            var now := AfterAll(m, l.adds);
            && Below(now, first + |l.adds|) && Grown(m, first, now)
            && forall i :: 0 <= i < |keys| ==> Fold(keys[i]) in now && l.actions[i] == now[Fold(keys[i])]
  {
    hide Fold, AfterAll, Loading, Grown;
    if keys == [] {
      LoadingNone(m, first);
      GrownWith(m, first, m, "", first);
    } else {
      var n := |keys| - 1;
      LoadedKeys(m, first, keys[..n]);
      LoadingOneMore(m, first, keys, n);
      assert keys[..n + 1] == keys;
      var l := Loading(m, first, keys[..n]);
      GrownWith(m, first, AfterAll(m, l.adds), Fold(keys[n]), first + |l.adds|);
      assert forall i :: 0 <= i < n ==> keys[..n][i] == keys[i];
    }
  }

  lemma GrownWith(m: map<string, int>, first: int, now: map<string, int>, k: string, id: int)
    requires Below(now, id) && first <= id
    ensures m == now ==> Grown(m, first, now)
    ensures Grown(m, first, now) ==> Grown(m, first, Registered(now, k, id))
  {
  }

  /** Whatever ids the known names have: they keep them, and a key that ends up with an id that is not positive gets
      no action, which is 0; every other key gets its id. */
  lemma {:induction false} LoadedWithAnyIds(m: map<string, int>, first: int, keys: seq<string>)
    requires first > 0
    ensures var l := Loading(m, first, keys);
            var now := AfterAll(m, l.adds);
            && (forall k :: k in m ==> k in now && now[k] == m[k])
            && (forall k :: k in now && k !in m ==> now[k] >= first)
            && forall i :: 0 <= i < |keys| ==>
                 && Fold(keys[i]) in now
                 && l.actions[i] == if now[Fold(keys[i])] > 0 then now[Fold(keys[i])] else 0
  {
    hide Fold, AfterAll, Loading;
    if keys == [] {
      LoadingNone(m, first);
    } else {
      var n := |keys| - 1;
      LoadedWithAnyIds(m, first, keys[..n]);
      LoadingOneMore(m, first, keys, n);
      assert keys[..n + 1] == keys;
      assert forall i :: 0 <= i < n ==> keys[..n][i] == keys[i];
    }
  }
}
