/** A configuration as a text, and the reader that takes it apart again (lib/serialize.c). */
module Serialize {
  import opened Numbers
  import opened Sequences
  import opened Wrappers

  const BUF_TINY := 64
  const SIZE_MAX := 0x1_0000_0000_0000_0000

  // ----- one string -----

  datatype Error =
    | EmptyInput
    | WrongPrefix(prefix: char)
    | NoDelimiter
    | LengthTooBig
    | TooShort(claimed: nat, actual: nat)

  function McSerializeStr(prefix: char, data: string): (r: string)
    ensures |r| >= 3 && r[0] == prefix
  {
    [prefix] + (Decimal(|data|) + ([':'] + data))
  }

  /** A long converted to size_t. */
  function ToSize(n: int): (r: nat)
    requires -LONG_MAX - 1 <= n <= LONG_MAX
  {
    if n < 0 then n + SIZE_MAX else n
  }

  function McDeserializeStr(prefix: char, data: string): (r: Result<string, Error>)
    ensures r.Ok? ==> data != "" && IndexOf(data[1..], ':') + 2 + |r.value| <= |data|
  {
    if data == "" then Err(EmptyInput)
    else if data[0] != prefix then Err(WrongPrefix(prefix))
    else
      var k := IndexOf(data[1..], ':');
      if k == |data| - 1 then Err(NoDelimiter)
      else if k >= BUF_TINY then Err(LengthTooBig)
      else
        var length := ToSize(Atol(data[1..][..k]));
        var rest := data[k + 2..];
        if length > |rest| then Err(TooShort(length, |rest|)) else Ok(rest[..length])
  }

  /** How far the text of an already read string reaches; None at the end of the data. */
  function GoToEnd(data: string, already: string): (r: Option<nat>)
    requires data != ""
    ensures r.Some? ==> 2 <= r.value < |data|
  {
    var offset := IndexOf(data[1..], ':') + 2 + |already|;
    if offset >= |data| then None else Some(offset)
  }

  lemma {:induction false} DelimiterAfter(d: string, rest: string)
    requires AllDigits(d)
    ensures IndexOf(d + ([':'] + rest), ':') == |d|
  {
    if d == "" {
      assert d + ([':'] + rest) == [':'] + rest;
    } else {
      DelimiterAfter(d[1..], rest);
      assert (d + ([':'] + rest))[1..] == d[1..] + ([':'] + rest);
    }
  }

  /** A length that a long can hold takes less than BUF_TINY characters. */
  lemma LengthFits(n: nat)
    requires n <= LONG_MAX
    ensures |Decimal(n)| < BUF_TINY
  {
    DecimalLength(n, 19);
    assert Pow10(4) == 10000;
    assert Pow10(8) == 100000000;
    assert Pow10(12) == 1000000000000;
    assert Pow10(16) == 10000000000000000;
    assert Pow10(19) == 10000000000000000000;
  }

  lemma Parts(p: char, d: string, data: string, rest: string)
    ensures var all := [p] + (d + ([':'] + data)) + rest;
            && all != "" && all[0] == p
            && all[1..] == d + ([':'] + (data + rest))
            && all[1..][..|d|] == d
            && all[|d| + 2..] == data + rest
            && |all| == |d| + 2 + |data| + |rest|
  {
  }

  /** The reader gets back a written string, whatever its characters and whatever follows, and
      finds where it ends. */
  lemma StringRoundTrip(prefix: char, data: string, rest: string)
    requires |data| <= LONG_MAX
    ensures var all := McSerializeStr(prefix, data) + rest;
            && McDeserializeStr(prefix, all) == Ok(data)
            && GoToEnd(all, data) == (if rest == "" then None else Some(|McSerializeStr(prefix, data)|))
            && all[|McSerializeStr(prefix, data)|..] == rest
  {
    hide Decimal, IndexOf, Atol;
    var d := Decimal(|data|);
    var all := McSerializeStr(prefix, data) + rest;
    Parts(prefix, d, data, rest);
    DelimiterAfter(d, data + rest);
    LengthFits(|data|);
    AtolOfDecimal(|data|, "");
    assert d + "" == d;
    assert (data + rest)[..|data|] == data;
  }

  lemma {:induction false} FirstDelimiter(d: string, rest: string)
    requires ':' !in d
    ensures IndexOf(d + ([':'] + rest), ':') == |d| && IndexOf(d, ':') == |d|
  {
    if d == "" {
      assert d + ([':'] + rest) == [':'] + rest;
    } else {
      FirstDelimiter(d[1..], rest);
      assert (d + ([':'] + rest))[1..] == d[1..] + ([':'] + rest);
    }
  }

  lemma Delimited(first: char, d: string, rest: string)
    ensures var all := [first] + (d + ([':'] + rest));
            && |all| == |d| + |rest| + 2 && all[0] == first && all[1..] == d + ([':'] + rest)
            && all[1..][..|d|] == d && all[|d| + 2..] == rest
  {
  }

  /** What is read of a text whose first delimiter stands behind d. */
  lemma DeserializeAny(prefix: char, first: char, d: string, rest: string)
    requires ':' !in d
    ensures McDeserializeStr(prefix, [first] + (d + ([':'] + rest)))
         == if first != prefix then Err(WrongPrefix(prefix))
            else if |d| >= 64 then Err(LengthTooBig)
            else
              var length := if Atol(d) < 0 then Atol(d) + 0x1_0000_0000_0000_0000 else Atol(d);
              if length > |rest| then Err(TooShort(length, |rest|)) else Ok(rest[..length])
  {
    hide IndexOf, Atol;
    Delimited(first, d, rest);
    FirstDelimiter(d, rest);
  }

  /** What is read of an empty text and of one without a delimiter. */
  lemma DeserializeNone(prefix: char, first: char, d: string)
    requires ':' !in d
    ensures McDeserializeStr(prefix, "") == Err(EmptyInput)
    ensures McDeserializeStr(prefix, [first] + d)
         == if first == prefix then Err(NoDelimiter) else Err(WrongPrefix(prefix))
  {
    hide IndexOf, Atol;
    FirstDelimiter(d, "");
    assert ([first] + d)[1..] == d;
  }

  lemma ReadParts(prefix: char, data: string, text: string) returns (d: string, rest: string)
    requires McDeserializeStr(prefix, data) == Ok(text)
    ensures ':' !in d && |d| < 64 && ToSize(Atol(d)) == |text|
    ensures data == [prefix] + (d + ([':'] + (text + rest)))
  {
    hide IndexOf, Atol;
    var k := IndexOf(data[1..], ':');
    d := data[1..][..k];
    var tail := data[k + 2..];
    rest := tail[|text|..];
    assert tail == text + rest && data[1..] == d + ([':'] + tail);
  }

  /** A text is read from the data if and only if it stands behind the prefix, fewer than 64 characters that
      atol takes for its length, and the first delimiter. */
  lemma DeserializeIff(prefix: char, data: string, text: string)
    ensures McDeserializeStr(prefix, data) == Ok(text) <==>
            exists d, rest :: ':' !in d && |d| < 64 && ToSize(Atol(d)) == |text|
                              && data == [prefix] + (d + ([':'] + (text + rest)))
  {
    hide IndexOf, Atol, McDeserializeStr;
    if McDeserializeStr(prefix, data) == Ok(text) {
      var d, rest := ReadParts(prefix, data, text);
    }
    forall d, rest | ':' !in d && |d| < 64 && ToSize(Atol(d)) == |text|
                     && data == [prefix] + (d + ([':'] + (text + rest)))
      ensures McDeserializeStr(prefix, data) == Ok(text)
    {
      DeserializeAny(prefix, prefix, d, text + rest);
      assert (text + rest)[..|text|] == text;
    }
  }

  // ----- a configuration -----

  datatype Param = Param(key: string, value: string)
  datatype Group = Group(name: string, params: seq<Param>)
  type Config = seq<Group>

  function FindGroup(c: Config, name: string): (i: nat)
    ensures i <= |c| && (i < |c| ==> c[i].name == name) && forall j :: 0 <= j < i ==> c[j].name != name
  {
    if c == [] || c[0].name == name then 0 else FindGroup(c[1..], name) + 1
  }

  function FindParam(ps: seq<Param>, key: string): (i: nat)
    ensures i <= |ps| && (i < |ps| ==> ps[i].key == key) && forall j :: 0 <= j < i ==> ps[j].key != key
  {
    if ps == [] || ps[0].key == key then 0 else FindParam(ps[1..], key) + 1
  }

  function SetParam(ps: seq<Param>, key: string, value: string): seq<Param> {
    var i := FindParam(ps, key);
    if i < |ps| then ps[i := Param(key, value)] else ps + [Param(key, value)]
  }

  /** A key keeps its place when it gets a new value; a new key or group comes last. */
  function SetString(c: Config, name: string, key: string, value: string): Config {
    var i := FindGroup(c, name);
    if i < |c| then c[i := Group(name, SetParam(c[i].params, key, value))]
    else c + [Group(name, [Param(key, value)])]
  }

  function WithoutGroup(c: Config, name: string): (r: Config)
    ensures forall i :: 0 <= i < |r| ==> r[i].name != name
  {
    if c == [] then [] else (if c[0].name == name then [] else [c[0]]) + WithoutGroup(c[1..], name)
  }

  class McConfig {
    var groups: Config

    constructor ()
      ensures groups == []
    {
      groups := [];
    }

    method Set(name: string, key: string, value: string)
      modifies this
      ensures groups == SetString(old(groups), name, key, value)
    {
      groups := SetString(groups, name, key, value);
    }

    method DeleteGroup(name: string)
      modifies this
      ensures groups == WithoutGroup(old(groups), name)
    {
      groups := WithoutGroup(groups, name);
    }
  }

  function ParamsText(ps: seq<Param>): string {
    if ps == [] then ""
    else McSerializeStr('p', ps[0].key) + (McSerializeStr('v', ps[0].value) + ParamsText(ps[1..]))
  }

  function ConfigText(c: Config): string {
    if c == [] then ""
    else McSerializeStr('g', c[0].name) + (ParamsText(c[0].params) + ConfigText(c[1..]))
  }

  lemma {:induction false} ParamsTextSnoc(ps: seq<Param>, x: Param)
    ensures ParamsText(ps + [x]) == ParamsText(ps) + McSerializeStr('p', x.key) + McSerializeStr('v', x.value)
  {
    hide McSerializeStr;
    if ps == [] {
      assert (ps + [x])[1..] == [];
    } else {
      ParamsTextSnoc(ps[1..], x);
      assert (ps + [x])[1..] == ps[1..] + [x];
    }
  }

  lemma {:induction false} ConfigTextSnoc(c: Config, g: Group)
    ensures ConfigText(c + [g]) == ConfigText(c) + (McSerializeStr('g', g.name) + ParamsText(g.params))
  {
    hide McSerializeStr, ParamsText;
    if c == [] {
      assert (c + [g])[1..] == [];
      assert ConfigText([]) == "";
    } else {
      ConfigTextSnoc(c[1..], g);
      assert (c + [g])[1..] == c[1..] + [g];
    }
  }

  method McSerializeConfig(data: McConfig) returns (buffer: string)
    ensures buffer == ConfigText(data.groups)
  {
    hide McSerializeStr;
    buffer := "";
    for g := 0 to |data.groups|
      invariant buffer == ConfigText(data.groups[..g])
    {
      var group := data.groups[g];
      buffer := buffer + McSerializeStr('g', group.name);
      for p := 0 to |group.params|
        invariant buffer
                    == ConfigText(data.groups[..g]) + (McSerializeStr('g', group.name) + ParamsText(group.params[..p]))
      {
        var param := group.params[p];
        buffer := buffer + McSerializeStr('p', param.key);
        buffer := buffer + McSerializeStr('v', param.value);
        assert group.params[..p + 1] == group.params[..p] + [param];
        ParamsTextSnoc(group.params[..p], param);
      }
      assert group.params[..|group.params|] == group.params;
      assert data.groups[..g + 1] == data.groups[..g] + [group];
      ConfigTextSnoc(data.groups[..g], group);
    }
    assert data.groups[..|data.groups|] == data.groups;
  }

  // ----- the reader -----

  /** What the reader waits for. After a value it waits for a group, but it has one: a parameter will
      do as well. */
  datatype Status =
    | WaitGroup(group: Option<string>)
    | WaitParam(current: string)
    | WaitValue(current: string, param: string)

  datatype ReadError = ReadError(position: nat, error: Error)

  function Expected(st: Status): char {
    match st
    case WaitGroup(_) => 'g'
    case WaitParam(_) => 'p'
    case WaitValue(_, _) => 'v'
  }

  /** What the reader waits for once it has seen the first character. */
  function Looked(st: Status, data: string): Status {
    if st.WaitGroup? && st.group.Some? && data != "" && data[0] == 'p' then WaitParam(st.group.value) else st
  }

  function NextStatus(st: Status, text: string): Status {
    match st
    case WaitGroup(_) => WaitParam(text)
    case WaitParam(g) => WaitValue(g, text)
    case WaitValue(g, _) => WaitGroup(Some(g))
  }

  function NextConfig(st: Status, c: Config, text: string): Config {
    if st.WaitValue? then SetString(c, st.current, st.param, text) else c
  }

  /** What comes of the rest of the data, from a status, with the configuration read so far. */
  function ReadFrom(st: Status, c: Config, data: string, position: nat): Result<Config, ReadError>
    decreases |data|
  {
    var look := Looked(st, data);
    match McDeserializeStr(Expected(look), data)
    case Err(e) => Err(ReadError(position + 1, e))
    case Ok(text) =>
      match GoToEnd(data, text)
      case None => Ok(NextConfig(look, c, text))
      case Some(n) => ReadFrom(NextStatus(look, text), NextConfig(look, c, text), data[n..], position + n)
  }

  /** Reads a configuration. No data at all gives an empty one; each turn of the loop takes two
      characters or more. */
  method McDeserializeConfig(text: Option<string>) returns (r: Result<McConfig, ReadError>)
    ensures text == None ==> r.Ok? && r.value.groups == []
    ensures text.Some? ==> match ReadFrom(WaitGroup(None), [], text.value, 0)
                           case Ok(c) => r.Ok? && r.value.groups == c
                           case Err(e) => r.Err? && r.error == e
  {
    hide McDeserializeStr, GoToEnd, SetString;
    var config := new McConfig();
    var data := text;
    var status := WaitGroup(None);
    var position := 0;
    while data.Some?
      invariant text == None ==> data == None && config.groups == []
      invariant text.Some? ==>
                  (ReadFrom(WaitGroup(None), [], text.value, 0) ==
                   if data.Some? then ReadFrom(status, config.groups, data.value, position) else Ok(config.groups))
      decreases if data.Some? then |data.value| + 1 else 0
    {
      if status.WaitGroup? && status.group.Some? && data.value != "" && data.value[0] == 'p' {
        status := WaitParam(status.group.value);
      }
      var here := McDeserializeStr(Expected(status), data.value);
      if here.Err? { return Err(ReadError(position + 1, here.error)); }
      if status.WaitValue? {
        config.Set(status.current, status.param, here.value);
      }
      match GoToEnd(data.value, here.value) {
        case None => data := None;
        case Some(n) => data, position := Some(data.value[n..]), position + n;
      }
      status := NextStatus(status, here.value);
    }
    r := Ok(config);
  }

  /** A written configuration: g, p and v stand in front of groups, keys and values. */
  lemma ConfigSample(name: string, key: string, value: string)
    ensures ConfigText([Group(name, [Param(key, value)])])
         == McSerializeStr('g', name) + (McSerializeStr('p', key) + McSerializeStr('v', value))
  {
    hide McSerializeStr;
    var x := Param(key, value);
    assert [x][1..] == [] && [Group(name, [x])][1..] == [];
    var v := McSerializeStr('v', value);
    assert v + "" == v;
    assert ParamsText([x]) == McSerializeStr('p', key) + (v + ParamsText([]));
    assert ParamsText([x]) + "" == ParamsText([x]);
  }

  /** The prefix, the length in decimal, a colon, the string. */
  lemma SerializedAs(prefix: char, data: string)
    ensures McSerializeStr(prefix, data) == [prefix] + (Decimal(|data|) + (":" + data))
  {
  }

  // ----- the round trip -----

  /** Group names and the keys of a group are distinct, as in every key file, and every text is
      short enough for its length to be read back. */
  ghost predicate Proper(c: Config) {
    && (forall i, j :: 0 <= i < j < |c| ==> c[i].name != c[j].name)
    && (forall i :: 0 <= i < |c| ==> ProperGroup(c[i]))
  }

  ghost predicate ProperGroup(g: Group) {
    && |g.name| <= LONG_MAX
    && (forall j, k :: 0 <= j < k < |g.params| ==> g.params[j].key != g.params[k].key)
    && (forall j :: 0 <= j < |g.params| ==> |g.params[j].key| <= LONG_MAX && |g.params[j].value| <= LONG_MAX)
  }

  /** Reading one string that was written. */
  lemma ReadItem(st: Status, c: Config, text: string, rest: string, position: nat)
    requires |text| <= LONG_MAX
    requires var item := McSerializeStr(Expected(st), text); Looked(st, item + rest) == st
    ensures var item := McSerializeStr(Expected(st), text);
            ReadFrom(st, c, item + rest, position) ==
              if rest == "" then Ok(NextConfig(st, c, text))
              else ReadFrom(NextStatus(st, text), NextConfig(st, c, text), rest, position + |item|)
  {
    hide McSerializeStr, McDeserializeStr, GoToEnd, Looked;
    StringRoundTrip(Expected(st), text, rest);
  }

  lemma LookOnce(st: Status, c: Config, data: string, position: nat)
    ensures ReadFrom(st, c, data, position) == ReadFrom(Looked(st, data), c, data, position)
  {
    hide McDeserializeStr, GoToEnd;
  }

  /** The groups before a group, and what the group has so far; it comes into being with its first key. */
  function Partial(done: Config, name: string, ps: seq<Param>): Config {
    if ps == [] then done else done + [Group(name, ps)]
  }

  lemma SetNext(done: Config, name: string, ps: seq<Param>, x: Param)
    requires forall i :: 0 <= i < |done| ==> done[i].name != name
    requires forall j :: 0 <= j < |ps| ==> ps[j].key != x.key
    ensures SetString(Partial(done, name, ps), name, x.key, x.value) == Partial(done, name, ps + [x])
  {
    hide FindGroup, FindParam;
    var c := Partial(done, name, ps);
    var i := FindGroup(c, name);
    assert FindParam(ps, x.key) == |ps|;
    if ps == [] {
      assert i == |c|;
      assert [] + [x] == [x];
    } else {
      assert c[|done|].name == name && i == |done|;
    }
  }

  /** Reading the keys and values of a group, after the keys before. */
  lemma {:induction false} ReadParams(
      st: Status, done: Config, name: string, before: seq<Param>, ps: seq<Param>, rest: string, position: nat)
    requires ps != [] && ProperGroup(Group(name, before + ps))
    requires forall i :: 0 <= i < |done| ==> done[i].name != name
    requires Looked(st, ParamsText(ps) + rest) == WaitParam(name)
    ensures ReadFrom(st, Partial(done, name, before), ParamsText(ps) + rest, position) ==
              if rest == "" then Ok(done + [Group(name, before + ps)])
              else ReadFrom(WaitGroup(Some(name)), done + [Group(name, before + ps)], rest, position + |ParamsText(ps)|)
    decreases |ps|
  {
    hide McSerializeStr, SetString, ReadFrom;
    var x, more := ps[0], ps[1..];
    var k, v := McSerializeStr('p', x.key), McSerializeStr('v', x.value);
    var tail := ParamsText(more) + rest;
    assert x == (before + ps)[|before|] && forall j :: 0 <= j < |before| ==> before[j] == (before + ps)[j];
    Assoc(k, v + ParamsText(more), rest);
    Assoc(v, ParamsText(more), rest);
    LookOnce(st, Partial(done, name, before), ParamsText(ps) + rest, position);
    ReadItem(WaitParam(name), Partial(done, name, before), x.key, v + tail, position);
    ReadItem(WaitValue(name, x.key), Partial(done, name, before), x.value, tail, position + |k|);
    SetNext(done, name, before, x);
    assert before + ps == (before + [x]) + more;
    if more != [] {
      assert tail != "" && tail[0] == 'p' by { FirstOfParams(more, rest); }
      ReadParams(WaitGroup(Some(name)), done, name, before + [x], more, rest, position + |k| + |v|);
    } else {
      NoParams(rest);
      assert before + ps == before + [x];
    }
  }

  lemma FirstOfParams(ps: seq<Param>, rest: string)
    requires ps != []
    ensures ParamsText(ps) + rest != "" && (ParamsText(ps) + rest)[0] == 'p'
  {
    hide McSerializeStr;
  }

  /** Reading one group that has a key. */
  lemma ReadGroup(before: Option<string>, done: Config, x: Group, tail: string, position: nat)
    requires ProperGroup(x) && x.params != []
    requires forall i :: 0 <= i < |done| ==> done[i].name != x.name
    ensures var text := McSerializeStr('g', x.name) + (ParamsText(x.params) + tail);
            ReadFrom(WaitGroup(before), done, text, position) ==
              if tail == "" then Ok(done + [x])
              else ReadFrom(WaitGroup(Some(x.name)), done + [x], tail,
                            position + |McSerializeStr('g', x.name)| + |ParamsText(x.params)|)
  {
    hide McSerializeStr, ReadFrom, ParamsText;
    var g, ps := McSerializeStr('g', x.name), ParamsText(x.params);
    FirstOfParams(x.params, tail);
    ReadItem(WaitGroup(before), done, x.name, ps + tail, position);
    assert [] + x.params == x.params && Group(x.name, x.params) == x;
    ReadParams(WaitParam(x.name), done, x.name, [], x.params, tail, position + |g|);
  }

  /** Reading groups that all have a key. */
  lemma {:induction false} ReadGroups(before: Option<string>, done: Config, gs: Config, rest: string, position: nat)
    requires Proper(done + gs) && forall i :: 0 <= i < |gs| ==> gs[i].params != []
    ensures ReadFrom(WaitGroup(before), done, ConfigText(gs) + rest, position) ==
              if gs == [] then ReadFrom(WaitGroup(before), done, rest, position)
              else if rest == "" then Ok(done + gs)
              else ReadFrom(WaitGroup(Some(gs[|gs| - 1].name)), done + gs, rest, position + |ConfigText(gs)|)
    decreases |gs|
  {
    hide McSerializeStr, ReadFrom, ParamsText;
    if gs == [] {
      assert "" + rest == rest;
    } else {
      hide ProperGroup;
      var x, more := gs[0], gs[1..];
      var g, ps := McSerializeStr('g', x.name), ParamsText(x.params);
      var tail := ConfigText(more) + rest;
      assert x == (done + gs)[|done|] && forall j :: 0 <= j < |done| ==> done[j] == (done + gs)[j];
      Assoc(g, ps + ConfigText(more), rest);
      Assoc(ps, ConfigText(more), rest);
      ReadGroup(before, done, x, tail, position);
      assert (done + [x]) + more == done + gs;
      if more == [] {
        assert tail == rest && done + [x] == done + gs by { NoGroups(rest); }
      } else {
        ReadGroups(Some(x.name), done + [x], more, rest, position + |g| + |ps|);
      }
    }
  }

  lemma NoGroups(rest: string)
    ensures ConfigText([]) + rest == rest
  {
  }

  /** The first group without keys, |c| if there is none. */
  function FirstEmpty(c: Config): (i: nat)
    ensures i <= |c| && (i < |c| ==> c[i].params == []) && forall j :: 0 <= j < i ==> c[j].params != []
  {
    if c == [] || c[0].params == [] then 0 else FirstEmpty(c[1..]) + 1
  }

  lemma {:induction false} ConfigTextSplit(a: Config, b: Config)
    ensures ConfigText(a + b) == ConfigText(a) + ConfigText(b)
  {
    hide McSerializeStr, ParamsText;
    if a == [] {
      assert a + b == b;
    } else {
      ConfigTextSplit(a[1..], b);
      assert (a + b)[1..] == a[1..] + b;
      Assoc(ParamsText(a[0].params), ConfigText(a[1..]), ConfigText(b));
      Assoc(McSerializeStr('g', a[0].name), ParamsText(a[0].params) + ConfigText(a[1..]), ConfigText(b));
    }
  }

  lemma ReadBeforeEmpty(c: Config, i: nat) returns (before: Option<string>, position: nat)
    requires Proper(c) && i < |c| && forall j :: 0 <= j < i ==> c[j].params != []
    ensures ReadFrom(WaitGroup(None), [], ConfigText(c), 0)
              == ReadFrom(WaitGroup(before), c[..i], ConfigText(c[i..]), position)
    ensures position == |ConfigText(c[..i])|
  {
    hide ReadFrom, ConfigText, ProperGroup, McSerializeStr;
    var a, b := c[..i], c[i..];
    assert c == a + b;
    assert [] + a == a;
    ConfigTextSplit(a, b);
    assert ConfigText(b) != "" by { TextStarts(b); }
    ReadGroups(None, [], a, ConfigText(b), 0);
    if i == 0 {
      before, position := None, 0;
      assert a == [] && ConfigText(a) == "" by { NoGroups(""); }
    } else {
      before, position := Some(a[|a| - 1].name), 0 + |ConfigText(a)|;
    }
  }

  lemma TextStarts(c: Config)
    requires c != []
    ensures ConfigText(c) != "" && ConfigText(c)[0] == 'g'
  {
    hide McSerializeStr;
  }

  /** What becomes of a written configuration that has a group without keys: if that is the last group,
      it is lost; if not, the reader meets the next group where a parameter must be. */
  lemma EmptyGroup(c: Config)
    requires Proper(c) && FirstEmpty(c) < |c|
    ensures var r := ReadFrom(WaitGroup(None), [], ConfigText(c), 0);
            if FirstEmpty(c) == |c| - 1 then r == Ok(c[..|c| - 1])
            else r == Err(ReadError(|ConfigText(c[..FirstEmpty(c) + 1])| + 1, WrongPrefix('p')))
  {
    hide McSerializeStr, ReadFrom, FirstEmpty, ConfigText, SetString, Proper;
    var i := FirstEmpty(c);
    var before, position := ReadBeforeEmpty(c, i);
    var rest := ConfigText(c[i + 1..]);
    FromEmpty(c, i);
    assert ProperGroup(c[i]) by { ProperAt(c, i); }
    ReadItem(WaitGroup(before), c[..i], c[i].name, rest, position);
    if i + 1 < |c| {
      FrontOfEmpty(c, i);
      BadPrefix(c[i].name, c[..i], rest, position + |McSerializeStr('g', c[i].name)|);
    }
  }

  lemma ProperAt(c: Config, i: nat)
    requires Proper(c) && i < |c|
    ensures ProperGroup(c[i])
  {
  }

  lemma FromEmpty(c: Config, i: nat)
    requires i < |c| && c[i].params == []
    ensures ConfigText(c[i..]) == McSerializeStr('g', c[i].name) + ConfigText(c[i + 1..])
    ensures ConfigText(c[i + 1..]) == "" <==> i + 1 == |c|
    ensures i + 1 < |c| ==> ConfigText(c[i + 1..])[0] == 'g'
  {
    hide McSerializeStr;
    assert c[i..][1..] == c[i + 1..];
    NoParams(ConfigText(c[i + 1..]));
  }

  lemma FrontOfEmpty(c: Config, i: nat)
    requires i < |c| && c[i].params == []
    ensures ConfigText(c[..i + 1]) == ConfigText(c[..i]) + McSerializeStr('g', c[i].name)
  {
    hide McSerializeStr;
    ConfigTextSplit(c[..i], [c[i]]);
    assert c[..i + 1] == c[..i] + [c[i]];
    assert [c[i]][1..] == [];
    NoParams("");
    NoGroups("");
    assert ConfigText([c[i]]) == McSerializeStr('g', c[i].name) + "";
  }

  lemma NoParams(rest: string)
    ensures ParamsText([]) + rest == rest
  {
  }

  lemma BadPrefix(name: string, c: Config, data: string, position: nat)
    requires data != "" && data[0] == 'g'
    ensures ReadFrom(WaitParam(name), c, data, position) == Err(ReadError(position + 1, WrongPrefix('p')))
  {
  }

  /** What is waited for behind groups that were written with their keys. */
  lemma ReadWritten(c: Config, rest: string) returns (before: Option<string>)
    requires Proper(c) && rest != "" && forall i :: 0 <= i < |c| ==> c[i].params != []
    ensures before.Some? <==> c != []
    ensures ReadFrom(WaitGroup(None), [], ConfigText(c) + rest, 0)
         == ReadFrom(WaitGroup(before), c, rest, |ConfigText(c)|)
  {
    hide ReadFrom, ConfigText, ProperGroup;
    assert [] + c == c;
    ReadGroups(None, [], c, rest, 0);
    NoGroups("");
    before := if c == [] then None else Some(c[|c| - 1].name);
  }

  lemma FailsHere(st: Status, c: Config, rest: string, position: nat)
    requires McDeserializeStr(Expected(Looked(st, rest)), rest).Err?
    ensures ReadFrom(st, c, rest, position)
         == Err(ReadError(position + 1, McDeserializeStr(Expected(Looked(st, rest)), rest).error))
  {
    hide McDeserializeStr;
  }

  lemma FailsBehindName(c: Config, name: string, rest: string)
    requires Proper(c) && rest != "" && forall i :: 0 <= i < |c| ==> c[i].params != []
    requires |name| <= LONG_MAX && McDeserializeStr('p', rest).Err?
    ensures var g := McSerializeStr('g', name);
            ReadFrom(WaitGroup(None), [], ConfigText(c) + (g + rest), 0) ==
            Err(ReadError(|ConfigText(c)| + |g| + 1, McDeserializeStr('p', rest).error))
  {
    hide ReadFrom, ConfigText, McDeserializeStr, McSerializeStr, ProperGroup, Proper;
    var n, g := |ConfigText(c)|, McSerializeStr('g', name);
    var before := ReadWritten(c, g + rest);
    ReadItem(WaitGroup(before), c, name, rest, n);
    FailsHere(WaitParam(name), c, rest, n + |g|);
  }

  lemma FailsBehindKey(c: Config, name: string, key: string, rest: string)
    requires Proper(c) && rest != "" && forall i :: 0 <= i < |c| ==> c[i].params != []
    requires |name| <= LONG_MAX && |key| <= LONG_MAX && McDeserializeStr('v', rest).Err?
    ensures var g, k := McSerializeStr('g', name), McSerializeStr('p', key);
            ReadFrom(WaitGroup(None), [], ConfigText(c) + (g + (k + rest)), 0) ==
            Err(ReadError(|ConfigText(c)| + |g| + |k| + 1, McDeserializeStr('v', rest).error))
  {
    hide ReadFrom, ConfigText, McDeserializeStr, McSerializeStr, ProperGroup, Proper;
    var n, g, k := |ConfigText(c)|, McSerializeStr('g', name), McSerializeStr('p', key);
    var before := ReadWritten(c, g + (k + rest));
    ReadItem(WaitGroup(before), c, name, k + rest, n);
    ReadItem(WaitParam(name), c, key, rest, n + |g|);
    FailsHere(WaitValue(name, key), c, rest, n + |g| + |k|);
  }

  /** Where reading fails: behind written groups, at what is neither a group nor a parameter of the last one;
      behind the name of a group, at what is not a parameter; behind that, at what is not a value. The place
      is counted from 1, and the error is the one of the string that was expected there. */
  lemma WhereItFails(c: Config, name: string, key: string, rest: string)
    requires Proper(c) && rest != "" && forall i :: 0 <= i < |c| ==> c[i].params != []
    requires |name| <= LONG_MAX && |key| <= LONG_MAX
    ensures var first := if c != [] && rest[0] == 'p' then 'p' else 'g';
            var e := McDeserializeStr(first, rest);
            e.Err? ==>
              ReadFrom(WaitGroup(None), [], ConfigText(c) + rest, 0) == Err(ReadError(|ConfigText(c)| + 1, e.error))
    ensures var g, e := McSerializeStr('g', name), McDeserializeStr('p', rest);
            e.Err? ==>
              ReadFrom(WaitGroup(None), [], ConfigText(c) + (g + rest), 0) ==
              Err(ReadError(|ConfigText(c)| + |g| + 1, e.error))
    ensures var g, k, e := McSerializeStr('g', name), McSerializeStr('p', key), McDeserializeStr('v', rest);
            e.Err? ==>
              ReadFrom(WaitGroup(None), [], ConfigText(c) + (g + (k + rest)), 0) ==
              Err(ReadError(|ConfigText(c)| + |g| + |k| + 1, e.error))
  {
    hide ReadFrom, ConfigText, McDeserializeStr, McSerializeStr, ProperGroup, Proper;
    var before := ReadWritten(c, rest);
    if McDeserializeStr(Expected(Looked(WaitGroup(before), rest)), rest).Err? {
      FailsHere(WaitGroup(before), c, rest, |ConfigText(c)|);
    }
    if McDeserializeStr('p', rest).Err? { FailsBehindName(c, name, rest); }
    if McDeserializeStr('v', rest).Err? { FailsBehindKey(c, name, key, rest); }
  }

  /** A text that ends behind the name of a group is no error; what came before is read. */
  lemma EndsAtName(c: Config, name: string)
    requires Proper(c) && (forall i :: 0 <= i < |c| ==> c[i].params != []) && |name| <= LONG_MAX
    ensures ReadFrom(WaitGroup(None), [], ConfigText(c) + McSerializeStr('g', name), 0) == Ok(c)
  {
    hide ReadFrom, ConfigText, McDeserializeStr, McSerializeStr, Proper;
    var g := McSerializeStr('g', name);
    assert g + "" == g;
    var before := ReadWritten(c, g);
    ReadItem(WaitGroup(before), c, name, "", |ConfigText(c)|);
  }

  /** Nor is one that ends behind a key. */
  lemma EndsAtKey(c: Config, name: string, key: string)
    requires Proper(c) && (forall i :: 0 <= i < |c| ==> c[i].params != [])
    requires |name| <= LONG_MAX && |key| <= LONG_MAX
    ensures var g, k := McSerializeStr('g', name), McSerializeStr('p', key);
            ReadFrom(WaitGroup(None), [], ConfigText(c) + (g + k), 0) == Ok(c)
  {
    hide ReadFrom, ConfigText, McDeserializeStr, McSerializeStr, Proper;
    var n, g, k := |ConfigText(c)|, McSerializeStr('g', name), McSerializeStr('p', key);
    assert k + "" == k;
    var before := ReadWritten(c, g + k);
    ReadItem(WaitGroup(before), c, name, k, n);
    ReadItem(WaitParam(name), c, key, "", n + |g|);
  }

  /** A configuration survives being written and read, in every character and in order, if and only if
      it is not empty and each of its groups has a key. */
  lemma RoundTrip(c: Config)
    requires Proper(c)
    ensures ReadFrom(WaitGroup(None), [], ConfigText(c), 0) == Ok(c) <==>
              c != [] && forall i :: 0 <= i < |c| ==> c[i].params != []
  {
    hide ReadFrom, ConfigText, FirstEmpty, Proper;
    if c == [] {
      NothingToRead();
    } else if FirstEmpty(c) < |c| {
      EmptyGroup(c);
    } else {
      assert ConfigText(c) + "" == ConfigText(c) && [] + c == c;
      ReadGroups(None, [], c, "", 0);
    }
  }

  lemma NothingToRead()
    ensures ReadFrom(WaitGroup(None), [], ConfigText([]), 0) == Err(ReadError(1, EmptyInput))
  {
  }
}
