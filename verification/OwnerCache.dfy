/** The cache of user names (lib/utilunix.c, i_cache_match, i_cache_add and get_owner): a ring of slots
    that are all zero at first. */
module OwnerCache {
  import opened Numbers
  import opened Wrappers

  const UID_CACHE_SIZE := 200
  const IBUF_SIZE := 10

  type Uid = x: int | 0 <= x < 0x1_0000_0000

  /** A uid_t converted to int. */
  function AsInt(uid: Uid): (n: int)
    ensures -0x8000_0000 <= n < 0x8000_0000
  {
    if uid >= 0x8000_0000 then uid - 0x1_0000_0000 else uid
  }

  /** A slot of the cache; a string may be NULL. */
  datatype Slot = Slot(index: int, text: Option<string>)

  const ZERO := Slot(0, None)

  // ----- the ring as a value -----

  datatype Ring = Ring(slots: seq<Slot>, last: nat)

  /** The string of the first slot with this index. */
  function Match(slots: seq<Slot>, id: int): Option<string> {
    if slots == [] then None
    else if slots[0].index == id then slots[0].text
    else Match(slots[1..], id)
  }

  function Add(r: Ring, id: int, text: string): Ring
    requires r.last < |r.slots|
  {
    Ring(r.slots[r.last := Slot(id, Some(text))], (r.last + 1) % |r.slots|)
  }

  /** What snprintf leaves of the number in the small buffer. */
  function NumberText(uid: Uid): string {
    var t := Signed(AsInt(uid));
    if |t| < IBUF_SIZE then t else t[..IBUF_SIZE - 1]
  }

  /** The name and what the query leaves behind. */
  function Query(r: Ring, db: map<Uid, string>, uid: Uid): (Ring, string)
    requires r.last < |r.slots|
  {
    match Match(r.slots, AsInt(uid))
    case Some(name) => (r, name)
    case None =>
      if uid in db then (Add(r, AsInt(uid), db[uid]), db[uid]) else (r, NumberText(uid))
  }

  // ----- the program -----

  class IntCache {
    const cache: array<Slot>
    var last: nat

    ghost predicate Valid()
      reads this, cache
    {
      last < cache.Length
    }

    ghost function Value(): Ring
      reads this, cache
    {
      Ring(cache[..], last)
    }

    constructor (size: nat)
      requires size > 0
      ensures Valid() && cache.Length == size && Value() == Fresh(size)
    {
      cache := new Slot[size](_ => ZERO);
      last := 0;
      new;
      assert cache[..] == seq(size, _ => ZERO);
    }

    method CacheMatch(id: int) returns (text: Option<string>)
      ensures text == Match(cache[..], id)
    {
      var i := 0;
      while i < cache.Length
        invariant 0 <= i <= cache.Length
        invariant Match(cache[..], id) == Match(cache[i..], id)
      {
        assert cache[i..][1..] == cache[i + 1..];
        if cache[i].index == id { return cache[i].text; }
        i := i + 1;
      }
      text := None;
    }

    method CacheAdd(id: int, text: string)
      requires Valid()
      modifies this, cache
      ensures Valid() && Value() == Add(old(Value()), id, text)
    {
      cache[last] := Slot(id, Some(text));
      last := (last + 1) % cache.Length;
    }

    /** The owner's name, from the cache or from the user database. */
    method GetOwner(db: map<Uid, string>, uid: Uid) returns (name: string)
      requires Valid()
      modifies this, cache
      ensures Valid() && (Value(), name) == Query(old(Value()), db, uid)
    {
      var known := CacheMatch(AsInt(uid));
      if known.Some? { return known.value; }
      if uid in db {
        CacheAdd(AsInt(uid), db[uid]);
        return db[uid];
      }
      var text := Signed(AsInt(uid));
      name := if |text| < IBUF_SIZE then text else text[..IBUF_SIZE - 1];
    }
  }

  // ----- what the cache keeps -----

  function Fresh(size: nat): Ring {
    Ring(seq(size, _ => ZERO), 0)
  }

  predicate Filled(s: Slot) {
    s.text.Some?
  }

  /** A filled slot has a user of the database with the right name. */
  ghost predicate Right(s: Slot, db: map<Uid, string>) {
    exists uid: Uid :: uid in db && s == Slot(AsInt(uid), Some(db[uid]))
  }

  /** The ring has not gone round: the slots from the last one on are zero. Or it has: none is. */
  ghost predicate RoundOrNot(r: Ring) {
    || (forall i :: 0 <= i < |r.slots| ==> (r.slots[i] == ZERO <==> i >= r.last))
    || (forall i :: 0 <= i < |r.slots| ==> r.slots[i] != ZERO)
  }

  ghost predicate AllRight(slots: seq<Slot>, db: map<Uid, string>) {
    forall i :: 0 <= i < |slots| ==> slots[i] == ZERO || Right(slots[i], db)
  }

  /** No two filled slots have the same index. */
  ghost predicate Apart(slots: seq<Slot>) {
    forall i, j :: 0 <= i < j < |slots| && Filled(slots[i]) && Filled(slots[j]) ==> slots[i].index != slots[j].index
  }

  ghost predicate Good(r: Ring, db: map<Uid, string>) {
    r.last < |r.slots| && RoundOrNot(r) && AllRight(r.slots, db) && Apart(r.slots)
  }

  lemma {:induction false} MatchIsFirst(slots: seq<Slot>, id: int)
    ensures Match(slots, id).Some? ==> exists i :: 0 <= i < |slots| && slots[i] == Slot(id, Match(slots, id))
    ensures Match(slots, id) == None ==>
              (forall i :: 0 <= i < |slots| ==> slots[i].index != id)
              || (exists i :: 0 <= i < |slots| && slots[i] == Slot(id, None)
                                && forall j :: 0 <= j < i ==> slots[j].index != id)
  {
    if slots == [] {
    } else {
      MatchIsFirst(slots[1..], id);
      if slots[0].index == id {
        assert slots[0] == Slot(id, slots[0].text);
      } else if Match(slots, id).Some? {
        var i :| 0 <= i < |slots[1..]| && slots[1..][i] == Slot(id, Match(slots, id));
        assert slots[i + 1] == Slot(id, Match(slots, id));
      } else if !(forall i :: 0 <= i < |slots[1..]| ==> slots[1..][i].index != id) {
        var i :| 0 <= i < |slots[1..]| && slots[1..][i] == Slot(id, None)
          && forall j :: 0 <= j < i ==> slots[1..][j].index != id;
        assert slots[i + 1] == Slot(id, None);
        assert forall j :: 0 < j < i + 1 ==> slots[j] == slots[1..][j - 1];
      } else {
        assert forall j :: 0 < j < |slots| ==> slots[j] == slots[1..][j - 1];
      }
    }
  }

  /** With no string found, no filled slot has the index: a zero slot that matches user 0 stands behind
      all filled ones. */
  lemma NoMatchNoSlot(r: Ring, db: map<Uid, string>, id: int)
    requires Good(r, db) && Match(r.slots, id) == None
    ensures forall i :: 0 <= i < |r.slots| && Filled(r.slots[i]) ==> r.slots[i].index != id
  {
    hide Match, Right;
    MatchIsFirst(r.slots, id);
    if !(forall i :: 0 <= i < |r.slots| ==> r.slots[i].index != id) {
      var i :| 0 <= i < |r.slots| && r.slots[i] == Slot(id, None) && forall j :: 0 <= j < i ==> r.slots[j].index != id;
      assert r.slots[i] == ZERO by { NotFilled(r.slots[i], db); }
    }
  }

  lemma NotFilled(s: Slot, db: map<Uid, string>)
    ensures Right(s, db) ==> Filled(s)
  {
  }

  lemma AddKeeps(r: Ring, db: map<Uid, string>, uid: Uid)
    requires Good(r, db) && uid in db
    requires forall i :: 0 <= i < |r.slots| && Filled(r.slots[i]) ==> r.slots[i].index != AsInt(uid)
    ensures Good(Add(r, AsInt(uid), db[uid]), db)
  {
    var s := Slot(AsInt(uid), Some(db[uid]));
    assert Right(s, db);
    hide Right, AsInt;
    AddRing(r, AsInt(uid), db[uid]);
    AddSlot(r.slots, r.last, s, db);
  }

  lemma AddRing(r: Ring, id: int, text: string)
    requires r.last < |r.slots| && RoundOrNot(r)
    ensures RoundOrNot(Add(r, id, text)) && Add(r, id, text).last < |r.slots|
  {
    var t := Add(r, id, text);
    assert t.last == if r.last + 1 < |r.slots| then r.last + 1 else 0;
    if forall i :: 0 <= i < |r.slots| ==> (r.slots[i] == ZERO <==> i >= r.last) {
      if r.last + 1 == |r.slots| {
        assert forall i :: 0 <= i < |t.slots| ==> t.slots[i] != ZERO;
      } else {
        assert forall i :: 0 <= i < |t.slots| ==> (t.slots[i] == ZERO <==> i >= t.last);
      }
    }
  }

  lemma AddSlot(slots: seq<Slot>, k: nat, s: Slot, db: map<Uid, string>)
    requires k < |slots| && AllRight(slots, db) && Apart(slots) && Right(s, db)
    requires forall i :: 0 <= i < |slots| && Filled(slots[i]) ==> slots[i].index != s.index
    ensures AllRight(slots[k := s], db) && Apart(slots[k := s])
  {
    hide Right;
  }

  /** A user of the database gets the name that stands there, any other the number. */
  function OwnerName(db: map<Uid, string>, uid: Uid): string {
    if uid in db then db[uid] else NumberText(uid)
  }

  /** Every query keeps the cache good and gives the owner's name, whatever is in the cache. */
  lemma QueryIsRight(r: Ring, db: map<Uid, string>, uid: Uid)
    requires Good(r, db)
    ensures Good(Query(r, db, uid).0, db)
    ensures Query(r, db, uid).1 == OwnerName(db, uid)
  {
    hide Match, NumberText, Right;
    var id := AsInt(uid);
    match Match(r.slots, id)
    case None =>
      NoMatchNoSlot(r, db, id);
      if uid in db { AddKeeps(r, db, uid); }
    case Some(name) =>
      MatchIsFirst(r.slots, id);
      var i :| 0 <= i < |r.slots| && r.slots[i] == Slot(id, Some(name));
      RightName(r.slots[i], db, uid);
  }

  lemma RightName(s: Slot, db: map<Uid, string>, uid: Uid)
    requires Right(s, db) && s.index == AsInt(uid)
    ensures uid in db && s.text == Some(db[uid])
  {
  }

  /** The answers to a sequence of queries. */
  function Answers(r: Ring, db: map<Uid, string>, uids: seq<Uid>): seq<string>
    requires r.last < |r.slots|
    decreases |uids|
  {
    if uids == [] then [] else [Query(r, db, uids[0]).1] + Answers(Query(r, db, uids[0]).0, db, uids[1..])
  }

  lemma {:induction false} AnswersFrom(r: Ring, db: map<Uid, string>, uids: seq<Uid>)
    requires Good(r, db)
    ensures |Answers(r, db, uids)| == |uids|
    ensures forall k :: 0 <= k < |uids| ==> Answers(r, db, uids)[k] == OwnerName(db, uids[k])
    decreases |uids|
  {
    hide Query, RoundOrNot, AllRight, Apart, OwnerName;
    if uids == [] {
    } else {
      QueryIsRight(r, db, uids[0]);
      AnswersFrom(Query(r, db, uids[0]).0, db, uids[1..]);
    }
  }

  /** Every sequence of queries gets the right names, also when the ring goes round and when user 0 meets
      slots that are still zero. */
  lemma EveryAnswerIsRight(db: map<Uid, string>, uids: seq<Uid>)
    ensures |Answers(Fresh(UID_CACHE_SIZE), db, uids)| == |uids|
    ensures forall k :: 0 <= k < |uids| ==> Answers(Fresh(UID_CACHE_SIZE), db, uids)[k] == OwnerName(db, uids[k])
  {
    hide Answers, OwnerName;
    AnswersFrom(Fresh(UID_CACHE_SIZE), db, uids);
  }

  /** The number of an unknown user is shown in full if and only if it has at most nine digits: a longer
      one is cut off, and from 2147483648 on it is taken for a negative one. */
  lemma NumberShownInFull(uid: Uid)
    ensures NumberText(uid) == Decimal(uid) <==> uid < 1_000_000_000
  {
    hide Decimal;
    assert Pow10(3) == 1000;
    assert Pow10(6) == 1_000_000;
    assert Pow10(9) == 1_000_000_000;
    DecimalLength(uid, 9);
    if uid >= 0x8000_0000 {
      assert NumberText(uid)[0] == '-';
      assert IsDigit(Decimal(uid)[0]);
    }
  }

  /** What is shown of any number: of one with ten digits the first nine, and of one that an int takes for negative
      the sign and at most eight digits. */
  lemma NumberShown(uid: Uid)
    ensures uid < 1_000_000_000 ==> NumberText(uid) == Decimal(uid)
    ensures 1_000_000_000 <= uid < 0x8000_0000 ==> NumberText(uid) == Decimal(uid / 10)
    ensures uid >= 0x8000_0000 ==>
              var d := Decimal(0x1_0000_0000 - uid); NumberText(uid) == "-" + if |d| <= 8 then d else d[..8]
  {
    hide Decimal;
    NumberShownInFull(uid);
    if 1_000_000_000 <= uid < 0x8000_0000 {
      TenDigits(uid);
      assert Decimal(uid)[..9] == Decimal(uid / 10);
    }
    if uid >= 0x8000_0000 {
      var d := Decimal(0x1_0000_0000 - uid);
      assert |d| > 8 ==> ("-" + d)[..9] == "-" + d[..8];
    }
  }

  lemma TenDigits(n: nat)
    requires 1_000_000_000 <= n < 0x1_0000_0000
    ensures |Decimal(n)| == 10 && Decimal(n) == Decimal(n / 10) + [DigitOf(n % 10)]
  {
    DecimalLength(n, 9);
    DecimalLength(n, 10);
    assert Pow10(3) == 1000;
    assert Pow10(6) == 1_000_000;
    assert Pow10(9) == 1_000_000_000;
    assert Pow10(10) == 10_000_000_000;
  }
}
