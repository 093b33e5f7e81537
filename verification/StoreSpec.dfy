/**
 The children of a JSON object as a row of used slots, some of which are holes.
 Every operation of the paged store acts on this row as given here, and the row
 is a finite map whose length is the largest number of pairs there ever was.
 */
module StoreSpec {
  import opened Json

  /** struct _fjson_child; a NULL key marks an empty slot. */
  datatype Slot = Slot(key: Option<string>, val: Value)

  const EMPTY := Slot(None, Null)

  predicate IsLive(s: Slot) {
    s.key.Some?
  }

  function Pairs(s: Slot): seq<Member> {
    if IsLive(s) then [Member(s.key.value, s.val)] else []
  }

  /** The pairs in slot order. */
  function Live(row: seq<Slot>): (ms: seq<Member>)
    ensures |ms| <= |row|
  {
    if row == [] then [] else Pairs(row[0]) + Live(row[1..])
  }

  /** The first slot with the key, or the length of the row. */
  function Find(row: seq<Slot>, key: string): (i: nat)
    ensures i <= |row|
    ensures i < |row| ==> row[i].key == Some(key)
    ensures forall j :: 0 <= j < i ==> row[j].key != Some(key)
  {
    if row == [] || row[0].key == Some(key) then 0 else 1 + Find(row[1..], key)
  }

  /** The first empty slot, or the length of the row. */
  function FirstHole(row: seq<Slot>): (i: nat)
    ensures i <= |row|
    ensures i < |row| ==> !IsLive(row[i])
    ensures forall j :: 0 <= j < i ==> IsLive(row[j])
  {
    if row == [] || !IsLive(row[0]) then 0 else 1 + FirstHole(row[1..])
  }

  /** A new pair goes into the first hole, or behind the last slot. */
  function Insert(row: seq<Slot>, key: string, val: Value): seq<Slot> {
    var i := FirstHole(row);
    if i < |row| then row[i := Slot(Some(key), val)] else row + [Slot(Some(key), val)]
  }

  /** fjson_object_object_add_ex; `isNew` is FJSON_OBJECT_ADD_KEY_IS_NEW. */
  function Add(row: seq<Slot>, key: string, val: Value, isNew: bool): seq<Slot> {
    var i := Find(row, key);
    if !isNew && i < |row| then row[i := Slot(Some(key), val)] else Insert(row, key, val)
  }

  /** fjson_object_object_del */
  function Del(row: seq<Slot>, key: string): seq<Slot> {
    var i := Find(row, key);
    if i < |row| then row[i := EMPTY] else row
  }

  // ----- what an operation touches -----

  /** Adding sets one slot and leaves all others as they are: the first slot with the key if
      there is one and it is searched for, otherwise the first hole, otherwise a new last slot. */
  lemma AddTouchesOne(row: seq<Slot>, key: string, val: Value, isNew: bool) returns (i: nat)
    ensures var r := Add(row, key, val, isNew);
      && i < |r| == (if i < |row| then |row| else |row| + 1) && i <= |row|
      && r[i] == Slot(Some(key), val) && (forall j :: 0 <= j < |row| && j != i ==> r[j] == row[j])
    ensures !isNew && (exists j :: 0 <= j < |row| && row[j].key == Some(key)) ==>
      i < |row| && row[i].key == Some(key) && forall j :: 0 <= j < i ==> row[j].key != Some(key)
    ensures isNew || (forall j :: 0 <= j < |row| ==> row[j].key != Some(key)) ==>
      (forall j :: 0 <= j < i ==> row[j].key.Some?) && (i < |row| ==> row[i].key.None?)
  {
    i := if !isNew && Find(row, key) < |row| then Find(row, key) else FirstHole(row);
  }

  /** Deleting empties the first slot with the key and leaves all others as they are. */
  lemma DelTouchesOne(row: seq<Slot>, key: string, i: nat)
    requires i < |row|
    ensures Del(row, key)[i] ==
      if row[i].key == Some(key) && (forall j :: 0 <= j < i ==> row[j].key != Some(key)) then Slot(None, Null)
      else row[i]
  {
  }

  // ----- the row as a map -----

  ghost predicate Distinct(row: seq<Slot>) {
    forall i, j :: 0 <= i < j < |row| && IsLive(row[i]) ==> row[i].key != row[j].key
  }

  ghost function Keys(row: seq<Slot>): set<string> {
    set i | 0 <= i < |row| && IsLive(row[i]) :: row[i].key.value
  }

  ghost function AsMap(row: seq<Slot>): map<string, Value> {
    map key | key in Keys(row) :: Lookup(row, key)
  }

  function Lookup(row: seq<Slot>, key: string): Value {
    var i := Find(row, key);
    if i < |row| then row[i].val else Null
  }

  lemma FindKey(row: seq<Slot>, key: string)
    ensures key in Keys(row) <==> Find(row, key) < |row|
  {
  }

  /** What setting one slot does to lookups. */
  lemma SetSlot(row: seq<Slot>, i: nat, key: string, val: Value)
    requires i < |row| && Distinct(row)
    requires row[i].key == Some(key) || (!IsLive(row[i]) && key !in Keys(row))
    ensures var r := row[i := Slot(Some(key), val)]; Distinct(r) && AsMap(r) == AsMap(row)[key := val]
  {
    var r := row[i := Slot(Some(key), val)];
    forall j | 0 <= j < |row| && j != i
      ensures row[j].key != Some(key)
    {
      assert IsLive(row[j]) ==> row[j].key.value in Keys(row);
    }
    forall k: string
      ensures k in Keys(r) <==> k == key || k in Keys(row)
      ensures k in Keys(r) ==> Lookup(r, k) == if k == key then val else Lookup(row, k)
    {
      FindKey(row, k);
      FindKey(r, k);
      SetFind(row, i, key, val, k);
    }
  }

  lemma SetFind(row: seq<Slot>, i: nat, key: string, val: Value, k: string)
    requires i < |row| && (row[i].key == Some(key) || !IsLive(row[i]))
    requires forall j :: 0 <= j < |row| && j != i ==> row[j].key != Some(key)
    ensures Find(row[i := Slot(Some(key), val)], k) == if k == key then i else Find(row, k)
  {
    var r, b := row[i := Slot(Some(key), val)], Find(row, k);
    FindIs(r, k, if k == key then i else b);
  }

  lemma FindIs(row: seq<Slot>, key: string, i: nat)
    requires i <= |row| && (i < |row| ==> row[i].key == Some(key))
    requires forall j :: 0 <= j < i ==> row[j].key != Some(key)
    ensures Find(row, key) == i
  {
  }

  lemma AppendSlot(row: seq<Slot>, key: string, val: Value)
    requires Distinct(row) && key !in Keys(row)
    ensures var r := row + [Slot(Some(key), val)]; Distinct(r) && AsMap(r) == AsMap(row)[key := val]
  {
    var padded := row + [EMPTY];
    assert padded[|row| := Slot(Some(key), val)] == row + [Slot(Some(key), val)];
    forall k: string
      ensures k in Keys(padded) <==> k in Keys(row)
      ensures k in Keys(row) ==> Lookup(padded, k) == Lookup(row, k)
    {
      assert forall i :: 0 <= i < |row| ==> padded[i] == row[i];
      FindKey(row, k);
      FindKey(padded, k);
    }
    assert AsMap(padded) == AsMap(row);
    SetSlot(padded, |row|, key, val);
  }

  /** Adding a pair updates the map, wherever the pair is put. */
  lemma AddUpdatesMap(row: seq<Slot>, key: string, val: Value, isNew: bool)
    requires Distinct(row) && (isNew ==> key !in AsMap(row))
    ensures var r := Add(row, key, val, isNew); Distinct(r) && AsMap(r) == AsMap(row)[key := val]
  {
    FindKey(row, key);
    var i, h := Find(row, key), FirstHole(row);
    if i < |row| {
      SetSlot(row, i, key, val);
    } else if h < |row| {
      SetSlot(row, h, key, val);
    } else {
      AppendSlot(row, key, val);
    }
  }

  /** The option that skips the search keeps keys distinct exactly when it is used as documented. */
  lemma AddNewIsSafe(row: seq<Slot>, key: string, val: Value)
    requires Distinct(row)
    ensures Distinct(Add(row, key, val, true)) <==> key !in AsMap(row)
  {
    FindKey(row, key);
    if key !in AsMap(row) {
      AddUpdatesMap(row, key, val, true);
    } else {
      var r := Add(row, key, val, true);
      var i, h := Find(row, key), FirstHole(row);
      assert i != h && r[i].key == r[h].key == Some(key);
    }
  }

  lemma DelFind(row: seq<Slot>, key: string, k: string)
    requires Distinct(row)
    ensures Find(Del(row, key), k) == if k == key then |row| else Find(row, k)
  {
    var r, i := Del(row, key), Find(row, key);
    if i < |row| {
      assert forall j :: 0 <= j < |row| && j != i ==> r[j] == row[j] && row[j].key != Some(key);
    }
    FindIs(r, k, if k == key then |row| else Find(row, k));
  }

  lemma DelKey(row: seq<Slot>, key: string, k: string)
    requires Distinct(row)
    ensures var r := Del(row, key);
      && (k in Keys(r) <==> k in Keys(row) && k != key)
      && (k in Keys(r) ==> Lookup(r, k) == Lookup(row, k))
  {
    hide Keys, Distinct;
    FindKey(row, k);
    FindKey(Del(row, key), k);
    DelFind(row, key, k);
  }

  lemma DelDistinct(row: seq<Slot>, key: string)
    requires Distinct(row)
    ensures Distinct(Del(row, key))
  {
    hide Find;
  }

  /** Deleting a key removes it from the map and leaves everything else alone. */
  lemma DelRemoves(row: seq<Slot>, key: string)
    requires Distinct(row)
    ensures var r := Del(row, key); Distinct(r) && AsMap(r) == AsMap(row) - {key}
  {
    hide Keys, Distinct, Lookup, Del;
    DelDistinct(row, key);
    forall k: string
      ensures k in Keys(Del(row, key)) <==> k in Keys(row) && k != key
      ensures k in Keys(Del(row, key)) ==> Lookup(Del(row, key), k) == Lookup(row, k)
    {
      DelKey(row, key, k);
    }
  }

  // ----- counting -----

  lemma {:induction false} LiveAppend(a: seq<Slot>, b: seq<Slot>)
    ensures Live(a + b) == Live(a) + Live(b)
  {
    if a == [] {
      assert a + b == b;
    } else {
      assert (a + b)[0] == a[0] && (a + b)[1..] == a[1..] + b;
      LiveAppend(a[1..], b);
    }
  }

  lemma LiveSet(row: seq<Slot>, i: nat, s: Slot)
    requires i < |row|
    ensures Live(row) == Live(row[..i]) + Live([row[i]]) + Live(row[i + 1..])
    ensures Live(row[i := s]) == Live(row[..i]) + Live([s]) + Live(row[i + 1..])
  {
    assert row == row[..i] + [row[i]] + row[i + 1..];
    LiveAppend(row[..i] + [row[i]], row[i + 1..]);
    LiveAppend(row[..i], [row[i]]);
    assert row[i := s] == row[..i] + [s] + row[i + 1..];
    LiveAppend(row[..i] + [s], row[i + 1..]);
    LiveAppend(row[..i], [s]);
  }

  /** A row without holes is as long as its list of pairs, and the other way round. */
  lemma {:induction false} NoHoles(row: seq<Slot>)
    ensures FirstHole(row) == |row| <==> |Live(row)| == |row|
  {
    if row != [] {
      NoHoles(row[1..]);
    }
  }

  /** How the number of pairs and the number of slots change. */
  lemma AddCounts(row: seq<Slot>, key: string, val: Value, isNew: bool)
    ensures var r := Add(row, key, val, isNew);
      if !isNew && Find(row, key) < |row| then |r| == |row| && |Live(r)| == |Live(row)|
      else |Live(r)| == |Live(row)| + 1 && |r| == if |Live(row)| < |row| then |row| else |row| + 1
  {
    var i, h := Find(row, key), FirstHole(row);
    NoHoles(row);
    if !isNew && i < |row| {
      LiveSet(row, i, Slot(Some(key), val));
    } else if h < |row| {
      LiveSet(row, h, Slot(Some(key), val));
    } else {
      LiveAppend(row, [Slot(Some(key), val)]);
    }
  }

  lemma AddSkips(row: seq<Slot>, key: string, val: Value)
    requires row != [] && IsLive(row[0]) && row[0].key != Some(key)
    ensures Add(row, key, val, false) == [row[0]] + Add(row[1..], key, val, false)
  {
  }

  /** As long as nothing was deleted, the pairs are kept in the order in which they
      were added: this is the object that the tokener builds. */
  lemma {:induction false} AddKeepsOrder(row: seq<Slot>, key: string, val: Value)
    requires FirstHole(row) == |row|
    ensures Live(Add(row, key, val, false)) == AddMember(Live(row), key, val)
  {
    var r, s := Add(row, key, val, false), Slot(Some(key), val);
    if row == [] {
      assert r == [s];
    } else {
      var rest := row[1..];
      assert Live(row) == [Member(row[0].key.value, row[0].val)] + Live(rest);
      assert Live(row)[1..] == Live(rest);
      if row[0].key == Some(key) {
        assert r == [s] + rest;
      } else {
        AddKeepsOrder(rest, key, val);
        AddSkips(row, key, val);
      }
    }
  }

  lemma DelCounts(row: seq<Slot>, key: string)
    ensures var r := Del(row, key);
      |r| == |row| && |Live(r)| == |Live(row)| - if Find(row, key) < |row| then 1 else 0
  {
  }

  lemma KeysCons(row: seq<Slot>)
    requires row != [] && Distinct(row)
    ensures Distinct(row[1..])
    ensures Keys(row) == Keys(row[1..]) + (if IsLive(row[0]) then {row[0].key.value} else {})
    ensures IsLive(row[0]) ==> row[0].key.value !in Keys(row[1..])
  {
  }

  lemma {:induction false} LiveCountsKeys(row: seq<Slot>)
    requires Distinct(row)
    ensures |Live(row)| == |AsMap(row)|
  {
    hide Distinct, Keys, Lookup;
    assert AsMap(row).Keys == Keys(row);
    if row == [] {
      EmptyRow();
    } else {
      KeysCons(row);
      LiveCountsKeys(row[1..]);
      assert AsMap(row[1..]).Keys == Keys(row[1..]);
    }
  }

  // ----- whole runs -----

  datatype Op = AddOp(key: string, val: Value, isNew: bool) | DelOp(key: string)

  function ApplyOp(row: seq<Slot>, op: Op): seq<Slot> {
    match op
    case AddOp(key, val, isNew) => Add(row, key, val, isNew)
    case DelOp(key) => Del(row, key)
  }

  function MapOp(m: map<string, Value>, op: Op): map<string, Value> {
    match op
    case AddOp(key, val, _) => m[key := val]
    case DelOp(key) => m - {key}
  }

  function RunOps(row: seq<Slot>, ops: seq<Op>): seq<Slot> {
    if ops == [] then row else ApplyOp(RunOps(row, ops[..|ops| - 1]), ops[|ops| - 1])
  }

  function RunMap(ops: seq<Op>): map<string, Value> {
    if ops == [] then map[] else MapOp(RunMap(ops[..|ops| - 1]), ops[|ops| - 1])
  }

  /** The largest number of pairs the map ever held. */
  function Peak(ops: seq<Op>): nat {
    if ops == [] then 0 else
    var p, n := Peak(ops[..|ops| - 1]), |RunMap(ops)|;
    if p < n then n else p
  }

  /** FJSON_OBJECT_ADD_KEY_IS_NEW is only used with keys that are not there. */
  ghost predicate Legal(ops: seq<Op>) {
    ops == [] ||
    var last, before := ops[|ops| - 1], ops[..|ops| - 1];
    Legal(before) && (last.AddOp? && last.isNew ==> last.key !in RunMap(before))
  }

  /** After every run the row is the map, and it has as many slots as the map ever had pairs. */
  lemma {:induction false} RunIsMap(ops: seq<Op>)
    requires Legal(ops)
    ensures var row := RunOps([], ops);
      Distinct(row) && AsMap(row) == RunMap(ops) && |Live(row)| == |RunMap(ops)| && |row| == Peak(ops)
  {
    hide Live, Add, Del, Distinct, AsMap;
    if ops == [] {
      EmptyRow();
    } else {
      var before, op := ops[..|ops| - 1], ops[|ops| - 1];
      RunIsMap(before);
      var row := RunOps([], before);
      match op {
        case AddOp(key, val, isNew) =>
          AddUpdatesMap(row, key, val, isNew);
          AddCounts(row, key, val, isNew);
        case DelOp(key) =>
          DelRemoves(row, key);
          DelCounts(row, key);
      }
      LiveCountsKeys(ApplyOp(row, op));
      PeakBounds(before);
    }
  }

  lemma EmptyRow()
    ensures Distinct([]) && AsMap([]) == map[] && Live([]) == []
  {
    assert AsMap([]) == map[];
  }

  lemma {:induction false} PeakBounds(ops: seq<Op>)
    ensures |RunMap(ops)| <= Peak(ops)
  {
  }
}
