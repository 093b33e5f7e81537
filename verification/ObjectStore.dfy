/**
 The child store of a JSON object: pages of eight slots with holes, and the
 counting iterator that walks them.  Every operation is proved against the row
 of slots of StoreSpec.
 */
module ObjectStore {
  import opened Json
  import opened StoreSpec

  const PAGE_SIZE: nat := 8 // FJSON_OBJECT_CHLD_PG_SIZE

  type Page = p: seq<Slot> | |p| == PAGE_SIZE witness seq(PAGE_SIZE, _ => EMPTY)

  const BLANK_PAGE: Page := seq(PAGE_SIZE, _ => EMPTY)

  /** All slots in page order. */
  function Flat(pages: seq<Page>): (row: seq<Slot>)
    ensures |row| == PAGE_SIZE * |pages|
  {
    seq(PAGE_SIZE * |pages|, (k: nat) requires k < PAGE_SIZE * |pages| => pages[k / PAGE_SIZE][k % PAGE_SIZE])
  }

  lemma FlatAt(pages: seq<Page>, p: nat, i: nat)
    requires p < |pages| && i < PAGE_SIZE
    ensures Flat(pages)[PAGE_SIZE * p + i] == pages[p][i]
  {
  }

  function PagesFor(used: nat): nat {
    if used == 0 then 1 else (used + PAGE_SIZE - 1) / PAGE_SIZE
  }

  /** The first `used` slots. */
  function Used(pages: seq<Page>, used: nat): seq<Slot> {
    if used <= PAGE_SIZE * |pages| then Flat(pages)[..used] else []
  }

  /** No other slot holds a pair. */
  ghost predicate Vacant(pages: seq<Page>, used: nat) {
    forall i :: used <= i < PAGE_SIZE * |pages| ==> !IsLive(Flat(pages)[i])
  }

  function SetAt(pages: seq<Page>, p: nat, i: nat, s: Slot): seq<Page>
    requires p < |pages| && i < PAGE_SIZE
  {
    pages[p := pages[p][i := s]]
  }

  lemma FlatSet(pages: seq<Page>, p: nat, i: nat, s: Slot)
    requires p < |pages| && i < PAGE_SIZE
    ensures Flat(SetAt(pages, p, i, s)) == Flat(pages)[PAGE_SIZE * p + i := s]
  {
  }

  /** Writing to a used slot changes that slot of the row. */
  lemma UsedSet(pages: seq<Page>, used: nat, p: nat, i: nat, s: Slot)
    requires p < |pages| && i < PAGE_SIZE && PAGE_SIZE * p + i < used && |pages| == PagesFor(used)
    ensures Used(SetAt(pages, p, i, s), used) == Used(pages, used)[PAGE_SIZE * p + i := s]
    ensures Vacant(pages, used) ==> Vacant(SetAt(pages, p, i, s), used)
  {
    hide Flat, SetAt;
    FlatSet(pages, p, i, s);
    assert |SetAt(pages, p, i, s)| == |pages| by { SetAtSize(pages, p, i, s); }
  }

  lemma SetAtSize(pages: seq<Page>, p: nat, i: nat, s: Slot)
    requires p < |pages| && i < PAGE_SIZE
    ensures |SetAt(pages, p, i, s)| == |pages|
  {
  }

  /** Writing to the slot behind the row makes the row longer. */
  lemma UsedExtend(pages: seq<Page>, used: nat, p: nat, i: nat, s: Slot)
    requires p < |pages| && i < PAGE_SIZE && PAGE_SIZE * p + i == used && |pages| == PagesFor(used + 1)
    ensures Used(SetAt(pages, p, i, s), used + 1) == Used(pages, used) + [s]
    ensures Vacant(pages, used) ==> Vacant(SetAt(pages, p, i, s), used + 1)
  {
    hide Flat, SetAt;
    FlatSet(pages, p, i, s);
    assert |SetAt(pages, p, i, s)| == |pages| by { SetAtSize(pages, p, i, s); }
  }

  lemma UsedNewPage(pages: seq<Page>, used: nat)
    requires |pages| == PagesFor(used) && used == PAGE_SIZE * |pages|
    ensures Used(pages + [BLANK_PAGE], used) == Used(pages, used) && Vacant(pages + [BLANK_PAGE], used)
    ensures |pages| + 1 == PagesFor(used + 1)
  {
  }

  lemma {:induction false} NoneLive(row: seq<Slot>)
    ensures Live(row) == [] <==> forall i :: 0 <= i < |row| ==> !IsLive(row[i])
  {
    if row != [] {
      NoneLive(row[1..]);
      assert row == [row[0]] + row[1..];
    }
  }

  /** The slots i..j hold nothing. */
  ghost predicate Hollow(row: seq<Slot>, i: nat, j: nat) {
    i <= j <= |row| && forall k :: i <= k < j ==> !IsLive(row[k])
  }

  lemma HollowEnd(row: seq<Slot>, i: nat)
    requires i <= |row| && Live(row[i..]) == []
    ensures Hollow(row, i, |row|)
  {
    NoneLive(row[i..]);
    assert forall j :: i <= j < |row| ==> row[j] == row[i..][j - i];
  }

  lemma HollowMore(row: seq<Slot>, i: nat, j: nat)
    requires i < |row| && !IsLive(row[i]) && Hollow(row, i + 1, j)
    ensures Hollow(row, i, j)
  {
  }

  lemma HollowNothing(row: seq<Slot>, i: nat)
    requires i <= |row|
    ensures Hollow(row, i, i)
  {
  }

  lemma LiveFrom(row: seq<Slot>, i: nat)
    requires i < |row|
    ensures Live(row[i..]) == Pairs(row[i]) + Live(row[i + 1..])
  {
    assert row[i..][1..] == row[i + 1..];
  }

  /** struct fjson_object_iterator */
  class Iterator {
    var objsRemain: nat
    var currIdx: nat
    var pg: Option<nat>

    ghost function Index(): nat
      reads this
    {
      PAGE_SIZE * (if pg.Some? then pg.value else 0) + currIdx
    }

    /** The iterator stands on a slot of the row and counts `ahead` more pairs behind it. */
    ghost predicate On(row: seq<Slot>, ahead: nat)
      reads this
    {
      pg.Some? && currIdx < PAGE_SIZE && Index() < |row| && |Live(row[Index() + 1..])| == ahead
    }

    /** The iterator stands on a pair, or at the end. */
    ghost predicate Ready(row: seq<Slot>)
      reads this
    {
      objsRemain > 0 ==> On(row, objsRemain - 1) && IsLive(row[Index()])
    }

    /** The slots before this position have been passed. */
    ghost function Position(row: seq<Slot>): nat
      reads this
    {
      if objsRemain == 0 then |row| else Index()
    }

    /** fjson_object_iter_end */
    constructor End()
      ensures objsRemain == 0
    {
      objsRemain, currIdx, pg := 0, 0, None;
    }

    /** fjson_object_iter_begin */
    constructor Begin(obj: Object)
      requires obj.Valid()
      ensures Ready(obj.Row()) && Hollow(obj.Row(), 0, Position(obj.Row()))
    {
      objsRemain, currIdx, pg := obj.nelem, 0, None;
      new;
      hide Object.Row, Object.Valid, Live, Flat;
      ghost var row := obj.Row();
      obj.RowSize();
      assert row[0..] == row;
      if objsRemain > 0 {
        pg := Some(0);
        LiveFrom(row, 0);
        obj.SlotOf(0, 0);
        if !IsLive(obj.pages[0][0]) {
          objsRemain := objsRemain + 1;
          Next(obj);
          HollowMore(row, 0, Position(row));
        }
      } else {
        HollowEnd(row, 0);
      }
    }

    /** ++curr_idx, or on to the next page. */
    method Step()
      requires pg.Some? && currIdx < PAGE_SIZE
      modifies this`currIdx, this`pg
      ensures pg.Some? && currIdx < PAGE_SIZE && Index() == old(Index()) + 1
    {
      currIdx := currIdx + 1;
      if currIdx == PAGE_SIZE {
        pg := Some(pg.value + 1);
        currIdx := 0;
      }
    }

    /** fjson_object_iter_next: steps over holes by calling itself. */
    method Next(obj: Object)
      requires obj.Valid()
      requires objsRemain > 0 ==> On(obj.Row(), objsRemain - 1)
      modifies this
      ensures Ready(obj.Row())
      ensures old(objsRemain) > 0 ==> Hollow(obj.Row(), old(Index()) + 1, Position(obj.Row()))
      ensures old(objsRemain) == 0 ==> objsRemain == 0
      decreases |obj.Row()| - Index()
    {
      hide Object.Row, Object.Valid, Live, Flat, Hollow;
      if objsRemain > 0 {
        ghost var row, i := obj.Row(), Index() + 1;
        objsRemain := objsRemain - 1;
        if objsRemain > 0 {
          LiveFrom(row, i);
          Step();
          obj.SlotOf(pg.value, currIdx);
          if !IsLive(obj.pages[pg.value][currIdx]) {
            objsRemain := objsRemain + 1;
            Next(obj);
            HollowMore(row, i, Position(row));
          } else {
            HollowNothing(row, i);
          }
        } else {
          HollowEnd(row, i);
        }
      }
    }

    /** fjson_object_iter_equal */
    method Equal(other: Iterator) returns (eq: bool)
      ensures eq <==>
        objsRemain == other.objsRemain && (objsRemain == 0 || (currIdx == other.currIdx && pg == other.pg))
    {
      if objsRemain == other.objsRemain {
        if objsRemain == 0 {
          eq := true;
        } else {
          eq := currIdx == other.currIdx && pg == other.pg;
        }
      } else {
        eq := false;
      }
    }
  }

  class Object {
    var pages: seq<Page>
    var nelem: nat
    var ndeleted: nat

    /** The slots in use. */
    ghost function Row(): seq<Slot>
      reads this
    {
      Used(pages, nelem + ndeleted)
    }

    ghost predicate Valid()
      reads this
    {
      && |pages| == PagesFor(nelem + ndeleted)
      && Vacant(pages, nelem + ndeleted)
      && |Live(Row())| == nelem
    }

    lemma SlotOf(p: nat, i: nat)
      requires Valid() && i < PAGE_SIZE && PAGE_SIZE * p + i < |Row()|
      ensures p < |pages| && Row()[PAGE_SIZE * p + i] == pages[p][i]
    {
      FlatAt(pages, p, i);
    }

    /** fjson_object_new_object */
    constructor ()
      ensures Valid() && Row() == [] && |pages| == 1
    {
      pages, nelem, ndeleted := [BLANK_PAGE], 0, 0;
    }

    /** _fjson_find_child, with case-sensitive comparison: page and index of the slot. */
    method FindChild(key: string) returns (found: bool, p: nat, i: nat)
      requires Valid()
      ensures found <==> Find(Row(), key) < |Row()|
      ensures found ==> p < |pages| && i < PAGE_SIZE && PAGE_SIZE * p + i == Find(Row(), key)
    {
      hide Row, Valid, Live, Find;
      ghost var row := Row();
      var it := new Iterator.Begin(this);
      var itEnd := new Iterator.End();
      found, p, i := false, 0, 0;
      var done := it.Equal(itEnd);
      while !done
        invariant it.Ready(row) && it.Position(row) <= |row| && fresh(it) && done == (it.objsRemain == 0)
        invariant itEnd.objsRemain == 0 && itEnd != it
        invariant forall j :: 0 <= j < it.Position(row) ==> row[j].key != Some(key)
        decreases |row| - it.Position(row)
      {
        p, i := it.pg.value, it.currIdx;
        SlotOf(p, i);
        if pages[p][i].key == Some(key) {
          FindIs(row, key, it.Index());
          return true, p, i;
        }
        it.Next(this);
        done := it.Equal(itEnd);
      }
      FindIs(row, key, |row|);
    }

    /** The page and index of the first hole; there is one. */
    method FindHole() returns (p: nat, i: nat)
      requires Valid() && ndeleted > 0
      ensures p < |pages| && i < PAGE_SIZE && PAGE_SIZE * p + i == FirstHole(Row()) < |Row()|
    {
      ghost var row := Row();
      NoHoles(row);
      RowSize();
      hide Row, Valid, Live;
      p := 0;
      while true
        invariant p <= |pages| && PAGE_SIZE * p <= FirstHole(row)
        decreases |pages| - p
      {
        i := 0;
        while i < PAGE_SIZE
          invariant i <= PAGE_SIZE && PAGE_SIZE * p + i <= FirstHole(row)
        {
          SlotOf(p, i);
          if !IsLive(pages[p][i]) {
            return;
          }
          i := i + 1;
        }
        p := p + 1;
      }
    }

    /** fjson_child_get_empty_etry: the first hole, or the next slot of the last page. */
    method GetEmptyEntry() returns (p: nat, i: nat)
      requires Valid()
      modifies this
      ensures p < |pages| && i < PAGE_SIZE && nelem == old(nelem)
      ensures PAGE_SIZE * p + i == FirstHole(old(Row()))
      ensures ndeleted == if old(ndeleted) > 0 then old(ndeleted) - 1 else 0
      ensures |pages| == PagesFor(nelem + ndeleted + 1)
      ensures var used := old(nelem + ndeleted); Used(pages, used) == old(Row()) && Vacant(pages, used)
    {
      hide Live, Flat;
      NoHoles(Row());
      if ndeleted > 0 {
        p, i := FindHole();
        ndeleted := ndeleted - 1;
        return;
      }
      i := nelem % PAGE_SIZE;
      if nelem > 0 && i == 0 {
        UsedNewPage(pages, nelem);
        pages := pages + [BLANK_PAGE];
      }
      p := |pages| - 1;
    }

    /** fjson_object_object_add_ex */
    method AddEx(key: string, val: Value, isNew: bool)
      requires Valid()
      modifies this
      ensures Valid() && Row() == Add(old(Row()), key, val, isNew)
    {
      hide Live, Flat, Find, FirstHole, Used, Vacant, SetAt;
      ghost var row, used := Row(), nelem + ndeleted;
      AddCounts(row, key, val, isNew);
      RowSize();
      var found, p, i := false, 0, 0;
      if !isNew {
        found, p, i := FindChild(key);
      }
      if found {
        SlotOf(p, i);
        UsedSet(pages, used, p, i, pages[p][i].(val := val));
        SetSlotAt(p, i, pages[p][i].(val := val));
      } else {
        p, i := GetEmptyEntry();
        if PAGE_SIZE * p + i < used {
          UsedSet(pages, used, p, i, Slot(Some(key), val));
        } else {
          UsedExtend(pages, used, p, i, Slot(Some(key), val));
        }
        SetSlotAt(p, i, Slot(Some(key), val));
        nelem := nelem + 1;
      }
    }

    method SetSlotAt(p: nat, i: nat, s: Slot)
      requires p < |pages| && i < PAGE_SIZE
      modifies this`pages
      ensures pages == SetAt(old(pages), p, i, s) && |pages| == |old(pages)|
    {
      pages := pages[p := pages[p][i := s]];
    }

    lemma RowSize()
      requires Valid()
      ensures |Row()| == nelem + ndeleted && |Live(Row())| == nelem
    {
    }

    /** fjson_object_object_del */
    method Remove(key: string)
      requires Valid()
      modifies this
      ensures Valid() && Row() == Del(old(Row()), key) && |pages| == |old(pages)|
    {
      ghost var row := Row();
      hide Live, Flat, Find, Used, Vacant, SetAt;
      DelCounts(row, key);
      RowSize();
      var found, p, i := FindChild(key);
      if found {
        UsedSet(pages, nelem + ndeleted, p, i, EMPTY);
        SetSlotAt(p, i, EMPTY);
        nelem := nelem - 1;
        ndeleted := ndeleted + 1;
      }
    }

    /** fjson_object_object_get_ex */
    method Get(key: string) returns (value: Option<Value>)
      requires Valid()
      ensures value == if key in AsMap(Row()) then Some(AsMap(Row())[key]) else None
    {
      FindKey(Row(), key);
      var found, p, i := FindChild(key);
      value := None;
      if found {
        SlotOf(p, i);
        value := Some(pages[p][i].val);
      }
    }

    /** The loop of every user of the iterator: each pair is visited exactly once, in slot order. */
    method Iterate() returns (visited: seq<Member>)
      requires Valid()
      ensures visited == Live(Row())
    {
      hide Row, Valid, Live, Distinct;
      ghost var row := Row();
      var it := new Iterator.Begin(this);
      var itEnd := new Iterator.End();
      visited := [];
      SkipHoles(row, 0, it.Position(row));
      assert row[0..] == row;
      var done := it.Equal(itEnd);
      while !done
        invariant it.Ready(row) && it.Position(row) <= |row| && fresh(it) && done == (it.objsRemain == 0)
        invariant itEnd.objsRemain == 0 && itEnd != it
        invariant visited + Live(row[it.Position(row)..]) == Live(row)
        decreases |row| - it.Position(row)
      {
        ghost var i := it.Index();
        LiveFrom(row, i);
        SlotOf(it.pg.value, it.currIdx);
        var s := pages[it.pg.value][it.currIdx];
        visited := visited + [Member(s.key.value, s.val)];
        it.Next(this);
        SkipHoles(row, i + 1, it.Position(row));
        done := it.Equal(itEnd);
      }
    }
  }

  lemma {:induction false} SkipHoles(row: seq<Slot>, i: nat, j: nat)
    requires Hollow(row, i, j)
    ensures Live(row[i..]) == Live(row[j..])
    decreases j - i
  {
    if i < j {
      LiveFrom(row, i);
      SkipHoles(row, i + 1, j);
    }
  }

  /** Any run of operations on a new object. */
  method RunAll(ops: seq<Op>) returns (obj: Object)
    requires Legal(ops)
    ensures fresh(obj) && obj.Valid() && Distinct(obj.Row()) && AsMap(obj.Row()) == RunMap(ops)
    ensures obj.nelem == |RunMap(ops)| && obj.nelem + obj.ndeleted == Peak(ops)
    ensures |obj.pages| == PagesFor(Peak(ops))
  {
    hide Live, Add, Del, Distinct, AsMap, Legal, RunMap, Peak;
    obj := new Object();
    var i := 0;
    while i < |ops|
      invariant i <= |ops| && fresh(obj) && obj.Valid() && obj.Row() == RunOps([], ops[..i])
    {
      assert ops[..i + 1][..i] == ops[..i];
      match ops[i] {
        case AddOp(key, val, isNew) => obj.AddEx(key, val, isNew);
        case DelOp(key) => obj.Remove(key);
      }
      i := i + 1;
    }
    assert ops[..|ops|] == ops;
    RunIsMap(ops);
  }
}
