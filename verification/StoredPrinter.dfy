/** Printing an object straight from its pages, as json_object.c does it. */
module StoredPrinter {
  import opened Json
  import opened PrintSpec
  import opened StoreSpec
  import opened ObjectStore
  import opened Printer

  /** The member at which the iterator stands. */
  lemma {:induction false} CurrentMember(row: seq<Slot>, i: nat, visited: seq<Member>)
    requires i < |row| && IsLive(row[i]) && visited + Live(row[i..]) == Live(row)
    ensures |visited| < |Live(row)| && Live(row)[|visited|] == Member(row[i].key.value, row[i].val)
    ensures visited + [Live(row)[|visited|]] + Live(row[i + 1..]) == Live(row)
  {
    LiveFrom(row, i);
  }

  /** One round of the loop over the members. */
  method PrintCurrent(pb: PrintBuf, obj: Object, it: Iterator, hadChildren: bool, level: nat, f: Flags,
      ghost visited: seq<Member>)
    requires obj.Valid() && it.objsRemain > 0 && it.Ready(obj.Row())
    requires visited + Live(obj.Row()[it.Position(obj.Row())..]) == Live(obj.Row()) && hadChildren == (visited != [])
    modifies pb, it
    ensures it.Ready(obj.Row()) && old(it.Position(obj.Row())) < it.Position(obj.Row()) <= |obj.Row()|
    ensures |visited| < |Live(obj.Row())|
    ensures visited + [Live(obj.Row())[|visited|]] + Live(obj.Row()[it.Position(obj.Row())..]) == Live(obj.Row())
    ensures pb.buf + MembersText(Live(obj.Row()), |visited| + 1, level, f)
      == old(pb.buf) + MembersText(Live(obj.Row()), |visited|, level, f)
  {
    hide Object.Row, Object.Valid, Live, MembersText, MemberText, Lead, Tail, Flat;
    ghost var row, i := obj.Row(), it.Index();
    ghost var ms := Live(row);
    CurrentMember(row, i, visited);
    obj.SlotOf(it.pg.value, it.currIdx);
    var s := obj.pages[it.pg.value][it.currIdx];
    NextMember(pb.buf, ms, |visited|, level, f);
    pb.StartChild(hadChildren, level, f);
    pb.PrintMember(Member(s.key.value, s.val), level, f);
    it.Next(obj);
    SkipHoles(row, i + 1, it.Position(row));
  }

  /** The loop over the iterator. */
  method PrintMembers(pb: PrintBuf, obj: Object, level: nat, f: Flags) returns (hadChildren: bool)
    requires obj.Valid()
    modifies pb
    ensures pb.buf == old(pb.buf) + MembersText(Live(obj.Row()), 0, level, f)
    ensures hadChildren == (Live(obj.Row()) != [])
  {
    hide Object.Row, Object.Valid, Live, MembersText, MemberText, Lead, Tail, Flat, Text;
    ghost var row, ms := obj.Row(), Live(obj.Row());
    var it := new Iterator.Begin(obj);
    var itEnd := new Iterator.End();
    ghost var visited: seq<Member> := [];
    SkipHoles(row, 0, it.Position(row));
    assert row[0..] == row;
    hadChildren := false;
    var done := it.Equal(itEnd);
    while !done
      invariant it.Ready(row) && it.Position(row) <= |row| && fresh(it) && done == (it.objsRemain == 0)
      invariant itEnd.objsRemain == 0 && itEnd != it
      invariant visited + Live(row[it.Position(row)..]) == ms && hadChildren == (visited != []) && |visited| <= |ms|
      invariant pb.buf + MembersText(ms, |visited|, level, f) == old(pb.buf) + MembersText(ms, 0, level, f)
      decreases |row| - it.Position(row)
    {
      PrintCurrent(pb, obj, it, hadChildren, level, f, visited);
      hadChildren := true;
      visited := visited + [ms[|visited|]];
      done := it.Equal(itEnd);
    }
    AllVisited(row, visited);
    NoMoreMembers(ms, level, f);
  }

  /** fjson_object_object_to_json_string, on the pages: holes leave no trace in the text. */
  method PrintStored(pb: PrintBuf, obj: Object, level: nat, f: Flags)
    requires obj.Valid()
    modifies pb
    ensures pb.buf == old(pb.buf) + Text(Obj(Live(obj.Row())), level, f)
  {
    hide Object.Row, Object.Valid, Live, MembersText, MemberText, Lead, Tail, Flat;
    pb.Append("{");
    if f.pretty { pb.Append("\n"); }
    var hadChildren := PrintMembers(pb, obj, level, f);
    pb.Close(hadChildren, "}", level, f);
    ObjectText(old(pb.buf), Live(obj.Row()), level, f);
  }

  lemma {:induction false} AllVisited(row: seq<Slot>, visited: seq<Member>)
    requires visited + Live(row[|row|..]) == Live(row)
    ensures visited == Live(row)
  {
  }
}
