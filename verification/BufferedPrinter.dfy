/**
 The printer of json_print.c: it works in a buffer of fixed size and hands full
 buffers to a callback.  It is proved against the same text as the printer of
 json_object.c.
 */
module BufferedPrinter {
  import opened Json
  import opened Decimal
  import opened PrintSpec
  import opened Printer
  import Layout

  /** Integers are 64 bits wide in the source. */
  ghost predicate Int64s(v: Value) {
    match v
    case Int(n) => INT64_MIN <= n <= INT64_MAX
    case Arr(es) => forall i :: 0 <= i < |es| ==> Int64s(es[i])
    case Obj(ms) => forall i :: 0 <= i < |ms| ==> Int64s(ms[i].val)
    case _ => true
  }

  function Pow10(k: nat): nat {
    if k == 0 then 1 else 10 * Pow10(k - 1)
  }

  lemma {:induction false} DigitsFit(n: nat, k: nat)
    requires k >= 1 && n < Pow10(k)
    ensures |Digits(n)| <= k
  {
    if n >= 10 {
      DigitsFit(n / 10, k - 1);
    }
  }

  /** A 64-bit integer prints in at most 20 characters. */
  lemma IntFits(n: int)
    requires INT64_MIN <= n <= INT64_MAX
    ensures |PrintInt(n)| <= 20
  {
    assert Pow10(5) == 100000;
    assert Pow10(10) == 100000 * Pow10(5);
    assert Pow10(15) == 100000 * Pow10(10);
    assert Pow10(19) == 10000 * Pow10(15);
    DigitsFit(if n < 0 then -n else n, 19);
  }

  lemma IndentMore(i: nat, f: Flags)
    requires f.pretty
    ensures Indent(i + 1, f) == Indent(i, f) + if f.tab then "\t" else "  "
  {
    assert Repeat(' ', 2 * i + 2) == Repeat(' ', 2 * i) + " " + " ";
  }

  /** The callback of type `fjson_write_fn`; it takes everything and says so. */
  class Sink {
    var received: string

    constructor ()
      ensures received == ""
    {
      received := "";
    }

    method Write(data: string) returns (n: nat)
      modifies this
      ensures received == old(received) + data && n == |data|
    {
      received := received + data;
      n := |data|;
    }
  }

  class Buffer {
    const data: array<char>
    var filled: nat
    const sink: Sink

    ghost predicate Valid()
      reads this
    {
      filled <= data.Length
    }

    /** Everything that was written: what the callback got and what is still in the buffer. */
    ghost function Out(): string
      requires Valid()
      reads this, data, sink
    {
      sink.received + data[..filled]
    }

    /** `text` was written and the callback was given `result` bytes meanwhile. */
    twostate predicate Wrote(text: string, result: nat)
      requires old(Valid())
      reads this, data, sink
    {
      Valid() && Out() == old(Out()) + text && |sink.received| == |old(sink.received)| + result
    }

    constructor (temp: array<char>, func: Sink)
      ensures data == temp && sink == func && Valid() && filled == 0
    {
      data, filled, sink := temp, 0, func;
    }

    /** buffer_flush */
    method Flush() returns (result: nat)
      requires Valid()
      modifies this, sink
      ensures Wrote("", result) && filled == 0
      ensures sink.received == old(Out())
    {
      result := sink.Write(data[..filled]);
      filled := 0;
    }

    /** memcpy to the end of the buffer */
    method Copy(s: string)
      requires Valid() && filled + |s| <= data.Length
      modifies this, data
      ensures Wrote(s, 0) && filled == old(filled) + |s|
    {
      forall i | 0 <= i < |s| {
        data[filled + i] := s[i];
      }
      filled := filled + |s|;
      assert data[..filled] == old(data[..filled]) + s;
    }

    /** buffer_append */
    method Append(s: string) returns (result: nat)
      requires Valid()
      modifies this, data, sink
      ensures Wrote(s, result)
    {
      result := 0;
      if filled + |s| > data.Length {
        if filled > 0 {
          result := Flush();
        }
        if |s| > data.Length {
          var n := sink.Write(s);
          return result + n;
        }
      }
      Copy(s);
    }

    /** vsnprintf(buffer + filled, limit, ...): at most limit - 1 characters and a NUL. */
    method Vsnprintf(text: string, limit: nat) returns (size: nat)
      requires Valid() && filled + limit <= data.Length
      modifies data
      ensures size == |text| && data[..filled] == old(data[..filled])
      ensures |text| < limit ==> data[filled..filled + |text|] == text
      ensures 0 < limit <= |text| ==> data[filled..filled + limit] == text[..limit - 1] + "\0"
    {
      size := |text|;
      if limit > 0 {
        var cut := if |text| < limit then text else text[..limit - 1];
        forall i | 0 <= i < |cut| {
          data[filled + i] := cut[i];
        }
        data[filled + |cut|] := '\0';
        assert |text| < limit ==> data[filled..filled + |text|] == cut;
      }
    }

    /** buffer->filled += size, behind which `s` has been written already. */
    method Fill(ghost s: string, size: nat)
      requires Valid() && filled + |s| <= data.Length && data[filled..filled + |s|] == s && size == |s|
      modifies this`filled
      ensures Wrote(s, 0) && filled == old(filled) + size
    {
      filled := filled + size;
      assert data[..filled] == data[..filled - size] + s;
    }

    /** The second half of buffer_printf: into the buffer, or past it. */
    method PrintHere(text: string) returns (result: nat)
      requires Valid() && data.Length >= 1 && 0 < |text| <= 30 && (filled == 0 || data.Length - filled >= 32)
      modifies this, data, sink
      ensures |text| + 1 != data.Length ==> Wrote(text, result)
      ensures |text| + 1 == data.Length ==> Wrote(text[..|text| - 1] + "\0", result)
    {
      var size := Vsnprintf(text, data.Length - filled - 1);
      if size < data.Length - filled {
        Fill(if size + 1 == data.Length then text[..size - 1] + "\0" else text, size);
        result := 0;
      } else {
        result := Append(text);
      }
    }

    /** buffer_printf.  Because the space for the NUL is counted twice, a text
        that is exactly one shorter than the whole buffer loses its last
        character; no other buffer size does any harm. */
    method Printf(text: string) returns (result: nat)
      requires Valid() && data.Length >= 1 && 0 < |text| <= 30
      modifies this, data, sink
      ensures |text| + 1 != data.Length ==> Wrote(text, result)
      ensures |text| + 1 == data.Length ==> Wrote(text[..|text| - 1] + "\0", result)
    {
      result := 0;
      if data.Length - filled < 32 {
        result := Flush();
      }
      var n := PrintHere(text);
      result := result + n;
    }

    /** escape */
    method EscapeStr(str: string) returns (result: nat)
      requires Valid() && data.Length >= 32
      modifies this, data, sink
      ensures Wrote(Escape(str), result)
    {
      hide Escape, EscapeChar, NeedsEscape;
      var start, pos := 0, 0;
      result := 0;
      EscapingStarts(Out(), str);
      while pos < |str|
        invariant start <= pos <= |str| && Valid()
        invariant Escaping(Out(), str, start, pos) == old(Out()) + Escape(str)
        invariant |sink.received| == |old(sink.received)| + result
        decreases |str| - pos
      {
        var c := str[pos];
        if NeedsEscape(c) {
          if c == '\0' { break; }
          EscapingSpecial(Out(), str, start, pos);
          result := AppendMore(str[start..pos], result);
          var n := EscapeOne(c);
          result := result + n;
          start := pos + 1;
        } else {
          EscapingPlain(Out(), str, start, pos);
        }
        pos := pos + 1;
      }
      EscapingEnds(Out(), str, start, pos);
      result := AppendMore(str[start..pos], result);
    }

    /** if (str != start_offset) result += buffer_append(...) */
    method AppendMore(s: string, result0: nat) returns (result: nat)
      requires Valid()
      modifies this, data, sink
      ensures result >= result0 && Wrote(s, result - result0)
    {
      result := result0;
      if s != "" {
        var n := Append(s);
        result := result + n;
      }
    }

    method EscapeOne(c: char) returns (result: nat)
      requires Valid() && data.Length >= 32 && NeedsEscape(c)
      modifies this, data, sink
      ensures Wrote(EscapeChar(c), result)
    {
      if c == BACKSPACE {
        result := Append("\\b");
      } else if c == '\n' {
        result := Append("\\n");
      } else if c == '\r' {
        result := Append("\\r");
      } else if c == '\t' {
        result := Append("\\t");
      } else if c == FORMFEED {
        result := Append("\\f");
      } else if c == '"' {
        result := Append("\\\"");
      } else if c == '\\' {
        result := Append("\\\\");
      } else if c == '/' {
        result := Append("\\/");
      } else {
        result := Printf("\\u00" + [HEX_CHARS[c as int / 16], HEX_CHARS[c as int % 16]]);
      }
    }

    /** indent: one append per level */
    method Indentation(level: nat, f: Flags) returns (result: nat)
      requires Valid()
      modifies this, data, sink
      ensures Wrote(Indent(level, f), result)
    {
      result := 0;
      if !f.pretty { return; }
      var i, n := 0, 0;
      while i < level
        invariant i <= level && Valid()
        invariant Out() == old(Out()) + Indent(i, f) && |sink.received| == |old(sink.received)| + result
      {
        if f.tab {
          n := Append("\t");
        } else {
          n := Append("  ");
        }
        IndentMore(i, f);
        result := result + n;
        i := i + 1;
      }
    }

    /** A bracket or comma, and a line break when pretty-printing. */
    method Open(mark: string, f: Flags) returns (result: nat)
      requires Valid()
      modifies this, data, sink
      ensures Wrote(mark + NewLine(f), result)
    {
      result := Append(mark);
      if f.pretty {
        var n := Append("\n");
        result := result + n;
      }
    }

    method StartChild(hadChildren: bool, level: nat, f: Flags) returns (result: nat)
      requires Valid()
      modifies this, data, sink
      ensures Wrote(Lead(!hadChildren, level, f), result)
    {
      hide Indent;
      result := 0;
      var n;
      if hadChildren {
        result := Open(",", f);
      }
      if f.spaced {
        n := Append(" ");
        result := result + n;
      }
      n := Indentation(level + 1, f);
      result := result + n;
    }

    method Close(hadChildren: bool, bracket: string, level: nat, f: Flags) returns (result: nat)
      requires Valid()
      modifies this, data, sink
      ensures Wrote(Tail(!hadChildren, level, f) + bracket, result)
    {
      hide Indent;
      result := 0;
      var n;
      if f.pretty {
        if hadChildren {
          result := Append("\n");
        }
        n := Indentation(level, f);
        result := result + n;
      }
      n := Append(if f.spaced then " " + bracket else bracket);
      result := result + n;
    }

    /** write_object */
    method WriteObject(ms: seq<Member>, level: nat, f: Flags) returns (result: nat)
      requires Valid() && data.Length >= 32 && Int64s(Obj(ms))
      modifies this, data, sink
      ensures Wrote(Text(Obj(ms), level, f), result)
      decreases ms, 2
    {
      hide MembersText, MemberText, Lead, Tail, Int64s;
      result := Open("{", f);
      var n := WriteMembers(ms, level, f);
      result := result + n;
      n := Close(ms != [], "}", level, f);
      result := result + n;
      ObjectText(old(Out()), ms, level, f);
    }

    /** The loop over the members. */
    method WriteMembers(ms: seq<Member>, level: nat, f: Flags) returns (result: nat)
      requires Valid() && data.Length >= 32 && Int64s(Obj(ms))
      modifies this, data, sink
      ensures Wrote(MembersText(ms, 0, level, f), result)
      decreases ms, 1
    {
      hide MembersText, MemberText, Lead;
      ghost var start := Out();
      result := 0;
      var hadChildren, i, n := false, 0, 0;
      while i < |ms|
        invariant i <= |ms| && hadChildren == (i > 0) && Valid()
        invariant Out() + MembersText(ms, i, level, f) == start + MembersText(ms, 0, level, f)
        invariant |sink.received| == |old(sink.received)| + result
      {
        NextMember(Out(), ms, i, level, f);
        n := StartChild(hadChildren, level, f);
        result := result + n;
        hadChildren := true;
        n := WriteMember(ms[i], level, f);
        result := result + n;
        i := i + 1;
      }
      NoMoreMembers(ms, level, f);
    }

    method WriteMember(m: Member, level: nat, f: Flags) returns (result: nat)
      requires Valid() && data.Length >= 32 && Int64s(m.val)
      modifies this, data, sink
      ensures Wrote(MemberText(m, level, f), result)
      decreases m, 1
    {
      hide Escape, Text, Int64s;
      MemberPieces(Out(), m, level, f);
      result := Append("\"");
      var n := EscapeStr(m.key);
      result := result + n;
      if f.spaced {
        n := Append("\": ");
      } else {
        n := Append("\":");
      }
      result := result + n;
      n := WriteValue(m.val, level + 1, f);
      result := result + n;
    }

    /** write_array */
    method WriteArray(es: seq<Value>, level: nat, f: Flags) returns (result: nat)
      requires Valid() && data.Length >= 32 && Int64s(Arr(es))
      modifies this, data, sink
      ensures Wrote(Text(Arr(es), level, f), result)
      decreases es, 2
    {
      hide ElemsText, Lead, Tail, Int64s;
      result := Open("[", f);
      var n := WriteElems(es, level, f);
      result := result + n;
      n := Close(es != [], "]", level, f);
      result := result + n;
      ArrayText(old(Out()), es, level, f);
    }

    /** The loop over the elements. */
    method WriteElems(es: seq<Value>, level: nat, f: Flags) returns (result: nat)
      requires Valid() && data.Length >= 32 && Int64s(Arr(es))
      modifies this, data, sink
      ensures Wrote(ElemsText(es, 0, level, f), result)
      decreases es, 1
    {
      hide ElemsText, Lead;
      ghost var start := Out();
      result := 0;
      var hadChildren, i, n := false, 0, 0;
      while i < |es|
        invariant i <= |es| && hadChildren == (i > 0) && Valid()
        invariant Out() + ElemsText(es, i, level, f) == start + ElemsText(es, 0, level, f)
        invariant |sink.received| == |old(sink.received)| + result
      {
        NextElem(Out(), es, i, level, f);
        n := StartChild(hadChildren, level, f);
        result := result + n;
        hadChildren := true;
        n := WriteValue(es[i], level + 1, f);
        result := result + n;
        i := i + 1;
      }
      NoMoreElems(es, level, f);
    }

    /** write_string: the operands of the sum are taken from left to right. */
    method WriteString(s: string) returns (result: nat)
      requires Valid() && data.Length >= 32
      modifies this, data, sink
      ensures Wrote("\"" + Escape(s) + "\"", result)
    {
      hide Escape;
      result := Append("\"");
      var n := EscapeStr(s);
      result := result + n;
      n := Append("\"");
      result := result + n;
    }

    /** write */
    method WriteValue(v: Value, level: nat, f: Flags) returns (result: nat)
      requires Valid() && data.Length >= 32 && Int64s(v)
      modifies this, data, sink
      ensures Wrote(Text(v, level, f), result)
      decreases v, 2
    {
      hide ElemsText, MembersText, PrintInt, Escape, CStr;
      match v {
        case Null => result := Append("null");
        case Bool(b) => if b { result := Append("true"); } else { result := Append("false"); }
        case Int(n) =>
          IntFits(n);
          result := Printf(PrintInt(n));
        case Double(source) => result := Append(CStr(source));
        case Infinity(negative) => result := Printf(if negative then "-Infinity" else "Infinity");
        case NaN => result := Append("NaN");
        case Str(s) => result := WriteString(s);
        case Arr(es) => result := WriteArray(es, level, f);
        case Obj(ms) => result := WriteObject(ms, level, f);
      }
    }
  }

  /** fjson_object_dump_buffered: for every buffer of at least 32 bytes the callback
      gets exactly the text, and the returned count is its length. */
  method DumpBuffered(v: Value, f: Flags, temp: array<char>, func: Sink) returns (result: nat)
    requires temp.Length >= 32 && Int64s(v)
    modifies temp, func
    ensures func.received == old(func.received) + Text(v, 0, f)
    ensures result == |Text(v, 0, f)|
    ensures Layout.Tame(v) ==>
      func.received == old(func.received) + Layout.Spread(f, Layout.BEGIN, Layout.Compact(v))
  {
    if Layout.Tame(v) { Layout.LaidOut(v, f); }
    hide Text, Layout.Spread, Layout.Compact, Layout.Tame;
    var buffer := new Buffer(temp, func);
    ghost var start := buffer.Out();
    assert start == func.received;
    result := buffer.WriteValue(v, 0, f);
    var n := buffer.Flush();
    result := result + n;
  }

  /** fjson_object_size_ext: a dry run through a buffer of 1024 bytes. */
  method SizeExt(v: Value, f: Flags) returns (size: nat)
    requires Int64s(v)
    ensures size == |Text(v, 0, f)|
  {
    var temp := new char[1024];
    var calculate := new Sink();
    size := DumpBuffered(v, f, temp, calculate);
  }

  /** The two printers agree, whatever the buffer size and whatever was printed before. */
  method BothPrinters(v: Value, f: Flags, temp: array<char>, func: Sink, pb: PrintBuf) returns (result: nat)
    requires temp.Length >= 32 && Int64s(v)
    modifies temp, func, pb
    ensures |pb.buf| >= |old(pb.buf)| && |func.received| >= |old(func.received)|
    ensures pb.buf[|old(pb.buf)|..] == func.received[|old(func.received)|..]
    ensures result == |pb.buf| - |old(pb.buf)|
    ensures Layout.Tame(v) ==> pb.buf == old(pb.buf) + Layout.Spread(f, Layout.BEGIN, Layout.Compact(v))
  {
    if Layout.Tame(v) { Layout.LaidOut(v, f); }
    hide Text, Layout.Spread, Layout.Compact, Layout.Tame;
    pb.PrintValue(v, 0, f);
    result := DumpBuffered(v, f, temp, func);
  }
}
