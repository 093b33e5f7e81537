/** The printer of json_object.c: it appends to one growing buffer. */
module Printer {
  import opened Json
  import opened Decimal
  import opened PrintSpec

  /** The output when `str[start..pos]` is still to be appended in one piece and
      `str[pos..]` is still to be looked at. */
  function Escaping(done: string, str: string, start: nat, pos: nat): string
    requires start <= pos <= |str|
  {
    done + str[start..pos] + Escape(str[pos..])
  }

  lemma EscapingPlain(done: string, str: string, start: nat, pos: nat)
    requires start <= pos < |str| && !NeedsEscape(str[pos])
    ensures Escaping(done, str, start, pos) == Escaping(done, str, start, pos + 1)
  {
  }

  lemma EscapingSpecial(done: string, str: string, start: nat, pos: nat)
    requires start <= pos < |str| && NeedsEscape(str[pos]) && str[pos] != '\0'
    ensures Escaping(done, str, start, pos)
      == Escaping(done + str[start..pos] + EscapeChar(str[pos]), str, pos + 1, pos + 1)
  {
  }

  lemma EscapingEnds(done: string, str: string, start: nat, pos: nat)
    requires start <= pos <= |str| && (pos == |str| || str[pos] == '\0')
    ensures Escaping(done, str, start, pos) == done + str[start..pos]
  {
  }

  lemma EscapingStarts(done: string, str: string)
    ensures Escaping(done, str, 0, 0) == done + Escape(str)
  {
    assert done + str[0..0] == done && str[0..] == str;
  }

  /** What is still to be written while the children of an array are printed. */
  lemma NextElem(done: string, es: seq<Value>, i: nat, level: nat, f: Flags)
    requires i < |es|
    ensures done + ElemsText(es, i, level, f)
      == done + Lead(i == 0, level, f) + Text(es[i], level + 1, f) + ElemsText(es, i + 1, level, f)
  {
  }

  lemma NextMember(done: string, ms: seq<Member>, i: nat, level: nat, f: Flags)
    requires i < |ms|
    ensures done + MembersText(ms, i, level, f)
      == done + Lead(i == 0, level, f) + MemberText(ms[i], level, f) + MembersText(ms, i + 1, level, f)
  {
  }

  lemma Bracketed(done: string, open: string, nl: string, body: string, tail: string, close: string)
    ensures done + open + nl + body + tail + close == done + (open + nl + body + tail + close)
  {
  }

  lemma MemberPieces(done: string, m: Member, level: nat, f: Flags)
    ensures done + "\"" + Escape(m.key) + Colon(f) + Text(m.val, level + 1, f) == done + MemberText(m, level, f)
  {
  }

  class PrintBuf {
    var buf: string

    constructor ()
      ensures buf == ""
    {
      buf := "";
    }

    /** printbuf_memappend */
    method Append(s: string)
      modifies this
      ensures buf == old(buf) + s
    {
      buf := buf + s;
    }

    /** fjson_escape_str: runs of plain characters are appended in one piece. */
    method EscapeStr(str: string)
      modifies this
      ensures buf == old(buf) + Escape(str)
    {
      hide Escape, EscapeChar, NeedsEscape;
      var start, pos := 0, 0;
      EscapingStarts(buf, str);
      while pos < |str|
        invariant start <= pos <= |str|
        invariant Escaping(buf, str, start, pos) == old(buf) + Escape(str)
        decreases |str| - pos
      {
        var c := str[pos];
        if NeedsEscape(c) {
          if c == '\0' { break; }
          EscapingSpecial(buf, str, start, pos);
          Append(str[start..pos]);
          EscapeOne(c);
          start := pos + 1;
        } else {
          EscapingPlain(buf, str, start, pos);
        }
        pos := pos + 1;
      }
      EscapingEnds(buf, str, start, pos);
      Append(str[start..pos]);
    }

    method EscapeOne(c: char)
      requires NeedsEscape(c)
      modifies this
      ensures buf == old(buf) + EscapeChar(c)
    {
      if c == BACKSPACE {
        Append("\\b");
      } else if c == '\n' {
        Append("\\n");
      } else if c == '\r' {
        Append("\\r");
      } else if c == '\t' {
        Append("\\t");
      } else if c == FORMFEED {
        Append("\\f");
      } else if c == '"' {
        Append("\\\"");
      } else if c == '\\' {
        Append("\\\\");
      } else if c == '/' {
        Append("\\/");
      } else {
        Append("\\u00" + [HEX_CHARS[c as int / 16], HEX_CHARS[c as int % 16]]);
      }
    }

    /** printbuf_memset(pb, -1, c, len) */
    method Fill(c: char, len: nat)
      modifies this
      ensures buf == old(buf) + Repeat(c, len)
    {
      var i := 0;
      while i < len
        invariant i <= len && buf == old(buf) + Repeat(c, i)
      {
        buf := buf + [c];
        i := i + 1;
      }
    }

    method Indentation(level: nat, f: Flags)
      modifies this
      ensures buf == old(buf) + Indent(level, f)
    {
      if f.pretty {
        if f.tab {
          Fill('\t', level);
        } else {
          Fill(' ', level * 2);
        }
      }
    }

    /** What every child starts with. */
    method StartChild(hadChildren: bool, level: nat, f: Flags)
      modifies this
      ensures buf == old(buf) + Lead(!hadChildren, level, f)
    {
      if hadChildren {
        Append(",");
        if f.pretty { Append("\n"); }
      }
      if f.spaced { Append(" "); }
      Indentation(level + 1, f);
    }

    method Close(hadChildren: bool, bracket: string, level: nat, f: Flags)
      modifies this
      ensures buf == old(buf) + Tail(!hadChildren, level, f) + bracket
    {
      if f.pretty {
        if hadChildren { Append("\n"); }
        Indentation(level, f);
      }
      if f.spaced {
        Append(" " + bracket);
      } else {
        Append(bracket);
      }
    }

    /** fjson_object_object_to_json_string */
    method PrintObject(ms: seq<Member>, level: nat, f: Flags)
      modifies this
      ensures buf == old(buf) + Text(Obj(ms), level, f)
      decreases ms, 1
    {
      hide MembersText, MemberText, Lead, Tail;
      ghost var start := buf + "{" + NewLine(f);
      Append("{");
      if f.pretty { Append("\n"); }
      var hadChildren, i := false, 0;
      while i < |ms|
        invariant i <= |ms| && hadChildren == (i > 0)
        invariant buf + MembersText(ms, i, level, f) == start + MembersText(ms, 0, level, f)
      {
        NextMember(buf, ms, i, level, f);
        StartChild(hadChildren, level, f);
        hadChildren := true;
        PrintMember(ms[i], level, f);
        i := i + 1;
      }
      NoMoreMembers(ms, level, f);
      Close(hadChildren, "}", level, f);
      ObjectText(old(buf), ms, level, f);
    }

    method PrintMember(m: Member, level: nat, f: Flags)
      modifies this
      ensures buf == old(buf) + MemberText(m, level, f)
      decreases m, 1
    {
      hide Escape, Text;
      MemberPieces(buf, m, level, f);
      Append("\"");
      EscapeStr(m.key);
      if f.spaced {
        Append("\": ");
      } else {
        Append("\":");
      }
      PrintValue(m.val, level + 1, f);
    }

    /** fjson_object_array_to_json_string */
    method PrintArray(es: seq<Value>, level: nat, f: Flags)
      modifies this
      ensures buf == old(buf) + Text(Arr(es), level, f)
      decreases es, 1
    {
      hide ElemsText, Lead, Tail;
      ghost var start := buf + "[" + NewLine(f);
      Append("[");
      if f.pretty { Append("\n"); }
      var hadChildren, i := false, 0;
      while i < |es|
        invariant i <= |es| && hadChildren == (i > 0)
        invariant buf + ElemsText(es, i, level, f) == start + ElemsText(es, 0, level, f)
      {
        NextElem(buf, es, i, level, f);
        StartChild(hadChildren, level, f);
        hadChildren := true;
        PrintValue(es[i], level + 1, f);
        i := i + 1;
      }
      NoMoreElems(es, level, f);
      Close(hadChildren, "]", level, f);
      ArrayText(old(buf), es, level, f);
    }

    /** _to_json_string, or "null" for a NULL pointer. */
    method PrintValue(v: Value, level: nat, f: Flags)
      modifies this
      ensures buf == old(buf) + Text(v, level, f)
      decreases v, 2
    {
      match v {
        case Null => Append("null");
        case Bool(b) => if b { Append("true"); } else { Append("false"); }
        case Int(n) => Append(PrintInt(n));
        case Double(source) => Append(CStr(source));
        case Infinity(negative) => if negative { Append("-Infinity"); } else { Append("Infinity"); }
        case NaN => Append("NaN");
        case Str(s) =>
          Append("\"");
          EscapeStr(s);
          Append("\"");
        case Arr(es) => PrintArray(es, level, f);
        case Obj(ms) => PrintObject(ms, level, f);
      }
    }
  }

  lemma NoMoreMembers(ms: seq<Member>, level: nat, f: Flags)
    ensures MembersText(ms, |ms|, level, f) == ""
  {
  }

  lemma NoMoreElems(es: seq<Value>, level: nat, f: Flags)
    ensures ElemsText(es, |es|, level, f) == ""
  {
  }

  lemma ObjectText(done: string, ms: seq<Member>, level: nat, f: Flags)
    ensures done + "{" + NewLine(f) + MembersText(ms, 0, level, f) + Tail(ms == [], level, f) + "}"
      == done + Text(Obj(ms), level, f)
  {
    Bracketed(done, "{", NewLine(f), MembersText(ms, 0, level, f), Tail(ms == [], level, f), "}");
  }

  lemma ArrayText(done: string, es: seq<Value>, level: nat, f: Flags)
    ensures done + "[" + NewLine(f) + ElemsText(es, 0, level, f) + Tail(es == [], level, f) + "]"
      == done + Text(Arr(es), level, f)
  {
    Bracketed(done, "[", NewLine(f), ElemsText(es, 0, level, f), Tail(es == [], level, f), "]");
  }
}
