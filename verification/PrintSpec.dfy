/** The text of a JSON value, as a function.  Both printers of libfastjson are
    proved against it, and the tokener is proved to read it back. */
module PrintSpec {
  import opened Json
  import opened Decimal

  /** FJSON_TO_STRING_SPACED, _PRETTY and _PRETTY_TAB. */
  datatype Flags = Flags(spaced: bool, pretty: bool, tab: bool)

  const BACKSPACE := 8 as char
  const FORMFEED := 12 as char

  const HEX_CHARS := "0123456789abcdefABCDEF"

  /** The table `char_needsEscape`. */
  predicate NeedsEscape(c: char) {
    c < ' ' || c == '"' || c == '/' || c == '\\'
  }

  function EscapeChar(c: char): (s: string)
    requires NeedsEscape(c)
    ensures 2 <= |s| <= 6 && s[0] == '\\'
  {
    if c == BACKSPACE then "\\b"
    else if c == '\n' then "\\n"
    else if c == '\r' then "\\r"
    else if c == '\t' then "\\t"
    else if c == FORMFEED then "\\f"
    else if c == '"' then "\\\""
    else if c == '\\' then "\\\\"
    else if c == '/' then "\\/"
    else "\\u00" + [HEX_CHARS[c as int / 16], HEX_CHARS[c as int % 16]]
  }

  /** `fjson_escape_str`: stops at the first NUL. */
  function Escape(s: string): string {
    if s == "" || s[0] == '\0' then ""
    else (if NeedsEscape(s[0]) then EscapeChar(s[0]) else [s[0]]) + Escape(s[1..])
  }

  function Repeat(c: char, n: nat): (s: string)
    ensures |s| == n && forall i :: 0 <= i < n ==> s[i] == c
  {
    if n == 0 then "" else Repeat(c, n - 1) + [c]
  }

  function Indent(level: nat, f: Flags): string {
    if !f.pretty then "" else if f.tab then Repeat('\t', level) else Repeat(' ', 2 * level)
  }

  function NewLine(f: Flags): string {
    if f.pretty then "\n" else ""
  }

  function Space(f: Flags): string {
    if f.spaced then " " else ""
  }

  /** What stands in front of the i-th child. */
  function Lead(first: bool, level: nat, f: Flags): string {
    (if first then "" else "," + NewLine(f)) + Space(f) + Indent(level + 1, f)
  }

  /** What stands between the last child and the closing bracket. */
  function Tail(empty: bool, level: nat, f: Flags): string {
    (if f.pretty then (if empty then "" else "\n") + Indent(level, f) else "") + Space(f)
  }

  function Colon(f: Flags): string {
    if f.spaced then "\": " else "\":"
  }

  function Text(v: Value, level: nat, f: Flags): string
    decreases v
  {
    match v
    case Null => "null"
    case Bool(b) => if b then "true" else "false"
    case Int(n) => PrintInt(n)
    case Double(src) => CStr(src)
    case Infinity(neg) => if neg then "-Infinity" else "Infinity"
    case NaN => "NaN"
    case Str(s) => "\"" + Escape(s) + "\""
    case Arr(es) => "[" + NewLine(f) + ElemsText(es, 0, level, f) + Tail(es == [], level, f) + "]"
    case Obj(ms) => "{" + NewLine(f) + MembersText(ms, 0, level, f) + Tail(ms == [], level, f) + "}"
  }

  /** The elements from index `i` on. */
  function ElemsText(es: seq<Value>, i: nat, level: nat, f: Flags): string
    requires i <= |es|
    decreases es, |es| - i
  {
    if i == |es| then ""
    else Lead(i == 0, level, f) + Text(es[i], level + 1, f) + ElemsText(es, i + 1, level, f)
  }

  function MemberText(m: Member, level: nat, f: Flags): string
    decreases m
  {
    "\"" + Escape(m.key) + Colon(f) + Text(m.val, level + 1, f)
  }

  function MembersText(ms: seq<Member>, i: nat, level: nat, f: Flags): string
    requires i <= |ms|
    decreases ms, |ms| - i
  {
    if i == |ms| then ""
    else Lead(i == 0, level, f) + MemberText(ms[i], level, f) + MembersText(ms, i + 1, level, f)
  }
}
