/**
 The JSON values that libfastjson keeps in memory.  A byte is a Dafny `char`;
 a C string is a `string`, and the NUL byte is '\0'.
 */
module Json {

  datatype Option<+T> = None | Some(value: T)

  /** A NULL `fjson_object *` is the JSON null.  Doubles keep their source text. */
  datatype Value =
    | Null
    | Bool(b: bool)
    | Int(n: int)
    | Double(source: string)
    | Infinity(negative: bool)
    | NaN
    | Str(s: string)
    | Arr(elems: seq<Value>)
    | Obj(members: seq<Member>)

  datatype Member = Member(key: string, val: Value)

  const INT64_MIN := -0x8000_0000_0000_0000
  const INT64_MAX := 0x7fff_ffff_ffff_ffff

  predicate NulFree(s: string) {
    '\0' !in s
  }

  /** What a C function sees of a buffer: everything before the first NUL. */
  function CStr(s: string): (r: string)
    ensures r <= s && NulFree(r)
    ensures |r| < |s| ==> s[|r|] == '\0'
    ensures NulFree(s) ==> r == s
  {
    if s == "" || s[0] == '\0' then "" else [s[0]] + CStr(s[1..])
  }

  ghost predicate DistinctKeys(ms: seq<Member>) {
    forall i, j :: 0 <= i < j < |ms| ==> ms[i].key != ms[j].key
  }

  /** Values whose text the tokener can read back: no doubles, no NUL bytes
      inside strings and keys, 64-bit integers, distinct keys. */
  ghost predicate Printable(v: Value) {
    match v
    case Null => true
    case Bool(_) => true
    case Int(n) => INT64_MIN <= n <= INT64_MAX
    case Double(_) => false
    case Infinity(_) => false
    case NaN => false
    case Str(s) => NulFree(s)
    case Arr(es) => forall i :: 0 <= i < |es| ==> Printable(es[i])
    case Obj(ms) =>
      && DistinctKeys(ms)
      && forall i :: 0 <= i < |ms| ==> NulFree(ms[i].key) && Printable(ms[i].val)
  }

  /** The level of the deepest node, counting the root as level 0. */
  function Height(v: Value): nat {
    match v
    case Arr(es) => ElemsHeight(es)
    case Obj(ms) => MembersHeight(ms)
    case _ => 0
  }

  /** One more than the height of the highest element, 0 if there is none. */
  function ElemsHeight(es: seq<Value>): (h: nat)
    ensures forall i :: 0 <= i < |es| ==> Height(es[i]) < h
    ensures es != [] ==> exists i :: 0 <= i < |es| && h == Height(es[i]) + 1
    ensures es == [] ==> h == 0
  {
    if es == [] then 0 else
    var last := Height(es[|es| - 1]) + 1;
    var front := ElemsHeight(es[..|es| - 1]);
    assert forall i :: 0 <= i < |es| - 1 ==> es[..|es| - 1][i] == es[i];
    if front < last then last else front
  }

  function MembersHeight(ms: seq<Member>): (h: nat)
    ensures forall i :: 0 <= i < |ms| ==> Height(ms[i].val) < h
    ensures ms != [] ==> exists i :: 0 <= i < |ms| && h == Height(ms[i].val) + 1
    ensures ms == [] ==> h == 0
  {
    if ms == [] then 0 else
    var last := Height(ms[|ms| - 1].val) + 1;
    var front := MembersHeight(ms[..|ms| - 1]);
    assert forall i :: 0 <= i < |ms| - 1 ==> ms[..|ms| - 1][i] == ms[i];
    if front < last then last else front
  }

  predicate HasKey(ms: seq<Member>, key: string) {
    exists i :: 0 <= i < |ms| && ms[i].key == key
  }

  /** `fjson_object_object_add` on an object without holes: replace the value of
      an existing key in place, otherwise add the pair at the end. */
  function AddMember(ms: seq<Member>, key: string, val: Value): (r: seq<Member>)
    ensures !HasKey(ms, key) ==> r == ms + [Member(key, val)]
    ensures HasKey(ms, key) ==> |r| == |ms|
  {
    if ms == [] then [Member(key, val)]
    else if ms[0].key == key then
      assert HasKey(ms, key);
      [Member(key, val)] + ms[1..]
    else
      assert HasKey(ms[1..], key) ==> HasKey(ms, key) by {
        if HasKey(ms[1..], key) {
          var i :| 0 <= i < |ms[1..]| && ms[1..][i].key == key;
          assert ms[i + 1].key == key;
        }
      }
      assert HasKey(ms, key) ==> HasKey(ms[1..], key) by {
        if HasKey(ms, key) {
          var i :| 0 <= i < |ms| && ms[i].key == key;
          assert ms[1..][i - 1].key == key;
        }
      }
      [ms[0]] + AddMember(ms[1..], key, val)
  }
}
