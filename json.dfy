/**
 * Values as the scripts see them after `json.loads`, and the Python
 * operations they apply to them.  Where Python would raise (calling
 * `.get` on a list, `in` on an int, iterating `None`), the operation
 * yields `None`.  JSON numbers are integers here; objects keep their
 * keys in order and have no repeated key.
 */
module Json {
  import opened Optional
  import opened PyText

  datatype Json =
    | JNull
    | JBool(b: bool)
    | JInt(i: int)
    | JStr(s: string)
    | JArr(items: seq<Json>)
    | JObj(entries: seq<(string, Json)>)

  /** Python truthiness (`if x:`). */
  predicate Truthy(j: Json) {
    match j
    case JNull => false
    case JBool(b) => b
    case JInt(i) => i != 0
    case JStr(s) => s != ""
    case JArr(items) => items != []
    case JObj(entries) => entries != []
  }

  /** The value of the first entry with `key`. */
  function Lookup(entries: seq<(string, Json)>, key: string): Option<Json> {
    if entries == [] then None
    else if entries[0].0 == key then Some(entries[0].1)
    else Lookup(entries[1..], key)
  }

  function Values(entries: seq<(string, Json)>): (vs: seq<Json>)
    ensures |vs| == |entries|
    ensures forall k :: 0 <= k < |entries| ==> vs[k] == entries[k].1
  {
    seq(|entries|, k requires 0 <= k < |entries| => entries[k].1)
  }

  function Keys(entries: seq<(string, Json)>): (ks: seq<string>)
    ensures |ks| == |entries|
    ensures forall k :: 0 <= k < |entries| ==> ks[k] == entries[k].0
  {
    seq(|entries|, k requires 0 <= k < |entries| => entries[k].0)
  }

  /** `d.get(key, default)` on a dict `d`. */
  function GetOr(d: Json, key: string, default: Json): Json
    requires d.JObj?
  {
    match Lookup(d.entries, key)
    case Some(v) => v
    case None => default
  }

  /** `d.get(key)` on a dict `d`. */
  function Get(d: Json, key: string): Json
    requires d.JObj?
  {
    GetOr(d, key, JNull)
  }

  /** `d[key]` with a string key; `None` where Python raises (KeyError or TypeError). */
  function Subscript(d: Json, key: string): Option<Json> {
    if d.JObj? then Lookup(d.entries, key) else None
  }

  /** Python's `key in container` for a string `key`; `None` where it raises TypeError. */
  function In(key: string, container: Json): Option<bool> {
    match container
    case JObj(entries) => Some(key in Keys(entries))
    case JArr(items) => Some(JStr(key) in items)
    case JStr(s) => Some(Contains(s, key))
    case _ => None
  }

  /** What `for x in j` visits; `None` where `j` is not iterable. */
  function Iterate(j: Json): Option<seq<Json>> {
    match j
    case JArr(items) => Some(items)
    case JObj(entries) => Some(seq(|entries|, k requires 0 <= k < |entries| => JStr(entries[k].0)))
    case JStr(s) => Some(seq(|s|, k requires 0 <= k < |s| => JStr([s[k]])))
    case _ => None
  }

  /**
   * `j += suffix` for a string `suffix`: a string is extended, a list gets
   * one element per character (`list.extend`), anything else raises TypeError.
   */
  function AppendText(j: Json, suffix: string): (r: Option<Json>)
    ensures r.Some? <==> j.JStr? || j.JArr?
    ensures j.JStr? ==> r == Some(JStr(j.s + suffix))
    ensures j.JArr? ==>
      && r.value.JArr? && |r.value.items| == |j.items| + |suffix|
      && r.value.items[..|j.items|] == j.items
      && (forall k :: 0 <= k < |suffix| ==> r.value.items[|j.items| + k] == JStr([suffix[k]]))
  {
    match j
    case JStr(s) => Some(JStr(s + suffix))
    case JArr(items) => Some(JArr(items + Iterate(JStr(suffix)).value))
    case _ => None
  }

  /** Whether `j[:n]` is defined (strings and lists). */
  predicate Sliceable(j: Json) {
    j.JStr? || j.JArr?
  }

  /** Outcome of Python's `int(j)`. */
  datatype IntCoercion = IntOk(n: int) | IntValueError | IntTypeError

  function IntOf(j: Json): IntCoercion {
    match j
    case JInt(i) => IntOk(i)
    case JBool(b) => IntOk(if b then 1 else 0)
    case JStr(s) => (match ParseInt(s) case Some(n) => IntOk(n) case None => IntValueError)
    case _ => IntTypeError
  }

  /**
   * `str(j)`.  Scalars are rendered exactly as Python does; inside a list
   * or dict a string is shown in single quotes without escaping.
   */
  function PyStr(j: Json): string
    decreases j, 1
  {
    match j
    case JNull => "None"
    case JBool(b) => if b then "True" else "False"
    case JInt(i) => DecimalString(i)
    case JStr(s) => s
    case JArr(items) => "[" + ReprList(items) + "]"
    case JObj(entries) => "{" + ReprEntries(entries) + "}"
  }

  function Repr(j: Json): string
    decreases j, 2
  {
    if j.JStr? then "'" + j.s + "'" else PyStr(j)
  }

  function ReprList(items: seq<Json>): string
    decreases items
  {
    if items == [] then ""
    else if |items| == 1 then Repr(items[0])
    else Repr(items[0]) + ", " + ReprList(items[1..])
  }

  function ReprEntries(entries: seq<(string, Json)>): string
    decreases entries
  {
    if entries == [] then ""
    else
      var (key, value) := entries[0];
      assert value < entries[0];
      var e := "'" + key + "': " + Repr(value);
      if |entries| == 1 then e else e + ", " + ReprEntries(entries[1..])
  }
}
