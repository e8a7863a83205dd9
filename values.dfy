/**
 * The loosely typed values the Streamlit side reads from `portfolio_data.json` and from the
 * session state: Python's `None`, booleans, integers, strings, lists, tuples, sets and
 * dictionaries with string keys. A set keeps the order it is iterated in; a dictionary keeps its
 * insertion order.
 */
module Values {
  import opened Wrappers
  import opened Strings

  datatype Value =
    | Null
    | Boolean(b: bool)
    | Integer(i: int)
    | Text(s: string)
    | List(items: seq<Value>)
    | Tuple(items: seq<Value>)
    | Set(items: seq<Value>)
    | Dict(entries: seq<Entry>)

  /** One `key: value` item of a dictionary. */
  datatype Entry = Entry(key: string, value: Value)

  /** Python's truth value: `None`, `False`, `0`, `""` and empty collections are false. */
  predicate Truthy(v: Value) {
    match v
    case Null => false
    case Boolean(b) => b
    case Integer(i) => i != 0
    case Text(s) => s != ""
    case List(items) => items != []
    case Tuple(items) => items != []
    case Set(items) => items != []
    case Dict(entries) => entries != []
  }

  /** `d.get(key)`: the value of the first item with that key. */
  function Get(entries: seq<Entry>, key: string): (r: Option<Value>)
    ensures r.Some? <==> exists k :: 0 <= k < |entries| && entries[k].key == key
  {
    if entries == [] then None
    else if entries[0].key == key then Some(entries[0].value)
    else Get(entries[1..], key)
  }

  /** `d.get(key, default)` */
  function GetOr(entries: seq<Entry>, key: string, default: Value): Value {
    Get(entries, key).GetOr(default)
  }

  /** The keys of a dictionary are distinct. */
  predicate UniqueKeys(entries: seq<Entry>) {
    forall i, j :: 0 <= i < j < |entries| ==> entries[i].key != entries[j].key
  }

  /** With distinct keys, `get` finds the value stored under the key. */
  lemma {:induction false} GetOfUniqueKeys(entries: seq<Entry>, k: nat)
    requires UniqueKeys(entries) && k < |entries|
    ensures Get(entries, entries[k].key).Some? && Get(entries, entries[k].key).value == entries[k].value
  {
    if k > 0 {
      GetOfUniqueKeys(entries[1..], k - 1);
    }
  }

  /**
   * `str(v)`. Strings inside containers are shown as `repr` shows them, between single quotes;
   * the escaping and the choice of quote `repr` makes are not modelled.
   */
  function Str(v: Value): string
    decreases v, 0
  {
    match v
    case Null => "None"
    case Boolean(b) => if b then "True" else "False"
    case Integer(i) => IntToString(i)
    case Text(s) => s
    case List(items) => "[" + Join(", ", seq(|items|, k requires 0 <= k < |items| => Repr(items[k]))) + "]"
    case Tuple(items) =>
      "(" + Join(", ", seq(|items|, k requires 0 <= k < |items| => Repr(items[k])))
      + (if |items| == 1 then ",)" else ")")
    case Set(items) =>
      if items == [] then "set()"
      else "{" + Join(", ", seq(|items|, k requires 0 <= k < |items| => Repr(items[k]))) + "}"
    case Dict(entries) =>
      "{" + Join(", ", seq(|entries|, k requires 0 <= k < |entries| =>
        assert entries[k] < v; "'" + entries[k].key + "': " + Repr(entries[k].value))) + "}"
  }

  /** `repr(v)` */
  function Repr(v: Value): string
    decreases v, 1
  {
    if v.Text? then "'" + v.s + "'" else Str(v)
  }

  /** `str` of a string is the string itself, and `str` of any other value is never empty. */
  lemma StrNonEmpty(v: Value)
    ensures v.Text? ==> Str(v) == v.s
    ensures !v.Text? ==> Str(v) != ""
  {
  }
}
