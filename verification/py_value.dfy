/**
 * The Python values that flow through the agents: rows returned by the
 * database driver, agent records returned by the platform's API, and the
 * response dictionaries the agents return.
 *
 * A `dict` with string keys is a sequence of key/value pairs in insertion
 * order; leaves that are objects of the `uuid`, `decimal` and `datetime`
 * modules carry the text their `str()` / `isoformat()` produces.
 */
module PyValue {
  import opened Wrappers

  type Byte = x: int | 0 <= x < 256

  datatype Value =
    | NoneValue
    | Bool(b: bool)
    | Int(i: int)
    | Float(f: real)              // a finite float; -0.0 is 0.0
    | Str(s: string)
    | Uuid(text: string)          // uuid.UUID; `text` is str(u)
    | Decimal(text: string)       // decimal.Decimal; `text` is str(d)
    | Date(iso: string)           // datetime.date; `iso` is d.isoformat()
    | DateTime(iso: string)       // datetime.datetime; `iso` is d.isoformat()
    | Bytes(data: seq<Byte>)
    | Tuple(items: seq<Value>)
    | Set(items: seq<Value>)
    | List(items: seq<Value>)
    | Dict(entries: seq<(string, Value)>)
    | Other(typeName: string)     // any other object, passed through untouched

  /** A dict with string keys, such as `dict(record)` for a database row. */
  type Row = seq<(string, Value)>

  function Keys(d: Row): (ks: seq<string>)
    ensures |ks| == |d|
    ensures forall i :: 0 <= i < |d| ==> ks[i] == d[i].0
  {
    seq(|d|, i requires 0 <= i < |d| => d[i].0)
  }

  /** `d.get(key)`: the value stored under `key`, if any. */
  function Get(d: Row, key: string): (r: Option<Value>)
    ensures r.None? <==> forall i :: 0 <= i < |d| ==> d[i].0 != key
    ensures r.Some? ==> exists i :: 0 <= i < |d| && d[i] == (key, r.value)
  {
    if d == [] then None
    else if d[0].0 == key then Some(d[0].1)
    else Get(d[1..], key)
  }

  /** `str(d)` of a `decimal.Decimal` denotes zero: every digit before the exponent is `0`. */
  predicate DecimalTextIsZero(t: string) {
    var m := MantissaEnd(t, 0);
    (exists i :: 0 <= i < m && '0' <= t[i] <= '9')
    && forall i :: 0 <= i < m && '0' <= t[i] <= '9' ==> t[i] == '0'
  }

  function MantissaEnd(t: string, i: nat): (m: nat)
    requires i <= |t|
    ensures i <= m <= |t|
    ensures forall k :: i <= k < m ==> t[k] != 'e' && t[k] != 'E'
    decreases |t| - i
  {
    if i == |t| || t[i] == 'e' || t[i] == 'E' then i else MantissaEnd(t, i + 1)
  }

  /** `len(v)` for the values that have a length. */
  function Len(v: Value): (n: Option<nat>)
    ensures n.Some? <==> (v.Str? || v.Bytes? || v.Tuple? || v.Set? || v.List? || v.Dict?)
  {
    match v
    case Str(s) => Some(|s|)
    case Bytes(d) => Some(|d|)
    case Tuple(xs) => Some(|xs|)
    case Set(xs) => Some(|xs|)
    case List(xs) => Some(|xs|)
    case Dict(es) => Some(|es|)
    case _ => None
  }

  /**
   * Python truth value (`bool(v)`): `None` and `False` are false, a number is
   * true when it is not zero, a value with a length when that length is not
   * zero, and any other object is true.
   */
  predicate Truthy(v: Value)
    ensures Len(v).Some? ==> (Truthy(v) <==> Len(v).value > 0)
    ensures v.NoneValue? ==> !Truthy(v)
    ensures v.Bool? ==> (Truthy(v) <==> v.b)
    ensures v.Int? ==> (Truthy(v) <==> v.i != 0)
    ensures v.Float? ==> (Truthy(v) <==> v.f != 0.0)
    ensures (v.Uuid? || v.Date? || v.DateTime? || v.Other?) ==> Truthy(v)
  {
    match v
    case NoneValue => false
    case Bool(b) => b
    case Int(i) => i != 0
    case Float(f) => f != 0.0
    case Str(s) => s != []
    case Decimal(t) => !DecimalTextIsZero(t)
    case Bytes(d) => d != []
    case Tuple(xs) => xs != []
    case Set(xs) => xs != []
    case List(xs) => xs != []
    case Dict(es) => es != []
    case _ => true
  }

  /**
   * The dictionaries the query agents return. `Failed` has `"success": False`
   * with an error kind and a message; `Succeeded` has `"success": True`, a
   * message, and the `"data"` and `"export_error"` entries when present.
   */
  datatype Response =
    | Failed(error: string, message: string)
    | Succeeded(message: string, data: Option<seq<Row>>, exportError: Option<string>)

  const ValidationError := Failed("validation_error", "Only SELECT statements are allowed.")
}
