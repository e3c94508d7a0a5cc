/**
 The slice of JavaScript value semantics that the route handlers and the
 rich-text renderer depend on: truthiness (`||`, `!x`, `x ? a : b`), strict
 equality, optional property reads (`x?.id`), string conversion (template
 literals) and `Array.prototype.slice`.

 Numbers are integers throughout; fractional numbers, NaN and the infinities
 only appear where a route can produce them (see AvailableQuizzes.TotalPages).
 */
module JsValues {

  /** Absent-or-present, as used for optional document fields. */
  datatype Option<+T> = None | Some(value: T) {
    function GetOr(default: T): T {
      match this
      case Some(v) => v
      case None => default
    }
  }

  /** What an awaited call inside a route's `try` block gave: its value, or
      the message of the exception it threw (an unparsable request body, a
      failed CMS query). */
  datatype Try<+T> = Returned(value: T) | Raised(message: string)

  /** A JSON-like JavaScript value: what `req.json()` yields and what a
      loosely typed node field may hold. Object properties are kept in
      insertion order; every object built in this model has distinct keys. */
  datatype Value =
    | Undefined
    | Null
    | Bool(b: bool)
    | Num(n: int)
    | Str(s: string)
    | Arr(elems: seq<Value>)
    | Obj(props: seq<(string, Value)>)

  predicate Nullish(v: Value) {
    v.Undefined? || v.Null?
  }

  /** JavaScript truthiness: `false`, `0`, `""`, `null` and `undefined` are
      falsy; every array and object (even an empty one) is truthy. */
  predicate Truthy(v: Value) {
    match v
    case Undefined => false
    case Null => false
    case Bool(b) => b
    case Num(n) => n != 0
    case Str(s) => s != ""
    case Arr(_) => true
    case Obj(_) => true
  }

  /** `a === b`. Primitives compare by value. Arrays and objects compare by
      reference; every array or object compared in this model comes from a
      separate parse or fetch, so two of them are never the same reference. */
  predicate StrictEquals(a: Value, b: Value) {
    match (a, b)
    case (Undefined, Undefined) => true
    case (Null, Null) => true
    case (Bool(x), Bool(y)) => x == y
    case (Num(x), Num(y)) => x == y
    case (Str(x), Str(y)) => x == y
    case _ => false
  }

  /** The value of the first property named `key`, or `undefined`. */
  function Lookup(props: seq<(string, Value)>, key: string): (r: Value)
    ensures (forall i :: 0 <= i < |props| ==> props[i].0 != key) ==> r == Undefined
    ensures r != Undefined ==> exists i :: 0 <= i < |props| && props[i] == (key, r)
  {
    if |props| == 0 then Undefined
    else if props[0].0 == key then props[0].1
    else Lookup(props[1..], key)
  }

  /** `v?.key` for the named properties this model reads (`id`, `slug`):
      `undefined` on `null`/`undefined` (no exception), the own property of an
      object, and `undefined` on strings, numbers, booleans and arrays, which
      have no such property. */
  function OptionalGet(v: Value, key: string): Value {
    match v
    case Obj(props) => Lookup(props, key)
    case _ => Undefined
  }

  /** Decimal digits of a natural number, most significant first. */
  function NatToString(n: nat): (r: string)
    ensures |r| > 0
    ensures forall i :: 0 <= i < |r| ==> '0' <= r[i] <= '9'
    decreases n
  {
    var d := ['0', '1', '2', '3', '4', '5', '6', '7', '8', '9'][n % 10];
    if n < 10 then [d] else NatToString(n / 10) + [d]
  }

  function IntToString(n: int): string {
    if n < 0 then "-" + NatToString(-n) else NatToString(n)
  }

  /** `String(v)`, which is also what a template literal `${v}` produces. An
      array joins its elements' strings with commas, writing `null` and
      `undefined` elements as empty. */
  function ToString(v: Value): string
    decreases v, 1
  {
    match v
    case Undefined => "undefined"
    case Null => "null"
    case Bool(b) => if b then "true" else "false"
    case Num(n) => IntToString(n)
    case Str(s) => s
    case Arr(elems) => JoinElements(v, elems)
    case Obj(_) => "[object Object]"
  }

  function JoinElements(parent: Value, elems: seq<Value>): string
    requires forall e :: e in elems ==> e < parent
    decreases parent, 0, |elems|
  {
    if |elems| == 0 then ""
    else
      assert elems[0] in elems;
      assert forall e :: e in elems[1..] ==> e in elems;
      var head := if Nullish(elems[0]) then "" else ToString(elems[0]);
      if |elems| == 1 then head else head + "," + JoinElements(parent, elems[1..])
  }

  /** The index `Array.prototype.slice` derives from a relative argument:
      negative positions count back from the end, and the result is clipped
      to `[0, len]`. */
  function ClampIndex(rel: int, len: nat): (r: nat)
    ensures r <= len
    ensures 0 <= rel <= len ==> r == rel
    ensures rel > len ==> r == len
    ensures rel < 0 ==> r == if len + rel < 0 then 0 else len + rel
  {
    if rel < 0 then (if len + rel < 0 then 0 else len + rel)
    else if rel > len then len
    else rel
  }

  /** `s.slice(start, end)`: the elements from the clamped start up to the
      clamped end, or nothing when the end is not past the start. */
  function Slice<T>(s: seq<T>, start: int, end: int): (r: seq<T>)
    ensures |r| <= |s|
    ensures var from := ClampIndex(start, |s|);
            var to := ClampIndex(end, |s|);
            |r| == (if to <= from then 0 else to - from)
            && forall i :: 0 <= i < |r| ==> r[i] == s[from + i]
  {
    var from := ClampIndex(start, |s|);
    var to := ClampIndex(end, |s|);
    if to <= from then [] else s[from..to]
  }
}
