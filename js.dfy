/** JavaScript values as the request layer sees them (`unknown` inputs such as
    query parameters), with the handful of language rules the source relies on:
    truthiness, `fromNullable`, reading a missing property as `undefined`,
    `String(v)`, and fp-ts `toError`. Numbers are modelled as integers. */
module Js {
  import opened Wrappers
  import opened JsString

  datatype Value =
    | Undefined
    | Null
    | Bool(b: bool)
    | Num(n: int)
    | Str(s: string)
    | Arr(items: seq<Value>)
    | Obj(fields: map<string, Value>)

  /** JavaScript truthiness: `undefined`, `null`, `false`, `0` and `""` are falsy. */
  predicate IsTruthy(v: Value)
  {
    match v
    case Undefined => false
    case Null => false
    case Bool(b) => b
    case Num(n) => n != 0
    case Str(s) => s != ""
    case Arr(_) => true
    case Obj(_) => true
  }

  /** fp-ts `fromNullable`: `null` and `undefined` are absent, anything else present. */
  function FromNullable(v: Value): (r: Option<Value>)
    ensures r.None? <==> v == Undefined || v == Null
    ensures r.Some? ==> r.value == v
  {
    if v.Undefined? || v.Null? then None else Some(v)
  }

  /** `obj[key]`: a key the object does not have reads as `undefined`. */
  function Property(fields: map<string, Value>, key: string): (r: Value)
    ensures key !in fields ==> r == Undefined
    ensures key in fields ==> r == fields[key]
  {
    if key in fields then fields[key] else Undefined
  }

  predicate IsDigit(c: char)
  {
    '0' <= c <= '9'
  }

  /** The number a string of decimal digits denotes, read left to right. */
  ghost function DigitsValue(s: string): nat
  {
    if |s| == 0 then 0
    else
      var d := s[|s| - 1] as int - '0' as int;
      DigitsValue(s[..|s| - 1]) * 10 + (if 0 <= d then d else 0)
  }

  /** Decimal notation of a natural number, as `String(n)` prints it: digits
      that denote `n`, with no leading zero. */
  function NatToString(n: nat): (r: string)
    ensures |r| >= 1
    ensures forall k :: 0 <= k < |r| ==> IsDigit(r[k])
    ensures DigitsValue(r) == n
    ensures n > 0 ==> r[0] != '0'
    ensures n == 0 ==> r == "0"
  {
    var d := ['0' + (n % 10) as char];
    if n < 10 then d
    else
      var r := NatToString(n / 10) + d;
      assert r[..|r| - 1] == NatToString(n / 10);
      r
  }

  function IntToString(n: int): string
  {
    if n < 0 then "-" + NatToString(-n) else NatToString(n)
  }

  /** `String(v)`. An array prints as its elements joined with ",", where
      `null` and `undefined` elements print as the empty string. */
  function ToString(v: Value): (r: string)
    ensures v.Str? ==> r == v.s
    ensures v.Num? && v.n >= 0 ==> r == NatToString(v.n)
    ensures v.Arr? && (forall k :: 0 <= k < |v.items| ==> v.items[k].Str?) ==> r == Join(StrItems(v.items), ',')
  {
    match v
    case Undefined => "undefined"
    case Null => "null"
    case Bool(b) => if b then "true" else "false"
    case Num(n) => IntToString(n)
    case Str(s) => s
    case Arr(items) =>
      var printed := seq(|items|, k requires 0 <= k < |items| =>
        if items[k].Undefined? || items[k].Null? then "" else ToString(items[k]));
      assert (forall k :: 0 <= k < |items| ==> items[k].Str?) ==> printed == StrItems(items);
      Join(printed, ',')
    case Obj(_) => "[object Object]"
  }

  /** The strings an array of strings holds, in order. */
  function StrItems(items: seq<Value>): (r: seq<string>)
    requires forall k :: 0 <= k < |items| ==> items[k].Str?
    ensures |r| == |items|
    ensures forall k :: 0 <= k < |items| ==> r[k] == items[k].s
  {
    seq(|items|, k requires 0 <= k < |items| => items[k].s)
  }

  /** Whatever a failed computation throws or rejects with. */
  datatype Thrown = ErrorObject(message: string) | NonError(value: Value)

  /** fp-ts `toError(e).message`: an `Error` keeps its message, anything else
      is wrapped in `new Error(String(e))`. */
  function ErrorMessage(e: Thrown): (m: string)
    ensures e.ErrorObject? ==> m == e.message
    ensures e.NonError? && e.value.Str? ==> m == e.value.s
  {
    match e
    case ErrorObject(message) => message
    case NonError(v) => ToString(v)
  }
}
