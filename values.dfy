/**
 * Front-matter values as the pipeline receives them from the YAML parser,
 * and the JavaScript conversions the components apply to them.
 */
module Values {
  import opened Text

  /** A front-matter value. Numbers are integers here. */
  datatype Value =
    | Undefined
    | Null
    | Str(s: string)
    | Num(n: int)
    | Bool(b: bool)
    | Arr(items: seq<Value>)
    | Obj(fields: seq<(string, Value)>)

  /** A front-matter object: its own entries in `Object.entries` order. */
  type Data = seq<(string, Value)>

  /** `data[k]`: the entry's value, or `undefined` when the key is absent. */
  function Lookup(d: Data, k: string): (v: Value)
    ensures v != Undefined ==> exists i :: 0 <= i < |d| && d[i] == (k, v)
    ensures (forall i :: 0 <= i < |d| ==> d[i].0 != k) ==> v == Undefined
    decreases |d|
  {
    if |d| == 0 then Undefined
    else if d[0].0 == k then d[0].1
    else Lookup(d[1..], k)
  }

  predicate IsNullish(v: Value) {
    v.Undefined? || v.Null?
  }

  /** JavaScript truthiness. */
  predicate Truthy(v: Value) {
    match v
    case Undefined => false
    case Null => false
    case Str(s) => s != ""
    case Num(n) => n != 0
    case Bool(b) => b
    case Arr(_) => true
    case Obj(_) => true
  }

  function DigitChar(d: nat): char
    requires d < 10
  {
    ('0' as int + d) as char
  }

  function NatToString(n: nat): (r: string)
    ensures |r| >= 1
    ensures forall i :: 0 <= i < |r| ==> '0' <= r[i] <= '9'
  {
    if n < 10 then [DigitChar(n)] else NatToString(n / 10) + [DigitChar(n % 10)]
  }

  /** The decimal form of an integer, as `String(n)` gives it. */
  function IntToString(n: int): string {
    if n < 0 then "-" + NatToString(-n) else NatToString(n)
  }

  /** `String(v)`; an array joins its elements with `,`, writing `null`/`undefined` elements as empty. */
  function JsString(v: Value): string
    decreases v, 0
  {
    match v
    case Undefined => "undefined"
    case Null => "null"
    case Str(s) => s
    case Num(n) => IntToString(n)
    case Bool(b) => if b then "true" else "false"
    case Arr(items) => Join(seq(|items|, i requires 0 <= i < |items| => ElementString(items[i])), ",")
    case Obj(_) => "[object Object]"
  }

  /** How `Array.prototype.join` writes one element. */
  function ElementString(v: Value): string
    decreases v, 1
  {
    if IsNullish(v) then "" else JsString(v)
  }

  lemma NatToStringValue(n: nat)
    ensures DecimalValue(NatToString(n)) == n
  {
    if n >= 10 {
      NatToStringValue(n / 10);
      DecimalValueSnoc(NatToString(n / 10), DigitChar(n % 10));
    }
  }

  /** The number a string of decimal digits denotes. */
  function DecimalValue(s: string): int
    decreases |s|
  {
    if |s| == 0 then 0 else DecimalValue(s[..|s| - 1]) * 10 + (s[|s| - 1] as int - '0' as int)
  }

  lemma DecimalValueSnoc(s: string, c: char)
    ensures DecimalValue(s + [c]) == DecimalValue(s) * 10 + (c as int - '0' as int)
  {
    assert (s + [c])[..|s|] == s;
  }
}
