/** The JSON values the settings page exchanges with the device, and the
    parts of JavaScript's conversions the page relies on: `String(v)` when a
    value is written into a control, and the loose `==` it uses to compare a
    value with a number or with an option's value. */
module JsValues {

  datatype Option<T> = None | Some(value: T)

  /** A parsed JSON value (objects nested inside values and `null` are not
      modelled). `Undefined` is what reading a missing property yields. */
  datatype Value = Num(n: int) | Str(s: string) | Bool(b: bool) | List(items: seq<Value>) | Undefined

  /** A parsed JSON object: the value of each key present. */
  type Object = map<string, Value>

  /** `obj[key]`: the value, or `undefined` when the key is missing. */
  function Get(obj: Object, key: string): (v: Value)
    ensures key !in obj ==> v == Undefined
  {
    if key in obj then obj[key] else Undefined
  }

  /** A reply body after `try { r = JSON.parse(...) } catch (e) { r = fallback }`:
      `None` is a body that does not parse. */
  function Parsed(reply: Option<Object>, fallback: Object): (r: Object)
    ensures reply.None? ==> r == fallback
  {
    if reply.Some? then reply.value else fallback
  }

  function DigitChar(d: nat): (c: char)
    requires d < 10
    ensures '0' <= c <= '9'
  {
    "0123456789"[d]
  }

  function DigitValue(c: char): nat
    requires '0' <= c <= '9'
  {
    (c as int) - ('0' as int)
  }

  predicate IsDigits(s: string) {
    |s| > 0 && forall i :: 0 <= i < |s| ==> '0' <= s[i] <= '9'
  }

  /** The decimal digits of `n`, without leading zeros. */
  function NatToString(n: nat): (r: string)
    ensures IsDigits(r)
  {
    if n < 10 then [DigitChar(n)] else NatToString(n / 10) + [DigitChar(n % 10)]
  }

  /** `String(n)` for an integral number. */
  function IntToString(i: int): string {
    if i < 0 then "-" + NatToString(-i) else NatToString(i)
  }

  /** The number a string of decimal digits denotes (leading zeros allowed). */
  function DigitsValue(s: string): nat
    requires IsDigits(s)
  {
    if |s| == 1 then DigitValue(s[0])
    else DigitsValue(s[..|s| - 1]) * 10 + DigitValue(s[|s| - 1])
  }

  /** JavaScript's `ToNumber` on a string, for the integral forms: the empty
      string is 0, otherwise an optional minus sign and decimal digits.
      `None` stands for NaN, which equals nothing. */
  function ToNumber(s: string): Option<int> {
    if s == "" then Some(0)
    else if s[0] == '-' && IsDigits(s[1..]) then Some(0 - DigitsValue(s[1..]))
    else if IsDigits(s) then Some(DigitsValue(s))
    else None
  }

  /** `String(v)`: the text a control shows after `control.value = v` or
      `element.innerHTML = v`. An array is joined with commas, its undefined
      elements becoming empty. */
  function ToStr(v: Value): string
    decreases v, 1, 0
  {
    match v
    case Num(n) => IntToString(n)
    case Str(s) => s
    case Bool(b) => if b then "true" else "false"
    case List(items) => JoinFrom(v, 0)
    case Undefined => "undefined"
  }

  function JoinFrom(v: Value, i: nat): string
    requires v.List? && i <= |v.items|
    decreases v, 0, |v.items| - i
  {
    if i == |v.items| then ""
    else
      (if i == 0 then "" else ",")
      + (if v.items[i] == Undefined then "" else ToStr(v.items[i]))
      + JoinFrom(v, i + 1)
  }

  /** `v[z]`: an array's element, a string's character, otherwise undefined. */
  function Elem(v: Value, z: nat): Value {
    match v
    case List(items) => if z < |items| then items[z] else Undefined
    case Str(s) => if z < |s| then Str([s[z]]) else Undefined
    case _ => Undefined
  }

  /** `v == n` in JavaScript, for a number `n`. */
  predicate LooseEqualsNumber(v: Value, n: int) {
    match v
    case Num(m) => m == n
    case Str(s) => ToNumber(s) == Some(n)
    case Bool(b) => (if b then 1 else 0) == n
    case List(_) => ToNumber(ToStr(v)) == Some(n)
    case Undefined => false
  }

  /** `t == v` in JavaScript, for a string `t` (an option's value). */
  predicate LooseEqualsString(t: string, v: Value) {
    match v
    case Str(s) => s == t
    case Num(n) => ToNumber(t) == Some(n)
    case Bool(b) => ToNumber(t) == Some(if b then 1 else 0)
    case List(_) => ToStr(v) == t
    case Undefined => false
  }

  // ---------------------------------------------------------------------

  lemma {:induction false} DigitsRoundTrip(n: nat)
    ensures DigitsValue(NatToString(n)) == n
    decreases n
  {
    if n >= 10 {
      DigitsRoundTrip(n / 10);
      var s := NatToString(n);
      assert s[..|s| - 1] == NatToString(n / 10);
    }
  }

  /** Reading back the text of a number gives the number: a number written
      into a control compares equal to it. */
  lemma NumberTextRoundTrip(n: int)
    ensures ToNumber(IntToString(n)) == Some(n)
    ensures LooseEqualsNumber(Str(IntToString(n)), n)
  {
    var s := IntToString(n);
    if n < 0 {
      DigitsRoundTrip(-n);
      assert s[1..] == NatToString(-n);
      assert s[0] == '-';
    } else {
      DigitsRoundTrip(n);
      assert s == NatToString(n);
      assert s[0] != '-';
    }
  }
}
