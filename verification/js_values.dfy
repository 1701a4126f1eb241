/** The slice of JavaScript's dynamic values that the configuration objects
    carry, with the coercions the code relies on: truthiness (`!x`), the
    `typeof x === 'string' && x.length > 0` test, and the conversion of a
    value to a property key (`obj[x]`). */
module JsValues {

  /** A JavaScript value. Numbers are integers here; `Obj` stands for a
      plain object that keeps Object.prototype's `toString`. */
  datatype JsValue =
    | Undefined
    | Null
    | Bool(b: bool)
    | Num(n: int)
    | Str(s: string)
    | Obj(id: nat)

  /** JavaScript truthiness: `undefined`, `null`, `false`, `0` and `""` are
      falsy, everything else is truthy. */
  predicate Truthy(v: JsValue) {
    match v
    case Undefined => false
    case Null => false
    case Bool(b) => b
    case Num(n) => n != 0
    case Str(s) => |s| > 0
    case Obj(_) => true
  }

  /** `typeof v === 'string' && v.length > 0` */
  predicate ValidStr(v: JsValue) {
    v.Str? && |v.s| > 0
  }

  /** `typeof v === 'boolean'` */
  predicate ValidBool(v: JsValue) {
    v.Bool?
  }

  function DigitChar(d: nat): (c: char)
    requires d < 10
    ensures '0' <= c <= '9'
  {
    "0123456789"[d]
  }

  predicate IsDigit(c: char) {
    '0' <= c <= '9'
  }

  predicate AllDigits(s: string) {
    forall i :: 0 <= i < |s| ==> IsDigit(s[i])
  }

  /** The value of a string of decimal digits. */
  function DecimalValue(s: string): nat
    requires AllDigits(s)
  {
    if |s| == 0 then 0
    else DecimalValue(s[..|s| - 1]) * 10 + (s[|s| - 1] as int - '0' as int)
  }

  /** The decimal representation of a natural number, without leading zeros. */
  function NatToString(n: nat): (s: string)
    ensures |s| > 0 && AllDigits(s)
    decreases n
  {
    if n < 10 then [DigitChar(n)]
    else NatToString(n / 10) + [DigitChar(n % 10)]
  }

  /** Reading back the digits of a number gives that number, and there is
      no leading zero unless the number is zero. */
  lemma {:induction false} NatToStringRoundTrip(n: nat)
    ensures DecimalValue(NatToString(n)) == n
    ensures n > 0 ==> NatToString(n)[0] != '0'
    ensures n == 0 ==> NatToString(n) == "0"
    decreases n
  {
    var s := NatToString(n);
    if n < 10 {
      assert s == [DigitChar(n)];
      assert s[..|s| - 1] == [];
    } else {
      NatToStringRoundTrip(n / 10);
      var p := NatToString(n / 10);
      assert s == p + [DigitChar(n % 10)];
      assert s[..|s| - 1] == p;
      assert s[0] == p[0];
    }
  }

  /** JavaScript's Number-to-String conversion for integers below 10^21,
      where it writes every digit. */
  function IntToString(n: int): (s: string)
    ensures |s| > 0
  {
    if n < 0 then "-" + NatToString(-n) else NatToString(n)
  }

  /** The property key JavaScript uses for `obj[v]` (ToString of `v`). */
  function ToKey(v: JsValue): string {
    match v
    case Undefined => "undefined"
    case Null => "null"
    case Bool(b) => if b then "true" else "false"
    case Num(n) => IntToString(n)
    case Str(s) => s
    case Obj(_) => "[object Object]"
  }

  /** The names every plain object `{}` inherits from Object.prototype; a
      lookup `obj[name]` on such an object yields a truthy function (or the
      prototype itself for `__proto__`) even though `obj` has no own
      property of that name. */
  const InheritedNames: set<string> := {
    "constructor", "hasOwnProperty", "isPrototypeOf", "propertyIsEnumerable",
    "toLocaleString", "toString", "valueOf", "__proto__",
    "__defineGetter__", "__defineSetter__", "__lookupGetter__", "__lookupSetter__"
  }

  /** The numeric value of a key, when it is a string of digits. */
  function KeyValue(k: string): nat {
    if AllDigits(k) then DecimalValue(k) else 0
  }

  /** 2^32 - 1: array indices are the canonical numeric strings below it. */
  const ArrayIndexBound: nat := 0x1_0000_0000 - 1

  /** An array index in the sense of ECMAScript's property-key ordering: a
      canonical decimal string (no sign, no leading zero) whose value is
      below 2^32 - 1. */
  predicate IsArrayIndex(k: string) {
    && |k| > 0
    && AllDigits(k)
    && (k[0] != '0' || k == "0")
    && DecimalValue(k) < ArrayIndexBound
  }

  /** An integer-valued store or database name in the array-index range
      becomes an array-index key, so it enumerates before every other key. */
  lemma NumKeyIsArrayIndex(n: int)
    requires 0 <= n < ArrayIndexBound
    ensures IsArrayIndex(ToKey(Num(n)))
    ensures DecimalValue(ToKey(Num(n))) == n
  {
    NatToStringRoundTrip(n);
  }
}
