/** The PHP runtime notions the application relies on: its loosely typed
    scalars, `empty()` and truthiness, `isset` on arrays, string conversion,
    `implode`, exceptions, and the `true|array` result of the validators. */
module Php {

  /** A PHP scalar as it appears in form data, query strings and fetched rows. */
  datatype Value = Null | Int(i: int) | Str(s: string)

  datatype Option<T> = None | Some(value: T)

  /** The outcome of code that may throw an Exception: its value or the exception's message. */
  datatype Result<T> = Ok(value: T) | Err(message: string)

  /** The outcome of code that returns nothing of interest or throws. */
  datatype Outcome = Pass | Throw(message: string)

  /** PHP's `empty()` on a scalar: null, 0, "" and "0" are empty. */
  predicate Empty(v: Value) {
    match v
    case Null => true
    case Int(i) => i == 0
    case Str(s) => s == "" || s == "0"
  }

  /** The truth value PHP gives a scalar in `if ($v)`. */
  predicate Truthy(v: Value) {
    !Empty(v)
  }

  /** `isset($m[$k])`: the key is present and its value is not null. */
  predicate IsSet(m: map<string, Value>, k: string) {
    k in m && m[k] != Null
  }

  /** `$m[$k]` read without a guard: an undefined index reads as null. */
  function Index(m: map<string, Value>, k: string): (v: Value)
    ensures IsSet(m, k) ==> v == m[k]
    ensures !IsSet(m, k) ==> v == Null
  {
    if k in m then m[k] else Null
  }

  // Decimal numerals

  predicate IsDigit(c: char) {
    '0' <= c <= '9'
  }

  predicate IsDigits(s: string) {
    forall i :: 0 <= i < |s| ==> IsDigit(s[i])
  }

  function DigitChar(d: nat): (c: char)
    requires d < 10
    ensures IsDigit(c)
  {
    ('0' as int + d) as char
  }

  function DigitValue(c: char): nat
    requires IsDigit(c)
  {
    c as int - '0' as int
  }

  /** The value of a numeral, most significant digit first. */
  function ParseDigits(s: string): nat
    requires IsDigits(s)
  {
    if s == [] then 0 else ParseDigits(s[..|s| - 1]) * 10 + DigitValue(s[|s| - 1])
  }

  /** The decimal numeral PHP prints for a natural number. */
  function Decimal(n: nat): (r: string)
    ensures |r| > 0 && IsDigits(r)
    ensures n >= 10 ==> r[..|r| - 1] == Decimal(n / 10) && r[|r| - 1] == DigitChar(n % 10)
  {
    if n < 10 then [DigitChar(n)] else Decimal(n / 10) + [DigitChar(n % 10)]
  }

  /** Reading back a printed number gives the number. */
  lemma {:induction false} ParseDecimal(n: nat)
    ensures ParseDigits(Decimal(n)) == n
  {
    if n >= 10 {
      ParseDecimal(n / 10);
    }
  }

  /** PHP's string conversion of a scalar, as used by the `.` operator. */
  function ToStr(v: Value): string {
    match v
    case Null => ""
    case Int(i) => if i < 0 then "-" + Decimal(-i) else Decimal(i)
    case Str(s) => s
  }

  // implode

  /** `implode($glue, $parts)`. */
  function Implode(glue: string, parts: seq<string>): string {
    if |parts| == 0 then ""
    else if |parts| == 1 then parts[0]
    else parts[0] + glue + Implode(glue, parts[1..])
  }

  /** Every part with `p` put in front of it. */
  function Prefixed(p: string, parts: seq<string>): (r: seq<string>)
    ensures |r| == |parts|
    ensures forall k :: 0 <= k < |parts| ==> r[k] == p + parts[k]
  {
    seq(|parts|, k requires 0 <= k < |parts| => p + parts[k])
  }

  /** Gluing with `glue + p` behind a leading `p` is the same as prefixing
      every part with `p` and gluing with `glue`. */
  lemma {:induction false} ImplodePrefixed(glue: string, p: string, parts: seq<string>)
    requires |parts| > 0
    ensures p + Implode(glue + p, parts) == Implode(glue, Prefixed(p, parts))
  {
    if |parts| > 1 {
      var rest := parts[1..];
      ImplodePrefixed(glue, p, rest);
      assert Prefixed(p, parts)[1..] == Prefixed(p, rest);
      calc {
        p + Implode(glue + p, parts);
        p + (parts[0] + (glue + p) + Implode(glue + p, rest));
        (p + parts[0]) + glue + (p + Implode(glue + p, rest));
        (p + parts[0]) + glue + Implode(glue, Prefixed(p, rest));
        Implode(glue, Prefixed(p, parts));
      }
    }
  }

  // Validation results

  /** What a validator returns: `true`, or the array of error messages keyed by field. */
  datatype Verdict = Valid | Invalid(errors: map<string, string>)

  /** `empty($errors) ? true : $errors`. */
  function VerdictOf(errors: map<string, string>): (v: Verdict)
    ensures v.Valid? <==> errors == map[]
    ensures v.Invalid? ==> v.errors == errors
  {
    if errors == map[] then Valid else Invalid(errors)
  }

  /** One check of a required-fields validator: the field's message is
      added when its value is empty, and every error so far is kept. */
  function Require(errors: map<string, string>, field: string, v: Value, message: string): (r: map<string, string>)
    ensures r.Keys == errors.Keys + (if Empty(v) then {field} else {})
    ensures Empty(v) ==> r[field] == message
    ensures forall f :: f in errors && f != field ==> r[f] == errors[f]
  {
    if Empty(v) then errors[field := message] else errors
  }
}
