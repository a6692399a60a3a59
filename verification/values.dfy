/** Values that cross the boundary of the validators: results, parsed
    numbers, and the dynamically typed arguments of Python and JavaScript. */
module Values {

  /** A validator either returns a normalised value or fails with a
      human-readable reason (a raised ValidationError or a thrown error). */
  datatype Result<T> = Ok(value: T) | Err(error: string)

  datatype Option<T> = None | Some(value: T)

  /** What Python's `float()` or `int()` does with a request value: return
      the converted number, raise ValueError or TypeError, or raise
      OverflowError (an integer too large for a double, an infinity given
      to `int`). */
  datatype Conversion<T> = Converted(value: T) | ConversionError | OverflowError

  /** What a backend validator does: return normally or raise
      ValidationError (the `Result`), or let an exception it does not catch
      escape to its caller. */
  datatype Outcome<T> = Returns(result: Result<T>) | Escapes {
    /** The validator returned a value. */
    predicate Accepted() {
      Returns? && result.Ok?
    }
  }

  /** A double as far as the amount checks can observe it: a finite value
      (taken as an exact real), an infinity, or NaN. */
  datatype Number = Finite(r: real) | Infinity(negative: bool) | NaN

  /** A Python argument: a `str`, or any object of another type. */
  datatype PyValue = PyStr(s: string) | PyOther

  /** A JavaScript value as the validators inspect it. */
  datatype JsValue =
    | JsUndefined
    | JsNull
    | JsBool(b: bool)
    | JsNumber(n: Number)
    | JsString(s: string)
    | JsObject

  /** JavaScript truthiness: `!v` holds exactly for these values. */
  predicate Falsy(v: JsValue) {
    match v
    case JsUndefined => true
    case JsNull => true
    case JsBool(b) => !b
    case JsNumber(n) => n == Finite(0.0) || n == NaN
    case JsString(s) => s == []
    case JsObject => false
  }

  /** `formData[name]`: a missing key reads as `undefined`. */
  function Lookup(formData: map<string, JsValue>, name: string): (v: JsValue)
    ensures name !in formData ==> v == JsUndefined
    ensures name in formData ==> v == formData[name]
  {
    if name in formData then formData[name] else JsUndefined
  }

  /** `Math.abs(n) > 1000000` and Python's `abs(n) > 1000000`; false for NaN. */
  predicate ExceedsLimit(n: Number) {
    match n
    case Finite(r) => r > 1000000.0 || r < -1000000.0
    case Infinity(_) => true
    case NaN => false
  }

  /** `n == 0` (Python) and `n === 0` (JavaScript); -0.0 is the same real 0. */
  predicate IsZero(n: Number) {
    n == Finite(0.0)
  }

  /** Decimal rendering of an integer, as Python's f-string `{n}` prints it. */
  function IntToString(n: int): (r: string)
    ensures |r| >= 1
    ensures n < 0 <==> r[0] == '-'
  {
    if n < 0 then "-" + NatToString(-n) else NatToString(n)
  }

  function NatToString(n: nat): (r: string)
    ensures |r| >= 1 && forall i :: 0 <= i < |r| ==> '0' <= r[i] <= '9'
  {
    var d := ['0', '1', '2', '3', '4', '5', '6', '7', '8', '9'];
    if n < 10 then [d[n]] else NatToString(n / 10) + [d[n % 10]]
  }
}
