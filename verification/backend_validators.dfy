/** backend/utils/validators.py: the validators the route modules use.
    Every validator either returns the normalised value or fails with the
    reason a ValidationError would carry. */
module BackendValidators {
  import opened Values
  import opened Text
  import opened Rounding

  function InvalidText(maxLength: int): string {
    "Texto inválido (máx " + IntToString(maxLength) + ")"
  }

  /** `sanitize_string`: strip, then reject an empty or over-long text, then
      delete control characters. The length is checked BEFORE the controls
      are deleted, and emptiness too, so the result may be shorter than the
      bound would need and may even be empty. */
  function SanitizeString(value: PyValue, maxLength: int): (r: Result<string>)
    ensures value.PyOther? ==> r == Err("Debe ser texto")
    ensures value.PyStr? ==> (r.Ok? <==> 1 <= |PyStrip(value.s)| <= maxLength)
    ensures value.PyStr? && r.Err? ==> r.error == InvalidText(maxLength)
    ensures r.Ok? ==> |r.value| <= maxLength && ControlFree(r.value)
  {
    match value
    case PyOther => Err("Debe ser texto")
    case PyStr(s) =>
      var stripped := PyStrip(s);
      if stripped == [] || |stripped| > maxLength then Err(InvalidText(maxLength))
      else Ok(RemoveControls(stripped))
  }

  /** What an accepted text comes back as: its stripped form with the
      control characters deleted. */
  lemma SanitizeStringValue(value: PyValue, maxLength: int)
    requires SanitizeString(value, maxLength).Ok?
    ensures value.PyStr? && SanitizeString(value, maxLength).value == RemoveControls(PyStrip(value.s))
  {
  }

  /** The length check sees the controls: `"a\x01"` does not fit in one
      character although its control-free form `"a"` would. */
  lemma SanitizeChecksLengthBeforeRemovingControls()
    ensures |RemoveControls("a\U{0001}")| == 1
    ensures SanitizeString(PyStr("a\U{0001}"), 1) == Err(InvalidText(1))
  {
    var s := "a\U{0001}";
    assert Trimmed(s, IsPySpace);
    TrimOfTrimmed(s, IsPySpace);
    assert RemoveControls(s) == "a";
  }

  /** Emptiness is checked before the controls go, so the result can be empty. */
  lemma SanitizeMayReturnEmpty(maxLength: int)
    requires maxLength >= 1
    ensures SanitizeString(PyStr("\U{0001}"), maxLength) == Ok("")
  {
    LoneControlEmpty('\U{0001}', maxLength);
    assert ['\U{0001}'] == "\U{0001}";
  }

  /** A lone control character that is not whitespace survives the strip,
      passes the emptiness test and is then deleted. */
  lemma LoneControlEmpty(c: char, maxLength: int)
    requires IsControl(c) && !IsPySpace(c) && maxLength >= 1
    ensures SanitizeString(PyStr([c]), maxLength) == Ok([])
  {
    LoneCharFiltered(c, maxLength);
    DeleteLone(c, Controls);
  }

  /** A lone character that is not whitespace has nothing to strip, so it is
      only filtered. */
  lemma LoneCharFiltered(c: char, maxLength: int)
    requires !IsPySpace(c) && maxLength >= 1
    ensures SanitizeString(PyStr([c]), maxLength) == Ok(RemoveControls([c]))
  {
    assert PyStrip([c]) == [c] by {
      assert Trimmed([c], IsPySpace);
      TrimOfTrimmed([c], IsPySpace);
    }
  }

  /** On a text whose stripped form has no controls, sanitizing is the strip,
      and sanitizing the result again changes nothing. */
  lemma SanitizeIdempotentWithoutControls(s: string, maxLength: int)
    requires ControlFree(PyStrip(s))
    requires SanitizeString(PyStr(s), maxLength).Ok?
    ensures SanitizeString(PyStr(s), maxLength) == Ok(PyStrip(s))
    ensures SanitizeString(PyStr(PyStrip(s)), maxLength) == Ok(PyStrip(s))
  {
    SanitizeClean(s, maxLength);
    SanitizeAgain(s, maxLength);
  }

  /** An accepted text whose stripped form has no controls comes back
      stripped. */
  lemma SanitizeClean(s: string, maxLength: int)
    requires ControlFree(PyStrip(s))
    requires SanitizeString(PyStr(s), maxLength).Ok?
    ensures SanitizeString(PyStr(s), maxLength) == Ok(PyStrip(s))
  {
    RemoveControlsClean(PyStrip(s));
  }

  /** The stripped form of such a text is accepted as it is. */
  lemma SanitizeAgain(s: string, maxLength: int)
    requires ControlFree(PyStrip(s)) && 1 <= |PyStrip(s)| <= maxLength
    ensures SanitizeString(PyStr(PyStrip(s)), maxLength) == Ok(PyStrip(s))
  {
    PyStripIdempotent(s);
    SanitizeStripped(PyStrip(s), maxLength);
  }

  /** A text with nothing to strip and no controls, of acceptable length,
      comes back as it is. */
  lemma SanitizeStripped(t: string, maxLength: int)
    requires PyStrip(t) == t && ControlFree(t) && 1 <= |t| <= maxLength
    ensures SanitizeString(PyStr(t), maxLength) == Ok(t)
  {
    RemoveControlsClean(t);
  }

  /** In general sanitizing is not idempotent: deleting a leading control
      exposes a space that the first strip could not reach. */
  lemma SanitizeNotIdempotent()
    ensures SanitizeString(PyStr("\U{0001} a"), 255) == Ok(" a")
    ensures SanitizeString(PyStr(" a"), 255) == Ok("a")
  {
    SanitizeLeadingControl();
    SanitizeLeadingSpace();
  }

  lemma SanitizeLeadingControl()
    ensures SanitizeString(PyStr("\U{0001} a"), 255) == Ok(" a")
  {
    var s := "\U{0001} a";
    assert Trimmed(s, IsPySpace);
    TrimOfTrimmed(s, IsPySpace);
    assert s == [] + ['\U{0001}'] + " a";
    DeleteOne([], '\U{0001}', " a", Controls);
    assert [] + " a" == " a";
    assert RemoveControls(s) == " a";
  }

  lemma SanitizeLeadingSpace()
    ensures SanitizeString(PyStr(" a"), 255) == Ok("a")
  {
    assert " " + "a" + "" == " a";
    TrimPadded(" ", "a", "", IsPySpace);
    RemoveControlsClean("a");
  }

  /** `validate_username`: sanitize to at most 20 characters, lower-case,
      then demand at least 3 characters from `[a-z0-9_-]`. */
  function ValidateUsername(username: PyValue): (r: Result<string>)
    ensures r.Ok? ==> 3 <= |r.value| <= 20 && AllUsernameChars(r.value)
    ensures r.Ok? ==> r.value == Lower(r.value)
    ensures SanitizeString(username, 20).Err? ==> r == SanitizeString(username, 20)
  {
    match SanitizeString(username, 20)
    case Err(e) => Err(e)
    case Ok(v) => CheckUsername(Lower(v))
  }

  /** The checks `validate_username` applies to the lower-cased name. */
  function CheckUsername(lowered: string): (r: Result<string>)
    ensures r.Ok? <==> 3 <= |lowered| && AllUsernameChars(lowered)
    ensures r.Ok? ==> r.value == lowered
  {
    if |lowered| < 3 then Err("Username mín 3 caracteres")
    else if !AllUsernameChars(lowered) then Err("Solo letras, números, guiones")
    else Ok(lowered)
  }

  /** A name of 3 to 20 characters over `[A-Za-z0-9_-]` is accepted,
      lower-cased. */
  lemma ValidateUsernameAcceptsNames(s: string)
    requires 3 <= |s| <= 20
    requires forall i :: 0 <= i < |s| ==> IsUsernameCharAnyCase(s[i])
    ensures ValidateUsername(PyStr(s)) == Ok(Lower(s))
  {
    assert ValidateUsername(PyStr(s)) == CheckUsername(Lower(s)) by {
      SanitizeUsernameChars(s);
      ValidateUsernameSanitized(s, s);
    }
    CheckUsernameLowered(s);
  }

  lemma SanitizeUsernameChars(s: string)
    requires 1 <= |s| <= 20
    requires forall i :: 0 <= i < |s| ==> IsUsernameCharAnyCase(s[i])
    ensures SanitizeString(PyStr(s), 20) == Ok(s)
  {
    UsernameCharsSanitized(s, 20);
  }

  /** The same for any bound. Stated apart from the bound 20, because
      with that literal the solver unfolds the error message's digits. */
  lemma UsernameCharsSanitized(s: string, maxLength: int)
    requires 1 <= |s| <= maxLength
    requires forall i :: 0 <= i < |s| ==> IsUsernameCharAnyCase(s[i])
    ensures SanitizeString(PyStr(s), maxLength) == Ok(s)
  {
    assert ControlFree(s);
    UsernameCharsNotPySpace(s);
    SanitizeStripped(s, maxLength);
  }

  lemma ValidateUsernameSanitized(raw: string, v: string)
    requires SanitizeString(PyStr(raw), 20) == Ok(v)
    ensures ValidateUsername(PyStr(raw)) == CheckUsername(Lower(v))
  {
  }

  lemma CheckUsernameLowered(s: string)
    requires 3 <= |s|
    requires forall i :: 0 <= i < |s| ==> IsUsernameCharAnyCase(s[i])
    ensures CheckUsername(Lower(s)) == Ok(Lower(s))
  {
    LowerUsernameChars(s);
  }

  /** An accepted username is accepted again, unchanged. */
  lemma ValidateUsernameIdempotent(username: PyValue)
    requires ValidateUsername(username).Ok?
    ensures ValidateUsername(PyStr(ValidateUsername(username).value)) == ValidateUsername(username)
  {
    var u := ValidateUsername(username).value;
    ValidateUsernameAcceptsNames(u);
  }

  /** Whitespace around a well-formed name is stripped and its case folded. */
  lemma ValidateUsernamePadded(a: string, u: string, b: string)
    requires AllSpace(a, IsPySpace) && AllSpace(b, IsPySpace)
    requires 3 <= |u| <= 20
    requires forall i :: 0 <= i < |u| ==> IsUsernameCharAnyCase(u[i])
    ensures ValidateUsername(PyStr(a + u + b)) == Ok(Lower(u))
  {
    assert !IsPySpace(u[0]) && !IsPySpace(u[|u| - 1]);
    TrimPadded(a, u, b, IsPySpace);
    UsernameCharsNotControls(u);
    ValidateUsernameSanitized(a + u + b, u);
    CheckUsernameLowered(u);
  }

  /** A control character inside an otherwise well-formed name is deleted,
      not rejected. */
  lemma ValidateUsernameDeletesControls(a: string, c: char, b: string)
    requires IsControl(c)
    requires a != [] && b != [] && 3 <= |a| + |b| < 20
    requires forall i :: 0 <= i < |a| ==> IsUsernameCharAnyCase(a[i])
    requires forall i :: 0 <= i < |b| ==> IsUsernameCharAnyCase(b[i])
    ensures ValidateUsername(PyStr(a + [c] + b)) == Ok(Lower(a + b))
  {
    SanitizeInnerControl(a + [c] + b, a, c, b);
    ValidateUsernameSanitized(a + [c] + b, a + b);
    UsernameCharsAppend(a, b);
    CheckUsernameLowered(a + b);
  }

  lemma SanitizeInnerControl(raw: string, a: string, c: char, b: string)
    requires raw == a + [c] + b && IsControl(c)
    requires a != [] && b != [] && |a| + |b| < 20
    requires forall i :: 0 <= i < |a| ==> IsUsernameCharAnyCase(a[i])
    requires forall i :: 0 <= i < |b| ==> IsUsernameCharAnyCase(b[i])
    ensures SanitizeString(PyStr(raw), 20) == Ok(a + b)
  {
    RemoveInnerControl(raw, a, c, b);
    InnerLength(raw, a, c, b);
    StripInner(raw, a, c, b);
    SanitizeUnstripped(raw, a + b);
  }

  lemma RemoveInnerControl(raw: string, a: string, c: char, b: string)
    requires raw == a + [c] + b && IsControl(c)
    requires forall i :: 0 <= i < |a| ==> IsUsernameCharAnyCase(a[i])
    requires forall i :: 0 <= i < |b| ==> IsUsernameCharAnyCase(b[i])
    ensures RemoveControls(raw) == a + b
  {
    UsernameCharsControlFree(a);
    UsernameCharsControlFree(b);
    DeleteOne(a, c, b, Controls);
  }

  lemma InnerLength(raw: string, a: string, c: char, b: string)
    requires raw == a + [c] + b && |a| + |b| < 20
    ensures 1 <= |raw| <= 20
  {
  }

  /** A text with nothing to strip and of acceptable length is only
      filtered. */
  lemma SanitizeUnstripped(s: string, r: string)
    requires PyStrip(s) == s && RemoveControls(s) == r && 1 <= |s| <= 20
    ensures SanitizeString(PyStr(s), 20) == Ok(r)
  {
  }

  /** A text that starts and ends with a name character has nothing to strip. */
  lemma StripInner(raw: string, a: string, c: char, b: string)
    requires raw == a + [c] + b && a != [] && b != []
    requires IsUsernameCharAnyCase(a[0]) && IsUsernameCharAnyCase(b[|b| - 1])
    ensures PyStrip(raw) == raw
  {
    assert raw[0] == a[0] && raw[|raw| - 1] == b[|b| - 1];
    assert Trimmed(raw, IsPySpace);
    TrimOfTrimmed(raw, IsPySpace);
  }

  lemma UsernameCharsControlFree(s: string)
    requires forall i :: 0 <= i < |s| ==> IsUsernameCharAnyCase(s[i])
    ensures forall i :: 0 <= i < |s| ==> !Deletes(Controls, s[i])
  {
  }

  lemma UsernameCharsAppend(a: string, b: string)
    requires forall i :: 0 <= i < |a| ==> IsUsernameCharAnyCase(a[i])
    requires forall i :: 0 <= i < |b| ==> IsUsernameCharAnyCase(b[i])
    ensures forall i :: 0 <= i < |a + b| ==> IsUsernameCharAnyCase((a + b)[i])
  {
  }

  /** Too short, or a character outside the class: rejected. */
  lemma ValidateUsernameRejectsShort()
    ensures ValidateUsername(PyStr("AB")) == Err("Username mín 3 caracteres")
  {
    UsernameCharsUntouched("AB");
    assert SanitizeString(PyStr("AB"), 20) == Ok("AB");
  }

  /** A printable character outside `[A-Za-z0-9_-]` (a space, a dot, an
      accented letter) inside the name makes it fail the pattern. */
  lemma ValidateUsernameRejectsInner(a: string, c: char, b: string)
    requires !IsControl(c) && !IsUsernameCharAnyCase(c)
    requires a != [] && b != [] && |a| + |b| < 20
    requires forall i :: 0 <= i < |a| ==> IsUsernameCharAnyCase(a[i])
    requires forall i :: 0 <= i < |b| ==> IsUsernameCharAnyCase(b[i])
    ensures ValidateUsername(PyStr(a + [c] + b)) == Err("Solo letras, números, guiones")
  {
    var raw := a + [c] + b;
    SanitizeInnerPrintable(raw, a, c, b);
    ValidateUsernameSanitized(raw, raw);
    assert raw[|a|] == c;
    CheckUsernameRejects(raw, |a|);
  }

  /** One character whose lower case falls outside `[a-z0-9_-]` fails the pattern. */
  lemma CheckUsernameRejects(s: string, k: int)
    requires 3 <= |s| && 0 <= k < |s|
    requires !IsUsernameCharAnyCase(s[k])
    ensures CheckUsername(Lower(s)) == Err("Solo letras, números, guiones")
  {
    assert !IsUsernameChar(Lower(s)[k]);
  }

  lemma SanitizeInnerPrintable(raw: string, a: string, c: char, b: string)
    requires raw == a + [c] + b && !IsControl(c)
    requires a != [] && b != [] && |a| + |b| < 20
    requires forall i :: 0 <= i < |a| ==> IsUsernameCharAnyCase(a[i])
    requires forall i :: 0 <= i < |b| ==> IsUsernameCharAnyCase(b[i])
    ensures SanitizeString(PyStr(raw), 20) == Ok(raw)
  {
    KeepInnerPrintable(raw, a, c, b);
    InnerLength(raw, a, c, b);
    StripInner(raw, a, c, b);
    SanitizeUnstripped(raw, raw);
  }

  lemma KeepInnerPrintable(raw: string, a: string, c: char, b: string)
    requires raw == a + [c] + b && !IsControl(c)
    requires forall i :: 0 <= i < |a| ==> IsUsernameCharAnyCase(a[i])
    requires forall i :: 0 <= i < |b| ==> IsUsernameCharAnyCase(b[i])
    ensures RemoveControls(raw) == raw
  {
    assert ControlFree(raw);
    RemoveControlsClean(raw);
  }

  /** `validate_password`: any text of at least 4 characters, returned as is;
      this copy has no upper bound. */
  function ValidatePassword(password: PyValue): (r: Result<string>)
    ensures r.Ok? <==> password.PyStr? && |password.s| >= 4
    ensures r.Ok? ==> r.value == password.s
    ensures r.Err? ==> r.error == "Password mín 4 caracteres"
  {
    match password
    case PyStr(s) => if |s| < 4 then Err("Password mín 4 caracteres") else Ok(s)
    case PyOther => Err("Password mín 4 caracteres")
  }

  /** `validate_amount` without the parse: `amount` is what `float()` did
      with the argument. A ValueError or TypeError becomes "Monto debe ser
      número"; an OverflowError is not caught and escapes. Zero and
      magnitudes above one million fail, exactly one million passes, and the
      amount comes back rounded to cents by `round(amount, 2)`. NaN passes
      (see AmountAcceptsNaN), and so does a non-zero amount that rounds to
      zero (see AmountRoundsToZero). */
  function ValidateAmount(amount: Conversion<Number>): (r: Outcome<Number>)
    ensures r.Escapes? <==> amount.OverflowError?
    ensures r.Accepted() <==> amount.Converted? && !IsZero(amount.value) && !ExceedsLimit(amount.value)
    ensures r.Accepted() ==> RoundedToCents(amount.value, r.result.value) && !ExceedsLimit(r.result.value)
    ensures r.Accepted() ==> r.result.value == CentsHalfEven(amount.value)
    ensures amount.ConversionError? ==> r == Returns(Err("Monto debe ser número"))
    ensures amount.Converted? && IsZero(amount.value) ==> r == Returns(Err("Monto no puede ser cero"))
    ensures amount.Converted? && ExceedsLimit(amount.value) ==> r == Returns(Err("Monto muy grande"))
  {
    match amount
    case OverflowError => Escapes
    case ConversionError => Returns(Err("Monto debe ser número"))
    case Converted(n) =>
      if IsZero(n) then Returns(Err("Monto no puede ser cero"))
      else if ExceedsLimit(n) then Returns(Err("Monto muy grande"))
      else CentsWithinLimit(n); Returns(Ok(CentsHalfEven(n)))
  }

  lemma AmountBounds()
    ensures ValidateAmount(Converted(Finite(1000000.0))) == Returns(Ok(Finite(1000000.0)))
    ensures ValidateAmount(Converted(Finite(-1000000.0))) == Returns(Ok(Finite(-1000000.0)))
    ensures ValidateAmount(Converted(Finite(1000000.01))) == Returns(Err("Monto muy grande"))
    ensures ValidateAmount(Converted(Finite(0.0))) == Returns(Err("Monto no puede ser cero"))
    ensures ValidateAmount(Converted(Infinity(true))) == Returns(Err("Monto muy grande"))
  {
    CentsOfCents(Finite(1000000.0));
    CentsOfCents(Finite(-1000000.0));
  }

  /** NaN compares unequal to 0 and is not greater than 1e6, and `round`
      returns it as it is: it is accepted. */
  lemma AmountAcceptsNaN()
    ensures ValidateAmount(Converted(NaN)) == Returns(Ok(NaN))
  {
  }

  /** A non-zero amount under half a cent passes the zero test and comes back
      as zero. */
  lemma AmountRoundsToZero()
    ensures ValidateAmount(Converted(Finite(0.001))) == Returns(Ok(Finite(0.0)))
  {
    SubCentIsZero(0.001);
  }

  /** An integer too large for a double (a JSON number of 309 digits) makes
      `float()` raise OverflowError, which the `except` clause does not
      name: no ValidationError is raised and the exception escapes. */
  lemma AmountOverflowEscapes()
    ensures ValidateAmount(OverflowError) == Escapes
  {
  }

  /** `validate_amount` as its messages intend: NaN is refused as not a
      number, an amount too large for a double as too large, and the zero
      test applies to the rounded amount. It never lets an exception escape.
      Every accepted amount is a finite, non-zero amount in cents of
      magnitude at most one million, and it is what the written version
      returns; where the written version raises ValidationError, this one
      raises it with the same message. */
  function ValidateAmountStrict(amount: Conversion<Number>): (r: Result<Number>)
    ensures r.Ok? ==> r.value.Finite? && r.value.r != 0.0 && IsCents(r.value.r)
    ensures r.Ok? ==> -1000000.0 <= r.value.r <= 1000000.0
    ensures r.Ok? <==> (ValidateAmount(amount).Accepted() &&
      ValidateAmount(amount).result.value.Finite? && ValidateAmount(amount).result.value.r != 0.0)
    ensures r.Ok? ==> ValidateAmount(amount) == Returns(r)
    ensures ValidateAmount(amount).Returns? && ValidateAmount(amount).result.Err? ==> ValidateAmount(amount) == Returns(r)
    ensures amount == Converted(NaN) ==> r == Err("Monto debe ser número")
    ensures amount.OverflowError? ==> r == Err("Monto muy grande")
  {
    match ValidateAmount(amount)
    case Escapes => Err("Monto muy grande")
    case Returns(v) =>
      if amount == Converted(NaN) then Err("Monto debe ser número")
      else if v.Ok? && IsZero(v.value) then Err("Monto no puede ser cero")
      else v
  }

  /** An amount the corrected check accepts is accepted again, unchanged.
      The written check lacks this: 0.001 comes back as 0.0, which it then
      refuses. */
  lemma ValidateAmountStrictIdempotent(amount: Conversion<Number>)
    requires ValidateAmountStrict(amount).Ok?
    ensures ValidateAmountStrict(Converted(ValidateAmountStrict(amount).value)) == ValidateAmountStrict(amount)
  {
    CentsOfCents(ValidateAmountStrict(amount).value);
  }

  /** `validate_description`: `sanitize_string` with a bound of 500. */
  function ValidateDescription(description: PyValue): (r: Result<string>)
    ensures r == SanitizeString(description, 500)
    ensures r.Ok? ==> 0 <= |r.value| <= 500 && ControlFree(r.value)
    ensures description.PyStr? ==> (r.Ok? <==> 1 <= |PyStrip(description.s)| <= 500)
  {
    SanitizeString(description, 500)
  }
}
