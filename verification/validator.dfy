/** The client-side validators of `frontend/js/utils/validator.js`, which
    return the normalised value or throw a `ValidationError`; a throw is
    an `Err` carrying the error's message. */
module ClientValidator {
  import opened Values
  import opened Text
  import opened Rounding

  /** `validateUsername`: the trimmed name, when it has 3 to 20 characters
      of `[A-Za-z0-9_-]`; its case is kept. The source trims the trimmed
      name once more on return, which changes nothing (`Text.TrimIdempotent`). */
  function ValidateUsername(username: JsValue): (r: Result<string>)
    ensures r.Ok? <==>
      username.JsString? && 3 <= |JsTrim(username.s)| <= 20 && UsernamePattern(JsTrim(username.s))
    ensures r.Ok? ==> r.value == JsTrim(username.s) && Trimmed(r.value, IsJsSpace)
    ensures !username.JsString? || JsTrim(username.s) == [] ==> r == Err("Username no puede estar vacío")
    ensures username.JsString? && 1 <= |JsTrim(username.s)| < 3
      ==> r == Err("Username debe tener al menos 3 caracteres")
    ensures username.JsString? && |JsTrim(username.s)| > 20 ==> r == Err("Username no puede exceder 20 caracteres")
    ensures username.JsString? && 3 <= |JsTrim(username.s)| <= 20 && !UsernamePattern(JsTrim(username.s))
      ==> r == Err("Username solo puede contener letras, números, guiones y guiones bajos")
  {
    if !username.JsString? || |JsTrim(username.s)| == 0 then
      Err("Username no puede estar vacío")
    else
      var u := JsTrim(username.s);
      if |u| < 3 then Err("Username debe tener al menos 3 caracteres")
      else if |u| > 20 then Err("Username no puede exceder 20 caracteres")
      else if !UsernamePattern(u) then
        Err("Username solo puede contener letras, números, guiones y guiones bajos")
      else
        TrimResult(username.s, IsJsSpace);
        Ok(u)
  }

  /** An accepted username is accepted again, unchanged. */
  lemma ValidateUsernameIdempotent(username: JsValue)
    requires ValidateUsername(username).Ok?
    ensures ValidateUsername(JsString(ValidateUsername(username).value)) == ValidateUsername(username)
  {
    var u := ValidateUsername(username).value;
    TrimOfTrimmed(u, IsJsSpace);
  }

  /** A valid name padded with whitespace is accepted as the bare name. */
  lemma ValidateUsernamePadded(a: string, u: string, b: string)
    requires AllSpace(a, IsJsSpace) && AllSpace(b, IsJsSpace)
    requires 3 <= |u| <= 20 && UsernamePattern(u)
    ensures ValidateUsername(JsString(a + u + b)) == Ok(u)
  {
    TrimPadded(a, u, b, IsJsSpace);
  }

  /** `validatePassword`: any string of 4 to 128 UTF-16 code units
      (`password.length`), returned as given. */
  function ValidatePassword(password: JsValue): (r: Result<string>)
    ensures r.Ok? <==> password.JsString? && 4 <= Utf16Length(password.s) <= 128
    ensures r.Ok? ==> r.value == password.s
    ensures !password.JsString? ==> r == Err("Contraseña inválida")
    ensures password.JsString? && Utf16Length(password.s) < 4 ==> r == Err("Contraseña debe tener al menos 4 caracteres")
    ensures password.JsString? && Utf16Length(password.s) > 128 ==> r == Err("Contraseña es demasiado larga")
  {
    if !password.JsString? then Err("Contraseña inválida")
    else if Utf16Length(password.s) < 4 then Err("Contraseña debe tener al menos 4 caracteres")
    else if Utf16Length(password.s) > 128 then Err("Contraseña es demasiado larga")
    else Ok(password.s)
  }

  /** `validateDescription`: the trimmed text, when it has 1 to 500 characters. */
  function ValidateDescription(description: JsValue): (r: Result<string>)
    ensures r.Ok? <==> description.JsString? && 1 <= |JsTrim(description.s)| <= 500
    ensures r.Ok? ==> r.value == JsTrim(description.s) && Trimmed(r.value, IsJsSpace)
    ensures !description.JsString? || JsTrim(description.s) == []
      ==> r == Err("Descripción no puede estar vacía")
    ensures description.JsString? && |JsTrim(description.s)| > 500
      ==> r == Err("Descripción no puede exceder 500 caracteres")
  {
    if !description.JsString? || |JsTrim(description.s)| == 0 then
      Err("Descripción no puede estar vacía")
    else
      var desc := JsTrim(description.s);
      if |desc| > 500 then Err("Descripción no puede exceder 500 caracteres")
      else
        TrimResult(description.s, IsJsSpace);
        Ok(desc)
  }

  /** `validateAmount`, given what `parseFloat` made of the argument: NaN,
      zero and magnitudes over one million are refused, and the amount comes
      back rounded to cents by `Math.round(num * 100) / 100`. */
  function ValidateAmount(num: Number): (r: Result<Number>)
    ensures r.Ok? <==> num != NaN && !IsZero(num) && !ExceedsLimit(num)
    ensures r.Ok? ==> r.value.Finite? && -1000000.0 <= r.value.r <= 1000000.0
    ensures r.Ok? ==> RoundedToCents(num, r.value) && r.value == CentsHalfUp(num)
    ensures num == NaN ==> r == Err("Monto debe ser un número válido")
    ensures num != NaN && IsZero(num) ==> r == Err("Monto no puede ser cero")
    ensures num != NaN && ExceedsLimit(num) ==> r == Err("Monto excede el límite permitido")
  {
    if num == NaN then Err("Monto debe ser un número válido")
    else if IsZero(num) then Err("Monto no puede ser cero")
    else if ExceedsLimit(num) then Err("Monto excede el límite permitido")
    else CentsWithinLimit(num); Ok(CentsHalfUp(num))
  }

  /** An accepted amount that did not round to zero is accepted again,
      unchanged. */
  lemma ValidateAmountIdempotent(num: Number)
    requires ValidateAmount(num).Ok? && !IsZero(ValidateAmount(num).value)
    ensures ValidateAmount(ValidateAmount(num).value) == ValidateAmount(num)
  {
    CentsOfCents(ValidateAmount(num).value);
  }

  /** The zero test comes before the rounding: an amount under half a cent
      passes and comes back as zero. */
  lemma AmountRoundsToZero()
    ensures ValidateAmount(Finite(0.001)) == Ok(Finite(0.0))
  {
    SubCentIsZero(0.001);
  }

  // ---------------------------------------------------------------------
  // Required fields
  // ---------------------------------------------------------------------

  /** `requiredFields.filter(field => !formData[field])`: the required fields
      whose value is missing or falsy, in their original order. */
  function Missing(formData: map<string, JsValue>, requiredFields: seq<string>): (missing: seq<string>)
    ensures |missing| <= |requiredFields|
    ensures forall f :: f in missing <==> f in requiredFields && Falsy(Lookup(formData, f))
  {
    if requiredFields == [] then []
    else
      var rest := Missing(formData, requiredFields[1..]);
      assert forall f :: f in requiredFields <==> f == requiredFields[0] || f in requiredFields[1..];
      if Falsy(Lookup(formData, requiredFields[0])) then [requiredFields[0]] + rest else rest
  }

  /** Filtering a concatenation filters each part, keeping their order. */
  lemma {:induction false} MissingAppend(formData: map<string, JsValue>, a: seq<string>, b: seq<string>)
    ensures Missing(formData, a + b) == Missing(formData, a) + Missing(formData, b)
  {
    if a == [] {
      assert a + b == b;
    } else {
      var c := a + b;
      assert c[0] == a[0] && c[1..] == a[1..] + b;
      MissingAppend(formData, a[1..], b);
      if Falsy(Lookup(formData, a[0])) {
        calc {
          Missing(formData, c);
          [a[0]] + Missing(formData, a[1..] + b);
          [a[0]] + (Missing(formData, a[1..]) + Missing(formData, b));
          ([a[0]] + Missing(formData, a[1..])) + Missing(formData, b);
        }
      }
    }
  }

  /** `missing.join(', ')`. */
  function Join(items: seq<string>, separator: string): (r: string)
    ensures |items| == 1 ==> r == items[0]
    ensures items == [] ==> r == []
  {
    if items == [] then []
    else if |items| == 1 then items[0]
    else items[0] + separator + Join(items[1..], separator)
  }

  /** Joining two non-empty lists puts one separator between their joins:
      each item is followed by the separator except the last. */
  lemma {:induction false} JoinAppend(a: seq<string>, b: seq<string>, separator: string)
    requires a != [] && b != []
    ensures Join(a + b, separator) == Join(a, separator) + separator + Join(b, separator)
  {
    assert (a + b)[0] == a[0];
    assert (a + b)[1..] == a[1..] + b;
    if |a| > 1 {
      JoinAppend(a[1..], b, separator);
    }
  }

  /** `validateForm`: fails, naming every missing field, when any required
      field is missing or falsy. */
  function ValidateForm(formData: map<string, JsValue>, requiredFields: seq<string>): (r: Result<()>)
    ensures r.Ok? <==> forall i :: 0 <= i < |requiredFields| ==> !Falsy(Lookup(formData, requiredFields[i]))
    ensures r.Err? ==> r.error == "Campos requeridos: " + Join(Missing(formData, requiredFields), ", ")
  {
    var missing := Missing(formData, requiredFields);
    if |missing| > 0 then
      assert missing[0] in missing;
      Err("Campos requeridos: " + Join(missing, ", "))
    else
      assert forall i :: 0 <= i < |requiredFields| ==> requiredFields[i] !in missing;
      Ok(())
  }

  lemma ValidateFormExample()
    ensures ValidateForm(map["user" := JsString("ana")], ["user", "password", "email"])
      == Err("Campos requeridos: " + "password, email")
  {
    MissingExample();
    JoinExample();
  }

  lemma MissingExample()
    ensures Missing(map["user" := JsString("ana")], ["user", "password", "email"]) == ["password", "email"]
  {
    var fd := map["user" := JsString("ana")];
    assert Missing(fd, ["email"]) == ["email"];
    assert Missing(fd, ["password", "email"]) == ["password", "email"] by {
      assert ["password", "email"][1..] == ["email"];
    }
    assert ["user", "password", "email"][1..] == ["password", "email"];
  }

  lemma JoinExample()
    ensures Join(["password", "email"], ", ") == "password, email"
  {
    assert ["password", "email"][1..] == ["email"];
  }
}
