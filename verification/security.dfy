/** The browser-side checks of `frontend/js/security.js`: input clean-up and
    the form validators that report `{valid, error}` instead of throwing.
    Its `escapeHtml` is the same function as the sanitiser's and is
    modelled once, as `Sanitizer.EscapeHtml`. */
module Security {
  import opened Values
  import opened Text
  import opened Rounding

  /** `sanitizeInput(value, maxLength)`: controls removed, cut to
      `maxLength` characters, then trimmed. The caller's default for
      `maxLength` is 255. */
  function SanitizeInput(value: JsValue, maxLength: int): (r: string)
    ensures !value.JsString? ==> r == []
    ensures |r| <= if maxLength < 0 then 0 else maxLength
    ensures ControlFree(r) && Trimmed(r, IsJsSpace)
  {
    if value.JsString? then
      var cut := Prefix(RemoveControls(value.s), maxLength);
      TrimKeepsClean(cut, IsJsSpace, Controls);
      TrimTrimmed(cut, IsJsSpace);
      JsTrim(cut)
    else
      []
  }

  /** A text that is already clean, trimmed and short enough is kept as is. */
  lemma SanitizeInputKeeps(s: string, maxLength: int)
    requires ControlFree(s) && Trimmed(s, IsJsSpace)
    requires |s| <= maxLength || s == []
    ensures SanitizeInput(JsString(s), maxLength) == s
  {
    assert Prefix(RemoveControls(s), maxLength) == s by {
      RemoveControlsClean(s);
    }
    TrimOfTrimmed(s, IsJsSpace);
  }

  /** Sanitising twice with the same bound gives what sanitising once gave. */
  lemma SanitizeInputIdempotent(value: JsValue, maxLength: int)
    ensures SanitizeInput(JsString(SanitizeInput(value, maxLength)), maxLength)
      == SanitizeInput(value, maxLength)
  {
    SanitizeInputKeeps(SanitizeInput(value, maxLength), maxLength);
  }

  /** The cut comes before the trim, so inner spaces count against the
      bound and the result can be shorter than it. */
  lemma SanitizeInputCutsBeforeTrim()
    ensures SanitizeInput(JsString("ab cd"), 3) == "ab"
  {
    CutInner();
    TrimInner();
  }

  lemma CutInner()
    ensures Prefix(RemoveControls("ab cd"), 3) == "ab "
  {
    assert ControlFree("ab cd");
    RemoveControlsClean("ab cd");
  }

  lemma TrimInner()
    ensures JsTrim("ab ") == "ab"
  {
    assert AllSpace(" ", IsJsSpace);
    assert "ab " == [] + "ab" + " ";
    TrimPadded([], "ab", " ", IsJsSpace);
  }

  // ---------------------------------------------------------------------
  // Field validators
  // ---------------------------------------------------------------------

  /** `validateUsername`: 3 to 20 characters of `[A-Za-z0-9_-]` once trimmed. */
  function ValidateUsername(username: JsValue): (r: Result<()>)
    ensures r.Ok? <==>
      username.JsString? && 3 <= |JsTrim(username.s)| <= 20 && UsernamePattern(JsTrim(username.s))
    ensures Falsy(username) || !username.JsString? ==> r == Err("Username requerido")
    ensures username.JsString? && username.s != [] && |JsTrim(username.s)| < 3
      ==> r == Err("Username debe tener al menos 3 caracteres")
    ensures username.JsString? && |JsTrim(username.s)| > 20 ==> r == Err("Username máximo 20 caracteres")
    ensures username.JsString? && 3 <= |JsTrim(username.s)| <= 20 && !UsernamePattern(JsTrim(username.s))
      ==> r == Err("Solo letras, números, guiones")
  {
    if Falsy(username) || !username.JsString? then
      Err("Username requerido")
    else
      var u := JsTrim(username.s);
      if |u| < 3 then Err("Username debe tener al menos 3 caracteres")
      else if |u| > 20 then Err("Username máximo 20 caracteres")
      else if !UsernamePattern(u) then Err("Solo letras, números, guiones")
      else Ok(())
  }

  /** `validatePassword`: 4 to 128 UTF-16 code units (`password.length`),
      not trimmed. */
  function ValidatePassword(password: JsValue): (r: Result<()>)
    ensures r.Ok? <==> password.JsString? && 4 <= Utf16Length(password.s) <= 128
    ensures Falsy(password) || !password.JsString? ==> r == Err("Password requerido")
    ensures password.JsString? && password.s != [] && Utf16Length(password.s) < 4 ==> r == Err("Password mínimo 4 caracteres")
    ensures password.JsString? && Utf16Length(password.s) > 128 ==> r == Err("Password muy largo")
  {
    if Falsy(password) || !password.JsString? then
      Err("Password requerido")
    else if Utf16Length(password.s) < 4 then
      Err("Password mínimo 4 caracteres")
    else if Utf16Length(password.s) > 128 then
      Err("Password muy largo")
    else
      Ok(())
  }

  /** `validateDescription`: 1 to 500 characters once trimmed. */
  function ValidateDescription(desc: JsValue): (r: Result<()>)
    ensures r.Ok? <==> desc.JsString? && 1 <= |JsTrim(desc.s)| <= 500
    ensures Falsy(desc) || !desc.JsString? ==> r == Err("Descripción requerida")
    ensures desc.JsString? && desc.s != [] && JsTrim(desc.s) == []
      ==> r == Err("Descripción no puede estar vacía")
    ensures desc.JsString? && |JsTrim(desc.s)| > 500 ==> r == Err("Descripción muy larga (máx 500)")
  {
    if Falsy(desc) || !desc.JsString? then
      Err("Descripción requerida")
    else
      var d := JsTrim(desc.s);
      if |d| < 1 then Err("Descripción no puede estar vacía")
      else if |d| > 500 then Err("Descripción muy larga (máx 500)")
      else Ok(())
  }

  /** `validateAmount`, given what `parseFloat` made of the argument: NaN,
      zero and magnitudes over one million are refused, and the amount comes
      back rounded to cents through `toFixed(2)`. */
  function ValidateAmount(num: Number): (r: Result<Number>)
    ensures r.Ok? <==> num != NaN && !IsZero(num) && !ExceedsLimit(num)
    ensures r.Ok? ==> r.value.Finite? && -1000000.0 <= r.value.r <= 1000000.0
    ensures r.Ok? ==> RoundedToCents(num, r.value) && r.value == CentsHalfAway(num)
    ensures num == NaN ==> r == Err("Monto debe ser un número")
    ensures num != NaN && IsZero(num) ==> r == Err("Monto no puede ser cero")
    ensures num != NaN && ExceedsLimit(num) ==> r == Err("Monto excede límite permitido")
  {
    if num == NaN then Err("Monto debe ser un número")
    else if IsZero(num) then Err("Monto no puede ser cero")
    else if ExceedsLimit(num) then Err("Monto excede límite permitido")
    else CentsWithinLimit(num); Ok(CentsHalfAway(num))
  }

  /** The zero test comes before the rounding: an amount under half a cent
      passes and comes back as zero. */
  lemma AmountRoundsToZero()
    ensures ValidateAmount(Finite(0.001)) == Ok(Finite(0.0))
  {
    SubCentIsZero(0.001);
  }

  // ---------------------------------------------------------------------
  // Whole forms
  // ---------------------------------------------------------------------

  /** The `type` of a form field; any other string selects no check. */
  datatype FieldType = UsernameField | PasswordField | DescriptionField | AmountField | OtherField

  datatype Field = Field(name: string, kind: FieldType)

  /** The check one field receives inside the `forEach`; `parse` is
      `parseFloat`. */
  function CheckField(formData: map<string, JsValue>, field: Field, parse: JsValue -> Number): (r: Result<()>)
    ensures field.kind == OtherField ==> r.Ok?
    ensures field.kind == UsernameField ==> r == ValidateUsername(Lookup(formData, field.name))
    ensures field.kind == PasswordField ==> r == ValidatePassword(Lookup(formData, field.name))
    ensures field.kind == DescriptionField ==> r == ValidateDescription(Lookup(formData, field.name))
    ensures field.kind == AmountField ==> (r.Ok? <==> ValidateAmount(parse(Lookup(formData, field.name))).Ok?)
    ensures field.kind == AmountField && ValidateAmount(parse(Lookup(formData, field.name))).Err? ==>
      r == Err(ValidateAmount(parse(Lookup(formData, field.name))).error)
  {
    var v := Lookup(formData, field.name);
    match field.kind
    case UsernameField => ValidateUsername(v)
    case PasswordField => ValidatePassword(v)
    case DescriptionField => ValidateDescription(v)
    case AmountField =>
      (match ValidateAmount(parse(v))
       case Ok(_) => Ok(())
       case Err(e) => Err(e))
    case OtherField => Ok(())
  }

  /** The `errors` object after the first fields have been visited: each
      failing field writes its message under its name, a later one
      overwriting an earlier one of the same name. */
  function FormErrors(formData: map<string, JsValue>, fields: seq<Field>, parse: JsValue -> Number): (errors: map<string, string>)
    ensures forall k :: k in errors ==> exists i :: 0 <= i < |fields| && fields[i].name == k
  {
    if fields == [] then map[]
    else
      var earlier := FormErrors(formData, fields[..|fields| - 1], parse);
      var f := fields[|fields| - 1];
      match CheckField(formData, f, parse)
      case Ok(_) => earlier
      case Err(e) => earlier[f.name := e]
  }

  /** `validateFormData`: `valid` is true exactly when no error was recorded. */
  method ValidateFormData(formData: map<string, JsValue>, fields: seq<Field>, parse: JsValue -> Number)
    returns (valid: bool, errors: map<string, string>)
    ensures errors == FormErrors(formData, fields, parse)
    ensures valid <==> forall i :: 0 <= i < |fields| ==> CheckField(formData, fields[i], parse).Ok?
  {
    errors := map[];
    var n := 0;
    while n < |fields|
      invariant 0 <= n <= |fields|
      invariant errors == FormErrors(formData, fields[..n], parse)
    {
      var field := fields[n];
      var result := CheckField(formData, field, parse);
      assert fields[..n + 1][..n] == fields[..n];
      if result.Err? {
        errors := errors[field.name := result.error];
      }
      n := n + 1;
    }
    assert fields[..n] == fields;
    valid := |errors| == 0;
    NoErrorsIffAllPass(formData, fields, parse);
  }

  lemma NoErrorsIffAllPass(formData: map<string, JsValue>, fields: seq<Field>, parse: JsValue -> Number)
    ensures |FormErrors(formData, fields, parse)| == 0 <==>
      forall i :: 0 <= i < |fields| ==> CheckField(formData, fields[i], parse).Ok?
  {
    var errors := FormErrors(formData, fields, parse);
    FormErrorsKeys(formData, fields, parse);
    if |errors| != 0 {
      var k :| k in errors;
    } else {
      forall i | 0 <= i < |fields| ensures CheckField(formData, fields[i], parse).Ok? {
        assert fields[i].name !in errors;
      }
    }
  }

  /** Some field named `name` fails its check. */
  predicate NameFails(formData: map<string, JsValue>, fields: seq<Field>, parse: JsValue -> Number, name: string) {
    exists i :: 0 <= i < |fields| && fields[i].name == name && CheckField(formData, fields[i], parse).Err?
  }

  /** A name carries an error exactly when some field of that name fails. */
  lemma {:induction false} FormErrorsKeys(formData: map<string, JsValue>, fields: seq<Field>, parse: JsValue -> Number)
    ensures forall k :: k in FormErrors(formData, fields, parse) <==> NameFails(formData, fields, parse, k)
  {
    if fields != [] {
      FormErrorsKeys(formData, fields[..|fields| - 1], parse);
      forall k ensures k in FormErrors(formData, fields, parse) <==> NameFails(formData, fields, parse, k) {
        NameFailsLast(formData, fields, parse, k);
      }
    }
  }

  /** A name fails in a list of fields exactly when it fails in all but the
      last one or the last one has that name and fails. */
  lemma NameFailsLast(formData: map<string, JsValue>, fields: seq<Field>, parse: JsValue -> Number, name: string)
    requires fields != []
    ensures var init, f := fields[..|fields| - 1], fields[|fields| - 1];
      NameFails(formData, fields, parse, name) <==>
        NameFails(formData, init, parse, name) || (f.name == name && CheckField(formData, f, parse).Err?)
  {
    var init := fields[..|fields| - 1];
    if NameFails(formData, init, parse, name) {
      var i :| 0 <= i < |init| && init[i].name == name && CheckField(formData, init[i], parse).Err?;
      assert fields[i] == init[i];
    }
    if NameFails(formData, fields, parse, name) {
      var i :| 0 <= i < |fields| && fields[i].name == name && CheckField(formData, fields[i], parse).Err?;
      if i < |init| {
        assert init[i] == fields[i];
      }
    }
  }

  /** The message kept for a name is the one of the last failing field of
      that name. */
  lemma {:induction false} FormErrorsLastWins(formData: map<string, JsValue>, fields: seq<Field>, parse: JsValue -> Number, i: int)
    requires 0 <= i < |fields|
    requires CheckField(formData, fields[i], parse).Err?
    requires forall j ::
      i < j < |fields| && fields[j].name == fields[i].name ==> CheckField(formData, fields[j], parse).Ok?
    ensures fields[i].name in FormErrors(formData, fields, parse)
    ensures FormErrors(formData, fields, parse)[fields[i].name] == CheckField(formData, fields[i], parse).error
    decreases |fields|
  {
    if i < |fields| - 1 {
      var init := fields[..|fields| - 1];
      assert init[i] == fields[i];
      FormErrorsLastWins(formData, init, parse, i);
    }
  }
}
