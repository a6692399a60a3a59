/** backend/app.py: the second copy of the validators and of the
    categoriser, kept inside the Flask application. The validators report
    each failure with its own message naming the field, and the username
    check rejects control characters instead of deleting them. */
module App {
  import opened Values
  import opened Text
  import opened Rounding
  import BV = BackendValidators
  import opened Categorizer

  function NotText(fieldName: string): string {
    fieldName + " debe ser texto"
  }

  function EmptyText(fieldName: string): string {
    fieldName + " no puede estar vacío"
  }

  function TooLong(fieldName: string, maxLength: int): string {
    fieldName + " es demasiado largo (máx " + IntToString(maxLength) + ")"
  }

  /** `sanitize_string`: strip, reject an empty and then an over-long text,
      each with its own message, then delete control characters. */
  function SanitizeString(value: PyValue, maxLength: int, fieldName: string): (r: Result<string>)
    ensures value.PyOther? ==> r == Err(NotText(fieldName))
    ensures value.PyStr? ==> (r.Ok? <==> 1 <= |PyStrip(value.s)| <= maxLength)
    ensures value.PyStr? && PyStrip(value.s) == [] ==> r == Err(EmptyText(fieldName))
    ensures value.PyStr? && PyStrip(value.s) != [] && |PyStrip(value.s)| > maxLength
      ==> r == Err(TooLong(fieldName, maxLength))
    ensures r.Ok? ==> |r.value| <= maxLength && ControlFree(r.value)
  {
    match value
    case PyOther => Err(NotText(fieldName))
    case PyStr(s) =>
      var stripped := PyStrip(s);
      if |stripped| == 0 then Err(EmptyText(fieldName))
      else if |stripped| > maxLength then Err(TooLong(fieldName, maxLength))
      else Ok(RemoveControls(stripped))
  }

  /** Both copies of `sanitize_string` accept the same texts and return the
      same value; only their messages differ. */
  lemma SanitizeAgrees(value: PyValue, maxLength: int, fieldName: string)
    ensures SanitizeString(value, maxLength, fieldName).Ok? == BV.SanitizeString(value, maxLength).Ok?
    ensures SanitizeString(value, maxLength, fieldName).Ok? ==>
      SanitizeString(value, maxLength, fieldName).value == BV.SanitizeString(value, maxLength).value
  {
  }

  /** `validate_username`: strip and lower-case, then demand 3 to 20
      characters, all from `[a-z0-9_-]`. Nothing is deleted. */
  function ValidateUsername(username: PyValue): (r: Result<string>)
    ensures username.PyOther? ==> r == Err("Username debe ser texto")
    ensures r.Ok? ==> 3 <= |r.value| <= 20 && AllUsernameChars(r.value)
    ensures r.Ok? ==> r.value == Lower(PyStrip(username.s))
    ensures username.PyStr? && !(3 <= |PyStrip(username.s)| <= 20)
      ==> r == Err("Username debe tener 3-20 caracteres")
  {
    match username
    case PyOther => Err("Username debe ser texto")
    case PyStr(s) => CheckUsername(Lower(PyStrip(s)))
  }

  /** The checks `validate_username` applies to the stripped, lower-cased name. */
  function CheckUsername(lowered: string): (r: Result<string>)
    ensures r.Ok? <==> 3 <= |lowered| <= 20 && AllUsernameChars(lowered)
    ensures r.Ok? ==> r.value == lowered
  {
    if |lowered| < 3 || |lowered| > 20 then Err("Username debe tener 3-20 caracteres")
    else if !AllUsernameChars(lowered) then Err("Username solo: letras, números, guiones, guiones bajos")
    else Ok(lowered)
  }

  /** A control character left after stripping makes the name fail. */
  lemma UsernameRejectsControls(s: string, k: int)
    requires 0 <= k < |PyStrip(s)| && IsControl(PyStrip(s)[k])
    ensures ValidateUsername(PyStr(s)).Err?
  {
    assert !IsUsernameChar(Lower(PyStrip(s))[k]);
  }

  /** Whitespace around a name of 3 to 20 characters over `[A-Za-z0-9_-]`
      is stripped and its case folded. */
  lemma ValidateUsernamePadded(a: string, u: string, b: string)
    requires AllSpace(a, IsPySpace) && AllSpace(b, IsPySpace)
    requires 3 <= |u| <= 20
    requires forall i :: 0 <= i < |u| ==> IsUsernameCharAnyCase(u[i])
    ensures ValidateUsername(PyStr(a + u + b)) == Ok(Lower(u))
  {
    assert PyStrip(a + u + b) == u by {
      assert !IsPySpace(u[0]) && !IsPySpace(u[|u| - 1]);
      TrimPadded(a, u, b, IsPySpace);
    }
    StripsToName(a + u + b, u);
  }

  /** A text that strips to a name over `[A-Za-z0-9_-]` of 3 to 20
      characters is accepted, lower-cased. */
  lemma StripsToName(s: string, u: string)
    requires PyStrip(s) == u && 3 <= |u| <= 20
    requires forall i :: 0 <= i < |u| ==> IsUsernameCharAnyCase(u[i])
    ensures ValidateUsername(PyStr(s)) == Ok(Lower(u))
  {
    LowerUsernameChars(u);
    CheckNormalName(Lower(u));
  }

  /** An accepted username is accepted again, unchanged. */
  lemma ValidateUsernameIdempotent(username: PyValue)
    requires ValidateUsername(username).Ok?
    ensures ValidateUsername(PyStr(ValidateUsername(username).value)) == ValidateUsername(username)
  {
    AcceptsNormalName(ValidateUsername(username).value);
  }

  /** A name that is already in the accepted form comes back unchanged. */
  lemma AcceptsNormalName(u: string)
    requires 3 <= |u| <= 20 && AllUsernameChars(u)
    ensures ValidateUsername(PyStr(u)) == Ok(u)
  {
    NormalNameUnchanged(u);
    CheckNormalName(u);
  }

  lemma CheckNormalName(u: string)
    requires 3 <= |u| <= 20 && AllUsernameChars(u)
    ensures CheckUsername(u) == Ok(u)
  {
  }

  lemma NormalNameUnchanged(u: string)
    requires AllUsernameChars(u)
    ensures Lower(PyStrip(u)) == u
  {
    assert Lower(u) == u by {
      LowerPlain(u);
    }
    assert PyStrip(u) == u by {
      assert forall i :: 0 <= i < |u| ==> IsUsernameCharAnyCase(u[i]);
      UsernameCharsNotPySpace(u);
    }
  }

  /** Where the stripped name has no control character, both copies of
      `validate_username` accept the same names and return the same value. */
  lemma UsernameAgreesWithoutControls(s: string)
    requires ControlFree(PyStrip(s))
    ensures ValidateUsername(PyStr(s)).Ok? == BV.ValidateUsername(PyStr(s)).Ok?
    ensures ValidateUsername(PyStr(s)).Ok? ==>
      ValidateUsername(PyStr(s)).value == BV.ValidateUsername(PyStr(s)).value
  {
    var t := PyStrip(s);
    if 1 <= |t| <= 20 {
      RemoveControlsClean(t);
      assert BV.SanitizeString(PyStr(s), 20) == Ok(t);
    }
  }

  /** With a control character inside the name the copies part ways:
      backend/utils/validators.py deletes it and accepts, this copy rejects. */
  lemma UsernameControlDiverges(a: string, c: char, b: string)
    requires IsControl(c)
    requires a != [] && b != [] && 3 <= |a| + |b| < 20
    requires forall i :: 0 <= i < |a| ==> IsUsernameCharAnyCase(a[i])
    requires forall i :: 0 <= i < |b| ==> IsUsernameCharAnyCase(b[i])
    ensures BV.ValidateUsername(PyStr(a + [c] + b)) == Ok(Lower(a + b))
    ensures ValidateUsername(PyStr(a + [c] + b)).Err?
  {
    BV.ValidateUsernameDeletesControls(a, c, b);
    RejectsInnerControl(a + [c] + b, a, c, b);
  }

  lemma RejectsInnerControl(raw: string, a: string, c: char, b: string)
    requires raw == a + [c] + b && IsControl(c) && a != [] && b != []
    requires IsUsernameCharAnyCase(a[0]) && IsUsernameCharAnyCase(b[|b| - 1])
    ensures ValidateUsername(PyStr(raw)).Err?
  {
    assert raw[0] == a[0] && raw[|raw| - 1] == b[|b| - 1] && raw[|a|] == c;
    assert Trimmed(raw, IsPySpace);
    TrimmedKeepsAt(raw, IsPySpace, |a|);
    UsernameRejectsControls(raw, |a|);
  }

  /** `validate_password`: 4 to 128 characters, returned as is. */
  function ValidatePassword(password: PyValue): (r: Result<string>)
    ensures r.Ok? <==> password.PyStr? && 4 <= |password.s| <= 128
    ensures r.Ok? ==> r.value == password.s
    ensures password.PyOther? ==> r == Err("Password debe ser texto")
    ensures password.PyStr? && r.Err? ==> r.error == "Password debe tener 4-128 caracteres"
  {
    match password
    case PyOther => Err("Password debe ser texto")
    case PyStr(s) =>
      if |s| < 4 || |s| > 128 then Err("Password debe tener 4-128 caracteres") else Ok(s)
  }

  /** Every password this copy accepts, the other copy accepts unchanged;
      the other copy also takes passwords longer than 128 characters. */
  lemma PasswordAgrees(password: PyValue)
    ensures ValidatePassword(password).Ok? ==> BV.ValidatePassword(password) == ValidatePassword(password)
    ensures password.PyStr? && |password.s| > 128 ==>
      ValidatePassword(password).Err? && BV.ValidatePassword(password) == Ok(password.s)
  {
  }

  /** `validate_amount` without the parse: `amount` is what `float()` did
      with the argument; as in the other copy an OverflowError is not caught.
      The same tests and the same rounding as the other copy, with their own
      messages. */
  function ValidateAmount(amount: Conversion<Number>): (r: Outcome<Number>)
    ensures r.Escapes? <==> amount.OverflowError?
    ensures r.Accepted() <==> amount.Converted? && !IsZero(amount.value) && !ExceedsLimit(amount.value)
    ensures r.Accepted() ==> RoundedToCents(amount.value, r.result.value) && !ExceedsLimit(r.result.value)
    ensures r.Accepted() ==> r.result.value == CentsHalfEven(amount.value)
    ensures amount.ConversionError? ==> r == Returns(Err("Monto debe ser número válido"))
    ensures amount.Converted? && IsZero(amount.value) ==> r == Returns(Err("Monto no puede ser cero"))
    ensures amount.Converted? && ExceedsLimit(amount.value) ==> r == Returns(Err("Monto excede límite permitido"))
  {
    match amount
    case OverflowError => Escapes
    case ConversionError => Returns(Err("Monto debe ser número válido"))
    case Converted(n) =>
      if IsZero(n) then Returns(Err("Monto no puede ser cero"))
      else if ExceedsLimit(n) then Returns(Err("Monto excede límite permitido"))
      else CentsWithinLimit(n); Returns(Ok(CentsHalfEven(n)))
  }

  /** Both copies accept the same amounts and return the same value, and
      both let the same conversions escape. */
  lemma AmountAgrees(amount: Conversion<Number>)
    ensures ValidateAmount(amount).Escapes? == BV.ValidateAmount(amount).Escapes?
    ensures ValidateAmount(amount).Accepted() == BV.ValidateAmount(amount).Accepted()
    ensures ValidateAmount(amount).Accepted() ==> ValidateAmount(amount) == BV.ValidateAmount(amount)
  {
  }

  /** As in the other copy, NaN is neither zero nor above the bound. */
  lemma AmountAcceptsNaN()
    ensures ValidateAmount(Converted(NaN)) == Returns(Ok(NaN))
  {
  }

  /** As in the other copy, an amount under half a cent comes back as zero. */
  lemma AmountRoundsToZero()
    ensures ValidateAmount(Converted(Finite(0.004))) == Returns(Ok(Finite(0.0)))
  {
    SubCentIsZero(0.004);
  }

  /** As in the other copy, an OverflowError from `float()` escapes. */
  lemma AmountOverflowEscapes()
    ensures ValidateAmount(OverflowError) == Escapes
  {
  }

  /** `validate_amount` with NaN refused as not a valid number, an amount
      too large for a double refused as above the limit, and the zero test
      applied to the rounded amount. It never lets an exception escape. */
  function ValidateAmountStrict(amount: Conversion<Number>): (r: Result<Number>)
    ensures r.Ok? ==> r.value.Finite? && r.value.r != 0.0 && IsCents(r.value.r)
    ensures r.Ok? ==> -1000000.0 <= r.value.r <= 1000000.0
    ensures r.Ok? <==> (ValidateAmount(amount).Accepted() &&
      ValidateAmount(amount).result.value.Finite? && ValidateAmount(amount).result.value.r != 0.0)
    ensures r.Ok? ==> ValidateAmount(amount) == Returns(r)
    ensures ValidateAmount(amount).Returns? && ValidateAmount(amount).result.Err? ==> ValidateAmount(amount) == Returns(r)
    ensures amount == Converted(NaN) ==> r == Err("Monto debe ser número válido")
    ensures amount.OverflowError? ==> r == Err("Monto excede límite permitido")
  {
    match ValidateAmount(amount)
    case Escapes => Err("Monto excede límite permitido")
    case Returns(v) =>
      if amount == Converted(NaN) then Err("Monto debe ser número válido")
      else if v.Ok? && IsZero(v.value) then Err("Monto no puede ser cero")
      else v
  }

  /** `validate_description`: `sanitize_string` with a bound of 500 and the
      field name "description". */
  function ValidateDescription(description: PyValue): (r: Result<string>)
    ensures r == SanitizeString(description, 500, "description")
    ensures r.Ok? ==> |r.value| <= 500 && ControlFree(r.value)
    ensures description.PyStr? ==> (r.Ok? <==> 1 <= |PyStrip(description.s)| <= 500)
  {
    SanitizeString(description, 500, "description")
  }

  /** `validate_user_id` without the parse: `userId` is what `int()` did
      with the argument. A ValueError or TypeError (NaN among them) becomes
      "user_id debe ser número entero"; an OverflowError (an infinity) is not
      caught and escapes. A positive integer comes back as is. */
  function ValidateUserId(userId: Conversion<int>): (r: Outcome<int>)
    ensures r.Escapes? <==> userId.OverflowError?
    ensures r.Accepted() <==> userId.Converted? && userId.value > 0
    ensures r.Accepted() ==> r.result.value == userId.value && r.result.value >= 1
    ensures userId.ConversionError? ==> r == Returns(Err("user_id debe ser número entero"))
    ensures userId.Converted? && userId.value <= 0 ==> r == Returns(Err("user_id inválido"))
  {
    match userId
    case OverflowError => Escapes
    case ConversionError => Returns(Err("user_id debe ser número entero"))
    case Converted(n) => if n <= 0 then Returns(Err("user_id inválido")) else Returns(Ok(n))
  }

  // ---------------------------------------------------------------------
  // Categorisation: the same table, with "freelance" added to the income
  // list (and so to the "Ingresos" entry).

  const AppIncomeKeywords: seq<string> := IncomeKeywords + ["freelance"]

  /** `categorize_transaction` of backend/app.py: income exactly when a
      keyword of the longer income list occurs in the lower-cased
      description, and "Otros" exactly when no entry of its table matches. */
  function CategorizeApp(description: string): (r: (string, Kind))
    ensures r.1 == Income <==> AnyKeyword(AppIncomeKeywords, Lower(description))
    ensures r.0 == Otros <==> FirstMatch(CategoryTable(AppIncomeKeywords), Lower(description)).None?
  {
    CategoryTableLabels(AppIncomeKeywords);
    Categorize(CategoryTable(AppIncomeKeywords), AppIncomeKeywords, description)
  }

  /** `categorize_transaction` of backend/app.py as written, with its loop. */
  method CategorizeTransactionApp(description: string) returns (category: string, kind: Kind)
    ensures (category, kind) == CategorizeApp(description)
  {
    category, kind := CategorizeTransaction(CategoryTable(AppIncomeKeywords), AppIncomeKeywords, description);
  }

  /** The category is one of the seven labels or "Otros". */
  lemma CategorizeAppLabels(description: string)
    ensures CategorizeApp(description).0 == Otros || CategorizeApp(description).0 in Labels
  {
    var t := CategoryTable(AppIncomeKeywords);
    var c := CategorizeApp(description).0;
    CategoryTableLabels(AppIncomeKeywords);
    if c != Otros {
      var i :| 0 <= i < |t| && c == t[i].0;
      assert c == Labels[i];
    }
  }

  /** "Ingresos" reuses the income list here too. */
  lemma AppIngresosImpliesIncome(description: string)
    ensures CategorizeApp(description).0 == "Ingresos" ==> CategorizeApp(description).1 == Income
  {
    var t := CategoryTable(AppIncomeKeywords);
    CategoryTableLabels(AppIncomeKeywords);
    forall i | 0 <= i < |t| && t[i].0 == "Ingresos"
      ensures t[i].1 == AppIncomeKeywords
    {
      assert i == 6;
    }
    LabelImpliesIncome(t, AppIncomeKeywords, description, "Ingresos");
  }

  /** The two income lists differ only by "freelance". */
  lemma AppIncomeIff(text: string)
    ensures AnyKeyword(AppIncomeKeywords, text) == (AnyKeyword(IncomeKeywords, text) || Occurs("freelance", text))
  {
    AnyKeywordAppend(IncomeKeywords, ["freelance"], text);
    assert AnyKeyword(["freelance"], text) == Occurs("freelance", text) by {
      assert ["freelance"][0] == "freelance";
    }
  }

  /** Without "freelance" in the lower-cased description the two copies
      categorise alike. */
  lemma CategorizeAgreesWithoutFreelance(description: string)
    requires !Occurs("freelance", Lower(description))
    ensures CategorizeApp(description) == CategorizeUtils(description)
  {
    var text := Lower(description);
    var t1 := CategoryTable(AppIncomeKeywords);
    var t2 := CategoryTable(IncomeKeywords);
    AppIncomeIff(text);
    CategoryTableLabels(AppIncomeKeywords);
    CategoryTableLabels(IncomeKeywords);
    forall i | 0 <= i < |t1| ensures AnyKeyword(t1[i].1, text) == AnyKeyword(t2[i].1, text) {
      if i < 6 {
        assert t1[i].1 == t2[i].1;
      }
    }
    FirstMatchSameVerdicts(t1, t2, text);
  }

  /** A description the other copy files as an "Otros" expense only because
      its one keyword is "freelance" is an income here. */
  lemma FreelanceDiverges(description: string)
    requires Occurs("freelance", Lower(description))
    requires CategorizeUtils(description) == (Otros, Expense)
    ensures CategorizeApp(description) == ("Ingresos", Income)
  {
    var text := Lower(description);
    var t1 := CategoryTable(AppIncomeKeywords);
    var t2 := CategoryTable(IncomeKeywords);
    AppIncomeIff(text);
    CategoryTableLabels(IncomeKeywords);
    CategoryTableLabels(AppIncomeKeywords);
    OtrosIff(t2, IncomeKeywords, description);
    forall j | 0 <= j < 6 ensures !AnyKeyword(t1[j].1, text) {
      assert t1[j].1 == t2[j].1;
    }
    CategoryIsFirstMatch(t1, AppIncomeKeywords, description, 6);
  }

  /** A lower-case text containing "freelance" and no other keyword (no
      "cena" and none of the letters below) is an "Ingresos" income here and
      an "Otros" expense in backend/utils/categorizer.py. */
  lemma FreelanceOnly(d: string)
    requires Lower(d) == d && Occurs("freelance", d) && !Occurs("cena", d)
    requires Lacks(d, "éodms") && Lacks(d, "tbugi") && Lacks(d, "pjhzv")
    ensures CategorizeUtils(d) == (Otros, Expense)
    ensures CategorizeApp(d) == ("Ingresos", Income)
  {
    NoKeywordIsOtros(d);
    FreelanceDiverges(d);
  }

  lemma Freelance()
    ensures CategorizeUtils("freelance") == (Otros, Expense)
    ensures CategorizeApp("freelance") == ("Ingresos", Income)
  {
    FreelanceLetters();
    FreelanceOnly("freelance");
  }

  // The facts about the text "freelance" that FreelanceOnly needs.

  lemma FreelanceLetters()
    ensures Lower("freelance") == "freelance"
    ensures Occurs("freelance", "freelance") && !Occurs("cena", "freelance")
    ensures Lacks("freelance", "éodms") && Lacks("freelance", "tbugi") && Lacks("freelance", "pjhzv")
  {
    FreelanceLacks();
    FreelanceLower();
    FreelanceNoCena();
    assert OccursAt("freelance", "freelance", 0);
  }

  lemma FreelanceLacks()
    ensures Lacks("freelance", "éodms") && Lacks("freelance", "tbugi") && Lacks("freelance", "pjhzv")
  {
  }

  lemma FreelanceLower()
    ensures Lower("freelance") == "freelance"
  {
    LowerPlain("freelance");
  }

  lemma FreelanceNoCena()
    ensures !Occurs("cena", "freelance")
  {
    NotOccursLate("cena", "freelance");
  }
}
