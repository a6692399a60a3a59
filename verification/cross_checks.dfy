/** How the browser's checks relate to the server's: which inputs the
    frontend lets through reach the backend validators intact, and where
    the two disagree because JavaScript and Python differ on what counts as
    whitespace. */
module CrossChecks {
  import opened Values
  import opened Text
  import opened Rounding
  import BV = BackendValidators
  import App
  import ClientValidator
  import Security
  import Sanitizer

  /** Every JavaScript whitespace character except U+FEFF is Python
      whitespace too. */
  lemma JsSpaceIsPySpace(c: char)
    requires IsJsSpace(c) && c != '\U{FEFF}'
    ensures IsPySpace(c)
  {
  }

  /** On printable ASCII the two languages trim alike. */
  lemma PrintableTrimsAlike(s: string)
    requires forall i :: 0 <= i < |s| ==> ' ' <= s[i] <= '~'
    ensures PyStrip(s) == JsTrim(s)
  {
    TrimAgree(s, IsPySpace, IsJsSpace);
  }

  /** A username both frontend validators accept, with no U+FEFF in it, is
      accepted by both backend validators, lower-cased. */
  lemma FrontendUsernameReachesBackend(s: string)
    requires ClientValidator.ValidateUsername(JsString(s)).Ok?
    requires '\U{FEFF}' !in s
    ensures Security.ValidateUsername(JsString(s)).Ok?
    ensures BV.ValidateUsername(PyStr(s)) == Ok(Lower(JsTrim(s)))
    ensures App.ValidateUsername(PyStr(s)) == Ok(Lower(JsTrim(s)))
  {
    var u := JsTrim(s);
    assert 3 <= |u| <= 20 && UsernamePattern(u);
    var a, b := PythonPadding(s);
    BV.ValidateUsernamePadded(a, u, b);
    App.ValidateUsernamePadded(a, u, b);
  }

  /** Without U+FEFF, what JavaScript trims off is Python whitespace. */
  lemma PythonPadding(s: string) returns (a: string, b: string)
    requires '\U{FEFF}' !in s
    ensures s == a + JsTrim(s) + b && AllSpace(a, IsPySpace) && AllSpace(b, IsPySpace)
  {
    var u := JsTrim(s);
    a, b := TrimSplit(s, IsJsSpace);
    forall i | 0 <= i < |a| ensures IsPySpace(a[i]) {
      assert a[i] == s[i];
      JsSpaceIsPySpace(a[i]);
    }
    forall i | 0 <= i < |b| ensures IsPySpace(b[i]) {
      assert b[i] == s[|a| + |u| + i];
      JsSpaceIsPySpace(b[i]);
    }
  }

  /** The frontends trim a byte-order mark away and accept the name behind it. */
  lemma ByteOrderMarkAccepted(u: string)
    requires 3 <= |u| <= 20 && UsernamePattern(u)
    ensures ClientValidator.ValidateUsername(JsString("\U{FEFF}" + u)) == Ok(u)
    ensures Security.ValidateUsername(JsString("\U{FEFF}" + u)).Ok?
  {
    assert "\U{FEFF}" + u + [] == "\U{FEFF}" + u;
    ClientValidator.ValidateUsernamePadded("\U{FEFF}", u, []);
  }

  /** The backends keep a leading byte-order mark and refuse the name. */
  lemma ByteOrderMarkRefused(u: string)
    ensures BV.ValidateUsername(PyStr("\U{FEFF}" + u)).Err?
    ensures App.ValidateUsername(PyStr("\U{FEFF}" + u)).Err?
  {
    LeadingStrangerRefused("\U{FEFF}" + u);
  }

  /** A name whose first character is neither Python whitespace nor a
      control, and not allowed in a username even lower-cased, is refused
      by both backends: stripping and the control filter keep it in front. */
  lemma LeadingStrangerRefused(s: string)
    requires s != [] && !IsPySpace(s[0]) && !IsControl(s[0])
    requires !IsUsernameChar(LowerChar(s[0]))
    ensures BV.ValidateUsername(PyStr(s)).Err?
    ensures App.ValidateUsername(PyStr(s)).Err?
  {
    var t := PyStrip(s);
    assert t != [] && t[0] == s[0] by {
      KeepsFirst(s, IsPySpace);
    }
    assert !AllUsernameChars(Lower(t)) by {
      assert Lower(t)[0] == LowerChar(s[0]);
    }
    var d := RemoveControls(t);
    assert d != [] && d[0] == s[0];
    assert !AllUsernameChars(Lower(d)) by {
      assert Lower(d)[0] == LowerChar(s[0]);
    }
  }

  /** Trimming keeps a first character that is not a space. */
  lemma KeepsFirst(s: string, space: char -> bool)
    requires s != [] && !space(s[0])
    ensures Trim(s, space) != [] && Trim(s, space)[0] == s[0]
  {
    var a, b := TrimSplit(s, space);
  }

  /** A username the sanitiser produces, once it has 3 characters, passes
      every validator unchanged. */
  lemma SanitizedUsernameAccepted(v: JsValue)
    requires |Sanitizer.SanitizeUsername(v)| >= 3
    ensures ClientValidator.ValidateUsername(JsString(Sanitizer.SanitizeUsername(v)))
      == Ok(Sanitizer.SanitizeUsername(v))
    ensures BV.ValidateUsername(PyStr(Sanitizer.SanitizeUsername(v))) == Ok(Sanitizer.SanitizeUsername(v))
  {
    CleanNameAccepted(Sanitizer.SanitizeUsername(v));
  }

  lemma CleanNameAccepted(r: string)
    requires 3 <= |r| <= 20 && AllUsernameChars(r)
    ensures ClientValidator.ValidateUsername(JsString(r)) == Ok(r)
    ensures BV.ValidateUsername(PyStr(r)) == Ok(r)
  {
    ClientAcceptsCleanName(r);
    BackendAcceptsCleanName(r);
  }

  lemma ClientAcceptsCleanName(r: string)
    requires 3 <= |r| <= 20 && AllUsernameChars(r)
    ensures ClientValidator.ValidateUsername(JsString(r)) == Ok(r)
  {
    assert [] + r + [] == r;
    ClientValidator.ValidateUsernamePadded([], r, []);
  }

  lemma BackendAcceptsCleanName(r: string)
    requires 3 <= |r| <= 20 && AllUsernameChars(r)
    ensures BV.ValidateUsername(PyStr(r)) == Ok(r)
  {
    BV.ValidateUsernameAcceptsNames(r);
    assert Lower(r) == r by {
      assert forall i :: 0 <= i < |r| ==> Lower(r)[i] == r[i];
    }
  }

  /** The frontends count a password in UTF-16 code units, the backends in
      code points. The two frontends agree everywhere, and a password over
      128 code points is refused by the frontends and app.py but kept by
      validators.py. Where the two counts coincide, on the Basic
      Multilingual Plane, the frontends accept exactly what app.py accepts,
      and both backends return it unchanged. */
  lemma PasswordsAgree(s: string)
    ensures ClientValidator.ValidatePassword(JsString(s)).Ok?
      <==> Security.ValidatePassword(JsString(s)).Ok?
    ensures InBasicPlane(s) ==>
      (ClientValidator.ValidatePassword(JsString(s)).Ok? <==> App.ValidatePassword(PyStr(s)).Ok?)
    ensures InBasicPlane(s) && ClientValidator.ValidatePassword(JsString(s)).Ok? ==>
      BV.ValidatePassword(PyStr(s)) == Ok(s) && App.ValidatePassword(PyStr(s)) == Ok(s)
    ensures |s| > 128 ==>
      BV.ValidatePassword(PyStr(s)).Ok? && App.ValidatePassword(PyStr(s)).Err? &&
      ClientValidator.ValidatePassword(JsString(s)).Err?
  {
    Utf16LengthBasic(s);
  }

  /** Off the plane the counts part ways. Two emoji are four code units:
      both frontends accept them and both backends refuse them as too
      short. */
  lemma ShortAstralPassword()
    ensures ClientValidator.ValidatePassword(JsString("\U{1F600}\U{1F600}")).Ok?
    ensures Security.ValidatePassword(JsString("\U{1F600}\U{1F600}")).Ok?
    ensures BV.ValidatePassword(PyStr("\U{1F600}\U{1F600}")) == Err("Password mín 4 caracteres")
    ensures App.ValidatePassword(PyStr("\U{1F600}\U{1F600}")) == Err("Password debe tener 4-128 caracteres")
  {
    Utf16LengthAstral("\U{1F600}\U{1F600}");
  }

  /** And the other way: 65 code points above U+FFFF are 130 code units,
      too long for both frontends, while app.py accepts them. */
  lemma LongAstralPassword(s: string)
    requires |s| == 65 && forall i :: 0 <= i < |s| ==> s[i] as int > 0xFFFF
    ensures App.ValidatePassword(PyStr(s)) == Ok(s)
    ensures ClientValidator.ValidatePassword(JsString(s)) == Err("Contraseña es demasiado larga")
    ensures Security.ValidatePassword(JsString(s)) == Err("Password muy largo")
  {
    Utf16LengthAstral(s);
  }

  /** On printable ASCII all description validators agree on what they
      accept, and the two that return a value return the same one. */
  lemma DescriptionsAgreeOnPrintable(s: string)
    requires forall i :: 0 <= i < |s| ==> ' ' <= s[i] <= '~'
    ensures ClientValidator.ValidateDescription(JsString(s)).Ok? <==> BV.ValidateDescription(PyStr(s)).Ok?
    ensures ClientValidator.ValidateDescription(JsString(s)).Ok? <==> App.ValidateDescription(PyStr(s)).Ok?
    ensures ClientValidator.ValidateDescription(JsString(s)).Ok? ==>
      BV.ValidateDescription(PyStr(s)) == ClientValidator.ValidateDescription(JsString(s))
  {
    PrintableDescription(s);
    RemoveControlsClean(JsTrim(s));
  }

  /** A printable text trims alike in both languages, and what is left has
      no control character. */
  lemma PrintableDescription(s: string)
    requires forall i :: 0 <= i < |s| ==> ' ' <= s[i] <= '~'
    ensures PyStrip(s) == JsTrim(s) && ControlFree(JsTrim(s))
  {
    PrintableTrimsAlike(s);
    assert forall i :: 0 <= i < |s| ==> !Deletes(Controls, s[i]);
    TrimKeepsClean(s, IsJsSpace, Controls);
  }

  /** Where whitespace differs, so do the verdicts: `\x1c` is a description
      for the browser and blank for Python; a lone U+FEFF is the reverse. */
  lemma DescriptionsDisagree()
    ensures ClientValidator.ValidateDescription(JsString("\U{001C}")) == Ok("\U{001C}")
    ensures BV.ValidateDescription(PyStr("\U{001C}")).Err?
    ensures ClientValidator.ValidateDescription(JsString("\U{FEFF}")).Err?
    ensures BV.ValidateDescription(PyStr("\U{FEFF}")) == Ok("\U{FEFF}")
  {
    SeparatorDescription();
    ByteOrderMarkDescription();
  }

  lemma SeparatorDescription()
    ensures ClientValidator.ValidateDescription(JsString("\U{001C}")) == Ok("\U{001C}")
    ensures BV.ValidateDescription(PyStr("\U{001C}")).Err?
  {
    var fs := "\U{001C}";
    assert JsTrim(fs) == fs by {
      assert Trimmed(fs, IsJsSpace);
      TrimOfTrimmed(fs, IsJsSpace);
    }
    assert PyStrip(fs) == [];
  }

  lemma ByteOrderMarkDescription()
    ensures ClientValidator.ValidateDescription(JsString("\U{FEFF}")).Err?
    ensures BV.ValidateDescription(PyStr("\U{FEFF}")) == Ok("\U{FEFF}")
  {
    var c := '\U{FEFF}';
    assert IsJsSpace(c) && !IsPySpace(c) && !IsControl(c);
    LoneSpaceDescription(c);
    LoneCharDescription(c);
  }

  /** A one-character description is blank for the browser when the
      character is JavaScript whitespace. */
  lemma LoneSpaceDescription(c: char)
    requires IsJsSpace(c)
    ensures ClientValidator.ValidateDescription(JsString([c])).Err?
  {
    assert JsTrim([c]) == [] by {
      assert [c][1..] == [];
    }
  }

  /** Python keeps a one-character description when the character is
      neither Python whitespace nor a control. */
  lemma LoneCharDescription(c: char)
    requires !IsPySpace(c) && !IsControl(c)
    ensures BV.ValidateDescription(PyStr([c])) == Ok([c])
  {
    LoneCharStripped(c);
    LoneCharClean(c);
  }

  lemma LoneCharClean(c: char)
    requires !IsControl(c)
    ensures RemoveControls([c]) == [c]
  {
    assert [c][1..] == [];
  }

  lemma LoneCharStripped(c: char)
    requires !IsPySpace(c)
    ensures PyStrip([c]) == [c]
  {
    assert TrimStart([c], IsPySpace) == [c];
  }

  /** Every amount gets the same verdict from both frontends and, NaN
      aside, from both backends as written. The corrected backend checks are
      stricter: what they accept, the frontends accept. */
  lemma AmountsAgree(n: Number)
    ensures ClientValidator.ValidateAmount(n).Ok? <==> Security.ValidateAmount(n).Ok?
    ensures n != NaN ==> (ClientValidator.ValidateAmount(n).Ok? <==> BV.ValidateAmount(Converted(n)).Accepted())
    ensures n != NaN ==> (ClientValidator.ValidateAmount(n).Ok? <==> App.ValidateAmount(Converted(n)).Accepted())
    ensures BV.ValidateAmountStrict(Converted(n)).Ok? ==> ClientValidator.ValidateAmount(n).Ok?
    ensures App.ValidateAmountStrict(Converted(n)).Ok? ==> ClientValidator.ValidateAmount(n).Ok?
  {
  }

  /** An amount the browser's validator accepts, the sanitiser rounds to
      the same value. */
  lemma SanitizedAmountMatches(n: Number, parseFloat: string -> Number)
    requires ClientValidator.ValidateAmount(n).Ok?
    ensures Sanitizer.SanitizeAmount(JsNumber(n), parseFloat) == ClientValidator.ValidateAmount(n).value
  {
  }

  /** Off the half-cent ties, all four copies return the same rounded
      amount. */
  lemma AmountValuesAgree(n: Number)
    requires n.Finite? && !IsTie(n.r * 100.0)
    requires ClientValidator.ValidateAmount(n).Ok?
    ensures Security.ValidateAmount(n) == ClientValidator.ValidateAmount(n)
    ensures BV.ValidateAmount(Converted(n)) == Returns(ClientValidator.ValidateAmount(n))
    ensures App.ValidateAmount(Converted(n)) == Returns(ClientValidator.ValidateAmount(n))
  {
    CentsAgreeOffTies(n);
  }

  /** What app.js sends, the server keeps. app.js sends the value
      security.js's `validateAmount` returned, and `float()` of that JSON
      number is the number itself. An amount that did not round to zero
      then passes both backend checks unchanged. */
  lemma SentAmountKept(n: Number)
    requires Security.ValidateAmount(n).Ok? && !IsZero(Security.ValidateAmount(n).value)
    ensures BV.ValidateAmount(Converted(Security.ValidateAmount(n).value)) == Returns(Security.ValidateAmount(n))
    ensures App.ValidateAmount(Converted(Security.ValidateAmount(n).value)) == Returns(Security.ValidateAmount(n))
  {
    CentsOfCents(Security.ValidateAmount(n).value);
  }

  /** The same for transactions.js, which validates with validator.js and
      sends `sanitizeAmount`'s value. */
  lemma SanitizedAmountKept(n: Number, parseFloat: string -> Number)
    requires ClientValidator.ValidateAmount(n).Ok? && !IsZero(ClientValidator.ValidateAmount(n).value)
    ensures BV.ValidateAmount(Converted(Sanitizer.SanitizeAmount(JsNumber(n), parseFloat)))
         == Returns(ClientValidator.ValidateAmount(n))
    ensures App.ValidateAmount(Converted(Sanitizer.SanitizeAmount(JsNumber(n), parseFloat)))
         == Returns(ClientValidator.ValidateAmount(n))
  {
    SanitizedAmountMatches(n, parseFloat);
    CentsOfCents(ClientValidator.ValidateAmount(n).value);
  }

  /** An amount under half a cent passes the browser as 0, and the server
      then refuses that 0. */
  lemma SubCentRefusedAfterBrowser()
    ensures Security.ValidateAmount(Finite(0.001)) == Ok(Finite(0.0))
    ensures ClientValidator.ValidateAmount(Finite(0.001)) == Ok(Finite(0.0))
    ensures BV.ValidateAmount(Converted(Finite(0.0))) == Returns(Err("Monto no puede ser cero"))
    ensures App.ValidateAmount(Converted(Finite(0.0))) == Returns(Err("Monto no puede ser cero"))
  {
    Security.AmountRoundsToZero();
    ClientValidator.AmountRoundsToZero();
  }

  /** On a tie the copies round differently. Both frontends turn 0.125
      into 0.13, which the server keeps. A request that bypasses the
      browser and carries 0.125 is stored as 0.12. -0.125 gets two
      different values in the browser. */
  lemma AmountTie()
    ensures ClientValidator.ValidateAmount(Finite(0.125)) == Ok(Finite(0.13))
    ensures Security.ValidateAmount(Finite(0.125)) == Ok(Finite(0.13))
    ensures App.ValidateAmount(Converted(Finite(0.13))) == Returns(Ok(Finite(0.13)))
    ensures BV.ValidateAmount(Converted(Finite(0.125))) == Returns(Ok(Finite(0.12)))
    ensures ClientValidator.ValidateAmount(Finite(-0.125)) == Ok(Finite(-0.12))
    ensures Security.ValidateAmount(Finite(-0.125)) == Ok(Finite(-0.13))
  {
    CentsTies();
    CentsOfCents(Finite(0.13));
  }
}
