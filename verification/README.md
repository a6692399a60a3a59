# Input validation, sanitisation and categorisation of a personal-finance tracker

The tracker records income and expense transactions for its users. Every
text that reaches it passes through validators twice. The browser checks it
with `frontend/js/utils/validator.js` and `frontend/js/security.js`, and
cleans it with `frontend/js/utils/sanitizer.js`. The Flask backend checks it
again with `backend/utils/validators.py` and with a second, slightly
different copy of those validators inside `backend/app.py`. The backend then
files each transaction under a category and an income/expense type by
keyword search in the description (`backend/utils/categorizer.py`, and
another copy in `backend/app.py` whose income list adds "freelance").

This project models those validators, sanitisers and categorisers in Dafny
and proves what each promises. It also proves how the copies relate: where
they agree, and the inputs on which they part ways.

Modules, one per source file plus shared vocabulary:

- `Values` (values.dfy): results (`Ok`/`Err` with the error message), the
  dynamically typed arguments of Python (`PyValue`) and JavaScript
  (`JsValue`) with JavaScript truthiness, and parsed numbers (`Number`: a
  finite value, an infinity or NaN).
  - `Conversion` is what Python's `float()` or `int()` did with a request
    value: a number, a ValueError or TypeError, or an OverflowError.
  - `Outcome` is what a backend validator did: return or raise
    ValidationError (a `Result`), or let an exception it does not catch
    escape to the route.
- `Text` (text.dfy): the character classes both languages use.
  - Python's `str.strip()` whitespace and JavaScript's `trim()` whitespace
    are modelled exactly, and they differ. Python also strips `\x1c`-`\x1f`
    and U+0085. JavaScript also trims U+FEFF.
  - Also here: the control class `\x00-\x1f`, `\x7f`, lower-casing, trimming,
    character deletion (the `re.sub`/`replace` filters), `slice`/`substring`,
    and substring search (`in`, `includes`).
- `Rounding` (rounding.dfy): rounding to cents. It covers the three rules
  the copies use: `Math.round`, `toFixed` and Python's `round`.
- `BackendValidators` (validators.py), `App` (the validators and categoriser
  of app.py), `Categorizer` (categorizer.py), `Sanitizer` (sanitizer.js),
  `Security` (security.js) and `ClientValidator` (validator.js).
- `CrossChecks` (cross_checks.dfy): frontend against backend.

Form of the model:

- The validators and sanitisers are pure guard chains. They become functions
  returning `Result`, with the exact messages of the source.
- The category loop (`for`/`break` reassigning `category`) is a method with a
  loop invariant: the method `Categorizer.CategorizeTransaction`, and for
  the app.py copy `App.CategorizeTransactionApp`. Each is proved equal to the
  first-match function `Categorizer.Categorize`. The function is generic in
  the ordered label table and the income list, and both source tables are
  instances of it.
- `validateFormData` fills its `errors` object field by field. It is the
  method `Security.ValidateFormData`, whose loop invariant ties the map built
  so far to the function `Security.FormErrors` over the fields seen.

How the copies relate:

- **Usernames.** A username `validator.js` accepts is accepted by both
  backend copies, which return it lower-cased. This holds only when the name
  has no U+FEFF in it.
  - JavaScript trims a leading byte-order mark; Python keeps it and then
    fails the pattern.
  - `CrossChecks.ByteOrderMarkAccepted` and `CrossChecks.ByteOrderMarkRefused`
    state both sides.
- **Descriptions.** They part ways for the same reason. `"\x1c"` is accepted
  by the browser and refused by the server, and the reverse holds for
  U+FEFF.
- **Passwords.** The frontends count `password.length` in UTF-16 code
  units and the backends count code points with `len`. On the Basic
  Multilingual Plane the frontends accept exactly what app.py accepts.
  Outside it they part ways in both directions: two emoji pass the
  frontends and fail both backends, and 65 emoji pass app.py and fail the
  frontends.
- **Control characters in usernames.** validators.py deletes a control
  character inside a username, while app.py refuses the name.
- **Freelance.** app.py files "freelance" as income; categorizer.py files it
  as "Otros", an expense.
- **Amounts.** All four amount checks test zero and the ±1,000,000 bound
  before they round. Amounts under half a cent therefore pass and come back
  as 0.
  - Both frontends send the amount they have already rounded: app.js sends
    the value security.js returned, and transactions.js sends
    `sanitizeAmount`'s value. The backend keeps every such amount that is
    not 0, unchanged.
  - A sub-cent amount reaches the server as 0, which the server refuses.
  - On a half-cent tie the copies round differently. 0.125 becomes 0.13 in
    the browser, and the server keeps the 0.13 it is sent. Only a request
    that bypasses the browser and carries 0.125 is stored as 0.12.

Where the code and the system's description differ, the model follows the
code. `validate_password` in validators.py has no upper bound, unlike the
copy in app.py.

## Model

| member | source | states |
|---|---|---|
| Text.Lower | backend/utils/validators.py:22 | lower-casing keeps the length and maps each character by LowerChar: A-Z to a-z, Latin-1 capitals to their small letters, everything else unchanged |
| Text.LowerIdempotent | backend/utils/categorizer.py:5 | lower-casing twice is lower-casing once |
| Text.TrimResult | backend/utils/validators.py:12 | the trimmed text has no whitespace at either end and is the infix of the input with only whitespace around it |
| Text.TrimIdempotent | backend/utils/validators.py:12 | trimming twice is trimming once |
| Text.TrimAgree | frontend/js/utils/validator.js:22 | two whitespace classes that agree on every character of a text trim it alike |
| Text.Delete | frontend/js/utils/sanitizer.js:39 | deleting a character class leaves no character of the class and never lengthens the text |
| Text.DeleteAppend | frontend/js/utils/sanitizer.js:39 | deletion works character by character: it distributes over concatenation |
| Text.DeleteClean | frontend/js/utils/sanitizer.js:74 | a text with no character of the class is unchanged by the deletion |
| Text.DeleteLone | frontend/js/utils/sanitizer.js:74 | a lone character of the deleted class leaves nothing |
| Text.RemoveControls | backend/utils/validators.py:17 | the result has no character in 0x00-0x1F or 0x7F and is no longer than the input |
| Text.Prefix | frontend/js/security.js:32 | `substring(0, n)`/`slice(0, n)`: the first min(n, length) characters, none for negative n |
| Text.Utf16Length | frontend/js/utils/validator.js:49 | `s.length` counts UTF-16 code units: between the number of code points and twice it |
| Text.Utf16LengthBasic | frontend/js/utils/validator.js:49 | the UTF-16 length equals the number of code points exactly when every character is in the Basic Multilingual Plane |
| Text.Utf16LengthAstral | frontend/js/utils/validator.js:49 | a text of code points above U+FFFF has twice as many code units |
| Text.IsPySpace | backend/utils/validators.py:12 | the characters `str.isspace()` accepts and `strip()` removes: 9–13, 28–32, U+0085 and the shared Unicode spaces |
| Text.IsJsSpace | frontend/js/utils/validator.js:22 | the characters `trim()` removes: 9–13, 32, U+FEFF and the shared Unicode spaces |
| Text.UsernamePattern | frontend/js/utils/validator.js:32 | `/^[a-z0-9_-]+$/i`: a non-empty text of ASCII letters of either case, digits, `_` and `-` |
| Text.Trim | backend/utils/validators.py:12 | removes the class's characters from both ends (TrimResult characterises the result) |
| Text.TrimmedKeepsAt | backend/utils/validators.py:12 | trimming a text with no space at either end keeps every character in its place |
| Text.PyStrip | backend/utils/validators.py:12 | `str.strip()`: trimming with Python's whitespace |
| Text.JsTrim | frontend/js/utils/validator.js:22 | `String.prototype.trim()`: trimming with JavaScript's whitespace |
| Text.Occurs | backend/utils/categorizer.py:12 | Python's `kw in text`: true exactly when the keyword occurs at some position of the text |
| Rounding.RoundHalfUp | frontend/js/utils/validator.js:99 | `Math.round`: the integer within one half of x, a tie going up |
| Rounding.RoundHalfAway | frontend/js/security.js:120 | the digits of `toFixed`: the integer within one half of x, a tie going away from zero |
| Rounding.RoundHalfEven | backend/utils/validators.py:46 | Python's `round`: the integer within one half of x, a tie going to the even integer |
| Rounding.RoundingOffTies | backend/app.py:111 | an integer strictly within one half of x is what all three rules return |
| Rounding.RulesAgreeOffTies | backend/app.py:111 | off the half-way points the three rules agree |
| Rounding.CentsHalfUp | frontend/js/utils/validator.js:99 | `Math.round(n * 100) / 100` has at most two decimals and is within half a cent of n; infinities and NaN pass through |
| Rounding.CentsHalfAway | frontend/js/security.js:120 | `parseFloat(n.toFixed(2))` has at most two decimals and is within half a cent of n |
| Rounding.CentsHalfEven | backend/utils/validators.py:46 | `round(n, 2)` has at most two decimals and is within half a cent of n |
| Rounding.CentsOfCents | backend/utils/validators.py:46 | an amount with at most two decimals is unchanged by every rule, so each rounding is idempotent |
| Rounding.CentsAgreeOffTies | backend/app.py:111 | off the half-cent ties the three roundings give the same amount |
| Rounding.CentsTies | frontend/js/security.js:120 | on a tie they differ: 0.125 gives 0.13, 0.13 and 0.12; -0.125 gives -0.12, -0.13 and -0.12 |
| Rounding.CentsWithinLimit | backend/utils/validators.py:44-46 | an amount within ±1,000,000 stays within it once rounded |
| Rounding.SubCentIsZero | backend/utils/validators.py:42-46 | every rule rounds an amount strictly under half a cent in magnitude to 0 |
| BackendValidators.SanitizeString | backend/utils/validators.py:7-18 | non-strings are refused with "Debe ser texto"; a string is accepted exactly when its stripped form has 1 to max_length characters, and refused with the "Texto inválido" message otherwise; the result fits the bound and has no control character |
| BackendValidators.SanitizeStringValue | backend/utils/validators.py:13-18 | an accepted text comes back as its stripped form with the control characters deleted |
| BackendValidators.SanitizeChecksLengthBeforeRemovingControls | backend/utils/validators.py:13-17 | a text that would fit only after its controls are removed is refused |
| BackendValidators.SanitizeMayReturnEmpty | backend/utils/validators.py:13-18 | `"\x01"` passes the emptiness test and comes back as the empty string |
| BackendValidators.LoneControlEmpty | backend/utils/validators.py:13-18 | any lone control character that is not whitespace passes the emptiness test and comes back empty, whatever the bound |
| BackendValidators.LoneCharFiltered | backend/utils/validators.py:12-18 | a lone non-whitespace character is not stripped, so it is only filtered for controls |
| BackendValidators.SanitizeIdempotentWithoutControls | backend/utils/validators.py:12-18 | when the stripped text has no controls, the result is that text, and sanitising it again returns it unchanged |
| BackendValidators.SanitizeNotIdempotent | backend/utils/validators.py:12-18 | `"\x01 a"` gives `" a"`, which gives `"a"`: sanitising is not idempotent in general |
| BackendValidators.ValidateUsername | backend/utils/validators.py:20-30 | an accepted name has 3 to 20 characters of `[a-z0-9_-]` and is the lower-cased sanitised input; non-strings and bad lengths fail with the sanitiser's message |
| BackendValidators.ValidateUsernameSanitized | backend/utils/validators.py:20-22 | once sanitize_string(username, 20) has returned a value, the result is the checks applied to that value lower-cased |
| BackendValidators.CheckUsername | backend/utils/validators.py:24-30 | the checks after sanitising: at least 3 characters, all in `[a-z0-9_-]`, in that order of messages |
| BackendValidators.ValidateUsernameAcceptsNames | backend/utils/validators.py:20-30 | every name of 3 to 20 characters over `[A-Za-z0-9_-]` is accepted, lower-cased |
| BackendValidators.UsernameCharsSanitized | backend/utils/validators.py:7-18 | a text of 1 to max_length characters over `[A-Za-z0-9_-]` is returned unchanged by sanitize_string |
| BackendValidators.ValidateUsernamePadded | backend/utils/validators.py:22 | whitespace around such a name is stripped and its case folded |
| BackendValidators.ValidateUsernameIdempotent | backend/utils/validators.py:20-30 | an accepted name is accepted again, unchanged |
| BackendValidators.ValidateUsernameDeletesControls | backend/utils/validators.py:17-22 | a control character inside an otherwise good name is deleted, not refused |
| BackendValidators.ValidateUsernameRejectsShort | backend/utils/validators.py:24-25 | `"AB"` fails with "Username mín 3 caracteres" |
| BackendValidators.ValidateUsernameRejectsInner | backend/utils/validators.py:27-28 | a printable character outside `[A-Za-z0-9_-]` inside the name fails the pattern |
| BackendValidators.ValidatePassword | backend/utils/validators.py:32-36 | accepted exactly for strings of at least 4 characters, returned unchanged; no upper bound |
| BackendValidators.ValidateAmount | backend/utils/validators.py:38-48 | an OverflowError from `float()` escapes, and nothing else does; a ValueError or TypeError gives "Monto debe ser número"; otherwise accepted exactly when non-zero and within ±1,000,000, and the result is `round(amount, 2)`, in cents, within half a cent and within the bound; zero and too large have their messages |
| BackendValidators.AmountBounds | backend/utils/validators.py:42-46 | ±1,000,000 are accepted, 1,000,000.01 and -infinity are too large, 0 is refused |
| BackendValidators.AmountAcceptsNaN | backend/utils/validators.py:38-48 | NaN is accepted and returned (see Findings) |
| BackendValidators.AmountRoundsToZero | backend/utils/validators.py:42-46 | 0.001 is accepted and comes back as 0.0 (see Findings) |
| BackendValidators.AmountOverflowEscapes | backend/utils/validators.py:40-48 | an OverflowError from `float()` is not caught: the exception escapes instead of a ValidationError (see Findings) |
| BackendValidators.ValidateAmountStrict | backend/utils/validators.py:38-48 | corrected check, which never lets an exception escape: every accepted amount is finite, non-zero, in cents and within the bound; it accepts exactly where the written check returns a finite non-zero amount, and returns the same value; where the written check raises ValidationError it gives the same message; an overflow gives "Monto muy grande" |
| BackendValidators.ValidateAmountStrictIdempotent | backend/utils/validators.py:38-48 | an amount the corrected check accepts is accepted again, unchanged |
| BackendValidators.ValidateDescription | backend/utils/validators.py:50-52 | is `sanitize_string(d, 500)`: accepted exactly for 1 to 500 stripped characters, without controls |
| Categorizer.AnyKeyword | backend/utils/categorizer.py:12 | `any(kw in text for kw in keywords)` holds exactly when some keyword occurs in the text |
| Categorizer.FirstMatch | backend/utils/categorizer.py:25-29 | the index of the first table entry with a keyword in the text: that entry matches and none before it does; none exactly when no entry matches |
| Categorizer.Categorize | backend/utils/categorizer.py:3-31 | total; the type is income exactly when an income keyword occurs in the lower-cased description; the category is a table label or "Otros" |
| Categorizer.CategorizeTransaction | backend/utils/categorizer.py:25-31 | the loop with `break` returns the first-match category and the income type |
| Categorizer.FirstMatchAt | backend/utils/categorizer.py:26-29 | an entry that matches, with no match before it, is the first match |
| Categorizer.CategoryIsFirstMatch | backend/utils/categorizer.py:26-29 | first match wins: the category is the label of that entry |
| Categorizer.CategoryHasMatch | backend/utils/categorizer.py:26-29 | a category other than "Otros" is the label of an entry with a keyword in the description, and no earlier entry has one |
| Categorizer.OtrosIff | backend/utils/categorizer.py:25-29 | "Otros" comes out exactly when no keyword of any label occurs |
| Categorizer.LabelImpliesIncome | backend/utils/categorizer.py:12-13 | a label whose entries search the income list implies the income type |
| Categorizer.CategorizeLowerInvariant | backend/utils/categorizer.py:5 | the result depends only on the lower-cased description |
| Categorizer.FirstMatchSameVerdicts | backend/utils/categorizer.py:26-29 | two tables whose entries match alike give the same first match |
| Categorizer.AnyKeywordAppend | backend/utils/categorizer.py:12 | `any` over a concatenation of keyword lists is the disjunction |
| Categorizer.CategoryTable | backend/utils/categorizer.py:15-23 | the seven keyword lists in dict order, the last one the income list |
| Categorizer.CategoryTableLabels | backend/utils/categorizer.py:15-23 | the entries carry the seven labels in order, none of them "Otros" |
| Categorizer.CategorizeUtils | backend/utils/categorizer.py:3-31 | income exactly when an income keyword occurs in the lower-cased description; "Otros" exactly when no table entry matches it |
| Categorizer.CategorizeUtilsLabels | backend/utils/categorizer.py:15-25 | the category is one of the seven labels or "Otros" |
| Categorizer.IngresosImpliesIncome | backend/utils/categorizer.py:12-22 | "Ingresos" implies the income type |
| Categorizer.UtilsKind | backend/utils/categorizer.py:12-13 | on a lower-case description the type is the income-keyword test |
| Categorizer.UtilsCategory | backend/utils/categorizer.py:25-29 | on a lower-case description the category is the label of the first matching entry |
| Categorizer.TaxiPayment | backend/utils/categorizer.py:5-31 | a lower-case text with "pago" and "taxi" and none of c, d, l, e is ("Transporte", income): income without "Ingresos" |
| Categorizer.PagoTaxi | backend/utils/categorizer.py:5-31 | "pago taxi" gives ("Transporte", income) |
| Categorizer.BarSubstring | backend/utils/categorizer.py:27 | a lower-case text containing "bar", and lacking the letters of earlier keywords, is entertainment: keywords match as substrings |
| Categorizer.Barato | backend/utils/categorizer.py:27 | "barato" gives ("Entretenimiento", expense) |
| Categorizer.NoKeywordIsOtros | backend/utils/categorizer.py:25-31 | a lower-case text without any keyword's letters is ("Otros", expense) |
| App.SanitizeString | backend/app.py:55-71 | non-strings, empty and too-long texts fail with their own messages naming the field; the result fits the bound and has no control character |
| App.SanitizeAgrees | backend/app.py:55-71 | both copies of `sanitize_string` accept the same texts and return the same value |
| App.ValidateUsername | backend/app.py:73-86 | non-strings fail; an accepted name has 3 to 20 characters of `[a-z0-9_-]` and is the stripped, lower-cased input |
| App.CheckUsername | backend/app.py:80-86 | accepted exactly when 3 to 20 characters, all in `[a-z0-9_-]` |
| App.CheckNormalName | backend/app.py:80-86 | a name of 3 to 20 characters of `[a-z0-9_-]` passes the checks unchanged |
| App.UsernameRejectsControls | backend/app.py:78-84 | a control character left after stripping makes the name fail |
| App.ValidateUsernamePadded | backend/app.py:78 | whitespace around a good name is stripped and its case folded |
| App.StripsToName | backend/app.py:78-86 | a text that strips to a name of 3 to 20 name characters is accepted as that name in lower case |
| App.ValidateUsernameIdempotent | backend/app.py:73-86 | an accepted name is accepted again, unchanged |
| App.AcceptsNormalName | backend/app.py:73-86 | a name already in accepted form comes back unchanged |
| App.UsernameAgreesWithoutControls | backend/app.py:73-86 | without controls after stripping, both backend copies give the same verdict and value |
| App.UsernameControlDiverges | backend/app.py:83-84 | with a control inside the name, validators.py deletes it and accepts, app.py refuses |
| App.ValidatePassword | backend/app.py:88-96 | accepted exactly for strings of 4 to 128 characters, returned unchanged; each failure has its message |
| App.PasswordAgrees | backend/app.py:88-96 | every password this copy accepts the other accepts unchanged; over 128 characters only the other accepts |
| App.ValidateAmount | backend/app.py:98-111 | an OverflowError from `float()` escapes, and nothing else does; a ValueError or TypeError gives "Monto debe ser número válido"; otherwise accepted exactly when non-zero and within ±1,000,000, and the result is `round(amount, 2)`, in cents and within the bound; zero and too large have their messages |
| App.AmountAgrees | backend/app.py:98-111 | both backend copies let the same conversions escape, accept the same amounts and return the same value |
| App.AmountAcceptsNaN | backend/app.py:98-111 | NaN is accepted and returned (see Findings) |
| App.AmountRoundsToZero | backend/app.py:105-111 | 0.004 is accepted and comes back as 0.0 (see Findings) |
| App.AmountOverflowEscapes | backend/app.py:100-102 | an OverflowError from `float()` is not caught and escapes (see Findings) |
| App.ValidateAmountStrict | backend/app.py:98-111 | corrected check, which never lets an exception escape: every accepted amount is finite, non-zero, in cents and within the bound, and it is what the written check returns; where the written check raises ValidationError it gives the same message; an overflow gives "Monto excede límite permitido" |
| App.ValidateDescription | backend/app.py:113-115 | is `sanitize_string` with bound 500 and field "description": 1 to 500 stripped characters, without controls |
| App.ValidateUserId | backend/app.py:117-125 | an OverflowError from `int()` (an infinity) escapes, and nothing else does; a ValueError or TypeError gives "user_id debe ser número entero"; otherwise accepted exactly when the integer is positive, returned unchanged (so at least 1), and "user_id inválido" otherwise |
| App.CategorizeApp | backend/app.py:154-182 | income exactly when a keyword of the list with "freelance" occurs in the lower-cased description; "Otros" exactly when no entry of its table matches |
| App.CategorizeTransactionApp | backend/app.py:176-182 | the loop with `break` returns the first-match category over the app.py table |
| App.CategorizeAppLabels | backend/app.py:166-180 | the category is one of the seven labels or "Otros" |
| App.AppIngresosImpliesIncome | backend/app.py:163-173 | "Ingresos" implies the income type |
| App.AppIncomeIff | backend/app.py:158-163 | the app.py income test is the utils test or "freelance" occurring |
| App.CategorizeAgreesWithoutFreelance | backend/app.py:154-182 | without "freelance" in the lower-cased description both categorisers give the same result |
| App.FreelanceDiverges | backend/app.py:158-161 | where categorizer.py says ("Otros", expense) only for want of "freelance", app.py says ("Ingresos", income) |
| App.Freelance | backend/app.py:158-182 | "freelance" gives ("Otros", expense) in categorizer.py and ("Ingresos", income) here |
| Sanitizer.Entity | frontend/js/utils/sanitizer.js:11-17 | each of the five characters becomes its entity, which holds no `<`, `>`, `"` or `'`; any other character is itself |
| Sanitizer.Escape | frontend/js/utils/sanitizer.js:19 | the escaped text holds no `<`, `>`, `"` or `'` and is at least as long as the input |
| Sanitizer.EscapeHtml | frontend/js/utils/sanitizer.js:8-20 | non-strings give the empty string; the output holds no `<`, `>`, `"` or `'`; frontend/js/security.js:8-20 defines the same function |
| Sanitizer.EscapeLength | frontend/js/utils/sanitizer.js:11-19 | output length is input length + 4 per `&` + 3 per `<` + 3 per `>` + 5 per `"` + 5 per `'` |
| Sanitizer.EscapePlain | frontend/js/utils/sanitizer.js:19 | a text without the five characters is unchanged |
| Sanitizer.EscapeAppend | frontend/js/utils/sanitizer.js:19 | escaping works character by character, in order: it distributes over concatenation |
| Sanitizer.Unescape | frontend/js/utils/sanitizer.js:11-17 | decoding the five entities never lengthens a text |
| Sanitizer.EscapeRoundTrip | frontend/js/utils/sanitizer.js:11-19 | decoding the entities recovers the input |
| Sanitizer.EscapeAmpThen | frontend/js/utils/sanitizer.js:11-19 | a leading `&` becomes `&amp;` and the rest is escaped on its own |
| Sanitizer.EscapeTwice | frontend/js/utils/sanitizer.js:11-19 | escaping is not idempotent: `&` gives `&amp;`, then `&amp;amp;` |
| Sanitizer.SanitizeEmail | frontend/js/utils/sanitizer.js:25-28 | the input itself when it is a string with one `@` not at either end, a `.` with characters on both sides after it, and no whitespace; otherwise the empty string |
| Sanitizer.EmailShape | frontend/js/utils/sanitizer.js:26 | `/^[^\s@]+@[^\s@]+\.[^\s@]+$/`: no whitespace, exactly one `@` with text before it, and a `.` after it with text on both sides |
| Sanitizer.EmailAccepted | frontend/js/utils/sanitizer.js:26-27 | "a@b.co" is kept |
| Sanitizer.EmailWithoutDot | frontend/js/utils/sanitizer.js:26-27 | "a@b" gives the empty string: no dot after the `@` |
| Sanitizer.EmailTwoAts | frontend/js/utils/sanitizer.js:26-27 | "a@@b.co" gives the empty string: a second `@` |
| Sanitizer.EmailLeadingSpace | frontend/js/utils/sanitizer.js:26-27 | " a@b.co" gives the empty string: the regex is tested before the trim |
| Sanitizer.SanitizeEmailExamples | frontend/js/utils/sanitizer.js:26 | "a@b.co" is kept; "a@b", "a@@b.co" and " a@b.co" give the empty string |
| Sanitizer.SanitizeUsername | frontend/js/utils/sanitizer.js:33-41 | non-strings give the empty string; the output has at most 20 characters, all in `[a-z0-9_-]` |
| Sanitizer.SanitizeUsernameKeeps | frontend/js/utils/sanitizer.js:33-41 | a name of 1 to 20 characters over `[A-Za-z0-9_-]` with whitespace around comes back lower-cased |
| Sanitizer.SanitizeUsernameIdempotent | frontend/js/utils/sanitizer.js:33-41 | sanitising a sanitised name changes nothing |
| Sanitizer.SanitizeDescription | frontend/js/utils/sanitizer.js:46-50 | non-strings give the empty string; the output has at most 500 characters and no `<`, `>`, `"` or `'` |
| Sanitizer.SanitizeDescriptionRoundTrip | frontend/js/utils/sanitizer.js:46-50 | when the escaped text fits in 500 characters, decoding the output gives the trimmed input |
| Sanitizer.SanitizeDescriptionCutsEntity | frontend/js/utils/sanitizer.js:49 | 497 letters then `&` come out ending in the partial entity `&am` |
| Sanitizer.AmountOf | frontend/js/utils/sanitizer.js:56-58 | a string goes through `parseFloat`, a number is itself, `undefined` is NaN |
| Sanitizer.SanitizeAmount | frontend/js/utils/sanitizer.js:55-65 | never NaN: NaN gives 0, anything else is rounded to cents within half a cent |
| Sanitizer.SanitizeAmountIdempotent | frontend/js/utils/sanitizer.js:55-65 | sanitising a sanitised amount changes nothing |
| Sanitizer.SanitizeAttribute | frontend/js/utils/sanitizer.js:70-77 | non-strings give the empty string; the output has at most 255 characters, no `<`, `>`, `'` or `"`, and does not start with whitespace |
| Sanitizer.SanitizeAttributeKeeps | frontend/js/utils/sanitizer.js:70-77 | a trimmed value of at most 255 characters without those four characters is unchanged |
| Security.SanitizeInput | frontend/js/security.js:25-35 | never fails; non-strings give the empty string; the output fits `maxLength`, has no control character and no whitespace at either end |
| Security.SanitizeInputKeeps | frontend/js/security.js:25-35 | a clean, trimmed text within `maxLength` is unchanged |
| Security.SanitizeInputIdempotent | frontend/js/security.js:25-35 | for a fixed `maxLength`, sanitising twice is sanitising once |
| Security.SanitizeInputCutsBeforeTrim | frontend/js/security.js:32-34 | the cut comes before the trim: ("ab cd", 3) gives "ab" |
| Security.ValidateUsername | frontend/js/security.js:40-60 | valid exactly for a string whose trimmed form has 3 to 20 characters over `[A-Za-z0-9_-]`; falsy and non-string values fail as "Username requerido"; each check has its message |
| Security.ValidatePassword | frontend/js/security.js:65-79 | valid exactly for strings of 4 to 128 UTF-16 code units; each failure has its message |
| Security.ValidateDescription | frontend/js/security.js:84-100 | valid exactly for strings whose trimmed form has 1 to 500 characters; each failure has its message |
| Security.ValidateAmount | frontend/js/security.js:105-121 | valid exactly when not NaN, non-zero and within ±1,000,000; the value is `parseFloat(num.toFixed(2))`, in cents and within the bound |
| Security.AmountRoundsToZero | frontend/js/security.js:113-120 | 0.001 is valid and comes back as 0 |
| Values.Falsy | frontend/js/utils/validator.js:106 | JavaScript's `!v`: true exactly for undefined, null, false, 0, -0, NaN and the empty string; security.js:41 uses it too |
| Values.ExceedsLimit | backend/utils/validators.py:44 | `abs(n) > 1000000` and `Math.abs(num) > 1000000`: true for the infinities and false for NaN |
| Values.IsZero | backend/utils/validators.py:42 | `amount == 0` and `num === 0`: true for 0 and -0 only |
| Values.Lookup | frontend/js/security.js:131 | `formData[name]`: a missing key reads as `undefined`, a present one as its value; validator.js:106 reads its fields the same way |
| Security.CheckField | frontend/js/security.js:130-142 | the username, password and description fields get exactly their validator's result on the field's value; an amount field passes exactly when its validator does and otherwise carries its message; an unknown type never fails |
| Security.FormErrors | frontend/js/security.js:127-143 | every key of the error map is the name of some field |
| Security.ValidateFormData | frontend/js/security.js:126-149 | the errors built by the loop are FormErrors of all fields, and `valid` holds exactly when every field passes |
| Security.NoErrorsIffAllPass | frontend/js/security.js:145-147 | the error map is empty exactly when every field passes |
| Security.FormErrorsKeys | frontend/js/security.js:129-143 | a name is a key of the error map exactly when some field of that name fails |
| Security.FormErrorsLastWins | frontend/js/security.js:129-143 | when several fields share a name, the message of the last failing one is kept |
| ClientValidator.ValidateUsername | frontend/js/utils/validator.js:17-37 | accepted exactly when the trimmed string has 3 to 20 characters over `[A-Za-z0-9_-]`, returned trimmed with its case kept; non-strings and blank input fail as empty |
| ClientValidator.ValidateUsernameIdempotent | frontend/js/utils/validator.js:17-37 | an accepted name is accepted again, unchanged |
| ClientValidator.ValidateUsernamePadded | frontend/js/utils/validator.js:22-36 | whitespace around a good name is trimmed away and the name returned as is |
| ClientValidator.ValidatePassword | frontend/js/utils/validator.js:44-58 | accepted exactly for strings of 4 to 128 UTF-16 code units, returned unchanged; each failure has its message |
| ClientValidator.ValidateDescription | frontend/js/utils/validator.js:64-76 | accepted exactly when the trimmed string has 1 to 500 characters, returned trimmed |
| ClientValidator.ValidateAmount | frontend/js/utils/validator.js:84-100 | accepted exactly when not NaN, non-zero and within ±1,000,000; the value is `Math.round(num * 100) / 100`, in cents and within the bound |
| ClientValidator.ValidateAmountIdempotent | frontend/js/utils/validator.js:84-100 | an accepted amount that did not round to zero is accepted again, unchanged |
| ClientValidator.AmountRoundsToZero | frontend/js/utils/validator.js:91-99 | 0.001 is accepted and comes back as 0 |
| ClientValidator.Missing | frontend/js/utils/validator.js:106 | the missing fields are exactly the required fields whose value is falsy |
| ClientValidator.MissingAppend | frontend/js/utils/validator.js:106 | the filter keeps the order of the required fields |
| ClientValidator.Join | frontend/js/utils/validator.js:109 | `join`: one item is itself, no items give the empty string |
| ClientValidator.JoinAppend | frontend/js/utils/validator.js:109 | joining two non-empty lists puts exactly one separator between their joins, so each item but the last is followed by the separator |
| ClientValidator.ValidateForm | frontend/js/utils/validator.js:105-111 | fails exactly when some required field is falsy, with "Campos requeridos: " and the missing fields joined by ", " |
| ClientValidator.ValidateFormExample | frontend/js/utils/validator.js:105-111 | with only "user" given, the message is "Campos requeridos: password, email" |
| CrossChecks.JsSpaceIsPySpace | frontend/js/utils/validator.js:22 | every JavaScript whitespace character except U+FEFF is Python whitespace |
| CrossChecks.PrintableTrimsAlike | backend/utils/validators.py:12 | on printable ASCII `strip()` and `trim()` agree |
| CrossChecks.FrontendUsernameReachesBackend | frontend/js/utils/validator.js:17-37 | a username validator.js accepts, without U+FEFF, passes security.js and both backend copies, which return it trimmed and lower-cased |
| CrossChecks.ByteOrderMarkAccepted | frontend/js/utils/validator.js:22 | a good name behind U+FEFF is accepted by both frontends |
| CrossChecks.ByteOrderMarkRefused | backend/utils/validators.py:22-28 | the same name is refused by both backend copies |
| CrossChecks.SanitizedUsernameAccepted | frontend/js/utils/sanitizer.js:33-41 | a sanitised username of at least 3 characters passes validator.js and validators.py unchanged |
| CrossChecks.PasswordsAgree | frontend/js/utils/validator.js:44-58 | the two frontends agree on every password; on the Basic Multilingual Plane they accept exactly what app.py accepts and both backends return it unchanged; over 128 code points only validators.py accepts |
| CrossChecks.ShortAstralPassword | frontend/js/utils/validator.js:49 | two emoji are four code units: both frontends accept them, both backends refuse them with their messages |
| CrossChecks.LongAstralPassword | frontend/js/utils/validator.js:53 | 65 code points above U+FFFF are 130 code units: app.py accepts them, both frontends refuse them as too long |
| CrossChecks.DescriptionsAgreeOnPrintable | frontend/js/utils/validator.js:64-76 | on printable ASCII all description validators give the same verdict and value |
| CrossChecks.DescriptionsDisagree | backend/utils/validators.py:50-52 | `"\x1c"` is accepted by validator.js and refused by validators.py; U+FEFF the other way round |
| CrossChecks.AmountsAgree | frontend/js/utils/validator.js:84-100 | both frontends give every amount the same verdict, and the backends as written do too except on NaN; the corrected backend checks accept only what the frontends accept |
| CrossChecks.SanitizedAmountMatches | frontend/js/utils/sanitizer.js:55-65 | an amount validator.js accepts is rounded to the same value by `sanitizeAmount` |
| CrossChecks.AmountValuesAgree | backend/utils/validators.py:46 | off the half-cent ties all four amount checks return the same value |
| CrossChecks.SentAmountKept | frontend/js/app.js:162-170 | the amount app.js sends (security.js's rounded value) passes both backend checks unchanged unless it rounded to 0 |
| CrossChecks.SanitizedAmountKept | frontend/js/components/transactions.js:41-48 | the amount transactions.js sends (`sanitizeAmount` of an amount validator.js accepted) passes both backend checks unchanged unless it rounded to 0 |
| CrossChecks.SubCentRefusedAfterBrowser | backend/app.py:105-106 | 0.001 passes both frontends as 0, and both backends refuse that 0 with "Monto no puede ser cero" |
| CrossChecks.AmountTie | frontend/js/security.js:120 | both frontends turn 0.125 into 0.13, which app.py keeps; 0.125 sent directly is stored as 0.12; -0.125 gets two different values in the browser |

## Left out

- Password hashing and tokens (backend/utils/security.py, the PBKDF2 and token code of backend/app.py) are not part of this model. They wrap library calls, and their constant-time comparison is a timing property.
- The database layer, Flask routes and headers, the other backend apps, the frontend UI, the network code, `SecureStorage` and the static file server are not part of this model. They are I/O.
- Parsing is a parameter. The result of `float()` and `int()` appears as a `Conversion`: the number, a ValueError or TypeError, or an OverflowError. Which inputs lead to which (and `int()` truncating a float) is not modelled. `parseFloat` appears as a function argument.
- What the routes do with an escaping exception (their `except Exception` answers with a server error) is not part of this model; the validators only say that it escapes.
- Floating point: amounts are exact values. The model does not restrict them to doubles, and it does not model the rounding error of `num * 100` before `Math.round`. Ties such as 0.125 are exact doubles, so the tie lemmas hold for doubles too.
- Sanitizer.AmountOf: takes every object to NaN. In JavaScript an array or an object with `valueOf` can convert to a number.
- Text.LowerChar: folds A-Z and the Latin-1 capitals U+00C0-U+00DE except U+00D7. Other letters with case are left as they are, unlike Python's `lower()` and JavaScript's `toLowerCase()`.
- Password lengths in the frontends count UTF-16 code units (`Text.Utf16Length`). The other frontend bounds (usernames, descriptions, attributes) and the `slice`/`substring` cuts count code points. A character outside the Basic Multilingual Plane counts twice there in JavaScript and once here. A cut that splits a surrogate pair is not modelled, since a lone surrogate is not a Dafny `char`.
- Object property lookup (`formData[field]`) is a map lookup. Keys inherited from the prototype, such as "constructor", are not modelled.
- Security.FormErrors: the `errors` object is a map, so a field named "__proto__" records its error like any other name. In JavaScript, `errors["__proto__"] = message` sets the prototype instead, and `valid` stays true for that field.
- Security.SanitizeInput: takes `maxLength` as an integer. A fractional or non-numeric `maxLength` is not modelled.
- Sanitizer.SanitizeEmail: takes only the value kinds of `JsValue`. An array that converts to a matching string makes `email.trim()` throw in JavaScript; that case is not modelled.

## Findings

| source | as written | input that shows it | evidently intended | confidence | as-written member | corrected member |
|---|---|---|---|---|---|---|
| backend/utils/validators.py:38-48 | NaN is not equal to 0 and not above 1,000,000, and `round` returns it, so it is accepted | `validate_amount("nan")` returns nan | refused with "Monto debe ser número" | not executed | BackendValidators.AmountAcceptsNaN | BackendValidators.ValidateAmountStrict |
| backend/utils/validators.py:42-46 | the zero test runs before rounding, so a non-zero amount under half a cent is accepted and returned as 0.0 | `validate_amount(0.001)` returns 0.0 | refused with "Monto no puede ser cero" | not executed | BackendValidators.AmountRoundsToZero | BackendValidators.ValidateAmountStrict |
| backend/app.py:98-111 | as in validators.py, NaN passes both tests and is returned | `validate_amount("nan")` returns nan | refused with "Monto debe ser número válido" | not executed | App.AmountAcceptsNaN | App.ValidateAmountStrict |
| backend/app.py:105-111 | as in validators.py, the zero test runs before rounding | `validate_amount(0.004)` returns 0.0 | refused with "Monto no puede ser cero" | not executed | App.AmountRoundsToZero | App.ValidateAmountStrict |
| backend/utils/validators.py:40-48 | `float()` of an integer too large for a double raises OverflowError, which the `except (ValueError, TypeError)` does not catch, so no ValidationError is raised | `validate_amount(10**400)` raises OverflowError | refused as above the limit with "Monto muy grande" | not executed | BackendValidators.AmountOverflowEscapes | BackendValidators.ValidateAmountStrict |
| backend/app.py:100-102 | as in validators.py, the OverflowError from `float()` is not caught | `validate_amount(10**400)` raises OverflowError | refused with "Monto excede límite permitido" | not executed | App.AmountOverflowEscapes | App.ValidateAmountStrict |
