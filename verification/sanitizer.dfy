/** The client-side sanitisers of `frontend/js/utils/sanitizer.js`: HTML
    escaping, and the clean-up of e-mail addresses, usernames, descriptions,
    amounts and attribute values before they reach the page or the server. */
module Sanitizer {
  import opened Values
  import opened Text
  import opened Rounding

  /** No `<`, `>`, `'` or `"`: nothing that opens a tag or closes an attribute. */
  predicate MarkupFree(s: string) {
    forall i :: 0 <= i < |s| ==> !Deletes(Markup, s[i])
  }

  /** How many times `c` occurs in `s`. */
  function Count(s: string, c: char): (n: nat)
    ensures n <= |s|
  {
    if s == [] then 0 else (if s[0] == c then 1 else 0) + Count(s[1..], c)
  }

  /** The replacement the escaping map gives one character. */
  function Entity(c: char): (r: string)
    ensures MarkupFree(r) && r != []
    ensures !Deletes(Markup, c) && c != '&' ==> r == [c]
  {
    if c == '&' then "&amp;"
    else if c == '<' then "&lt;"
    else if c == '>' then "&gt;"
    else if c == '"' then "&quot;"
    else if c == '\'' then "&#039;"
    else [c]
  }

  /** `text.replace(/[&<>"']/g, m => map[m])`: every special character
      replaced by its entity, left to right. */
  function Escape(s: string): (r: string)
    ensures MarkupFree(r)
    ensures |r| >= |s|
  {
    if s == [] then [] else Entity(s[0]) + Escape(s[1..])
  }

  /** `escapeHtml`: anything but a string becomes the empty string. */
  function EscapeHtml(text: JsValue): (r: string)
    ensures !text.JsString? ==> r == []
    ensures MarkupFree(r)
    ensures text.JsString? ==> |r| >= |text.s|
  {
    if text.JsString? then Escape(text.s) else []
  }

  /** Each special character grows by the length of its entity minus one. */
  lemma {:induction false} EscapeLength(s: string)
    ensures |Escape(s)| == |s| + 4 * Count(s, '&') + 3 * Count(s, '<')
      + 3 * Count(s, '>') + 5 * Count(s, '"') + 5 * Count(s, '\'')
  {
    if s != [] {
      var c, t := s[0], s[1..];
      EscapeLength(t);
      assert |Escape(s)| == |Entity(c)| + |Escape(t)|;
      EntityLength(c);
      assert Count(s, '&') == (if c == '&' then 1 else 0) + Count(t, '&');
      assert Count(s, '<') == (if c == '<' then 1 else 0) + Count(t, '<');
      assert Count(s, '>') == (if c == '>' then 1 else 0) + Count(t, '>');
      assert Count(s, '"') == (if c == '"' then 1 else 0) + Count(t, '"');
      assert Count(s, '\'') == (if c == '\'' then 1 else 0) + Count(t, '\'');
    }
  }

  lemma EntityLength(c: char)
    ensures |Entity(c)| == 1 + (if c == '&' then 4 else 0)
      + (if c == '<' || c == '>' then 3 else 0)
      + (if c == '"' || c == '\'' then 5 else 0)
  {
  }

  /** A text with no special character is its own escape. */
  lemma {:induction false} EscapePlain(s: string)
    requires MarkupFree(s) && '&' !in s
    ensures Escape(s) == s
  {
    if s != [] {
      EscapePlain(s[1..]);
      assert [s[0]] + s[1..] == s;
    }
  }

  lemma {:induction false} EscapeAppend(s: string, t: string)
    ensures Escape(s + t) == Escape(s) + Escape(t)
  {
    if s == [] {
      assert s + t == t;
    } else {
      assert (s + t)[0] == s[0];
      assert (s + t)[1..] == s[1..] + t;
      EscapeAppend(s[1..], t);
    }
  }

  /** The browser's decoding of the five entities `escapeHtml` produces: the
      reference against which escaping is lossless. */
  function Unescape(s: string): (r: string)
    ensures |r| <= |s|
  {
    if s == [] then []
    else if "&amp;" <= s then "&" + Unescape(s[5..])
    else if "&lt;" <= s then "<" + Unescape(s[4..])
    else if "&gt;" <= s then ">" + Unescape(s[4..])
    else if "&quot;" <= s then "\"" + Unescape(s[6..])
    else if "&#039;" <= s then "'" + Unescape(s[6..])
    else [s[0]] + Unescape(s[1..])
  }

  lemma UnescapeEntity(c: char, rest: string)
    ensures Unescape(Entity(c) + rest) == [c] + Unescape(rest)
  {
    var e := Entity(c);
    if c == '&' {
      assert "&amp;" <= e + rest;
      assert (e + rest)[5..] == rest;
    } else if c == '<' {
      assert (e + rest)[1] == 'l';
      assert "&lt;" <= e + rest;
      assert (e + rest)[4..] == rest;
    } else if c == '>' {
      assert (e + rest)[1] == 'g';
      assert "&gt;" <= e + rest;
      assert (e + rest)[4..] == rest;
    } else if c == '"' {
      assert (e + rest)[1] == 'q';
      assert "&quot;" <= e + rest;
      assert (e + rest)[6..] == rest;
    } else if c == '\'' {
      assert (e + rest)[1] == '#';
      assert "&#039;" <= e + rest;
      assert (e + rest)[6..] == rest;
    } else {
      UnescapePlain(c, rest);
    }
  }

  /** A character that does not start an entity decodes to itself. */
  lemma UnescapePlain(c: char, rest: string)
    requires c != '&'
    ensures Unescape([c] + rest) == [c] + Unescape(rest)
  {
    var t := [c] + rest;
    assert t[0] == c && t[1..] == rest;
    assert !("&amp;" <= t) && !("&lt;" <= t) && !("&gt;" <= t);
    assert !("&quot;" <= t) && !("&#039;" <= t);
  }

  /** Escaping loses nothing: decoding the entities gives the text back. */
  lemma {:induction false} EscapeRoundTrip(s: string)
    ensures Unescape(Escape(s)) == s
  {
    if s != [] {
      EscapeRoundTrip(s[1..]);
      UnescapeEntity(s[0], Escape(s[1..]));
      assert [s[0]] + s[1..] == s;
    }
  }

  lemma EscapeAmp()
    ensures Escape("&") == "&amp;"
  {
  }

  /** Escaping is not idempotent: an ampersand is escaped again on every pass. */
  lemma EscapeTwice()
    ensures Escape(Escape("&")) == "&amp;amp;"
  {
    EscapeAmp();
    var rest := "amp;";
    assert MarkupFree(rest) && '&' !in rest;
    EscapePlain(rest);
    EscapeAmpThen(rest);
    assert "&amp;" == ['&'] + rest;
  }

  /** An ampersand in front becomes `&amp;` and the rest is escaped as usual. */
  lemma EscapeAmpThen(rest: string)
    ensures Escape(['&'] + rest) == "&amp;" + Escape(rest)
  {
    assert (['&'] + rest)[0] == '&' && (['&'] + rest)[1..] == rest;
  }

  lemma TrimMarkupFree(s: string)
    requires MarkupFree(s)
    ensures MarkupFree(JsTrim(s))
  {
    TrimKeepsClean(s, IsJsSpace, Markup);
  }

  // ---------------------------------------------------------------------
  // E-mail addresses
  // ---------------------------------------------------------------------

  /** The language of `/^[^\s@]+@[^\s@]+\.[^\s@]+$/`: no whitespace, a single
      `@` with text before it, and a dot with text on both sides somewhere
      after it. */
  predicate EmailShape(s: string) {
    && (forall i :: 0 <= i < |s| ==> !IsJsSpace(s[i]))
    && exists p :: 0 < p < |s| && s[p] == '@'
         && (forall i :: 0 <= i < |s| && s[i] == '@' ==> i == p)
         && exists j :: p + 1 < j < |s| - 1 && s[j] == '.'
  }

  /** `sanitizeEmail`: an address of the accepted shape comes back unchanged
      (it has no whitespace for `trim` to remove); anything else becomes
      the empty string. Values other than strings are tested in their
      string form, and none of those forms contains an `@`. */
  function SanitizeEmail(email: JsValue): (r: string)
    ensures email.JsString? && EmailShape(email.s) ==> r == email.s
    ensures !(email.JsString? && EmailShape(email.s)) ==> r == []
  {
    if email.JsString? && EmailShape(email.s) then
      assert Trimmed(email.s, IsJsSpace);
      TrimOfTrimmed(email.s, IsJsSpace);
      JsTrim(email.s)
    else
      []
  }

  lemma SanitizeEmailExamples()
    ensures SanitizeEmail(JsString("a@b.co")) == "a@b.co"
    ensures SanitizeEmail(JsString("a@b")) == []
    ensures SanitizeEmail(JsString("a@@b.co")) == []
    ensures SanitizeEmail(JsString(" a@b.co")) == []
  {
    EmailAccepted();
    EmailWithoutDot();
    EmailTwoAts();
    EmailLeadingSpace();
  }

  lemma EmailAccepted()
    ensures SanitizeEmail(JsString("a@b.co")) == "a@b.co"
  {
    var ok := "a@b.co";
    assert ok[1] == '@' && ok[3] == '.';
    assert EmailShape(ok);
  }

  lemma EmailWithoutDot()
    ensures SanitizeEmail(JsString("a@b")) == []
  {
    var s := "a@b";
    assert !EmailShape(s) by {
      forall p | 0 < p < |s| && s[p] == '@'
        ensures !exists j :: p + 1 < j < |s| - 1 && s[j] == '.'
      {
      }
    }
  }

  lemma EmailTwoAts()
    ensures SanitizeEmail(JsString("a@@b.co")) == []
  {
    var twice := "a@@b.co";
    assert twice[1] == '@' && twice[2] == '@';
    assert !EmailShape(twice);
  }

  lemma EmailLeadingSpace()
    ensures SanitizeEmail(JsString(" a@b.co")) == []
  {
    assert IsJsSpace(" a@b.co"[0]);
  }

  // ---------------------------------------------------------------------
  // Usernames
  // ---------------------------------------------------------------------

  /** `sanitizeUsername`: trimmed, lower-cased, stripped of everything
      outside `[a-z0-9_-]` and cut to 20 characters. */
  function SanitizeUsername(username: JsValue): (r: string)
    ensures !username.JsString? ==> r == []
    ensures |r| <= 20 && AllUsernameChars(r)
  {
    if username.JsString? then
      Prefix(Delete(Lower(JsTrim(username.s)), NonUsername), 20)
    else
      []
  }

  /** A name of at most 20 characters over `[A-Za-z0-9_-]`, padded with
      whitespace, comes out as its lower case. */
  lemma SanitizeUsernameKeeps(a: string, u: string, b: string)
    requires AllSpace(a, IsJsSpace) && AllSpace(b, IsJsSpace)
    requires 1 <= |u| <= 20
    requires forall i :: 0 <= i < |u| ==> IsUsernameCharAnyCase(u[i])
    ensures SanitizeUsername(JsString(a + u + b)) == Lower(u)
  {
    PaddedNameTrim(a, u, b);
    var l := Lower(u);
    assert Delete(l, NonUsername) == l by {
      LowerUsernameChars(u);
      DeleteClean(l, NonUsername);
    }
  }

  lemma PaddedNameTrim(a: string, u: string, b: string)
    requires AllSpace(a, IsJsSpace) && AllSpace(b, IsJsSpace)
    requires u != [] && IsUsernameCharAnyCase(u[0]) && IsUsernameCharAnyCase(u[|u| - 1])
    ensures JsTrim(a + u + b) == u
  {
    TrimPadded(a, u, b, IsJsSpace);
  }

  /** Sanitising a sanitised username changes nothing. */
  lemma SanitizeUsernameIdempotent(v: JsValue)
    ensures SanitizeUsername(JsString(SanitizeUsername(v))) == SanitizeUsername(v)
  {
    var r := SanitizeUsername(v);
    if r == [] {
      assert JsTrim([]) == [];
    } else {
      assert Lower(r) == r by {
        assert forall i :: 0 <= i < |r| ==> Lower(r)[i] == r[i];
      }
      assert [] + r + [] == r;
      SanitizeUsernameKeeps([], r, []);
    }
  }

  // ---------------------------------------------------------------------
  // Descriptions and attributes
  // ---------------------------------------------------------------------

  /** `sanitizeDescription`: trimmed, escaped, then cut to 500 characters. */
  function SanitizeDescription(description: JsValue): (r: string)
    ensures !description.JsString? ==> r == []
    ensures |r| <= 500 && MarkupFree(r)
  {
    if description.JsString? then Prefix(Escape(JsTrim(description.s)), 500) else []
  }

  /** When the escaped text fits, the cut keeps it whole and decoding gives
      back the trimmed description. */
  lemma SanitizeDescriptionRoundTrip(s: string)
    requires |Escape(JsTrim(s))| <= 500
    ensures Unescape(SanitizeDescription(JsString(s))) == JsTrim(s)
  {
    EscapeRoundTrip(JsTrim(s));
  }

  /** Cutting after escaping can split an entity: 497 letters followed by an
      ampersand end in the fragment `&am`. */
  lemma SanitizeDescriptionCutsEntity(s: string)
    requires |s| == 497
    requires forall i :: 0 <= i < |s| ==> 'a' <= s[i] <= 'z'
    ensures SanitizeDescription(JsString(s + "&")) == s + "&am"
  {
    TrimAmpersand(s);
    EscapeAmpersand(s);
    CutEntity(s);
  }

  lemma TrimAmpersand(s: string)
    requires s != [] && 'a' <= s[0] <= 'z'
    ensures SanitizeDescription(JsString(s + "&")) == Prefix(Escape(s + "&"), 500)
  {
    var t := s + "&";
    assert JsTrim(t) == t by {
      assert Trimmed(t, IsJsSpace);
      TrimOfTrimmed(t, IsJsSpace);
    }
  }

  lemma EscapeAmpersand(s: string)
    requires forall i :: 0 <= i < |s| ==> 'a' <= s[i] <= 'z'
    ensures Escape(s + "&") == s + "&amp;"
  {
    EscapeAppend(s, "&");
    LettersPlain(s);
    EscapeAmp();
  }

  lemma LettersPlain(s: string)
    requires forall i :: 0 <= i < |s| ==> 'a' <= s[i] <= 'z'
    ensures Escape(s) == s
  {
    assert MarkupFree(s) && '&' !in s;
    EscapePlain(s);
  }

  lemma CutEntity(s: string)
    requires |s| == 497
    ensures Prefix(s + "&amp;", 500) == s + "&am"
  {
    assert (s + "&amp;")[..500] == s + "&am";
  }

  /** The number `sanitizeAmount` works on: a string goes through
      `parseFloat` (a parameter here), any other value through JavaScript's
      conversion to a number, which `isNaN` and `*` apply; an object is taken
      to convert to NaN. */
  function AmountOf(amount: JsValue, parseFloat: string -> Number): (n: Number)
    ensures amount.JsNumber? ==> n == amount.n
    ensures amount.JsString? ==> n == parseFloat(amount.s)
    ensures amount == JsUndefined || amount == JsObject ==> n == NaN
  {
    match amount
    case JsUndefined => NaN
    case JsNull => Finite(0.0)
    case JsBool(b) => if b then Finite(1.0) else Finite(0.0)
    case JsNumber(n) => n
    case JsString(s) => parseFloat(s)
    case JsObject => NaN
  }

  /** `sanitizeAmount`: NaN becomes 0, anything else is rounded to cents by
      `Math.round(amount * 100) / 100`. The result is never NaN. */
  function SanitizeAmount(amount: JsValue, parseFloat: string -> Number): (r: Number)
    ensures r != NaN
    ensures AmountOf(amount, parseFloat) == NaN ==> r == Finite(0.0)
    ensures AmountOf(amount, parseFloat) != NaN ==> RoundedToCents(AmountOf(amount, parseFloat), r)
  {
    var n := AmountOf(amount, parseFloat);
    if n == NaN then Finite(0.0) else CentsHalfUp(n)
  }

  /** Sanitising a sanitised amount changes nothing. */
  lemma SanitizeAmountIdempotent(amount: JsValue, parseFloat: string -> Number)
    ensures SanitizeAmount(JsNumber(SanitizeAmount(amount, parseFloat)), parseFloat)
         == SanitizeAmount(amount, parseFloat)
  {
    CentsOfCents(SanitizeAmount(amount, parseFloat));
  }

  /** `sanitizeAttribute`: `<`, `>`, `'` and `"` deleted, then trimmed and
      cut to 255 characters. */
  function SanitizeAttribute(attr: JsValue): (r: string)
    ensures !attr.JsString? ==> r == []
    ensures |r| <= 255 && MarkupFree(r)
    ensures r == [] || !IsJsSpace(r[0])
  {
    if attr.JsString? then
      var d := Delete(attr.s, Markup);
      TrimMarkupFree(d);
      TrimTrimmed(d, IsJsSpace);
      Prefix(JsTrim(d), 255)
    else
      []
  }

  /** A value with nothing to remove passes through unchanged. */
  lemma SanitizeAttributeKeeps(s: string)
    requires MarkupFree(s) && Trimmed(s, IsJsSpace) && |s| <= 255
    ensures SanitizeAttribute(JsString(s)) == s
  {
    DeleteClean(s, Markup);
    TrimOfTrimmed(s, IsJsSpace);
  }
}
