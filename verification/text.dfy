/** The string primitives the validators are built from: the character
    classes of their regular expressions, Python's `strip`/`lower`, the
    JavaScript `trim`/`toLowerCase`/`substring`, filtering, and substring
    search. Strings are sequences of Unicode code points. */
module Text {

  /** The class `[\x00-\x1f\x7f]` used by every control-character filter. */
  predicate IsControl(c: char) {
    c <= '\U{001F}' || c == '\U{007F}'
  }

  predicate NotControl(c: char) {
    !IsControl(c)
  }

  /** The code points Python's `str.isspace()` accepts, which `str.strip()`
      removes: the ASCII ones are `\t \n \x0b \x0c \r`, `\x1c`-`\x1f` and space. */
  predicate IsPySpace(c: char) {
    if c <= ' ' then
      '\t' <= c <= '\r' || '\U{001C}' <= c
    else if c < '\U{0085}' then
      false
    else
      IsUnicodeSpace(c) || c == '\U{0085}'
  }

  /** The non-ASCII whitespace both languages share: U+00A0, U+1680,
      U+2000-U+200A, U+2028, U+2029, U+202F, U+205F and U+3000. */
  predicate IsUnicodeSpace(c: char) {
    || c == '\U{00A0}' || c == '\U{1680}'
    || '\U{2000}' <= c <= '\U{200A}'
    || c == '\U{2028}' || c == '\U{2029}' || c == '\U{202F}'
    || c == '\U{205F}' || c == '\U{3000}'
  }

  /** JavaScript WhiteSpace and LineTerminator code points: what
      `String.prototype.trim` removes and what the regex class `\s` matches.
      Unlike Python, `\x1c`-`\x1f` and U+0085 are not in it, U+FEFF is. */
  predicate IsJsSpace(c: char) {
    if c <= ' ' then
      '\t' <= c <= '\r' || c == ' '
    else if c < '\U{00A0}' then
      false
    else
      IsUnicodeSpace(c) || c == '\U{FEFF}'
  }

  /** The class `[a-z0-9_-]`. */
  predicate IsUsernameChar(c: char) {
    'a' <= c <= 'z' || '0' <= c <= '9' || c == '_' || c == '-'
  }

  /** The class `[a-z0-9_-]` under the case-insensitive flag `i`. */
  predicate IsUsernameCharAnyCase(c: char) {
    IsUsernameChar(c) || 'A' <= c <= 'Z'
  }

  /** `/^[a-z0-9_-]+$/i`. */
  predicate UsernamePattern(s: string) {
    s != [] && forall i :: 0 <= i < |s| ==> IsUsernameCharAnyCase(s[i])
  }

  predicate AllUsernameChars(s: string) {
    forall i :: 0 <= i < |s| ==> IsUsernameChar(s[i])
  }

  predicate ControlFree(s: string) {
    forall i :: 0 <= i < |s| ==> !IsControl(s[i])
  }

  // ---------------------------------------------------------------------
  // Lower-casing
  // ---------------------------------------------------------------------

  /** Simple lower-case mapping on ASCII and Latin-1: `A`-`Z` and
      U+00C0-U+00DE except U+00D7 move down by 0x20; everything else is kept. */
  function LowerChar(c: char): (r: char)
    ensures 'A' <= c <= 'Z' ==> 'a' <= r <= 'z' && r as int == c as int + 32
    ensures !('A' <= c <= 'Z') && c < '\U{00C0}' ==> r == c
    ensures IsUsernameChar(c) ==> r == c
  {
    if 'A' <= c <= 'Z' || ('\U{00C0}' <= c <= '\U{00DE}' && c != '\U{00D7}') then
      (c as int + 32) as char
    else
      c
  }

  /** Python's `str.lower()` and JavaScript's `toLowerCase()`, code point by code point. */
  function Lower(s: string): (r: string)
    ensures |r| == |s|
    ensures forall i :: 0 <= i < |s| ==> r[i] == LowerChar(s[i])
  {
    seq(|s|, i requires 0 <= i < |s| => LowerChar(s[i]))
  }

  lemma LowerCharIdempotent(c: char)
    ensures LowerChar(LowerChar(c)) == LowerChar(c)
  {
  }

  lemma LowerIdempotent(s: string)
    ensures Lower(Lower(s)) == Lower(s)
  {
    forall i | 0 <= i < |s| ensures Lower(Lower(s))[i] == Lower(s)[i] {
      LowerCharIdempotent(s[i]);
    }
  }

  /** A text without upper-case ASCII or Latin-1 letters is its own lower case. */
  lemma LowerPlain(s: string)
    requires forall i :: 0 <= i < |s| ==> !('A' <= s[i] <= 'Z') && s[i] < '\U{00C0}'
    ensures Lower(s) == s
  {
  }

  /** Lower-casing a string over `[A-Za-z0-9_-]` lands in `[a-z0-9_-]`. */
  lemma LowerUsernameChars(s: string)
    requires forall i :: 0 <= i < |s| ==> IsUsernameCharAnyCase(s[i])
    ensures AllUsernameChars(Lower(s))
  {
  }

  // ---------------------------------------------------------------------
  // Trimming
  // ---------------------------------------------------------------------

  /** Drops the leading characters satisfying `space`. */
  function TrimStart(s: string, space: char -> bool): (r: string)
    ensures |r| <= |s| && r == s[|s| - |r|..]
    decreases |s|
  {
    if s != [] && space(s[0]) then TrimStart(s[1..], space) else s
  }

  /** Drops the trailing characters satisfying `space`. */
  function TrimEnd(s: string, space: char -> bool): (r: string)
    ensures |r| <= |s| && r == s[..|r|]
    decreases |s|
  {
    if s != [] && space(s[|s| - 1]) then TrimEnd(s[..|s| - 1], space) else s
  }

  /** What TrimStart removed is all space, and what it kept does not start with one. */
  lemma {:induction false} TrimStartShape(s: string, space: char -> bool)
    ensures var r := TrimStart(s, space);
      (r == [] || !space(r[0])) && AllSpace(s[..|s| - |r|], space)
    decreases |s|
  {
    if s != [] && space(s[0]) {
      TrimStartShape(s[1..], space);
      var r := TrimStart(s, space);
      assert s[..|s| - |r|] == [s[0]] + s[1..][..|s| - 1 - |r|];
    }
  }

  /** What TrimEnd removed is all space, and what it kept does not end with one. */
  lemma {:induction false} TrimEndShape(s: string, space: char -> bool)
    ensures var r := TrimEnd(s, space);
      (r == [] || !space(r[|r| - 1])) && AllSpace(s[|r|..], space)
    decreases |s|
  {
    if s != [] && space(s[|s| - 1]) {
      var t := s[..|s| - 1];
      TrimEndShape(t, space);
      var r := TrimEnd(s, space);
      assert s[|r|..] == t[|r|..] + [s[|s| - 1]];
    }
  }

  function Trim(s: string, space: char -> bool): string {
    TrimEnd(TrimStart(s, space), space)
  }

  /** No whitespace at either end. */
  predicate Trimmed(s: string, space: char -> bool) {
    s == [] || (!space(s[0]) && !space(s[|s| - 1]))
  }

  predicate AllSpace(s: string, space: char -> bool) {
    forall i :: 0 <= i < |s| ==> space(s[i])
  }

  /** Trimming is characterised by its result: `Trim(s)` is the one infix
      `u` of `s` with no space at its ends and only spaces around it. */
  lemma TrimResult(s: string, space: char -> bool)
    ensures Trimmed(Trim(s, space), space)
    ensures exists a, b :: s == a + Trim(s, space) + b && AllSpace(a, space) && AllSpace(b, space)
  {
    TrimTrimmed(s, space);
    var a, b := TrimSplit(s, space);
  }

  lemma TrimTrimmed(s: string, space: char -> bool)
    ensures Trimmed(Trim(s, space), space)
  {
    var t := TrimStart(s, space);
    TrimStartFirst(s, space);
    TrimEndLast(t, space);
    var u := TrimEnd(t, space);
    assert u != [] ==> u[0] == t[0];
  }

  /** What TrimStart keeps does not start with a space. */
  lemma {:induction false} TrimStartFirst(s: string, space: char -> bool)
    ensures TrimStart(s, space) == [] || !space(TrimStart(s, space)[0])
    decreases |s|
  {
    if s != [] && space(s[0]) {
      TrimStartFirst(s[1..], space);
    }
  }

  /** What TrimEnd keeps does not end with a space. */
  lemma {:induction false} TrimEndLast(s: string, space: char -> bool)
    ensures var r := TrimEnd(s, space); r == [] || !space(r[|r| - 1])
    decreases |s|
  {
    if s != [] && space(s[|s| - 1]) {
      TrimEndLast(s[..|s| - 1], space);
    }
  }

  lemma TrimSplit(s: string, space: char -> bool) returns (a: string, b: string)
    ensures s == a + Trim(s, space) + b && AllSpace(a, space) && AllSpace(b, space)
  {
    var t := TrimStart(s, space);
    a := TrimStartSplit(s, space);
    b := TrimEndSplit(t, space);
    var u := TrimEnd(t, space);
    assert Trim(s, space) == u;
    Regroup(s, a, t, u, b);
  }

  lemma Regroup(s: string, a: string, t: string, u: string, b: string)
    requires s == a + t && t == u + b
    ensures s == a + u + b
  {
    assert a + (u + b) == a + u + b;
  }

  lemma TrimStartSplit(s: string, space: char -> bool) returns (a: string)
    ensures s == a + TrimStart(s, space) && AllSpace(a, space)
  {
    var t := TrimStart(s, space);
    a := s[..|s| - |t|];
    TrimStartShape(s, space);
  }

  lemma TrimEndSplit(t: string, space: char -> bool) returns (b: string)
    ensures t == TrimEnd(t, space) + b && AllSpace(b, space)
  {
    var u := TrimEnd(t, space);
    b := t[|u|..];
    TrimEndShape(t, space);
  }

  lemma {:induction false} TrimStartPadded(a: string, u: string, space: char -> bool)
    requires AllSpace(a, space)
    requires u == [] || !space(u[0])
    ensures TrimStart(a + u, space) == u
    decreases |a|
  {
    if a != [] {
      assert (a + u)[1..] == a[1..] + u;
      TrimStartPadded(a[1..], u, space);
    }
  }

  lemma {:induction false} TrimEndPadded(u: string, b: string, space: char -> bool)
    requires AllSpace(b, space)
    requires u == [] || !space(u[|u| - 1])
    ensures TrimEnd(u + b, space) == u
    decreases |b|
  {
    if b != [] {
      assert (u + b)[..|u + b| - 1] == u + b[..|b| - 1];
      TrimEndPadded(u, b[..|b| - 1], space);
    }
  }

  /** Trimming a string padded with spaces on both sides gives back the core. */
  lemma TrimPadded(a: string, u: string, b: string, space: char -> bool)
    requires AllSpace(a, space) && AllSpace(b, space)
    requires u != [] && !space(u[0]) && !space(u[|u| - 1])
    ensures Trim(a + u + b, space) == u
  {
    assert a + u + b == a + (u + b);
    TrimStartPadded(a, u + b, space);
    TrimEndPadded(u, b, space);
  }

  lemma TrimOfTrimmed(s: string, space: char -> bool)
    requires Trimmed(s, space)
    ensures Trim(s, space) == s
  {
    if s != [] {
      assert [] + s + [] == s;
      TrimPadded([], s, [], space);
    }
  }

  /** Trimming a trimmed text keeps every character in its place. */
  lemma TrimmedKeepsAt(s: string, space: char -> bool, k: int)
    requires Trimmed(s, space) && 0 <= k < |s|
    ensures k < |Trim(s, space)| && Trim(s, space)[k] == s[k]
  {
    TrimOfTrimmed(s, space);
  }

  lemma TrimIdempotent(s: string, space: char -> bool)
    ensures Trim(Trim(s, space), space) == Trim(s, space)
  {
    TrimResult(s, space);
    TrimOfTrimmed(Trim(s, space), space);
  }

  /** Trimming keeps a run of contiguous characters, so a text free of a
      class of characters stays free of it. */
  lemma TrimKeepsClean(s: string, space: char -> bool, d: Deletion)
    requires forall i :: 0 <= i < |s| ==> !Deletes(d, s[i])
    ensures forall i :: 0 <= i < |Trim(s, space)| ==> !Deletes(d, Trim(s, space)[i])
  {
    var a, b := TrimSplit(s, space);
    var t := Trim(s, space);
    forall i | 0 <= i < |t| ensures !Deletes(d, t[i]) {
      assert t[i] == s[|a| + i];
    }
  }

  /** Two notions of whitespace that agree on every character of a text
      trim it alike. */
  lemma TrimAgree(s: string, p: char -> bool, q: char -> bool)
    requires forall i :: 0 <= i < |s| ==> p(s[i]) == q(s[i])
    ensures Trim(s, p) == Trim(s, q)
  {
    TrimStartAgree(s, p, q);
    var t := TrimStart(s, p);
    assert forall i :: 0 <= i < |t| ==> t[i] == s[|s| - |t| + i];
    TrimEndAgree(t, p, q);
  }

  lemma {:induction false} TrimStartAgree(s: string, p: char -> bool, q: char -> bool)
    requires forall i :: 0 <= i < |s| ==> p(s[i]) == q(s[i])
    ensures TrimStart(s, p) == TrimStart(s, q)
    decreases |s|
  {
    if s != [] && p(s[0]) {
      TrimStartAgree(s[1..], p, q);
    }
  }

  lemma {:induction false} TrimEndAgree(s: string, p: char -> bool, q: char -> bool)
    requires forall i :: 0 <= i < |s| ==> p(s[i]) == q(s[i])
    ensures TrimEnd(s, p) == TrimEnd(s, q)
    decreases |s|
  {
    if s != [] && p(s[|s| - 1]) {
      TrimEndAgree(s[..|s| - 1], p, q);
    }
  }

  /** Python's `str.strip()`. */
  function PyStrip(s: string): string {
    Trim(s, IsPySpace)
  }

  /** Stripping a stripped text changes nothing. */
  lemma PyStripIdempotent(s: string)
    ensures PyStrip(PyStrip(s)) == PyStrip(s)
  {
    TrimIdempotent(s, IsPySpace);
  }

  /** JavaScript's `String.prototype.trim()`. */
  function JsTrim(s: string): string {
    Trim(s, IsJsSpace)
  }

  /** A text over `[A-Za-z0-9_-]` has no whitespace and no controls, so
      neither trim nor the control filter changes it. */
  lemma UsernameCharsUntouched(s: string)
    requires forall i :: 0 <= i < |s| ==> IsUsernameCharAnyCase(s[i])
    ensures PyStrip(s) == s && JsTrim(s) == s
    ensures RemoveControls(s) == s
  {
    UsernameCharsNotPySpace(s);
    UsernameCharsNotJsSpace(s);
    UsernameCharsNotControls(s);
  }

  lemma UsernameCharsNotControls(s: string)
    requires forall i :: 0 <= i < |s| ==> IsUsernameCharAnyCase(s[i])
    ensures RemoveControls(s) == s
  {
    assert ControlFree(s);
    RemoveControlsClean(s);
  }

  lemma UsernameCharsNotPySpace(s: string)
    requires forall i :: 0 <= i < |s| ==> IsUsernameCharAnyCase(s[i])
    ensures PyStrip(s) == s
  {
    assert Trimmed(s, IsPySpace);
    TrimOfTrimmed(s, IsPySpace);
  }

  lemma UsernameCharsNotJsSpace(s: string)
    requires forall i :: 0 <= i < |s| ==> IsUsernameCharAnyCase(s[i])
    ensures JsTrim(s) == s
  {
    assert Trimmed(s, IsJsSpace);
    TrimOfTrimmed(s, IsJsSpace);
  }

  // ---------------------------------------------------------------------
  // Filtering and truncation
  // ---------------------------------------------------------------------

  /** The character classes the sources delete with a global `replace` or
      `re.sub`: controls `[\x00-\x1f\x7f]`, everything outside
      `[a-z0-9_-]`, and the markup characters `[<>'"]`. */
  datatype Deletion = Controls | NonUsername | Markup

  predicate Deletes(d: Deletion, c: char) {
    match d
    case Controls => IsControl(c)
    case NonUsername => !IsUsernameChar(c)
    case Markup => c == '<' || c == '>' || c == '\'' || c == '"'
  }

  /** `s` with every character of the class `d` deleted, the rest in order. */
  function Delete(s: string, d: Deletion): (r: string)
    ensures |r| <= |s|
    ensures forall i :: 0 <= i < |r| ==> !Deletes(d, r[i])
  {
    if s == [] then []
    else if Deletes(d, s[0]) then Delete(s[1..], d)
    else [s[0]] + Delete(s[1..], d)
  }

  /** A lone character of the class is deleted. */
  lemma DeleteLone(c: char, d: Deletion)
    requires Deletes(d, c)
    ensures Delete([c], d) == []
  {
    assert [c][0] == c && [c][1..] == [];
  }

  /** A text with nothing to delete is kept whole. */
  lemma {:induction false} DeleteClean(s: string, d: Deletion)
    requires forall i :: 0 <= i < |s| ==> !Deletes(d, s[i])
    ensures Delete(s, d) == s
  {
    if s != [] {
      assert !Deletes(d, s[0]);
      DeleteClean(s[1..], d);
    }
  }

  lemma {:induction false} DeleteAppend(s: string, t: string, d: Deletion)
    ensures Delete(s + t, d) == Delete(s, d) + Delete(t, d)
  {
    if s == [] {
      assert s + t == t;
    } else {
      assert (s + t)[0] == s[0];
      assert (s + t)[1..] == s[1..] + t;
      DeleteAppend(s[1..], t, d);
    }
  }

  /** Deleting a single doomed character between two clean texts joins them. */
  lemma DeleteOne(a: string, c: char, b: string, d: Deletion)
    requires Deletes(d, c)
    requires forall i :: 0 <= i < |a| ==> !Deletes(d, a[i])
    requires forall i :: 0 <= i < |b| ==> !Deletes(d, b[i])
    ensures Delete(a + [c] + b, d) == a + b
  {
    assert Delete([c], d) == [] by {
      assert [c][1..] == [];
    }
    DeleteClean(a, d);
    DeleteClean(b, d);
    calc {
      Delete(a + [c] + b, d);
    == { DeleteAppend(a + [c], b, d); }
      Delete(a + [c], d) + b;
    == { DeleteAppend(a, [c], d); assert a + [] == a; }
      a + b;
    }
  }

  /** `re.sub(r'[\x00-\x1f\x7f]', '', s)`. */
  function RemoveControls(s: string): (r: string)
    ensures ControlFree(r)
    ensures |r| <= |s|
  {
    Delete(s, Controls)
  }

  lemma RemoveControlsClean(s: string)
    requires ControlFree(s)
    ensures RemoveControls(s) == s
  {
    DeleteClean(s, Controls);
  }

  /** JavaScript's `s.length`: the number of UTF-16 code units, two (a
      surrogate pair) for a code point above U+FFFF. Python's `len` is `|s|`. */
  function Utf16Length(s: string): (n: nat)
    ensures |s| <= n <= 2 * |s|
  {
    if s == [] then 0
    else (if s[0] as int > 0xFFFF then 2 else 1) + Utf16Length(s[1..])
  }

  /** Every character of `s` lies in the Basic Multilingual Plane. */
  predicate InBasicPlane(s: string) {
    forall i :: 0 <= i < |s| ==> s[i] as int <= 0xFFFF
  }

  /** The two lengths agree exactly on the texts of the Basic Multilingual
      Plane. */
  lemma {:induction false} Utf16LengthBasic(s: string)
    ensures Utf16Length(s) == |s| <==> InBasicPlane(s)
  {
    if s != [] {
      Utf16LengthBasic(s[1..]);
      assert InBasicPlane(s) <==> s[0] as int <= 0xFFFF && InBasicPlane(s[1..]) by {
        if s[0] as int <= 0xFFFF && InBasicPlane(s[1..]) {
          forall i | 0 <= i < |s| ensures s[i] as int <= 0xFFFF {
            if i > 0 {
              assert s[i] == s[1..][i - 1];
            }
          }
        }
        if InBasicPlane(s) {
          forall i | 0 <= i < |s| - 1 ensures s[1..][i] as int <= 0xFFFF {
            assert s[1..][i] == s[i + 1];
          }
        }
      }
    }
  }

  /** A text made only of code points above U+FFFF counts twice its length. */
  lemma {:induction false} Utf16LengthAstral(s: string)
    requires forall i :: 0 <= i < |s| ==> s[i] as int > 0xFFFF
    ensures Utf16Length(s) == 2 * |s|
  {
    if s != [] {
      assert forall i :: 0 <= i < |s| - 1 ==> s[1..][i] == s[i + 1];
      Utf16LengthAstral(s[1..]);
    }
  }

  /** `s.substring(0, n)` (and `s.slice(0, n)` for n >= 0): at most the first
      `n` characters, none when `n` is negative. */
  function Prefix(s: string, n: int): (r: string)
    ensures |r| <= |s| && r == s[..|r|]
    ensures n >= 0 ==> |r| == if n < |s| then n else |s|
    ensures n < 0 ==> r == []
  {
    if n <= 0 then [] else if n >= |s| then s else s[..n]
  }

  // ---------------------------------------------------------------------
  // Substring search
  // ---------------------------------------------------------------------

  predicate OccursAt(needle: string, hay: string, i: int) {
    0 <= i && i + |needle| <= |hay| && hay[i..i + |needle|] == needle
  }

  /** Python's `needle in hay` for strings. */
  function Occurs(needle: string, hay: string): (r: bool)
    ensures r <==> exists i :: OccursAt(needle, hay, i)
    decreases |hay|
  {
    if needle <= hay then
      assert OccursAt(needle, hay, 0);
      true
    else if hay == [] then
      false
    else
      var r := Occurs(needle, hay[1..]);
      assert r ==> exists i :: OccursAt(needle, hay, i) by {
        if r {
          var j :| OccursAt(needle, hay[1..], j);
          SliceShift(hay, j + 1, |needle|);
          assert OccursAt(needle, hay, j + 1);
        }
      }
      assert (exists i :: OccursAt(needle, hay, i)) ==> r by {
        if exists i :: OccursAt(needle, hay, i) {
          var i :| OccursAt(needle, hay, i);
          assert hay[..|needle|] == needle ==> needle <= hay;
          assert i != 0;
          SliceShift(hay, i, |needle|);
          assert OccursAt(needle, hay[1..], i - 1);
        }
      }
      r
  }

  /** A slice of the text from its second character on is the same slice
      of the text, one position later. */
  lemma SliceShift(hay: string, i: int, n: nat)
    requires 1 <= i && i + n <= |hay|
    ensures hay[1..][i - 1..i - 1 + n] == hay[i..i + n]
  {
    var a, b := hay[1..][i - 1..i - 1 + n], hay[i..i + n];
    forall k | 0 <= k < n ensures a[k] == b[k] {
      assert hay[1..][i - 1 + k] == hay[i + k];
    }
    assert a == b;
  }

  /** A needle can only occur in a text that contains every one of its characters. */
  lemma OccursChars(needle: string, hay: string, k: int)
    requires 0 <= k < |needle|
    requires Occurs(needle, hay)
    ensures needle[k] in hay
  {
    var i :| OccursAt(needle, hay, i);
    assert hay[i + k] == needle[k];
  }

  /** A needle with a character the text lacks cannot occur in it. */
  lemma NotOccursChar(needle: string, hay: string, j: int)
    requires 0 <= j < |needle| && needle[j] !in hay
    ensures !Occurs(needle, hay)
  {
    if Occurs(needle, hay) {
      OccursChars(needle, hay, j);
    }
  }

  /** A needle whose first character appears in the text only where the rest
      of the needle would run past its end cannot occur in it. */
  lemma NotOccursLate(needle: string, hay: string)
    requires needle != []
    requires forall i :: 0 <= i < |hay| && hay[i] == needle[0] ==> |hay| < i + |needle|
    ensures !Occurs(needle, hay)
  {
    forall i ensures !OccursAt(needle, hay, i) {
      if 0 <= i && i + |needle| <= |hay| {
        assert hay[i..i + |needle|][0] == hay[i];
      }
    }
  }
}
