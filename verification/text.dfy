/**
  The two string helpers of the form handler: `sanitizeText` (generate.ts:30-36),
  which strips NUL characters, turns CRLF into LF and trims, and
  `normalizePhone` (generate.ts:38-42), which keeps only the digits.  Both are
  global `replace` calls over a string followed, for the first, by `trim`.
 */
module Text {

  /** The characters JavaScript's `trim` and the regex class `\s` treat as white space. */
  predicate IsJsWhitespace(c: char) {
    || c == '\t' || c == '\n' || c == '\U{000B}' || c == '\U{000C}' || c == '\r' || c == ' '
    || c == '\U{00A0}' || c == '\U{1680}' || ('\U{2000}' <= c <= '\U{200A}')
    || c == '\U{2028}' || c == '\U{2029}' || c == '\U{202F}' || c == '\U{205F}'
    || c == '\U{3000}' || c == '\U{FEFF}'
  }

  /** The regex class `\d`: ASCII decimal digits only. */
  predicate IsDigit(c: char) {
    '0' <= c <= '9'
  }

  // ---------------------------------------------------------------------------
  // Removing characters: `s.replace(/X/g, "")` for a one-character class X
  // ---------------------------------------------------------------------------

  /** The characters of `s` that satisfy `keep`, in their original order. */
  function Keep(s: string, keep: char -> bool): (r: string)
    ensures |r| <= |s|
    ensures forall i :: 0 <= i < |r| ==> keep(r[i])
    ensures forall c :: c in r ==> c in s
  {
    if s == [] then [] else (if keep(s[0]) then [s[0]] else []) + Keep(s[1..], keep)
  }

  /** Filtering a concatenation filters each operand: order is preserved. */
  lemma {:induction false} KeepAppend(a: string, b: string, keep: char -> bool)
    ensures Keep(a + b, keep) == Keep(a, keep) + Keep(b, keep)
  {
    if a == [] {
      assert a + b == b;
    } else {
      assert (a + b)[0] == a[0] && (a + b)[1..] == a[1..] + b;
      KeepAppend(a[1..], b, keep);
    }
  }

  /** Filtering keeps exactly the kept characters: it is the identity when all are kept ... */
  lemma {:induction false} KeepAll(s: string, keep: char -> bool)
    requires forall i :: 0 <= i < |s| ==> keep(s[i])
    ensures Keep(s, keep) == s
  {
    if s != [] {
      KeepAll(s[1..], keep);
    }
  }

  /** ... and empty exactly when none is. */
  lemma {:induction false} KeepNone(s: string, keep: char -> bool)
    ensures Keep(s, keep) == [] <==> forall i :: 0 <= i < |s| ==> !keep(s[i])
  {
    if s != [] {
      KeepNone(s[1..], keep);
      if !keep(s[0]) {
        assert forall i :: 1 <= i < |s| ==> s[i] == s[1..][i - 1];
      }
    }
  }

  /** Every kept character of the input appears in the output as often as in the input. */
  lemma {:induction false} KeepCounts(s: string, keep: char -> bool, c: char)
    requires keep(c)
    ensures multiset(Keep(s, keep))[c] == multiset(s)[c]
  {
    if s != [] {
      KeepCounts(s[1..], keep, c);
      assert s == [s[0]] + s[1..];
    }
  }

  // ---------------------------------------------------------------------------
  // normalizePhone
  // ---------------------------------------------------------------------------

  /** `phone.replace(/[^\d]/g, "")`: the decimal digits of the input, in order. */
  function NormalizePhone(phone: string): (r: string)
    ensures forall i :: 0 <= i < |r| ==> IsDigit(r[i])
  {
    Keep(phone, IsDigit)
  }

  /** The digits of each digit are counted exactly: no digit is lost, duplicated or invented. */
  lemma NormalizePhoneDigits(phone: string, d: char)
    ensures IsDigit(d) ==> multiset(NormalizePhone(phone))[d] == multiset(phone)[d]
    ensures !IsDigit(d) ==> d !in NormalizePhone(phone)
  {
    if IsDigit(d) {
      KeepCounts(phone, IsDigit, d);
    }
  }

  /** Normalising a concatenation normalises each part: the digits keep their order. */
  lemma NormalizePhoneAppend(a: string, b: string)
    ensures NormalizePhone(a + b) == NormalizePhone(a) + NormalizePhone(b)
  {
    KeepAppend(a, b, IsDigit);
  }

  /** A number without separators is left alone, and normalising twice is normalising once. */
  lemma NormalizePhoneIdentity(phone: string)
    ensures (forall i :: 0 <= i < |phone| ==> IsDigit(phone[i])) ==> NormalizePhone(phone) == phone
    ensures NormalizePhone(NormalizePhone(phone)) == NormalizePhone(phone)
  {
    if forall i :: 0 <= i < |phone| ==> IsDigit(phone[i]) {
      KeepAll(phone, IsDigit);
    }
    KeepAll(NormalizePhone(phone), IsDigit);
  }

  /** The result is empty exactly when the input holds no digit. */
  lemma NormalizePhoneEmpty(phone: string)
    ensures NormalizePhone(phone) == [] <==> forall i :: 0 <= i < |phone| ==> !IsDigit(phone[i])
  {
    KeepNone(phone, IsDigit);
  }

  // ---------------------------------------------------------------------------
  // sanitizeText
  // ---------------------------------------------------------------------------

  predicate NotNul(c: char) {
    c != '\0'
  }

  /** `s.replace(/\u0000/g, "")`. */
  function StripNul(s: string): (r: string)
    ensures '\0' !in r
    ensures '\0' !in s ==> r == s
  {
    var r := Keep(s, NotNul);
    assert forall i :: 0 <= i < |r| ==> NotNul(r[i]);
    if '\0' !in s then KeepAll(s, NotNul); r else r
  }

  /**
    `s.replace(/\r\n/g, "\n")`: the matches are taken left to right without
    overlap, so "\r\r\n" becomes "\r\n".
   */
  function CrlfToLf(s: string): (r: string)
    ensures |r| <= |s|
    ensures forall c :: c in r ==> c in s
    ensures '\r' !in s ==> r == s
    decreases |s|
  {
    if |s| >= 2 && s[0] == '\r' && s[1] == '\n' then "\n" + CrlfToLf(s[2..])
    else if s == [] then []
    else [s[0]] + CrlfToLf(s[1..])
  }

  /** The line-ending conversion a CRLF transport applies: every LF becomes CRLF. */
  function LfToCrlf(s: string): (r: string)
    ensures |r| >= |s|
  {
    if s == [] then [] else (if s[0] == '\n' then "\r\n" else [s[0]]) + LfToCrlf(s[1..])
  }

  /** Turning CRLF into LF undoes turning LF into CRLF, for text that holds no CR. */
  lemma {:induction false} CrlfToLfInvertsLfToCrlf(s: string)
    requires '\r' !in s
    ensures CrlfToLf(LfToCrlf(s)) == s
  {
    if s != [] {
      var t := LfToCrlf(s[1..]);
      assert '\r' !in s[1..] by {
        assert forall c :: c in s[1..] ==> c in s;
      }
      CrlfToLfInvertsLfToCrlf(s[1..]);
      if s[0] == '\n' {
        assert LfToCrlf(s) == "\r\n" + t;
        assert ("\r\n" + t)[2..] == t;
      } else {
        assert LfToCrlf(s) == [s[0]] + t;
        assert ([s[0]] + t)[1..] == t;
      }
    }
  }

  /** `s.trimStart()`. */
  function TrimStart(s: string): (r: string)
    ensures |r| <= |s| && r == s[|s| - |r|..]
    ensures forall i :: 0 <= i < |s| - |r| ==> IsJsWhitespace(s[i])
    ensures r == [] || !IsJsWhitespace(r[0])
    ensures (s == [] || !IsJsWhitespace(s[0])) ==> r == s
  {
    if s != [] && IsJsWhitespace(s[0]) then TrimStart(s[1..]) else s
  }

  /** `s.trimEnd()`. */
  function TrimEnd(s: string): (r: string)
    ensures |r| <= |s| && r == s[..|r|]
    ensures forall i :: |r| <= i < |s| ==> IsJsWhitespace(s[i])
    ensures r == [] || !IsJsWhitespace(r[|r| - 1])
    ensures (s == [] || !IsJsWhitespace(s[|s| - 1])) ==> r == s
  {
    if s != [] && IsJsWhitespace(s[|s| - 1]) then TrimEnd(s[..|s| - 1]) else s
  }

  /** `r` is `s` without its first `i` characters and the ones after them, all of which are white space. */
  predicate TrimmedAt(s: string, r: string, i: nat) {
    && i + |r| <= |s| && r == s[i..i + |r|]
    && (forall k :: 0 <= k < i ==> IsJsWhitespace(s[k]))
    && (forall k :: i + |r| <= k < |s| ==> IsJsWhitespace(s[k]))
  }

  /** What is cut off the end of a suffix of `s` is cut off the end of `s`. */
  lemma CutFromSuffix(s: string, i: nat, r: string, cut: char -> bool)
    requires i + |r| <= |s| && r == s[i..][..|r|]
    requires forall k :: |r| <= k < |s[i..]| ==> cut(s[i..][k])
    ensures r == s[i..i + |r|]
    ensures forall k :: i + |r| <= k < |s| ==> cut(s[k])
  {
    forall k | i + |r| <= k < |s|
      ensures cut(s[k])
    {
      assert s[k] == s[i..][k - i];
    }
  }

  /** Trimming the start and then the end cuts white space only, off both ends. */
  lemma TrimEndOfTrimStart(s: string)
    ensures TrimmedAt(s, TrimEnd(TrimStart(s)), |s| - |TrimStart(s)|)
  {
    var t := TrimStart(s);
    CutFromSuffix(s, |s| - |t|, TrimEnd(t), IsJsWhitespace);
  }

  /**
    `s.trim()`: the longest white-space prefix and suffix are removed, so the
    result is a contiguous piece of `s` that neither starts nor ends with white
    space, and everything cut off is white space.
   */
  function Trim(s: string): (r: string)
    ensures r == [] || (!IsJsWhitespace(r[0]) && !IsJsWhitespace(r[|r| - 1]))
    ensures exists i :: TrimmedAt(s, r, i)
    ensures (s == [] || (!IsJsWhitespace(s[0]) && !IsJsWhitespace(s[|s| - 1]))) ==> r == s
  {
    var t := TrimStart(s);
    var r := TrimEnd(t);
    TrimEndOfTrimStart(s);
    assert r == [] || r[0] == t[0];
    r
  }

  /** A string made only of white space trims to the empty string. */
  lemma TrimAllWhitespace(s: string)
    requires forall k :: 0 <= k < |s| ==> IsJsWhitespace(s[k])
    ensures Trim(s) == []
  {
  }

  /** Neither starts nor ends with white space: what `trim` leaves. */
  predicate Unpadded(s: string) {
    s == [] || (!IsJsWhitespace(s[0]) && !IsJsWhitespace(s[|s| - 1]))
  }

  /** What `sanitizeText` leaves: no NUL, and no white space at either end. */
  predicate Sanitized(s: string) {
    '\0' !in s && Unpadded(s)
  }

  /**
    `sanitizeText`: NUL characters are removed first, then CRLF becomes LF,
    then the result is trimmed.  The result holds no NUL and neither starts
    nor ends with white space.
   */
  function SanitizeText(input: string): (r: string)
    ensures Sanitized(r)
  {
    var t := CrlfToLf(StripNul(input));
    var r := Trim(t);
    assert forall c :: c in r ==> c in t;
    r
  }

  /** Text that is already clean (no NUL, no CR, not padded) passes through unchanged. */
  lemma SanitizeTextIdentity(input: string)
    requires '\0' !in input && '\r' !in input
    requires input == [] || (!IsJsWhitespace(input[0]) && !IsJsWhitespace(input[|input| - 1]))
    ensures SanitizeText(input) == input
  {
  }

  /** A value made of white space and NUL characters only sanitises to the empty string. */
  lemma {:induction false} SanitizeTextBlank(input: string)
    requires forall k :: 0 <= k < |input| ==> IsJsWhitespace(input[k]) || input[k] == '\0'
    ensures SanitizeText(input) == []
  {
    var t := CrlfToLf(StripNul(input));
    forall c | c in t ensures IsJsWhitespace(c) {
      assert c in input;
    }
    assert forall k :: 0 <= k < |t| ==> IsJsWhitespace(t[k]) by {
      forall k | 0 <= k < |t| ensures IsJsWhitespace(t[k]) {
        assert t[k] in t;
      }
    }
    TrimAllWhitespace(t);
  }

  /** A character that does not start a CRLF is copied. */
  lemma CrlfToLfCons(c: char, t: string)
    requires c != '\r' || t == [] || t[0] != '\n'
    ensures CrlfToLf([c] + t) == [c] + CrlfToLf(t)
  {
    assert ([c] + t)[1..] == t;
  }

  /** A CRLF becomes one LF. */
  lemma CrlfToLfCrlf(t: string)
    ensures CrlfToLf("\r\n" + t) == "\n" + CrlfToLf(t)
  {
    assert ("\r\n" + t)[2..] == t;
  }

  /** With no NUL to strip and nothing to trim, sanitising is the line-ending conversion alone. */
  lemma SanitizeTextIsCrlfToLf(input: string)
    requires '\0' !in input
    requires var t := CrlfToLf(input); t != [] && !IsJsWhitespace(t[0]) && !IsJsWhitespace(t[|t| - 1])
    ensures SanitizeText(input) == CrlfToLf(input)
  {
  }
}
