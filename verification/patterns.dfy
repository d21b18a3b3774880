/**
  The three regular expressions of the decoder, written out as scans:

    /boundary=(?:"([^"]+)"|([^;]+))/i   the boundary parameter of the Content-Type (generate.ts:57)
    /name="([^"]+)"/                    the field name in a part's headers       (generate.ts:93)
    /Content-Type:\s*([^\r\n]+)/i       the media type of the file part           (generate.ts:98)

  `String.prototype.match` without the `g` flag reports the leftmost index at
  which the whole pattern matches, each quantifier taking as much as it can
  and giving characters back only when the rest of the pattern fails.  For
  each pattern `...At(s, p)` says what the pattern captures when tried at
  index `p`, and `...Of(s)` takes the leftmost index where it matches.

  Under the `i` flag (without `u`) both sides are compared upper-cased, and a
  non-ASCII character whose upper case is ASCII is left alone; the literal
  parts of these patterns are ASCII, so ignoring ASCII case is exact.
 */
module Patterns {
  import opened Wrappers
  import opened Buffers
  import opened Text

  function AsciiLower(c: char): char {
    if 'A' <= c <= 'Z' then (c as int + 32) as char else c
  }

  function AsciiUpper(c: char): char {
    if 'a' <= c <= 'z' then (c as int - 32) as char else c
  }

  /** The lower-case ASCII literal `lit` matches `s` at index `p`, ignoring ASCII case. */
  predicate MatchesIgnoringCase(s: string, p: nat, lit: string) {
    p + |lit| <= |s| && forall k :: 0 <= k < |lit| ==> AsciiLower(s[p + k]) == lit[k]
  }

  /**
    Under the `i` flag a lower-case literal matches exactly where each
    character of the text is the literal's character or its upper case.
   */
  lemma MatchesIgnoringCaseIff(s: string, p: nat, lit: string)
    requires forall k :: 0 <= k < |lit| ==> !('A' <= lit[k] <= 'Z')
    ensures MatchesIgnoringCase(s, p, lit)
        <==> p + |lit| <= |s| && forall k :: 0 <= k < |lit| ==> s[p + k] == lit[k] || s[p + k] == AsciiUpper(lit[k])
  {
  }

  /** The least index in `[from, n]` at which `matches` holds, or -1 when there is none. */
  function Leftmost(n: nat, from: nat, matches: nat -> bool): (r: int)
    ensures r == -1 <==> forall p: nat :: from <= p <= n ==> !matches(p)
    ensures r != -1 ==> from <= r <= n && matches(r)
    ensures r != -1 ==> forall p: nat :: from <= p < r ==> !matches(p)
    decreases if from <= n then n - from + 1 else 0
  {
    if n < from then -1
    else if matches(from) then from
    else Leftmost(n, from + 1, matches)
  }

  /** The first index at or after `from` whose character satisfies `stop`, or `|s|`. */
  function FindFrom(s: string, from: nat, stop: char -> bool): (r: nat)
    requires from <= |s|
    ensures from <= r <= |s|
    ensures r < |s| ==> stop(s[r])
    ensures forall k :: from <= k < r ==> !stop(s[k])
    decreases |s| - from
  {
    if from == |s| || stop(s[from]) then from else FindFrom(s, from + 1, stop)
  }

  /** The last index in `[lo, hi)` whose character satisfies `want`, or -1. */
  function FindLast(s: string, lo: nat, hi: nat, want: char -> bool): (r: int)
    requires lo <= hi <= |s|
    ensures r == -1 || (lo <= r < hi && want(s[r]))
    ensures forall k :: (if r == -1 then lo else r + 1) <= k < hi ==> !want(s[k])
    decreases hi
  {
    if hi == lo then -1
    else if want(s[hi - 1]) then hi - 1
    else FindLast(s, lo, hi - 1, want)
  }

  predicate IsLineBreak(c: char) {
    c == '\r' || c == '\n'
  }

  predicate NotJsWhitespace(c: char) {
    !IsJsWhitespace(c)
  }

  predicate NotLineBreak(c: char) {
    !IsLineBreak(c)
  }

  // ---------------------------------------------------------------------------
  // /boundary=(?:"([^"]+)"|([^;]+))/i
  // ---------------------------------------------------------------------------

  /**
    The pattern tried at `p`: after `boundary=` the quoted form needs a quote,
    at least one non-quote and a closing quote; failing that, the bare form
    takes the non-empty run of characters up to the first `;` or the end.
   */
  function BoundaryAt(s: string, p: nat): (r: Option<string>)
    ensures r.Some? ==> MatchesIgnoringCase(s, p, "boundary=") && r.value != []
  {
    if !MatchesIgnoringCase(s, p, "boundary=") then None
    else
      var q := p + 9;
      var close := IndexOf(s, "\"", q + 1);
      if q < |s| && s[q] == '"' && close > q + 1 then Some(s[q + 1..close])
      else
        var semi := IndexOf(s, ";", q);
        var end := if semi == -1 then |s| else semi;
        if q < end then Some(s[q..end]) else None
  }

  /** The leftmost index at which the boundary pattern matches, or -1. */
  function BoundaryIndex(s: string): (r: int)
    ensures r == -1 <==> forall p: nat :: p <= |s| ==> BoundaryAt(s, p).None?
    ensures r != -1 ==> 0 <= r <= |s| && BoundaryAt(s, r).Some?
    ensures r != -1 ==> forall p: nat :: p < r ==> BoundaryAt(s, p).None?
  {
    var matches := (i: nat) => BoundaryAt(s, i).Some?;
    assert forall i: nat :: matches(i) == BoundaryAt(s, i).Some?;
    Leftmost(|s|, 0, matches)
  }

  /**
    `match[1] || match[2]` of the boundary pattern, or None when the pattern
    does not match at all.  The token found is never empty, so the source's
    `!boundary` test is exactly the no-match case.
   */
  function BoundaryOf(contentType: string): (r: Option<string>)
    ensures r.None? <==> forall p: nat :: p <= |contentType| ==> BoundaryAt(contentType, p).None?
    ensures r.Some? ==> r.value != []
  {
    var p := BoundaryIndex(contentType);
    if p == -1 then None else BoundaryAt(contentType, p)
  }

  /** A match at `p` with none before it is the one `BoundaryOf` reports. */
  lemma BoundaryOfFirst(s: string, p: nat)
    requires BoundaryAt(s, p).Some?
    requires forall i: nat :: i < p ==> BoundaryAt(s, i).None?
    ensures BoundaryOf(s) == BoundaryAt(s, p)
  {
    var r := BoundaryIndex(s);
    assert r != -1 by {
      assert p <= |s|;
    }
    assert !(r < p);
    assert !(p < r);
  }

  /** A content type that never mentions `boundary=`, in any case, has no boundary. */
  lemma NoBoundaryParameter(contentType: string)
    requires forall p: nat :: !MatchesIgnoringCase(contentType, p, "boundary=")
    ensures BoundaryOf(contentType) == None
  {
  }

  /** The first `boundary=` followed by `"token"` gives the text between the quotes. */
  lemma BoundaryQuoted(s: string, p: nat, token: string, rest: string)
    requires MatchesIgnoringCase(s, p, "boundary=")
    requires forall i: nat :: i < p ==> !MatchesIgnoringCase(s, i, "boundary=")
    requires s[p + 9..] == "\"" + token + "\"" + rest
    requires token != [] && '"' !in token
    ensures BoundaryOf(s) == Some(token)
  {
    var q := p + 9;
    assert s[q] == '"';
    assert s[q + 1..q + 1 + |token|] == token;
    assert s[q + 1 + |token|] == '"';
    forall i: nat | q + 1 <= i < q + 1 + |token|
      ensures !OccursAt(s, "\"", i)
    {
      assert s[i] == token[i - q - 1];
      assert s[i..i + 1] == [s[i]];
    }
    assert OccursAt(s, "\"", q + 1 + |token|) by {
      assert s[q + 1 + |token|..q + 2 + |token|] == [s[q + 1 + |token|]];
    }
    IndexOfIs(s, "\"", q + 1, q + 1 + |token|);
    assert BoundaryAt(s, p) == Some(token);
    BoundaryOfFirst(s, p);
  }

  /**
    Otherwise the first `boundary=` gives everything up to the first `;` or
    the end of the string.  That covers a token that does not start with a
    quote, but also one whose quoted form does not match: an opening quote
    with no closing quote after it, or with the closing quote right after
    it; the quote is then part of the token.
   */
  lemma BoundaryBare(s: string, p: nat, token: string, rest: string)
    requires MatchesIgnoringCase(s, p, "boundary=")
    requires forall i: nat :: i < p ==> !MatchesIgnoringCase(s, i, "boundary=")
    requires s[p + 9..] == token + rest
    requires token != [] && ';' !in token
    requires token[0] == '"' ==> (|token| >= 2 && token[1] == '"') || '"' !in token[1..] + rest
    requires rest == [] || rest[0] == ';'
    ensures BoundaryOf(s) == Some(token)
  {
    var q := p + 9;
    assert s[q..q + |token|] == token;
    assert s[q] == token[0];
    if token[0] == '"' {
      QuotedFormFails(s, q, token, rest);
    }
    forall i: nat | q <= i < q + |token|
      ensures !OccursAt(s, ";", i)
    {
      assert s[i] == token[i - q];
      assert s[i..i + 1] == [s[i]];
    }
    if rest == [] {
      assert |s| == q + |token|;
    } else {
      assert s[q + |token|] == ';';
      assert OccursAt(s, ";", q + |token|) by {
        assert s[q + |token|..q + |token| + 1] == [s[q + |token|]];
      }
      IndexOfIs(s, ";", q, q + |token|);
    }
    assert BoundaryAt(s, p) == Some(token);
    BoundaryOfFirst(s, p);
  }

  /** After an opening quote, the search for the closing one ends right after it or finds none. */
  lemma QuotedFormFails(s: string, q: nat, token: string, rest: string)
    requires q <= |s| && s[q..] == token + rest
    requires token != [] && token[0] == '"'
    requires (|token| >= 2 && token[1] == '"') || '"' !in token[1..] + rest
    ensures IndexOf(s, "\"", q + 1) <= q + 1
  {
    var t := token + rest;
    if |token| >= 2 && token[1] == '"' {
      assert s[q + 1] == t[1];
      assert s[q + 1..q + 2] == [s[q + 1]];
      IndexOfIs(s, "\"", q + 1, q + 1);
    } else {
      assert s[q + 1..] == t[1..] == token[1..] + rest;
      CharNowhereAfter(s, q + 1, '"');
    }
  }

  /** A character that does not occur from `from` on is not found there. */
  lemma CharNowhereAfter(s: string, from: nat, c: char)
    requires from <= |s| && c !in s[from..]
    ensures IndexOf(s, [c], from) == -1
  {
    forall i: nat | from <= i
      ensures !OccursAt(s, [c], i)
    {
      if i < |s| {
        assert s[i] == s[from..][i - from];
        assert s[i..i + 1] == [s[i]];
      }
    }
  }

  // ---------------------------------------------------------------------------
  // /name="([^"]+)"/
  // ---------------------------------------------------------------------------

  /** The name pattern tried at `p`: `name="`, then at least one non-quote, then a quote. */
  function FieldNameAt(h: string, p: nat): (r: Option<string>)
    ensures r.Some? ==> OccursAt(h, "name=\"", p) && r.value != [] && '"' !in r.value
  {
    if !OccursAt(h, "name=\"", p) then None
    else
      var close := IndexOf(h, "\"", p + 6);
      if close > p + 6 then
        assert '"' !in h[p + 6..close] by {
          forall k | p + 6 <= k < close ensures h[k] != '"' {
            assert !OccursAt(h, "\"", k);
            assert h[k..k + 1] == [h[k]];
          }
        }
        Some(h[p + 6..close])
      else None
  }

  /** The leftmost index at which the name pattern matches, or -1. */
  function FieldNameIndex(h: string): (r: int)
    ensures r == -1 <==> forall p: nat :: p <= |h| ==> FieldNameAt(h, p).None?
    ensures r != -1 ==> 0 <= r <= |h| && FieldNameAt(h, r).Some?
    ensures r != -1 ==> forall p: nat :: p < r ==> FieldNameAt(h, p).None?
  {
    var matches := (i: nat) => FieldNameAt(h, i).Some?;
    assert forall i: nat :: matches(i) == FieldNameAt(h, i).Some?;
    Leftmost(|h|, 0, matches)
  }

  /**
    `nameMatch ? nameMatch[1] : ""`: the value of the leftmost `name="..."`
    anywhere in the header text, case-sensitively, or "" when there is none.
   */
  function FieldNameOf(h: string): (r: string)
    ensures r == [] <==> forall p: nat :: p <= |h| ==> FieldNameAt(h, p).None?
    ensures '"' !in r
  {
    var p := FieldNameIndex(h);
    if p == -1 then [] else FieldNameAt(h, p).value
  }

  /** A match at `p` with none before it is the one `FieldNameOf` reports. */
  lemma FieldNameOfFirst(h: string, p: nat)
    requires FieldNameAt(h, p).Some?
    requires forall i: nat :: i < p ==> FieldNameAt(h, i).None?
    ensures FieldNameOf(h) == FieldNameAt(h, p).value
  {
    var r := FieldNameIndex(h);
    assert r != -1 by {
      assert p <= |h|;
    }
    assert !(r < p);
    assert !(p < r);
  }

  /** The first `name="` in the header text that is followed by `value"` names the field. */
  lemma FieldNameFirst(h: string, p: nat, name: string, rest: string)
    requires forall i: nat :: i < p ==> !OccursAt(h, "name=\"", i)
    requires p <= |h| && h[p..] == "name=\"" + name + "\"" + rest
    requires name != [] && '"' !in name
    ensures FieldNameOf(h) == name
  {
    assert h[p..p + 6] == "name=\"";
    var q := p + 6;
    assert h[q..q + |name|] == name;
    assert h[q + |name|] == '"';
    forall i: nat | q <= i < q + |name|
      ensures !OccursAt(h, "\"", i)
    {
      assert h[i] == name[i - q];
      assert h[i..i + 1] == [h[i]];
    }
    assert OccursAt(h, "\"", q + |name|) by {
      assert h[q + |name|..q + |name| + 1] == [h[q + |name|]];
    }
    IndexOfIs(h, "\"", q, q + |name|);
    assert FieldNameAt(h, p) == Some(name);
    FieldNameOfFirst(h, p);
  }

  /**
    A `name="value"` after text without a double quote names the field: no
    earlier `name="` can start in that text, because the pattern ends in a
    quote and no proper suffix of it is a prefix of it.
   */
  lemma FieldNameAfter(lead: string, name: string, rest: string)
    requires '"' !in lead
    requires name != [] && '"' !in name
    ensures FieldNameOf(lead + "name=\"" + name + "\"" + rest) == name
  {
    var h := lead + "name=\"" + name + "\"" + rest;
    forall i: nat | i < |lead|
      ensures !OccursAt(h, "name=\"", i)
    {
      if i + 5 < |lead| {
        assert h[i + 5] == lead[i + 5];
      } else {
        assert h[i + 5] == "name=\""[i + 5 - |lead|];
      }
    }
    assert h[|lead|..] == "name=\"" + name + "\"" + rest;
    FieldNameFirst(h, |lead|, name, rest);
  }

  /**
    The pattern has no word boundary, so a `filename="..."` parameter that
    comes before `name="..."` is taken for the field name.
   */
  lemma FileNameTakenForName(lead: string, fileName: string, rest: string)
    requires '"' !in lead
    requires fileName != [] && '"' !in fileName
    ensures FieldNameOf(lead + "filename=\"" + fileName + "\"" + rest) == fileName
  {
    assert lead + "filename=\"" + fileName + "\"" + rest == (lead + "file") + "name=\"" + fileName + "\"" + rest;
    assert '"' !in lead + "file";
    FieldNameAfter(lead + "file", fileName, rest);
  }

  // ---------------------------------------------------------------------------
  // /Content-Type:\s*([^\r\n]+)/i
  // ---------------------------------------------------------------------------

  /**
    The media-type pattern tried at `p`.  `\s*` first takes the whole white
    space run after `Content-Type:` (line breaks included, since `\s` matches
    them).  If a character follows the run, the capture is the rest of that
    line.  If the run reaches the end of the text, `\s*` gives characters back
    until the capture can start at a white space character that is not a line
    break; the capture is then that one character.
   */
  function ContentTypeAt(h: string, p: nat): (r: Option<string>)
    ensures r.Some? ==> MatchesIgnoringCase(h, p, "content-type:") && r.value != []
    ensures r.Some? ==> forall k :: 0 <= k < |r.value| ==> !IsLineBreak(r.value[k])
  {
    if !MatchesIgnoringCase(h, p, "content-type:") then None
    else
      var q := p + 13;
      var e := FindFrom(h, q, NotJsWhitespace);
      if e < |h| then
        var end := FindFrom(h, e, IsLineBreak);
        Some(h[e..end])
      else
        var k := FindLast(h, q, e, NotLineBreak);
        if k == -1 then None else Some(h[k..k + 1])
  }

  /** The leftmost index at which the media-type pattern matches, or -1. */
  function ContentTypeIndex(h: string): (r: int)
    ensures r == -1 <==> forall p: nat :: p <= |h| ==> ContentTypeAt(h, p).None?
    ensures r != -1 ==> 0 <= r <= |h| && ContentTypeAt(h, r).Some?
    ensures r != -1 ==> forall p: nat :: p < r ==> ContentTypeAt(h, p).None?
  {
    var matches := (i: nat) => ContentTypeAt(h, i).Some?;
    assert forall i: nat :: matches(i) == ContentTypeAt(h, i).Some?;
    Leftmost(|h|, 0, matches)
  }

  /** `typeMatch?.[1]`: the capture at the leftmost index where the pattern matches. */
  function ContentTypeOf(h: string): (r: Option<string>)
    ensures r.None? <==> forall p: nat :: p <= |h| ==> ContentTypeAt(h, p).None?
    ensures r.Some? ==> r.value != []
  {
    var p := ContentTypeIndex(h);
    if p == -1 then None else ContentTypeAt(h, p)
  }

  /** A match at `p` with none before it is the one `ContentTypeOf` reports. */
  lemma ContentTypeOfFirst(h: string, p: nat)
    requires ContentTypeAt(h, p).Some?
    requires forall i: nat :: i < p ==> ContentTypeAt(h, i).None?
    ensures ContentTypeOf(h) == ContentTypeAt(h, p)
  {
    var r := ContentTypeIndex(h);
    assert r != -1 by {
      assert p <= |h|;
    }
    assert !(r < p);
    assert !(p < r);
  }

  /** `(typeMatch?.[1] || "image/jpeg").trim()`. */
  function MimeTypeOf(h: string): (r: string)
    ensures Unpadded(r)
  {
    var r := Trim(ContentTypeOf(h).GetOr("image/jpeg"));
    assert Unpadded(r);
    r
  }

  /** Without a `Content-Type:` header, in any case, the media type is image/jpeg. */
  lemma MimeTypeDefault(h: string)
    requires forall p: nat :: !MatchesIgnoringCase(h, p, "content-type:")
    ensures MimeTypeOf(h) == "image/jpeg"
  {
    var d := "image/jpeg";
    assert !IsJsWhitespace(d[0]) && !IsJsWhitespace(d[|d| - 1]);
  }

  /**
    The first `Content-Type:` header, followed by optional white space and a
    value that runs to a line break or the end, gives the trimmed value.
   */
  lemma MimeTypeOfHeader(h: string, p: nat, ws: string, value: string, rest: string)
    requires MatchesIgnoringCase(h, p, "content-type:")
    requires forall i: nat :: i < p ==> !MatchesIgnoringCase(h, i, "content-type:")
    requires h[p + 13..] == ws + value + rest
    requires forall k :: 0 <= k < |ws| ==> IsJsWhitespace(ws[k])
    requires value != [] && !IsJsWhitespace(value[0])
    requires forall k :: 0 <= k < |value| ==> !IsLineBreak(value[k])
    requires rest == [] || IsLineBreak(rest[0])
    ensures MimeTypeOf(h) == Trim(value)
  {
    ContentTypeAtHeader(h, p, ws, value, rest);
    ContentTypeOfFirst(h, p);
  }

  /** The scan from `from` stops at `t` when nothing before `t` stops it and `t` does or is the end. */
  lemma FindFromIs(s: string, from: nat, t: nat, stop: char -> bool)
    requires from <= t <= |s|
    requires forall k :: from <= k < t ==> !stop(s[k])
    requires t < |s| ==> stop(s[t])
    ensures FindFrom(s, from, stop) == t
  {
  }

  /** Tried at a `Content-Type:`, the pattern skips the white space and captures the value. */
  lemma ContentTypeAtHeader(h: string, p: nat, ws: string, value: string, rest: string)
    requires MatchesIgnoringCase(h, p, "content-type:")
    requires h[p + 13..] == ws + value + rest
    requires forall k :: 0 <= k < |ws| ==> IsJsWhitespace(ws[k])
    requires value != [] && !IsJsWhitespace(value[0])
    requires forall k :: 0 <= k < |value| ==> !IsLineBreak(value[k])
    requires rest == [] || IsLineBreak(rest[0])
    ensures ContentTypeAt(h, p) == Some(value)
  {
    var q := p + 13;
    var e := q + |ws|;
    var tail := ws + value + rest;
    forall k | q <= k < e
      ensures !NotJsWhitespace(h[k])
    {
      assert h[k] == tail[k - q] == ws[k - q];
    }
    assert h[e] == tail[|ws|] == value[0];
    FindFromIs(h, q, e, NotJsWhitespace);
    forall k | e <= k < e + |value|
      ensures !IsLineBreak(h[k])
    {
      assert h[k] == tail[k - q] == value[k - e];
    }
    if rest != [] {
      assert h[e + |value|] == tail[|ws| + |value|] == rest[0];
    }
    FindFromIs(h, e, e + |value|, IsLineBreak);
    forall k | 0 <= k < |value|
      ensures h[e..e + |value|][k] == value[k]
    {
      assert h[e + k] == tail[|ws| + k];
    }
    assert h[e..e + |value|] == value;
  }

  /**
    Because `\s` matches line breaks, a `Content-Type:` with nothing on its own
    line takes its value from the next line.
   */
  lemma MimeTypeFromNextLine(h: string, p: nat, next: string)
    requires MatchesIgnoringCase(h, p, "content-type:")
    requires forall i: nat :: i < p ==> !MatchesIgnoringCase(h, i, "content-type:")
    requires h[p + 13..] == "\r\n" + next
    requires next != [] && !IsJsWhitespace(next[0])
    requires forall k :: 0 <= k < |next| ==> !IsLineBreak(next[k])
    ensures MimeTypeOf(h) == Trim(next)
  {
    MimeTypeOfHeader(h, p, "\r\n", next, []);
  }

  /**
    A `Content-Type:` that ends the header text with nothing but white space
    after it, the last of which is not a line break, still matches: the
    capture is that last white space character, so the media type trims to
    "" and does not fall back to image/jpeg.
   */
  lemma MimeTypeBlank(h: string, p: nat)
    requires MatchesIgnoringCase(h, p, "content-type:")
    requires forall i: nat :: i < p ==> !MatchesIgnoringCase(h, i, "content-type:")
    requires forall k :: p + 13 <= k < |h| ==> IsJsWhitespace(h[k])
    requires p + 13 < |h| && !IsLineBreak(h[|h| - 1])
    ensures MimeTypeOf(h) == ""
  {
    ContentTypeAtBlank(h, p);
    ContentTypeOfFirst(h, p);
    TrimOneWhitespace(h[|h| - 1]);
  }

  /** Tried at such a `Content-Type:`, the pattern captures the last character of the text. */
  lemma ContentTypeAtBlank(h: string, p: nat)
    requires MatchesIgnoringCase(h, p, "content-type:")
    requires forall k :: p + 13 <= k < |h| ==> IsJsWhitespace(h[k])
    requires p + 13 < |h| && !IsLineBreak(h[|h| - 1])
    ensures ContentTypeAt(h, p) == Some([h[|h| - 1]])
    ensures IsJsWhitespace(h[|h| - 1])
  {
    assert h[|h| - 1..|h|] == [h[|h| - 1]];
    FindFromIs(h, p + 13, |h|, NotJsWhitespace);
    assert FindLast(h, p + 13, |h|, NotLineBreak) == |h| - 1;
  }

  /**
    A `Content-Type:` followed by nothing but line breaks to the end of the
    text does not match there: the capture cannot start at a line break.
   */
  lemma ContentTypeAtLineBreaks(h: string, p: nat)
    requires MatchesIgnoringCase(h, p, "content-type:")
    requires forall k :: p + 13 <= k < |h| ==> IsLineBreak(h[k])
    ensures ContentTypeAt(h, p) == None
  {
    FindFromIs(h, p + 13, |h|, NotJsWhitespace);
  }

  /**
    So when that is the only `Content-Type:` in the header text, the media
    type falls back to image/jpeg.
   */
  lemma MimeTypeLineBreaksOnly(h: string, p: nat)
    requires MatchesIgnoringCase(h, p, "content-type:")
    requires forall i: nat :: i != p ==> !MatchesIgnoringCase(h, i, "content-type:")
    requires forall k :: p + 13 <= k < |h| ==> IsLineBreak(h[k])
    ensures MimeTypeOf(h) == "image/jpeg"
  {
    ContentTypeAtLineBreaks(h, p);
    assert forall i: nat :: i <= |h| ==> ContentTypeAt(h, i).None?;
    var d := "image/jpeg";
    assert !IsJsWhitespace(d[0]) && !IsJsWhitespace(d[|d| - 1]);
  }

  /** The header name as browsers write it matches the media-type pattern's literal. */
  lemma ContentTypeNameMatches(s: string, p: nat)
    requires p + 13 <= |s| && s[p..p + 13] == "Content-Type:"
    ensures MatchesIgnoringCase(s, p, "content-type:")
  {
    var lit := "content-type:";
    forall k | 0 <= k < 13
      ensures AsciiLower(s[p + k]) == lit[k]
    {
      assert s[p + k] == "Content-Type:"[k];
    }
  }

  /**
    A `Content-Type:` line after a first header line that holds no carriage
    return and no `Content-Type:` of its own gives the media type: the
    trimmed value of that line.
   */
  lemma MimeTypeOfSecondLine(first: string, value: string)
    requires '\r' !in first
    requires forall i: nat :: !MatchesIgnoringCase(first, i, "content-type:")
    requires value != [] && !IsJsWhitespace(value[0])
    requires forall k :: 0 <= k < |value| ==> !IsLineBreak(value[k])
    ensures MimeTypeOf(first + "\r\n" + "Content-Type: " + value) == Trim(value)
  {
    var h := first + "\r\n" + "Content-Type: " + value;
    var p := |first| + 2;
    assert h[p..p + 13] == "Content-Type:";
    ContentTypeNameMatches(h, p);
    forall i: nat | i < p
      ensures !MatchesIgnoringCase(h, i, "content-type:")
    {
      NoMatchBeforeSecondLine(first, value, i);
    }
    assert h[p + 13..] == " " + value + [];
    MimeTypeOfHeader(h, p, " ", value, []);
  }

  /** No match of the literal starts in the first line or in the CRLF after it. */
  lemma NoMatchBeforeSecondLine(first: string, value: string, i: nat)
    requires '\r' !in first
    requires forall i: nat :: !MatchesIgnoringCase(first, i, "content-type:")
    requires i < |first| + 2
    ensures !MatchesIgnoringCase(first + "\r\n" + "Content-Type: " + value, i, "content-type:")
  {
    var h := first + "\r\n" + "Content-Type: " + value;
    var lit := "content-type:";
    if i + 13 <= |first| {
      assert !MatchesIgnoringCase(first, i, lit);
      var k :| 0 <= k < 13 && AsciiLower(first[i + k]) != lit[k];
      assert h[i + k] == first[i + k];
    } else if i <= |first| {
      var k := |first| - i;
      assert h[i + k] == '\r';
      assert '\r' !in lit;
      assert lit[k] in lit;
    } else {
      assert h[i + 0] == '\n';
      assert AsciiLower(h[i + 0]) != lit[0];
    }
  }

  /** A single white space character trims to "". */
  lemma TrimOneWhitespace(c: char)
    requires IsJsWhitespace(c)
    ensures Trim([c]) == []
  {
    TrimAllWhitespace([c]);
  }
}
