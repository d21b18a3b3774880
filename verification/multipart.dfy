/**
  `parseMultipart` (generate.ts:48-112): a hand-written decoder for
  multipart/form-data bodies.  It takes the boundary from the Content-Type,
  scans the body for `--boundary` with a moving cursor, cuts each part at its
  first CRLFCRLF into header text and content, and fills the slot of the
  result named by the part's `name="..."`.

  The body is given as bytes; turning the base64 text of the request into
  bytes is not part of this model.  UTF-8 decoding (`buf.toString()`) is the
  parameter `decode`, so every statement below holds whatever decoder is used.

  The loop is specified by a pure step function, `Step`, and its iteration,
  `Scan`; the method `ParseMultipart` runs the loop of the source and is
  proved to compute `Parse`.
 */
module Multipart {
  import opened Wrappers
  import opened Buffers
  import opened Text
  import opened Patterns

  /** The decoder's result record (generate.ts:7-13); `None` stands for `null`. */
  datatype ParsedBody = ParsedBody(
    name: string,
    job: string,
    phone: string,
    faceBuffer: Option<seq<byte>>,
    faceMimeType: Option<string>)

  /** The initial record (generate.ts:49-55), also the result when there is no boundary. */
  const Empty := ParsedBody("", "", "", None, None)

  /**
    What every record the decoder builds satisfies: each text slot is
    sanitised, the face's bytes and media type are set together, and the
    media type is trimmed.
   */
  predicate WellFormed(r: ParsedBody) {
    && Sanitized(r.name) && Sanitized(r.job) && Sanitized(r.phone)
    && (r.faceBuffer.Some? <==> r.faceMimeType.Some?)
    && (r.faceMimeType.Some? ==> Unpadded(r.faceMimeType.value))
  }

  /** The face bytes, if any, fit with a header separator in `n` bytes. */
  predicate FaceFitsIn(r: ParsedBody, n: nat) {
    r.faceBuffer.Some? ==> |r.faceBuffer.value| + 4 <= n
  }

  /** The initial record is well formed: empty text slots and no face. */
  lemma EmptyIsWellFormed()
    ensures WellFormed(Empty) && FaceFitsIn(Empty, 0)
  {
  }

  const CRLF: seq<byte> := [13, 10]
  const CRLFCRLF: seq<byte> := [13, 10, 13, 10]

  /** `Buffer.from(`--${boundary}`)`. */
  function Delimiter(boundary: string): (d: seq<byte>)
    ensures |d| >= 2 + |boundary|
    ensures d[..2] == [45, 45]
  {
    Utf8EncodeAppend("--", boundary);
    assert Utf8Encode("--") == [45, 45];
    Utf8Encode("--" + boundary)
  }

  // ---------------------------------------------------------------------------
  // One part: header/content split and field dispatch (generate.ts:83-106)
  // ---------------------------------------------------------------------------

  /**
    The assignment of generate.ts:96-106 for a part with the given header text
    and content.  Only the slot the field name selects changes, and it is
    overwritten, so a later part with the same name wins.
   */
  function Dispatch(acc: ParsedBody, headerText: string, content: seq<byte>, decode: seq<byte> -> string): (r: ParsedBody)
    ensures WellFormed(acc) ==> WellFormed(r)
    ensures r.faceBuffer == acc.faceBuffer || r.faceBuffer == Some(content)
  {
    var fieldName := FieldNameOf(headerText);
    if fieldName == "face" then
      acc.(faceBuffer := Some(content), faceMimeType := Some(MimeTypeOf(headerText)))
    else if fieldName == "name" then acc.(name := SanitizeText(decode(content)))
    else if fieldName == "job" then acc.(job := SanitizeText(decode(content)))
    else if fieldName == "phone" then acc.(phone := SanitizeText(decode(content)))
    else acc
  }

  /**
    One part's bytes (generate.ts:83-106): cut at the first CRLFCRLF; without
    one the part leaves the record unchanged.
   */
  function DispatchPart(acc: ParsedBody, part: seq<byte>, decode: seq<byte> -> string): (r: ParsedBody)
    ensures WellFormed(acc) ==> WellFormed(r)
    ensures r.faceBuffer == acc.faceBuffer
         || (r.faceBuffer.Some? && |r.faceBuffer.value| + 4 <= |part|
             && r.faceBuffer.value == part[|part| - |r.faceBuffer.value|..])
  {
    var headerEnd := IndexOf(part, CRLFCRLF, 0);
    if headerEnd == -1 then acc
    else Dispatch(acc, decode(part[..headerEnd]), part[headerEnd + 4..], decode)
  }

  /** `DispatchPart` in terms of where the search for the header separator ends. */
  lemma DispatchPartAt(acc: ParsedBody, part: seq<byte>, decode: seq<byte> -> string, headerEnd: int)
    requires headerEnd == IndexOf(part, CRLFCRLF, 0)
    ensures headerEnd == -1 ==> DispatchPart(acc, part, decode) == acc
    ensures headerEnd != -1 ==>
              DispatchPart(acc, part, decode) == Dispatch(acc, decode(part[..headerEnd]), part[headerEnd + 4..], decode)
  {
  }

  /** Which slots two records agree on; used to say that a part touched nothing else. */
  predicate SameTextSlots(a: ParsedBody, b: ParsedBody) {
    a.name == b.name && a.job == b.job && a.phone == b.phone
  }

  predicate SameFaceSlots(a: ParsedBody, b: ParsedBody) {
    a.faceBuffer == b.faceBuffer && a.faceMimeType == b.faceMimeType
  }

  /** A part without a CRLFCRLF is discarded: the record is unchanged. */
  lemma PartWithoutSeparator(acc: ParsedBody, part: seq<byte>, decode: seq<byte> -> string)
    requires forall i: nat :: !OccursAt(part, CRLFCRLF, i)
    ensures DispatchPart(acc, part, decode) == acc
  {
  }

  /**
    A part `header CRLFCRLF content` whose header holds no earlier CRLFCRLF
    splits exactly there: the header text is the decoded header and the
    content is every byte after the separator.
   */
  lemma PartSplit(acc: ParsedBody, header: seq<byte>, content: seq<byte>, decode: seq<byte> -> string)
    requires forall i: nat :: i < |header| ==> !OccursAt(header + CRLFCRLF + content, CRLFCRLF, i)
    ensures DispatchPart(acc, header + CRLFCRLF + content, decode) == Dispatch(acc, decode(header), content, decode)
  {
    var part := header + CRLFCRLF + content;
    assert part[|header|..|header| + 4] == CRLFCRLF;
    IndexOfIs(part, CRLFCRLF, 0, |header|);
    assert part[..|header|] == header;
    assert part[|header| + 4..] == content;
  }

  /**
    The `face` part stores its content verbatim and the trimmed media type of
    its headers (image/jpeg when it has none); the text slots are untouched.
   */
  lemma DispatchFace(acc: ParsedBody, headerText: string, content: seq<byte>, decode: seq<byte> -> string)
    requires FieldNameOf(headerText) == "face"
    ensures var r := Dispatch(acc, headerText, content, decode);
      && r.faceBuffer == Some(content)
      && r.faceMimeType == Some(MimeTypeOf(headerText))
      && SameTextSlots(r, acc)
  {
  }

  /** A text part stores its sanitised, decoded content in its own slot and nowhere else. */
  lemma DispatchText(acc: ParsedBody, headerText: string, content: seq<byte>, decode: seq<byte> -> string)
    requires FieldNameOf(headerText) in {"name", "job", "phone"}
    ensures var r := Dispatch(acc, headerText, content, decode);
      && SameFaceSlots(r, acc)
      && (if FieldNameOf(headerText) == "name" then r.name == SanitizeText(decode(content)) else r.name == acc.name)
      && (if FieldNameOf(headerText) == "job" then r.job == SanitizeText(decode(content)) else r.job == acc.job)
      && (if FieldNameOf(headerText) == "phone" then r.phone == SanitizeText(decode(content)) else r.phone == acc.phone)
  {
  }

  /** A part with any other name, or with no `name="..."` at all, changes nothing. */
  lemma DispatchIgnored(acc: ParsedBody, headerText: string, content: seq<byte>, decode: seq<byte> -> string)
    requires FieldNameOf(headerText) !in {"face", "name", "job", "phone"}
    ensures Dispatch(acc, headerText, content, decode) == acc
  {
  }

  /** The slot a part writes does not depend on what it held: of two parts with the same name, the later wins. */
  lemma DispatchOverwrites(acc: ParsedBody, h1: string, c1: seq<byte>, h2: string, c2: seq<byte>, decode: seq<byte> -> string)
    requires FieldNameOf(h1) == FieldNameOf(h2)
    ensures Dispatch(Dispatch(acc, h1, c1, decode), h2, c2, decode) == Dispatch(acc, h2, c2, decode)
  {
    var mid := Dispatch(acc, h1, c1, decode);
    var f := FieldNameOf(h2);
    if f == "face" {
      assert Dispatch(mid, h2, c2, decode) == mid.(faceBuffer := Some(c2), faceMimeType := Some(MimeTypeOf(h2)));
    } else if f == "name" {
      assert Dispatch(mid, h2, c2, decode) == mid.(name := SanitizeText(decode(c2)));
    } else if f == "job" {
      assert Dispatch(mid, h2, c2, decode) == mid.(job := SanitizeText(decode(c2)));
    } else if f == "phone" {
      assert Dispatch(mid, h2, c2, decode) == mid.(phone := SanitizeText(decode(c2)));
    }
  }

  // ---------------------------------------------------------------------------
  // The scan loop (generate.ts:64-109)
  // ---------------------------------------------------------------------------

  /** What one iteration of the loop does: leave it, or hand a part to the record and move the cursor. */
  datatype Iteration = Stop | Next(part: seq<byte>, cursor: nat)

  /**
    One iteration from cursor `lastIndex`.  The loop is left when no
    delimiter is found from the cursor, when the two bytes after it decode to
    "--", or when no further delimiter follows; otherwise the part is the
    clamped range from two bytes past the delimiter to two bytes before the
    next one, and the cursor moves to that next delimiter.
   */
  function Step(body: seq<byte>, delim: seq<byte>, lastIndex: nat, decode: seq<byte> -> string): (r: Iteration)
    requires |delim| > 0
    ensures r.Next? ==> lastIndex < r.cursor && r.cursor + |delim| <= |body| && OccursAt(body, delim, r.cursor)
    ensures r.Next? ==> |r.part| <= |body|
  {
    StepFrom(body, delim, IndexOf(body, delim, lastIndex), decode)
  }

  /** The rest of an iteration, once the search for the delimiter from the cursor ended at `startIndex`. */
  function StepFrom(body: seq<byte>, delim: seq<byte>, startIndex: int, decode: seq<byte> -> string): (r: Iteration)
    requires |delim| > 0 && -1 <= startIndex
    ensures r.Next? ==> startIndex < r.cursor && r.cursor + |delim| <= |body| && OccursAt(body, delim, r.cursor)
    ensures r.Next? ==> |r.part| <= |body|
  {
    if startIndex == -1 then Stop
    else
      var afterBoundary := startIndex + |delim|;
      if decode(Slice(body, afterBoundary, afterBoundary + 2)) == "--" then Stop
      else
        var startOfPart := afterBoundary + 2;
        var nextBoundaryIndex := IndexOf(body, delim, startOfPart);
        if nextBoundaryIndex == -1 then Stop
        else Next(Slice(body, startOfPart, nextBoundaryIndex - 2), nextBoundaryIndex)
  }

  /** The loop from cursor `lastIndex` with record `acc`: the record when the loop is left. */
  function Scan(body: seq<byte>, delim: seq<byte>, lastIndex: nat, acc: ParsedBody, decode: seq<byte> -> string): (r: ParsedBody)
    requires |delim| > 0
    ensures WellFormed(acc) ==> WellFormed(r)
    ensures FaceFitsIn(acc, |body|) ==> FaceFitsIn(r, |body|)
    decreases |body| - lastIndex
  {
    match Step(body, delim, lastIndex, decode)
    case Stop => acc
    case Next(part, cursor) => Scan(body, delim, cursor, DispatchPart(acc, part, decode), decode)
  }

  /**
    `parseMultipart(body, contentType)`: the empty record without a boundary;
    otherwise a well-formed record whose face bytes came out of the body.
   */
  function Parse(contentType: string, body: seq<byte>, decode: seq<byte> -> string): (r: ParsedBody)
    ensures BoundaryOf(contentType).None? ==> r == Empty
    ensures WellFormed(r)
    ensures FaceFitsIn(r, |body|)
  {
    match BoundaryOf(contentType)
    case None => Empty
    case Some(boundary) => Scan(body, Delimiter(boundary), 0, Empty, decode)
  }

  /**
    The body of the loop for one part (generate.ts:83-106): without a
    CRLFCRLF the part is skipped (the source's `continue`); otherwise the slot
    its field name selects is overwritten, slot by slot as the source does.
   */
  method ParsePart(result: ParsedBody, partBuffer: seq<byte>, decode: seq<byte> -> string) returns (updated: ParsedBody)
    ensures updated == DispatchPart(result, partBuffer, decode)
  {
    updated := result;
    var headerEndIndex := IndexOf(partBuffer, CRLFCRLF, 0);
    if headerEndIndex == -1 {
      return;
    }
    var headerText := decode(partBuffer[..headerEndIndex]);
    var content := partBuffer[headerEndIndex + 4..];
    DispatchPartAt(result, partBuffer, decode, headerEndIndex);
    var fieldName := FieldNameOf(headerText);
    if fieldName == "face" {
      updated := updated.(faceBuffer := Some(content));
      updated := updated.(faceMimeType := Some(Trim(ContentTypeOf(headerText).GetOr("image/jpeg"))));
    } else if fieldName == "name" {
      updated := updated.(name := SanitizeText(decode(content)));
    } else if fieldName == "job" {
      updated := updated.(job := SanitizeText(decode(content)));
    } else if fieldName == "phone" {
      updated := updated.(phone := SanitizeText(decode(content)));
    }
  }

  /**
    The searches at the head of the loop (generate.ts:65-80): each of the
    source's three `break`s returns `Stop`; otherwise the part's bytes and the
    next cursor are returned.
   */
  method FindPart(body: seq<byte>, boundaryBuffer: seq<byte>, lastIndex: nat, decode: seq<byte> -> string)
    returns (step: Iteration)
    requires |boundaryBuffer| > 0
    ensures step == Step(body, boundaryBuffer, lastIndex, decode)
  {
    var startIndex := IndexOf(body, boundaryBuffer, lastIndex);
    if startIndex == -1 {
      return Stop;
    }
    var afterBoundary := startIndex + |boundaryBuffer|;
    var nextTwo := Slice(body, afterBoundary, afterBoundary + 2);
    if decode(nextTwo) == "--" {
      return Stop;
    }
    var startOfPart := afterBoundary + 2;
    var nextBoundaryIndex := IndexOf(body, boundaryBuffer, startOfPart);
    if nextBoundaryIndex == -1 {
      return Stop;
    }
    var partBuffer := Slice(body, startOfPart, nextBoundaryIndex - 2);
    return Next(partBuffer, nextBoundaryIndex);
  }

  /**
    `parseMultipart` (generate.ts:48-112): the record starts empty, stays
    empty without a boundary, and otherwise each part the loop finds updates it.
   */
  method ParseMultipart(body: seq<byte>, contentType: string, decode: seq<byte> -> string) returns (result: ParsedBody)
    ensures result == Parse(contentType, body, decode)
  {
    result := ParsedBody("", "", "", None, None);
    var boundary := BoundaryOf(contentType);
    if boundary.None? {
      return;
    }
    var boundaryBuffer := Delimiter(boundary.value);
    var lastIndex: nat := 0;
    while true
      invariant Scan(body, boundaryBuffer, lastIndex, result, decode) == Parse(contentType, body, decode)
      decreases |body| - lastIndex
    {
      var step := FindPart(body, boundaryBuffer, lastIndex, decode);
      if step.Stop? {
        break;
      }
      result := ParsePart(result, step.part, decode);
      lastIndex := step.cursor;
    }
  }

  // ---------------------------------------------------------------------------
  // Properties of the scan
  // ---------------------------------------------------------------------------

  /** Without a case-insensitive `boundary=` in the Content-Type the result is the empty record. */
  lemma NoBoundaryGivesEmpty(contentType: string, body: seq<byte>, decode: seq<byte> -> string)
    requires forall p: nat :: !MatchesIgnoringCase(contentType, p, "boundary=")
    ensures Parse(contentType, body, decode) == Empty
  {
    NoBoundaryParameter(contentType);
  }

  /** With no delimiter at or after the cursor the loop ends, keeping what earlier parts filled. */
  lemma ScanStopsWithoutDelimiter(body: seq<byte>, delim: seq<byte>, lastIndex: nat, acc: ParsedBody, decode: seq<byte> -> string)
    requires |delim| > 0
    requires forall i: nat :: lastIndex <= i ==> !OccursAt(body, delim, i)
    ensures Scan(body, delim, lastIndex, acc, decode) == acc
  {
  }

  /**
    The close delimiter: when the first delimiter at or after the cursor is
    followed by bytes that decode to "--", the loop ends with the record as
    it is.
   */
  lemma ScanStopsAtCloseDelimiter(body: seq<byte>, delim: seq<byte>, lastIndex: nat, at: nat, acc: ParsedBody, decode: seq<byte> -> string)
    requires |delim| > 0 && lastIndex <= at && OccursAt(body, delim, at)
    requires forall i: nat :: lastIndex <= i < at ==> !OccursAt(body, delim, i)
    requires decode(Slice(body, at + |delim|, at + |delim| + 2)) == "--"
    ensures Scan(body, delim, lastIndex, acc, decode) == acc
  {
    IndexOfIs(body, delim, lastIndex, at);
    assert Step(body, delim, lastIndex, decode) == Stop;
  }

  /**
    A truncated stream: when no delimiter follows the one found at or after
    the cursor, the loop ends with the record as it is (partial result).
   */
  lemma ScanStopsWithoutNextDelimiter(body: seq<byte>, delim: seq<byte>, lastIndex: nat, at: nat, acc: ParsedBody, decode: seq<byte> -> string)
    requires |delim| > 0 && lastIndex <= at && OccursAt(body, delim, at)
    requires forall i: nat :: lastIndex <= i < at ==> !OccursAt(body, delim, i)
    requires forall i: nat :: at + |delim| + 2 <= i ==> !OccursAt(body, delim, i)
    ensures Scan(body, delim, lastIndex, acc, decode) == acc
  {
    IndexOfIs(body, delim, lastIndex, at);
  }

  /**
    An inner delimiter at `at` followed by the next delimiter at `next`:
    the part is the clamped byte range `[at + |delim| + 2, next - 2)`, the
    record is updated by that part alone, and the scan resumes at `next`.
    The search for `next` does not ask for a CRLF in front of it, so a
    delimiter inside a part's content cuts the part short.
   */
  lemma ScanPart(body: seq<byte>, delim: seq<byte>, lastIndex: nat, at: nat, next: nat, acc: ParsedBody, decode: seq<byte> -> string)
    requires |delim| > 0 && lastIndex <= at && OccursAt(body, delim, at)
    requires forall i: nat :: lastIndex <= i < at ==> !OccursAt(body, delim, i)
    requires decode(Slice(body, at + |delim|, at + |delim| + 2)) != "--"
    requires at + |delim| + 2 <= next && OccursAt(body, delim, next)
    requires forall i: nat :: at + |delim| + 2 <= i < next ==> !OccursAt(body, delim, i)
    ensures Scan(body, delim, lastIndex, acc, decode)
         == Scan(body, delim, next, DispatchPart(acc, Slice(body, at + |delim| + 2, next - 2), decode), decode)
  {
    IndexOfIs(body, delim, lastIndex, at);
    IndexOfIs(body, delim, at + |delim| + 2, next);
    assert Step(body, delim, lastIndex, decode) == Next(Slice(body, at + |delim| + 2, next - 2), next);
  }

  /**
    The clamped part range is empty when the next delimiter starts less than
    two bytes past the end of the previous one; such a part holds no
    separator and is skipped.
   */
  lemma ShortPartIsSkipped(body: seq<byte>, start: nat, next: nat, acc: ParsedBody, decode: seq<byte> -> string)
    requires 2 <= start <= next < start + 2
    ensures Slice(body, start, next - 2) == []
    ensures DispatchPart(acc, Slice(body, start, next - 2), decode) == acc
  {
  }
}
