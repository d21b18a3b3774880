/**
  The other direction of the multipart decoder: how a client lays a form out
  as bytes, and what `parseMultipart` makes of such a body.  A body is an
  optional preamble, then for each part the delimiter, a CRLF, the part's
  bytes and a CRLF, and finally a delimiter followed by whatever the client
  closes with (normally "--").  Decoding such a body is the same as applying
  the parts to the empty record one after the other, provided no part holds
  a delimiter of its own.
 */
module Composition {
  import opened Wrappers
  import opened Buffers
  import opened Text
  import opened Patterns
  import opened Multipart

  /** One part as it sits in the body: delimiter, CRLF, the part's bytes, CRLF. */
  function Chunk(delim: seq<byte>, part: seq<byte>): (r: seq<byte>)
    ensures |r| == |delim| + |part| + 4
  {
    delim + CRLF + part + CRLF
  }

  /** The parts laid out one after the other, in order. */
  function EncodeParts(delim: seq<byte>, parts: seq<seq<byte>>): seq<byte>
  {
    if parts == [] then [] else Chunk(delim, parts[0]) + EncodeParts(delim, parts[1..])
  }

  /** A whole body: preamble, the parts, the final delimiter and the closing bytes. */
  function EncodeBody(preamble: seq<byte>, delim: seq<byte>, parts: seq<seq<byte>>, suffix: seq<byte>): seq<byte>
  {
    preamble + EncodeParts(delim, parts) + delim + suffix
  }

  /**
    No delimiter starts inside the part or inside the CRLF after it, even one
    that would run on into the delimiter that follows.
   */
  predicate DelimiterFree(delim: seq<byte>, part: seq<byte>) {
    forall j: nat :: j < |part| + 2 ==> !OccursAt(part + CRLF + delim, delim, j)
  }

  /** No delimiter starts inside the preamble, even one running on into the first delimiter. */
  predicate PreambleFree(delim: seq<byte>, preamble: seq<byte>) {
    forall j: nat :: j < |preamble| ==> !OccursAt(preamble + delim, delim, j)
  }

  /**
    The bytes after the final delimiter end the loop: either their first two
    decode to "--", or no delimiter starts after those two.
   */
  ghost predicate Closes(delim: seq<byte>, suffix: seq<byte>, decode: seq<byte> -> string) {
    decode(Slice(suffix, 0, 2)) == "--" || forall j: nat :: 2 <= j ==> !OccursAt(suffix, delim, j)
  }

  /** The reference meaning of a sequence of parts: each updates the record in turn. */
  function FoldParts(acc: ParsedBody, parts: seq<seq<byte>>, decode: seq<byte> -> string): ParsedBody
    decreases |parts|
  {
    if parts == [] then acc else FoldParts(DispatchPart(acc, parts[0], decode), parts[1..], decode)
  }

  // ---------------------------------------------------------------------------
  // Searching inside an encoded body
  // ---------------------------------------------------------------------------

  /** A search over a stretch without occurrences gives the same answer as one from its end. */
  lemma IndexOfSkips<T>(s: seq<T>, pat: seq<T>, from: nat, to: nat)
    requires from <= to
    requires forall i: nat :: from <= i < to ==> !OccursAt(s, pat, i)
    ensures IndexOf(s, pat, from) == IndexOf(s, pat, to)
  {
    var t := IndexOf(s, pat, to);
    if t != -1 {
      IndexOfIs(s, pat, from, t);
    }
  }

  /** An occurrence inside a stretch of `s` known to equal `w` is an occurrence in `w`. */
  lemma OccursInside<T>(s: seq<T>, w: seq<T>, off: nat, pat: seq<T>, j: nat)
    requires off + |w| <= |s| && s[off..off + |w|] == w
    requires j + |pat| <= |w|
    ensures OccursAt(s, pat, off + j) == OccursAt(w, pat, j)
  {
    var a := s[off + j..off + j + |pat|];
    var b := w[j..j + |pat|];
    forall k | 0 <= k < |pat|
      ensures a[k] == b[k]
    {
      assert a[k] == s[off + j + k] == s[off..off + |w|][j + k];
    }
    assert a == b;
  }

  /** An iteration whose three searches all succeed hands on the range between the delimiters. */
  lemma StepFinds(body: seq<byte>, delim: seq<byte>, lastIndex: nat, decode: seq<byte> -> string,
                  start: nat, startOfPart: nat, end: nat, next: nat)
    requires |delim| > 0
    requires IndexOf(body, delim, lastIndex) == start
    requires decode(Slice(body, start + |delim|, start + |delim| + 2)) != "--"
    requires startOfPart == start + |delim| + 2 && next == end + 2
    requires IndexOf(body, delim, startOfPart) == next
    ensures Step(body, delim, lastIndex, decode) == Next(Slice(body, startOfPart, end), next)
  {
    assert next - 2 == end;
  }

  /** Where the pieces of a chunk sit in a body. */
  lemma ChunkLayout(pre: seq<byte>, delim: seq<byte>, part: seq<byte>, rest: seq<byte>)
    ensures var body := pre + Chunk(delim, part) + delim + rest;
      var x := |pre| + |delim| + 2;
      && body[|pre|..|pre| + |delim|] == delim
      && body[|pre| + |delim|..x] == CRLF
      && body[x..x + |part| + 2 + |delim|] == part + CRLF + delim
  {
  }

  /** A delimiter right at the cursor is found there. */
  lemma FindsDelimiterAt<T>(s: seq<T>, delim: seq<T>, i: nat)
    requires i + |delim| <= |s| && s[i..i + |delim|] == delim
    ensures IndexOf(s, delim, i) == i
  {
    IndexOfIs(s, delim, i, i);
  }

  /** From the start of a delimiter-free part, the next delimiter found is the one after its CRLF. */
  lemma FindsDelimiterAfter(s: seq<byte>, x: nat, delim: seq<byte>, part: seq<byte>)
    requires DelimiterFree(delim, part)
    requires x + |part| + 2 + |delim| <= |s| && s[x..x + |part| + 2 + |delim|] == part + CRLF + delim
    ensures IndexOf(s, delim, x) == x + |part| + 2
  {
    var w := part + CRLF + delim;
    forall i: nat | x <= i < x + |part| + 2
      ensures !OccursAt(s, delim, i)
    {
      OccursInside(s, w, x, delim, i - x);
    }
    OccursInside(s, w, x, delim, |part| + 2);
    assert w[|part| + 2..] == delim;
    IndexOfIs(s, delim, x, x + |part| + 2);
  }

  /**
    At a delimiter followed by CRLF, a delimiter-free part, CRLF and the
    next delimiter, the loop hands on that part and moves to the next delimiter.
   */
  lemma StepAtDelimitedPart(s: seq<byte>, delim: seq<byte>, at: nat, part: seq<byte>, decode: seq<byte> -> string)
    requires |delim| > 0 && decode(CRLF) != "--"
    requires DelimiterFree(delim, part)
    requires var x := at + |delim| + 2;
      && x + |part| + 2 + |delim| <= |s|
      && s[at..at + |delim|] == delim
      && s[at + |delim|..x] == CRLF
      && s[x..x + |part| + 2 + |delim|] == part + CRLF + delim
    ensures Step(s, delim, at, decode) == Next(part, at + |delim| + |part| + 4)
  {
    var x := at + |delim| + 2;
    FindsDelimiterAt(s, delim, at);
    assert Slice(s, at + |delim|, x) == CRLF;
    FindsDelimiterAfter(s, x, delim, part);
    assert s[x..x + |part|] == (part + CRLF + delim)[..|part|] == part;
    StepFinds(s, delim, at, decode, at, x, x + |part|, x + |part| + 2);
  }

  /**
    At the delimiter that opens a chunk the loop hands on exactly that
    chunk's part and moves to the delimiter after it.
   */
  lemma StepAtChunk(pre: seq<byte>, delim: seq<byte>, part: seq<byte>, rest: seq<byte>, decode: seq<byte> -> string)
    requires |delim| > 0 && decode(CRLF) != "--"
    requires DelimiterFree(delim, part)
    ensures var body := pre + Chunk(delim, part) + delim + rest;
      Step(body, delim, |pre|, decode) == Next(part, |pre| + |delim| + |part| + 4)
  {
    ChunkLayout(pre, delim, part, rest);
    StepAtDelimitedPart(pre + Chunk(delim, part) + delim + rest, delim, |pre|, part, decode);
  }

  /** At the final delimiter the loop stops. */
  lemma StepAtClose(pre: seq<byte>, delim: seq<byte>, suffix: seq<byte>, decode: seq<byte> -> string)
    requires |delim| > 0
    requires Closes(delim, suffix, decode)
    ensures Step(pre + delim + suffix, delim, |pre|, decode) == Stop
  {
    var body := pre + delim + suffix;
    var e := |pre| + |delim|;
    assert body[|pre|..e] == delim;
    IndexOfIs(body, delim, |pre|, |pre|);
    assert body[e..] == suffix;
    assert Slice(body, e, e + 2) == Slice(suffix, 0, 2);
    if decode(Slice(suffix, 0, 2)) != "--" {
      forall i: nat | e + 2 <= i
        ensures !OccursAt(body, delim, i)
      {
        if i + |delim| <= |body| {
          OccursInside(body, suffix, e, delim, i - e);
        }
      }
    }
  }

  // ---------------------------------------------------------------------------
  // The round trip
  // ---------------------------------------------------------------------------

  /** From the delimiter that opens the parts, the loop applies the parts in order. */
  lemma {:induction false} ScanEncoded(pre: seq<byte>, delim: seq<byte>, parts: seq<seq<byte>>, suffix: seq<byte>,
                                       acc: ParsedBody, decode: seq<byte> -> string)
    requires |delim| > 0 && decode(CRLF) != "--"
    requires forall i :: 0 <= i < |parts| ==> DelimiterFree(delim, parts[i])
    requires Closes(delim, suffix, decode)
    ensures Scan(pre + EncodeParts(delim, parts) + delim + suffix, delim, |pre|, acc, decode) == FoldParts(acc, parts, decode)
    decreases |parts|
  {
    var body := pre + EncodeParts(delim, parts) + delim + suffix;
    if parts == [] {
      assert body == pre + delim + suffix;
      StepAtClose(pre, delim, suffix, decode);
    } else {
      var part := parts[0];
      assert parts == [part] + parts[1..];
      ScanEncodedStep(pre, delim, part, parts[1..], suffix, acc, decode);
      ScanEncoded(pre + Chunk(delim, part), delim, parts[1..], suffix, DispatchPart(acc, part, decode), decode);
    }
  }

  /** One part of the induction: the first chunk is consumed and the scan goes on after it. */
  lemma ScanEncodedStep(pre: seq<byte>, delim: seq<byte>, part: seq<byte>, parts: seq<seq<byte>>, suffix: seq<byte>,
                        acc: ParsedBody, decode: seq<byte> -> string)
    requires |delim| > 0 && decode(CRLF) != "--"
    requires DelimiterFree(delim, part)
    ensures var pre' := pre + Chunk(delim, part);
      Scan(pre + EncodeParts(delim, [part] + parts) + delim + suffix, delim, |pre|, acc, decode)
        == Scan(pre' + EncodeParts(delim, parts) + delim + suffix, delim, |pre'|, DispatchPart(acc, part, decode), decode)
  {
    var pre' := pre + Chunk(delim, part);
    var tail := EncodeParts(delim, parts) + delim + suffix;
    assert ([part] + parts)[1..] == parts;
    var body := pre + EncodeParts(delim, [part] + parts) + delim + suffix;
    assert body == pre' + tail;
    assert body == pre' + EncodeParts(delim, parts) + delim + suffix;
    if parts == [] {
      assert body == pre + Chunk(delim, part) + delim + suffix;
      StepAtChunk(pre, delim, part, suffix, decode);
    } else {
      var after := EncodeParts(delim, parts)[|delim|..] + delim + suffix;
      assert EncodeParts(delim, parts) == Chunk(delim, parts[0]) + EncodeParts(delim, parts[1..]);
      assert EncodeParts(delim, parts)[..|delim|] == delim;
      assert tail == delim + after;
      assert body == pre + Chunk(delim, part) + delim + after;
      StepAtChunk(pre, delim, part, after, decode);
    }
  }

  /** A laid-out body starts with its preamble and the first delimiter. */
  lemma BodyOpens(preamble: seq<byte>, delim: seq<byte>, parts: seq<seq<byte>>, suffix: seq<byte>)
    ensures var body := EncodeBody(preamble, delim, parts, suffix);
      |preamble| + |delim| <= |body| && body[..|preamble| + |delim|] == preamble + delim
  {
    var e := EncodeParts(delim, parts);
    if parts == [] {
      assert EncodeBody(preamble, delim, parts, suffix)[..|preamble| + |delim|] == preamble + delim;
    } else {
      var c := Chunk(delim, parts[0]);
      assert e == c + EncodeParts(delim, parts[1..]);
      assert e[..|delim|] == delim;
      assert EncodeBody(preamble, delim, parts, suffix)[..|preamble| + |delim|] == preamble + e[..|delim|];
    }
  }

  /** Starting the loop before a stretch that holds no delimiter is starting it after that stretch. */
  lemma ScanSkips(body: seq<byte>, delim: seq<byte>, from: nat, to: nat, acc: ParsedBody, decode: seq<byte> -> string)
    requires |delim| > 0 && from <= to
    requires forall i: nat :: from <= i < to ==> !OccursAt(body, delim, i)
    ensures Scan(body, delim, from, acc, decode) == Scan(body, delim, to, acc, decode)
  {
    IndexOfSkips(body, delim, from, to);
    assert Step(body, delim, from, decode) == Step(body, delim, to, decode);
  }

  /** The loop over a laid-out body, from its first byte, applies the parts in order. */
  lemma ScanEncodedBody(preamble: seq<byte>, delim: seq<byte>, parts: seq<seq<byte>>, suffix: seq<byte>,
                        decode: seq<byte> -> string)
    requires |delim| > 0 && decode(CRLF) != "--"
    requires PreambleFree(delim, preamble)
    requires forall i :: 0 <= i < |parts| ==> DelimiterFree(delim, parts[i])
    requires Closes(delim, suffix, decode)
    ensures Scan(EncodeBody(preamble, delim, parts, suffix), delim, 0, Empty, decode) == FoldParts(Empty, parts, decode)
  {
    var body := EncodeBody(preamble, delim, parts, suffix);
    BodyOpens(preamble, delim, parts, suffix);
    forall i: nat | i < |preamble|
      ensures !OccursAt(body, delim, i)
    {
      OccursInside(body, preamble + delim, 0, delim, i);
    }
    ScanSkips(body, delim, 0, |preamble|, Empty, decode);
    ScanEncoded(preamble, delim, parts, suffix, Empty, decode);
  }

  /**
    The round trip: a body laid out from a sequence of delimiter-free parts,
    with the boundary the Content-Type names, decodes to the record those
    parts give when applied in order to the empty record.  The preamble is
    skipped and nothing after the closing delimiter is read.
   */
  lemma ParseEncodedBody(contentType: string, boundary: string, preamble: seq<byte>, parts: seq<seq<byte>>,
                         suffix: seq<byte>, decode: seq<byte> -> string)
    requires BoundaryOf(contentType) == Some(boundary)
    requires decode(CRLF) != "--"
    requires PreambleFree(Delimiter(boundary), preamble)
    requires forall i :: 0 <= i < |parts| ==> DelimiterFree(Delimiter(boundary), parts[i])
    requires Closes(Delimiter(boundary), suffix, decode)
    ensures Parse(contentType, EncodeBody(preamble, Delimiter(boundary), parts, suffix), decode)
         == FoldParts(Empty, parts, decode)
  {
    ScanEncodedBody(preamble, Delimiter(boundary), parts, suffix, decode);
  }

  // ---------------------------------------------------------------------------
  // What a sequence of parts leaves in each slot
  // ---------------------------------------------------------------------------

  /** The field name a part's headers give it; "" for a part without headers or without a name. */
  function PartField(part: seq<byte>, decode: seq<byte> -> string): string {
    var headerEnd := IndexOf(part, CRLFCRLF, 0);
    if headerEnd == -1 then "" else FieldNameOf(decode(part[..headerEnd]))
  }

  /** A part's header text; "" for a part without a CRLFCRLF. */
  function PartHeader(part: seq<byte>, decode: seq<byte> -> string): string {
    var headerEnd := IndexOf(part, CRLFCRLF, 0);
    if headerEnd == -1 then "" else decode(part[..headerEnd])
  }

  /** A part's content, every byte after its first CRLFCRLF; empty for a part without one. */
  function PartContent(part: seq<byte>): seq<byte> {
    var headerEnd := IndexOf(part, CRLFCRLF, 0);
    if headerEnd == -1 then [] else part[headerEnd + 4..]
  }

  /** `DispatchPart` in terms of the three views of a part. */
  lemma DispatchPartViews(acc: ParsedBody, part: seq<byte>, decode: seq<byte> -> string)
    ensures DispatchPart(acc, part, decode) == Dispatch(acc, PartHeader(part, decode), PartContent(part), decode)
              || (DispatchPart(acc, part, decode) == acc && PartField(part, decode) == "")
    ensures PartField(part, decode) == FieldNameOf(PartHeader(part, decode)) || PartField(part, decode) == ""
  {
  }

  /** A form part as a client writes it: its header lines, encoded, then CRLFCRLF and the content. */
  function FormPart(header: string, content: seq<byte>): seq<byte> {
    Utf8Encode(header) + CRLFCRLF + content
  }

  /**
    No CRLFCRLF starts inside the encoded header lines, even one that runs on
    into the separator after them: the header neither holds an empty line
    nor ends in part of a line break.
   */
  predicate HeaderFree(hb: seq<byte>) {
    forall i: nat :: i < |hb| ==> !OccursAt(hb + CRLFCRLF, CRLFCRLF, i)
  }

  /** Two header lines without carriage returns, joined by CRLF, hold no separator. */
  lemma TwoLinesFree(first: string, second: string)
    requires '\r' !in first && '\r' !in second && second != []
    ensures HeaderFree(Utf8Encode(first + "\r\n" + second))
  {
    Utf8EncodeAppend(first, "\r\n");
    Utf8EncodeAppend(first + "\r\n", second);
    assert Utf8Encode("\r\n") == CRLF;
    Utf8EncodeNoCr(first);
    Utf8EncodeNoCr(second);
    TwoByteLinesFree(Utf8Encode(first), Utf8Encode(second));
  }

  /** The same on bytes: two lines without the byte 13, joined by CRLF. */
  lemma TwoByteLinesFree(a: seq<byte>, b: seq<byte>)
    requires forall k :: 0 <= k < |a| ==> a[k] != 13
    requires forall k :: 0 <= k < |b| ==> b[k] != 13
    requires b != []
    ensures HeaderFree(a + CRLF + b)
  {
    var hb := a + CRLF + b;
    var w := hb + CRLFCRLF;
    forall i: nat | i < |hb|
      ensures !OccursAt(w, CRLFCRLF, i)
    {
      if i < |a| {
        assert w[i] == a[i];
      } else if i == |a| {
        assert w[i + 2] == b[0];
      } else if i == |a| + 1 {
        assert w[i] == 10;
      } else {
        assert w[i] == b[i - |a| - 2];
      }
      NoSeparatorAt(w, i);
    }
  }

  /** A separator needs the byte 13 at its first and third places. */
  lemma NoSeparatorAt(w: seq<byte>, i: nat)
    requires i + 4 <= |w| && (w[i] != 13 || w[i + 2] != 13)
    ensures !OccursAt(w, CRLFCRLF, i)
  {
    assert w[i..i + 4][0] == w[i] && w[i..i + 4][2] == w[i + 2];
  }

  /**
    A form part whose header lines hold no separator, read back by a decoder
    that returns their text, has exactly that header and content.
   */
  lemma FormPartViews(header: string, content: seq<byte>, decode: seq<byte> -> string)
    requires HeaderFree(Utf8Encode(header))
    requires decode(Utf8Encode(header)) == header
    ensures PartHeader(FormPart(header, content), decode) == header
    ensures PartField(FormPart(header, content), decode) == FieldNameOf(header)
    ensures PartContent(FormPart(header, content)) == content
  {
    FormPartSeparator(header, content);
  }

  /** The first CRLFCRLF of such a part is the one after its header lines. */
  lemma FormPartSeparator(header: string, content: seq<byte>)
    requires HeaderFree(Utf8Encode(header))
    ensures var hb := Utf8Encode(header); var part := FormPart(header, content);
      IndexOf(part, CRLFCRLF, 0) == |hb| && part[..|hb|] == hb && part[|hb| + 4..] == content
  {
    var hb := Utf8Encode(header);
    var part := FormPart(header, content);
    assert part[..|hb| + 4] == hb + CRLFCRLF;
    forall i: nat | i < |hb|
      ensures !OccursAt(part, CRLFCRLF, i)
    {
      OccursInside(part, hb + CRLFCRLF, 0, CRLFCRLF, i);
    }
    assert part[|hb|..|hb| + 4] == CRLFCRLF;
    IndexOfIs(part, CRLFCRLF, 0, |hb|);
    assert part[..|hb|] == hb;
    assert part[|hb| + 4..] == content;
  }

  /** The index of the last element of `xs` that satisfies `p`, or -1 when none does. */
  function LastIndexWith<T>(xs: seq<T>, p: T -> bool): (r: int)
    ensures -1 <= r < |xs|
    ensures r != -1 ==> p(xs[r])
    ensures forall j :: r < j < |xs| ==> !p(xs[j])
    decreases |xs|
  {
    if xs == [] then -1
    else if p(xs[|xs| - 1]) then |xs| - 1
    else
      var r := LastIndexWith(xs[..|xs| - 1], p);
      assert forall j :: 0 <= j < |xs| - 1 ==> xs[..|xs| - 1][j] == xs[j];
      r
  }

  /** The index of the last of the parts whose field name is `field`, or -1. */
  function LastNamed(parts: seq<seq<byte>>, field: string, decode: seq<byte> -> string): (r: int)
    ensures -1 <= r < |parts|
  {
    LastIndexWith(parts, part => PartField(part, decode) == field)
  }

  /** The text slot a field name selects. */
  function TextSlot(r: ParsedBody, field: string): string
    requires field in {"name", "job", "phone"}
  {
    if field == "name" then r.name else if field == "job" then r.job else r.phone
  }

  /** A part with given header text writes the text slot its name selects, and no other. */
  lemma DispatchTextSlot(acc: ParsedBody, headerText: string, content: seq<byte>, field: string, decode: seq<byte> -> string)
    requires field in {"name", "job", "phone"}
    ensures TextSlot(Dispatch(acc, headerText, content, decode), field)
         == if FieldNameOf(headerText) == field then SanitizeText(decode(content)) else TextSlot(acc, field)
  {
    var f := FieldNameOf(headerText);
    var r := Dispatch(acc, headerText, content, decode);
    if f == "face" {
      assert r == acc.(faceBuffer := Some(content), faceMimeType := Some(MimeTypeOf(headerText)));
    } else if f == "name" {
      assert r == acc.(name := SanitizeText(decode(content)));
    } else if f == "job" {
      assert r == acc.(job := SanitizeText(decode(content)));
    } else if f == "phone" {
      assert r == acc.(phone := SanitizeText(decode(content)));
    } else {
      assert r == acc;
    }
  }

  /** Applying a sequence of parts splits at any point. */
  lemma {:induction false} FoldPartsAppend(acc: ParsedBody, a: seq<seq<byte>>, b: seq<seq<byte>>, decode: seq<byte> -> string)
    ensures FoldParts(acc, a + b, decode) == FoldParts(FoldParts(acc, a, decode), b, decode)
    decreases |a|
  {
    if a == [] {
      assert a + b == b;
    } else {
      assert (a + b)[0] == a[0] && (a + b)[1..] == a[1..] + b;
      FoldPartsAppend(DispatchPart(acc, a[0], decode), a[1..], b, decode);
    }
  }

  /** One part writes the text slot its name selects, with its sanitised content, and no other. */
  lemma DispatchPartTextSlot(acc: ParsedBody, part: seq<byte>, field: string, decode: seq<byte> -> string)
    requires field in {"name", "job", "phone"}
    ensures TextSlot(DispatchPart(acc, part, decode), field)
         == if PartField(part, decode) == field then SanitizeText(decode(PartContent(part))) else TextSlot(acc, field)
  {
    DispatchPartViews(acc, part, decode);
    if DispatchPart(acc, part, decode) == Dispatch(acc, PartHeader(part, decode), PartContent(part), decode) {
      DispatchTextSlot(acc, PartHeader(part, decode), PartContent(part), field, decode);
    }
  }

  /** One part with the name "face" sets both face slots; any other part leaves them alone. */
  lemma DispatchPartFaceSlots(acc: ParsedBody, part: seq<byte>, decode: seq<byte> -> string)
    ensures var r := DispatchPart(acc, part, decode);
      if PartField(part, decode) == "face" then
        r.faceBuffer == Some(PartContent(part)) && r.faceMimeType == Some(MimeTypeOf(PartHeader(part, decode)))
      else SameFaceSlots(r, acc)
  {
    DispatchPartViews(acc, part, decode);
    var h := PartHeader(part, decode);
    var c := PartContent(part);
    if DispatchPart(acc, part, decode) == Dispatch(acc, h, c, decode) {
      var f := FieldNameOf(h);
      if f == "face" {
        DispatchFace(acc, h, c, decode);
      } else if f in {"name", "job", "phone"} {
        DispatchText(acc, h, c, decode);
      } else {
        DispatchIgnored(acc, h, c, decode);
      }
    }
  }

  /**
    The later duplicate wins: after a sequence of parts, a text slot holds
    the sanitised content of the last part with that name, or what it held
    before when no part has that name.
   */
  lemma {:induction false} FoldPartsTextSlot(acc: ParsedBody, parts: seq<seq<byte>>, field: string, decode: seq<byte> -> string)
    requires field in {"name", "job", "phone"}
    ensures var i := LastNamed(parts, field, decode);
      TextSlot(FoldParts(acc, parts, decode), field)
         == if i == -1 then TextSlot(acc, field) else SanitizeText(decode(PartContent(parts[i])))
    decreases |parts|
  {
    if parts != [] {
      var init := parts[..|parts| - 1];
      var last := parts[|parts| - 1];
      assert parts == init + [last];
      FoldPartsAppend(acc, init, [last], decode);
      DispatchPartTextSlot(FoldParts(acc, init, decode), last, field, decode);
      FoldPartsTextSlot(acc, init, field, decode);
    }
  }

  /** The same for the face: its slots come from the last part named "face", if any. */
  lemma {:induction false} FoldPartsFaceSlots(acc: ParsedBody, parts: seq<seq<byte>>, decode: seq<byte> -> string)
    ensures var r := FoldParts(acc, parts, decode); var i := LastNamed(parts, "face", decode);
      if i == -1 then SameFaceSlots(r, acc)
      else r.faceBuffer == Some(PartContent(parts[i])) && r.faceMimeType == Some(MimeTypeOf(PartHeader(parts[i], decode)))
    decreases |parts|
  {
    if parts != [] {
      var init := parts[..|parts| - 1];
      var last := parts[|parts| - 1];
      assert parts == init + [last];
      FoldPartsAppend(acc, init, [last], decode);
      DispatchPartFaceSlots(FoldParts(acc, init, decode), last, decode);
      FoldPartsFaceSlots(acc, init, decode);
    }
  }

  // ---------------------------------------------------------------------------
  // What a laid-out form decodes to
  // ---------------------------------------------------------------------------

  /**
    A laid-out form decodes, in each text slot, to the sanitised content of
    the last part with that name, and to "" when no part has it.
   */
  lemma ParseEncodedTextSlot(contentType: string, boundary: string, preamble: seq<byte>, parts: seq<seq<byte>>,
                             suffix: seq<byte>, field: string, decode: seq<byte> -> string)
    requires BoundaryOf(contentType) == Some(boundary)
    requires decode(CRLF) != "--"
    requires PreambleFree(Delimiter(boundary), preamble)
    requires forall i :: 0 <= i < |parts| ==> DelimiterFree(Delimiter(boundary), parts[i])
    requires Closes(Delimiter(boundary), suffix, decode)
    requires field in {"name", "job", "phone"}
    ensures var i := LastNamed(parts, field, decode);
      TextSlot(Parse(contentType, EncodeBody(preamble, Delimiter(boundary), parts, suffix), decode), field)
         == if i == -1 then "" else SanitizeText(decode(PartContent(parts[i])))
  {
    ParseEncodedBody(contentType, boundary, preamble, parts, suffix, decode);
    FoldPartsTextSlot(Empty, parts, field, decode);
  }

  /** The same for the face: its bytes and media type come from the last part named "face", else both are null. */
  lemma ParseEncodedFaceSlots(contentType: string, boundary: string, preamble: seq<byte>, parts: seq<seq<byte>>,
                              suffix: seq<byte>, decode: seq<byte> -> string)
    requires BoundaryOf(contentType) == Some(boundary)
    requires decode(CRLF) != "--"
    requires PreambleFree(Delimiter(boundary), preamble)
    requires forall i :: 0 <= i < |parts| ==> DelimiterFree(Delimiter(boundary), parts[i])
    requires Closes(Delimiter(boundary), suffix, decode)
    ensures var r := Parse(contentType, EncodeBody(preamble, Delimiter(boundary), parts, suffix), decode);
      var i := LastNamed(parts, "face", decode);
      if i == -1 then r.faceBuffer == None && r.faceMimeType == None
      else r.faceBuffer == Some(PartContent(parts[i])) && r.faceMimeType == Some(MimeTypeOf(PartHeader(parts[i], decode)))
  {
    ParseEncodedBody(contentType, boundary, preamble, parts, suffix, decode);
    FoldPartsFaceSlots(Empty, parts, decode);
  }

  /**
    A form part whose header lines carry `name="value"` after text without a
    double quote is read back under that name, whatever further header lines
    follow; the same holds when the text before is `filename="`, so a
    `filename="..."` written before the `name` parameter gives the part the
    file's name.
   */
  lemma FormPartField(lead: string, name: string, rest: string, content: seq<byte>, decode: seq<byte> -> string)
    requires '"' !in lead && name != [] && '"' !in name
    requires HeaderFree(Utf8Encode(lead + "name=\"" + name + "\"" + rest))
    requires decode(Utf8Encode(lead + "name=\"" + name + "\"" + rest)) == lead + "name=\"" + name + "\"" + rest
    ensures PartField(FormPart(lead + "name=\"" + name + "\"" + rest, content), decode) == name
    ensures PartContent(FormPart(lead + "name=\"" + name + "\"" + rest, content)) == content
  {
    FormPartViews(lead + "name=\"" + name + "\"" + rest, content, decode);
    FieldNameAfter(lead, name, rest);
  }

  /**
    A face part as a browser writes it: a first header line carrying
    `name="face"`, a second line `Content-Type: <type>`, CRLFCRLF and the
    file's bytes.  The part stores the bytes verbatim and the trimmed type,
    and leaves the text slots as they were.
   */
  lemma FormFacePart(acc: ParsedBody, lead: string, rest: string, mime: string, content: seq<byte>,
                     decode: seq<byte> -> string)
    requires '"' !in lead && '\r' !in lead + "name=\"face\"" + rest
    requires forall i: nat :: !MatchesIgnoringCase(lead + "name=\"face\"" + rest, i, "content-type:")
    requires mime != [] && !IsJsWhitespace(mime[0])
    requires forall k :: 0 <= k < |mime| ==> !IsLineBreak(mime[k])
    requires var header := lead + "name=\"face\"" + rest + "\r\n" + "Content-Type: " + mime;
      decode(Utf8Encode(header)) == header
    ensures var header := lead + "name=\"face\"" + rest + "\r\n" + "Content-Type: " + mime;
      DispatchPart(acc, FormPart(header, content), decode)
        == acc.(faceBuffer := Some(content), faceMimeType := Some(Trim(mime)))
  {
    var first := lead + "name=\"face\"" + rest;
    var second := "Content-Type: " + mime;
    var header := first + "\r\n" + second;
    assert header == lead + "name=\"face\"" + rest + "\r\n" + "Content-Type: " + mime;
    assert '\r' !in second by {
      forall k | 0 <= k < |second|
        ensures second[k] != '\r'
      {
        if k >= 14 {
          assert second[k] == mime[k - 14];
        }
      }
    }
    TwoLinesFree(first, second);
    FormPartDispatch(acc, header, content, decode);
    FaceFieldOfLines(lead, rest, second);
    MimeTypeOfSecondLine(first, mime);
    FaceRecord(acc, header, content, decode);
  }

  /** A first line carrying `name="face"` after text without a quote names the part "face". */
  lemma FaceFieldOfLines(lead: string, rest: string, second: string)
    requires '"' !in lead
    ensures FieldNameOf(lead + "name=\"face\"" + rest + "\r\n" + second) == "face"
  {
    var tail := rest + "\r\n" + second;
    assert "name=\"" + "face" + "\"" == "name=\"face\"";
    assert lead + "name=\"face\"" + rest + "\r\n" + second == lead + "name=\"" + "face" + "\"" + tail;
    FieldNameAfter(lead, "face", tail);
  }

  /** What a part named "face" makes of the record. */
  lemma FaceRecord(acc: ParsedBody, header: string, content: seq<byte>, decode: seq<byte> -> string)
    requires FieldNameOf(header) == "face"
    ensures Dispatch(acc, header, content, decode)
         == acc.(faceBuffer := Some(content), faceMimeType := Some(MimeTypeOf(header)))
  {
  }

  /** A form part whose header lines hold no separator is dispatched on its header text and content. */
  lemma FormPartDispatch(acc: ParsedBody, header: string, content: seq<byte>, decode: seq<byte> -> string)
    requires HeaderFree(Utf8Encode(header))
    requires decode(Utf8Encode(header)) == header
    ensures DispatchPart(acc, FormPart(header, content), decode) == Dispatch(acc, header, content, decode)
  {
    FormPartSeparator(header, content);
  }
}
