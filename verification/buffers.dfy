/**
  The few operations of Node's `Buffer` (and of JavaScript strings) that the
  multipart decoder relies on: searching for a sub-sequence, clamped slicing,
  and UTF-8 encoding of a string.  Searching and slicing are generic, so the
  same definitions serve byte buffers and strings.
 */
module Buffers {

  newtype byte = x: int | 0 <= x < 256

  /** `pat` occurs in `s` starting at index `i`. */
  predicate OccursAt<T(==)>(s: seq<T>, pat: seq<T>, i: nat) {
    i + |pat| <= |s| && s[i..i + |pat|] == pat
  }

  /**
    `buf.indexOf(pat, from)` for a non-negative offset: the leftmost index at
    or after `from` where `pat` occurs, or -1 when there is none.
   */
  function IndexOf<T(==)>(s: seq<T>, pat: seq<T>, from: nat): (r: int)
    ensures r == -1 || (from <= r && OccursAt(s, pat, r))
    ensures r == -1 ==> forall i: nat :: from <= i ==> !OccursAt(s, pat, i)
    ensures r != -1 ==> forall i: nat :: from <= i < r ==> !OccursAt(s, pat, i)
    decreases |s| - from
  {
    if |s| < from + |pat| then -1
    else if OccursAt(s, pat, from) then from
    else IndexOf(s, pat, from + 1)
  }

  /** A search that meets an occurrence at `t` and none before it, from `from` on, ends at `t`. */
  lemma IndexOfIs<T>(s: seq<T>, pat: seq<T>, from: nat, t: nat)
    requires from <= t && OccursAt(s, pat, t)
    requires forall i: nat :: from <= i < t ==> !OccursAt(s, pat, i)
    ensures IndexOf(s, pat, from) == t
  {
  }

  /**
    `buf.slice(start, end)` for non-negative arguments: both ends are clamped
    to the length, and an end before the start gives the empty buffer.
   */
  function Slice<T>(s: seq<T>, start: nat, end: nat): (r: seq<T>)
    ensures start <= end <= |s| ==> r == s[start..end]
    ensures start <= |s| <= end ==> r == s[start..]
    ensures end <= start || |s| <= start ==> r == []
  {
    var lo := if start < |s| then start else |s|;
    var hi := if end < lo then lo else if end < |s| then end else |s|;
    s[lo..hi]
  }

  /** The UTF-8 encoding of one Unicode scalar value. */
  function EncodeChar(c: char): (r: seq<byte>)
    ensures 1 <= |r| <= 4
    ensures |r| == 1 <==> c as int < 0x80
    ensures |r| == 1 ==> r[0] as int == c as int
    ensures |r| > 1 ==> 0xC0 <= r[0] as int && forall k :: 1 <= k < |r| ==> 0x80 <= r[k] as int < 0xC0
  {
    var n := c as int;
    if n < 0x80 then [n as byte]
    else if n < 0x800 then [(0xC0 + n / 0x40) as byte, (0x80 + n % 0x40) as byte]
    else if n < 0x1_0000 then
      [(0xE0 + n / 0x1000) as byte, (0x80 + n / 0x40 % 0x40) as byte, (0x80 + n % 0x40) as byte]
    else
      [(0xF0 + n / 0x4_0000) as byte, (0x80 + n / 0x1000 % 0x40) as byte,
       (0x80 + n / 0x40 % 0x40) as byte, (0x80 + n % 0x40) as byte]
  }

  /** `Buffer.from(s)`: the UTF-8 encoding of a string, character by character. */
  function Utf8Encode(s: string): (r: seq<byte>)
    ensures |r| >= |s|
    ensures (forall i :: 0 <= i < |s| ==> s[i] as int < 0x80) ==>
              |r| == |s| && forall i :: 0 <= i < |s| ==> r[i] as int == s[i] as int
  {
    if s == [] then [] else EncodeChar(s[0]) + Utf8Encode(s[1..])
  }

  /** Encoding distributes over concatenation. */
  lemma {:induction false} Utf8EncodeAppend(a: string, b: string)
    ensures Utf8Encode(a + b) == Utf8Encode(a) + Utf8Encode(b)
  {
    if a == [] {
      assert a + b == b;
    } else {
      assert (a + b)[0] == a[0] && (a + b)[1..] == a[1..] + b;
      Utf8EncodeAppend(a[1..], b);
    }
  }

  /** Only a carriage return encodes to the byte 13: text without one has none in its encoding. */
  lemma {:induction false} Utf8EncodeNoCr(s: string)
    requires '\r' !in s
    ensures forall i :: 0 <= i < |Utf8Encode(s)| ==> Utf8Encode(s)[i] != 13
  {
    if s != [] {
      assert '\r' !in s[1..] by {
        assert forall k :: 0 <= k < |s[1..]| ==> s[1..][k] == s[k + 1];
      }
      Utf8EncodeNoCr(s[1..]);
      var head := EncodeChar(s[0]);
      assert s[0] != '\r';
      assert forall k :: 0 <= k < |head| ==> head[k] != 13;
    }
  }
}
