/** UTF-8 text as bytes, and the boundary helpers every pager and the chunker walk it with. */
module Utf8 {
  type Byte = b: int | 0 <= b < 256
  type Text = seq<Byte>

  /** utf8.RuneStart: every byte but a continuation byte starts a character. */
  predicate RuneStart(b: Byte) { b < 0x80 || b >= 0xC0 }

  /** The length a lead byte announces; 0 for a byte that leads nothing (section 3 of RFC 3629). */
  function Width(b: Byte): nat {
    if b < 0x80 then 1
    else if b < 0xC2 then 0
    else if b < 0xE0 then 2
    else if b < 0xF0 then 3
    else if b < 0xF5 then 4
    else 0
  }

  /** Second bytes that would be overlong, a surrogate, or past U+10FFFF are excluded (section 4 of RFC 3629). */
  predicate SecondByte(lead: Byte, b: Byte) {
    (if lead == 0xE0 then 0xA0 else if lead == 0xF0 then 0x90 else 0x80)
    <= b <=
    (if lead == 0xED then 0x9F else if lead == 0xF4 then 0x8F else 0xBF)
  }

  /** A whole character starts at i. */
  predicate CharAt(s: Text, i: nat) {
    && i < |s|
    && var w := Width(s[i]);
    && w > 0
    && i + w <= |s|
    && (w >= 2 ==> SecondByte(s[i], s[i + 1]))
    && (forall k :: i < k < i + w ==> !RuneStart(s[k]))
  }

  /** From i on, the text is a sequence of whole characters. */
  predicate ValidFrom(s: Text, i: nat)
    requires i <= |s|
    decreases |s| - i
  {
    i == |s| || (CharAt(s, i) && ValidFrom(s, i + Width(s[i])))
  }

  predicate Valid(s: Text) { ValidFrom(s, 0) }

  /** A position where text may be cut: the end, or the first byte of a character. */
  predicate Boundary(s: Text, i: int) { 0 <= i <= |s| && (i < |s| ==> RuneStart(s[i])) }

  /** utf8.DecodeRuneInString's size: 0 at the end, 1 for a byte that starts no whole character. */
  function DecodeSize(s: Text, i: nat): (n: nat)
    requires i <= |s|
    ensures i + n <= |s|
    ensures n == 0 <==> i == |s|
  {
    if i == |s| then 0 else if CharAt(s, i) then Width(s[i]) else 1
  }

  // ---- what the bytes stand for ----

  /** The code point of the character at i (section 3 of RFC 3629): six bits from each byte after the first. */
  function CodePoint(s: Text, i: nat): int
    requires CharAt(s, i)
  {
    match Width(s[i])
    case 1 => s[i]
    case 2 => Next6(s[i] as int - 0xC0, s[i + 1])
    case 3 => Next6(Next6(s[i] as int - 0xE0, s[i + 1]), s[i + 2])
    case _ => Next6(Next6(Next6(s[i] as int - 0xF0, s[i + 1]), s[i + 2]), s[i + 3])
  }

  function Next6(bits: int, b: int): int { bits * 0x40 + (b - 0x80) }

  /** The characters: every code point but the surrogates. */
  predicate Scalar(c: int) { 0 <= c < 0x110000 && !(0xD800 <= c < 0xE000) }

  function Encoded(c: int): Text
    requires Scalar(c)
  {
    if c < 0x80 then [c]
    else if c < 0x800 then [0xC0 + c / 0x40, Last6(c)]
    else if c < 0x10000 then [0xE0 + c / 0x40 / 0x40, Last6(c / 0x40), Last6(c)]
    else [0xF0 + c / 0x40 / 0x40 / 0x40, Last6(c / 0x40 / 0x40), Last6(c / 0x40), Last6(c)]
  }

  function Last6(c: int): Byte { 0x80 + c % 0x40 }

  lemma SixBits(bits: int, b: int)
    requires 0x80 <= b < 0xC0
    ensures Next6(bits, b) / 0x40 == bits && Last6(Next6(bits, b)) == b
  {
  }

  lemma BitsAgain(c: int)
    ensures Next6(c / 0x40, Last6(c)) == c
  {
  }

  /** A character is the encoding of exactly its code point, which is never a surrogate or past the last one. */
  lemma CharIsEncoded(s: Text, i: nat)
    requires CharAt(s, i)
    ensures Scalar(CodePoint(s, i)) && s[i..i + Width(s[i])] == Encoded(CodePoint(s, i))
  {
    var w, a := Width(s[i]), s[i] as int;
    assert forall k :: i < k < i + w ==> 0x80 <= s[k] < 0xC0;
    if w == 1 {
      assert s[i..i + 1] == [s[i]];
    } else if w == 2 {
      SixBits(a - 0xC0, s[i + 1]);
      assert s[i..i + 2] == [s[i], s[i + 1]];
    } else if w == 3 {
      ThreeBytes(s[i], s[i + 1], s[i + 2]);
      assert s[i..i + 3] == [s[i], s[i + 1], s[i + 2]];
    } else {
      FourBytes(s[i], s[i + 1], s[i + 2], s[i + 3]);
      assert s[i..i + 4] == [s[i], s[i + 1], s[i + 2], s[i + 3]];
    }
  }

  lemma ThreeBytes(a: Byte, b: Byte, c: Byte)
    requires Width(a) == 3 && SecondByte(a, b) && 0x80 <= c < 0xC0
    ensures var p := Next6(Next6(a as int - 0xE0, b), c); Scalar(p) && Encoded(p) == [a, b, c]
  {
    SixBits(a as int - 0xE0, b);
    SixBits(Next6(a as int - 0xE0, b), c);
  }

  lemma FourBytes(a: Byte, b: Byte, c: Byte, d: Byte)
    requires Width(a) == 4 && SecondByte(a, b) && 0x80 <= c < 0xC0 && 0x80 <= d < 0xC0
    ensures var p := Next6(Next6(Next6(a as int - 0xF0, b), c), d); Scalar(p) && Encoded(p) == [a, b, c, d]
  {
    SixBits(a as int - 0xF0, b);
    SixBits(Next6(a as int - 0xF0, b), c);
    SixBits(Next6(Next6(a as int - 0xF0, b), c), d);
  }

  /** Every encoded code point is read as a character, whatever comes after it. */
  lemma EncodedIsChar(c: int, rest: Text)
    requires Scalar(c)
    ensures CharAt(Encoded(c) + rest, 0) && CodePoint(Encoded(c) + rest, 0) == c
    ensures Width((Encoded(c) + rest)[0]) == |Encoded(c)|
  {
    var s, e := Encoded(c) + rest, Encoded(c);
    assert forall k :: 0 <= k < |e| ==> s[k] == e[k];
    BitsAgain(c);
    BitsAgain(c / 0x40);
    BitsAgain(c / 0x40 / 0x40);
    EncodedStarts(c);
  }

  lemma EncodedStarts(c: int)
    requires Scalar(c)
    ensures var e := Encoded(c); Width(e[0]) == |e| && (|e| >= 2 ==> SecondByte(e[0], e[1]))
    ensures forall k :: 0 < k < |Encoded(c)| ==> !RuneStart(Encoded(c)[k])
  {
  }

  /** In valid text every first byte opens a whole character, not only those a decoder happens to reach. */
  lemma {:induction false} StartOpensChar(s: Text, from: nat, i: nat)
    requires from <= i < |s| && ValidFrom(s, from) && RuneStart(s[i])
    ensures CharAt(s, i)
    decreases i - from
  {
    if from < i {
      StartOpensChar(s, from + Width(s[from]), i);
    }
  }

  /** Stepping over a character of valid text lands on the next boundary, with none in between. */
  lemma CharEndsAtBoundary(s: Text, i: nat)
    requires Valid(s) && Boundary(s, i) && i < |s|
    ensures CharAt(s, i)
    ensures 1 <= Width(s[i]) <= 4 && DecodeSize(s, i) == Width(s[i])
    ensures Boundary(s, i + Width(s[i]))
    ensures forall k :: i < k < i + Width(s[i]) ==> !Boundary(s, k)
  {
    StartOpensChar(s, 0, i);
    SuffixFrom(s, 0, i);
  }

  lemma {:induction false} SuffixFrom(s: Text, from: nat, i: nat)
    requires from <= i <= |s| && ValidFrom(s, from) && Boundary(s, i)
    ensures ValidFrom(s, i)
    decreases i - from
  {
    if from < i {
      assert from + Width(s[from]) <= i;
      SuffixFrom(s, from + Width(s[from]), i);
    }
  }

  lemma StartIsBoundary(s: Text)
    requires Valid(s)
    ensures Boundary(s, 0)
  {
  }

  /** An ASCII byte is a character by itself, so the text may be cut on both sides of it. */
  lemma AsciiCuts(s: Text, i: nat)
    requires Valid(s) && i < |s| && s[i] < 0x80
    ensures Boundary(s, i) && Boundary(s, i + 1)
  {
    CharEndsAtBoundary(s, i);
  }

  // ---- pieces of text are text ----

  lemma {:induction false} SliceValidFrom(s: Text, lo: nat, hi: nat, i: nat)
    requires Valid(s) && Boundary(s, lo) && Boundary(s, hi) && lo <= i <= hi && Boundary(s, i)
    ensures ValidFrom(s[lo..hi], i - lo)
    decreases hi - i
  {
    if i < hi {
      CharEndsAtBoundary(s, i);
      SliceValidFrom(s, lo, hi, i + Width(s[i]));
    }
  }

  /** Text cut at boundaries is text. */
  lemma SliceIsText(s: Text, lo: nat, hi: nat)
    requires Valid(s) && lo <= hi && Boundary(s, lo) && Boundary(s, hi)
    ensures Valid(s[lo..hi])
  {
    SliceValidFrom(s, lo, hi, lo);
  }

  // ---- counting characters ----

  /** The number of characters that start in [i, j). */
  function Chars(s: Text, i: int, j: int): (n: nat)
    requires 0 <= i <= j <= |s|
    ensures n <= j - i
    decreases j - i
  {
    if i == j then 0 else Chars(s, i, j - 1) + (if RuneStart(s[j - 1]) then 1 else 0)
  }

  lemma {:induction false} CharsSplit(s: Text, i: int, j: int, k: int)
    requires 0 <= i <= j <= k <= |s|
    ensures Chars(s, i, k) == Chars(s, i, j) + Chars(s, j, k)
    decreases k - j
  {
    if j < k {
      CharsSplit(s, i, j, k - 1);
    }
  }

  /** One character counts one, whatever its width. */
  lemma CharCountsOne(s: Text, i: nat)
    requires Valid(s) && Boundary(s, i) && i < |s|
    ensures i + Width(s[i]) <= |s| && Chars(s, i, i + Width(s[i])) == 1
  {
    CharEndsAtBoundary(s, i);
    CharsSplit(s, i, i + 1, i + Width(s[i]));
    NoStartsNoChars(s, i + 1, i + Width(s[i]));
  }

  lemma {:induction false} NoStartsNoChars(s: Text, i: int, j: int)
    requires 0 <= i <= j <= |s|
    requires forall k :: i <= k < j ==> !RuneStart(s[k])
    ensures Chars(s, i, j) == 0
    decreases j - i
  {
    if i < j {
      NoStartsNoChars(s, i, j - 1);
    }
  }

  /** Between boundaries a character takes at most four bytes. */
  lemma {:induction false} FourBytesAtMost(s: Text, i: nat, j: nat)
    requires Valid(s) && i <= j && Boundary(s, i) && Boundary(s, j)
    ensures j - i <= 4 * Chars(s, i, j)
    decreases j - i
  {
    if i < j {
      CharEndsAtBoundary(s, i);
      var m := i + Width(s[i]);
      CharCountsOne(s, i);
      CharsSplit(s, i, m, j);
      FourBytesAtMost(s, m, j);
    }
  }

  // ---- the shared helpers ----

  /** utf8BoundaryAtOrBefore: the last boundary not after end. */
  method BoundaryAtOrBefore(s: Text, end: int) returns (r: int)
    requires Valid(s)
    ensures r == CutAt(s, end)
  {
    if end >= |s| {
      return |s|;
    }
    if end < 0 {
      return 0;
    }
    r := end;
    while r > 0 && !RuneStart(s[r])
      invariant 0 <= r <= end
      invariant CutAt(s, r) == CutAt(s, end)
    {
      r := r - 1;
    }
  }

  /** The boundary a cut aimed at end falls back to. */
  function CutAt(s: Text, end: int): (r: int)
    requires Valid(s)
    ensures Boundary(s, r)
    ensures 0 <= end ==> r <= end
    ensures forall k :: r < k <= end ==> !Boundary(s, k)
    decreases end
  {
    if end >= |s| then |s|
    else if end <= 0 then 0
    else if RuneStart(s[end]) then end
    else CutAt(s, end - 1)
  }

  /** nextUTF8Boundary: the end of the character at start. */
  function NextBoundary(s: Text, start: nat): (r: nat)
    requires start <= |s|
    ensures start <= r <= |s|
  {
    start + DecodeSize(s, start)
  }

  /** The last position in [lo, hi) where the blank line "\n\n" starts and fits before hi, or -1. */
  function LastBlankLine(s: Text, lo: nat, hi: nat): (r: int)
    requires lo <= hi <= |s|
    ensures r == -1 || (lo <= r && r + 2 <= hi && s[r] == 10 && s[r + 1] == 10)
    ensures forall k :: lo <= k && k + 2 <= hi && r < k ==> !(s[k] == 10 && s[k + 1] == 10)
    decreases hi - lo
  {
    if hi < lo + 2 then -1
    else if s[hi - 2] == 10 && s[hi - 1] == 10 then hi - 2
    else LastBlankLine(s, lo, hi - 1)
  }

  /** preferredParagraphEnd: the cut after the last blank line of [start, max) when it is in the second half, else 0. */
  function ParagraphEnd(s: Text, start: nat, max: nat): (r: nat)
    requires start <= max <= |s|
    ensures r == 0 || (start + 2 <= r <= max && s[r - 2] == 10 && s[r - 1] == 10)
  {
    var i := LastBlankLine(s, start, max);
    if i - start < (max - start) / 2 then 0 else i + 2
  }

  /** A paragraph cut is a place where valid text may be cut. */
  lemma ParagraphEndIsBoundary(s: Text, start: nat, max: nat)
    requires Valid(s) && start <= max <= |s|
    ensures Boundary(s, ParagraphEnd(s, start, max))
  {
    var r := ParagraphEnd(s, start, max);
    if r > 0 {
      AsciiCuts(s, r - 1);
    }
  }

  /** A blank line of [start, max) that begins in its second half. */
  predicate LateBlankLine(s: Text, start: nat, max: nat, k: int)
    requires max <= |s|
  {
    start + (max - start) / 2 <= k && start <= k && k + 2 <= max && s[k] == 10 && s[k + 1] == 10
  }

  /** A page that could reach best stops after the last blank line of its second half, and at best when it has none. */
  ghost predicate PrefersParagraph(s: Text, start: nat, best: nat, end: nat)
    requires best <= |s|
  {
    if exists k :: LateBlankLine(s, start, best, k)
    then LateBlankLine(s, start, best, end - 2) && forall k :: LateBlankLine(s, start, best, k) ==> k + 2 <= end
    else end == best
  }

  lemma ParagraphIsPreferred(s: Text, start: nat, best: nat)
    requires start <= best <= |s|
    ensures var r := ParagraphEnd(s, start, best); PrefersParagraph(s, start, best, if r > start then r else best)
  {
    var r := ParagraphEnd(s, start, best);
    if r > start {
      assert LateBlankLine(s, start, best, r - 2);
    }
  }

  /** The cut aimed one byte further is the same, or the next boundary. */
  lemma NextCut(s: Text, start: nat, end: nat)
    requires Valid(s) && Boundary(s, start) && start < |s| && end < |s|
    requires CutAt(s, end) == start && CutAt(s, end + 1) != start
    ensures CutAt(s, end + 1) == NextBoundary(s, start)
  {
    CharEndsAtBoundary(s, start);
    var next := start + Width(s[start]);
    assert CutAt(s, end + 1) > start;
  }
}
