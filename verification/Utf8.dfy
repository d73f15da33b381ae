/** UTF-16 strings and their UTF-8 bytes (section 3 of RFC 3629), as Node encodes them:
    a surrogate that is not part of a pair becomes U+FFFD.
    Bytes are code units below 0x100, so that one search and one cut serve both modes. */
module Utf8 {
  import opened Search
  import opened Framing
  import opened Sequences

  type CodeUnit = u: int | 0 <= u < 0x1_0000

  predicate IsHigh(u: CodeUnit) { 0xD800 <= u < 0xDC00 }
  predicate IsLow(u: CodeUnit) { 0xDC00 <= u < 0xE000 }

  predicate IsAscii(s: seq<CodeUnit>) {
    forall i | 0 <= i < |s| :: s[i] < 0x80
  }

  /** The bytes of a code unit that is not part of a surrogate pair. */
  function EncodeUnit(u: CodeUnit): (r: seq<CodeUnit>)
    ensures 1 <= |r| <= 3
    ensures |r| == 1 <==> u < 0x80
    ensures u < 0x80 ==> r == [u]
    ensures u >= 0x80 ==> forall b | b in r :: 0x80 <= b < 0x100
  {
    if u < 0x80 then [u]
    else if u < 0x800 then [0xC0 + u / 0x40, 0x80 + u % 0x40]
    else if IsHigh(u) || IsLow(u) then [0xEF, 0xBF, 0xBD]
    else [0xE0 + u / 0x1000, 0x80 + u / 0x40 % 0x40, 0x80 + u % 0x40]
  }

  /** The character that a surrogate pair stands for. */
  function Scalar(h: CodeUnit, l: CodeUnit): (c: nat)
    requires IsHigh(h) && IsLow(l)
    ensures 0x1_0000 <= c < 0x11_0000
  {
    0x1_0000 + (h - 0xD800) * 0x400 + (l - 0xDC00)
  }

  /** The surrogate pair of a character. */
  function Surrogates(c: int): seq<CodeUnit> {
    var x := (c - 0x1_0000) % 0x10_0000;
    [0xD800 + x / 0x400, 0xDC00 + x % 0x400]
  }

  lemma SurrogatesOfScalar(h: CodeUnit, l: CodeUnit)
    requires IsHigh(h) && IsLow(l)
    ensures Surrogates(Scalar(h, l)) == [h, l]
  {
    var x := Scalar(h, l) - 0x1_0000;
    assert x / 0x400 == h - 0xD800 && x % 0x400 == l - 0xDC00;
  }

  /** The four bytes of a surrogate pair. */
  function EncodePair(h: CodeUnit, l: CodeUnit): (r: seq<CodeUnit>)
    requires IsHigh(h) && IsLow(l)
    ensures |r| == 4
    ensures forall b | b in r :: 0x80 <= b < 0x100
  {
    var c := Scalar(h, l);
    [0xF0 + c / 0x4_0000, 0x80 + c / 0x1000 % 0x40, 0x80 + c / 0x40 % 0x40, 0x80 + c % 0x40]
  }

  predicate StartsWithPair(s: seq<CodeUnit>) {
    |s| >= 2 && IsHigh(s[0]) && IsLow(s[1])
  }

  /** How many code units the first character takes. */
  function Width(s: seq<CodeUnit>): (k: nat)
    requires s != []
    ensures 1 <= k <= |s| && k <= 2
    ensures s[0] < 0x80 ==> k == 1
  {
    if StartsWithPair(s) then 2 else 1
  }

  /** The bytes of the first character: one byte below 0x80, or several that are all above. */
  function HeadBytes(s: seq<CodeUnit>): (r: seq<CodeUnit>)
    requires s != []
    ensures Width(s) <= |r| <= 3 * Width(s)
    ensures |r| == Width(s) <==> s[0] < 0x80
    ensures s[0] < 0x80 ==> r == [s[0]]
    ensures s[0] >= 0x80 ==> forall b | b in r :: 0x80 <= b < 0x100
  {
    if StartsWithPair(s) then EncodePair(s[0], s[1]) else EncodeUnit(s[0])
  }

  function Encode(s: seq<CodeUnit>): seq<CodeUnit> {
    if s == [] then [] else HeadBytes(s) + Encode(s[Width(s)..])
  }

  function EncodeAll(ss: seq<seq<CodeUnit>>): (r: seq<seq<CodeUnit>>)
    ensures |r| == |ss|
    ensures forall i | 0 <= i < |ss| :: r[i] == Encode(ss[i])
  {
    if ss == [] then [] else [Encode(ss[0])] + EncodeAll(ss[1..])
  }

  predicate IsBytes(s: seq<CodeUnit>) {
    forall b | b in s :: b < 0x100
  }

  /** Every text encodes to bytes. */
  lemma {:induction false} EncodeIsBytes(s: seq<CodeUnit>)
    ensures IsBytes(Encode(s))
  {
    if s != [] {
      EncodeIsBytes(s[Width(s)..]);
    }
  }

  // ----- Widths -----

  /** A string is never longer in UTF-16 units than in UTF-8 bytes, and as long only if it is ASCII.
      So advancing by the UTF-16 length never leaves the matched bytes. */
  lemma {:induction false} AdvanceWithinMatch(eof: seq<CodeUnit>)
    ensures |eof| <= |Encode(eof)| <= 3 * |eof|
    ensures |eof| == |Encode(eof)| <==> IsAscii(eof)
  {
    if eof != [] {
      AdvanceWithinMatch(eof[Width(eof)..]);
      assert forall i | Width(eof) <= i < |eof| :: eof[i] == eof[Width(eof)..][i - Width(eof)];
    }
  }

  lemma {:induction false} EncodeAscii(s: seq<CodeUnit>)
    requires IsAscii(s)
    ensures Encode(s) == s
  {
    if s != [] {
      EncodeAscii(s[1..]);
    }
  }

  // ----- Boundaries -----

  /** Cutting between `a` and `b` separates the two halves of a surrogate pair. */
  predicate SplitsPair(a: seq<CodeUnit>, b: seq<CodeUnit>) {
    a != [] && b != [] && IsHigh(a[|a| - 1]) && IsLow(b[0])
  }

  /** Encoding piecewise is encoding the whole exactly when no surrogate pair is cut in two;
      a pair cut in two always takes more bytes. */
  lemma EncodeAppend(a: seq<CodeUnit>, b: seq<CodeUnit>)
    ensures Encode(a + b) == Encode(a) + Encode(b) <==> !SplitsPair(a, b)
    ensures SplitsPair(a, b) ==> |Encode(a + b)| < |Encode(a)| + |Encode(b)|
  {
    if SplitsPair(a, b) {
      var n := |a| - 1;
      assert a == a[..n] + [a[n]] && a + b == a[..n] + ([a[n]] + b);
      CutPairIsLonger(a[..n], a[n], b);
    } else {
      EncodeWhole(a, b);
    }
  }

  lemma CutPairIsLonger(front: seq<CodeUnit>, h: CodeUnit, b: seq<CodeUnit>)
    requires SplitsPair([h], b)
    ensures |Encode(front + ([h] + b))| < |Encode(front + [h])| + |Encode(b)|
  {
    EncodeWhole(front, [h]);
    EncodeWhole(front, [h] + b);
    LonePair(h, b);
  }

  lemma {:induction false} EncodeWhole(a: seq<CodeUnit>, b: seq<CodeUnit>)
    requires !SplitsPair(a, b)
    ensures Encode(a + b) == Encode(a) + Encode(b)
  {
    if a == [] {
      assert a + b == b;
    } else {
      var k := Width(a);
      assert (a + b)[k..] == a[k..] + b;
      EncodeWhole(a[k..], b);
      HeadAppend(a, b);
      Associates(HeadBytes(a), Encode(a[k..]), Encode(b));
    }
  }

  lemma HeadAppend(a: seq<CodeUnit>, b: seq<CodeUnit>)
    requires a != [] && !SplitsPair(a, b)
    ensures Width(a + b) == Width(a) && HeadBytes(a + b) == HeadBytes(a)
  {
    assert StartsWithPair(a + b) == StartsWithPair(a);
  }

  lemma LonePair(h: CodeUnit, b: seq<CodeUnit>)
    requires b != [] && IsHigh(h) && IsLow(b[0])
    ensures |Encode([h] + b)| < |Encode([h])| + |Encode(b)|
  {
    assert ([h] + b)[2..] == b[1..];
    assert HeadBytes([h] + b) == EncodePair(h, b[0]);
    assert !StartsWithPair(b) && !StartsWithPair([h]);
    assert |HeadBytes(b)| == 3 && |Encode([h])| == 3;
  }

  /** No chunk boundary cuts a surrogate pair. */
  predicate Aligned(chunks: seq<seq<CodeUnit>>) {
    chunks == [] || (!SplitsPair(chunks[0], Concat(chunks[1..])) && Aligned(chunks[1..]))
  }

  /** Chunks encode to the bytes of the whole exactly when they are character-aligned. */
  lemma {:induction false} EncodeChunks(chunks: seq<seq<CodeUnit>>)
    ensures Concat(EncodeAll(chunks)) == Encode(Concat(chunks)) <==> Aligned(chunks)
    ensures Aligned(chunks) || |Concat(EncodeAll(chunks))| > |Encode(Concat(chunks))|
  {
    if chunks != [] {
      EncodeChunks(chunks[1..]);
      EncodeAppend(chunks[0], Concat(chunks[1..]));
      assert EncodeAll(chunks)[1..] == EncodeAll(chunks[1..]);
      assert Concat(EncodeAll(chunks)) == Encode(chunks[0]) + Concat(EncodeAll(chunks[1..]));
    }
  }

  // ----- Searching bytes is searching characters -----

  lemma {:induction false} AsciiPrefix(s: seq<CodeUnit>, d: seq<CodeUnit>)
    requires IsAscii(d)
    ensures d <= s <==> Encode(d) <= Encode(s)
  {
    if d != [] && s != [] {
      assert Encode(d) == [d[0]] + Encode(d[1..]);
      if s[0] == d[0] {
        assert Encode(s) == [s[0]] + Encode(s[1..]);
        AsciiPrefix(s[1..], d[1..]);
        assert d <= s <==> d[1..] <= s[1..] by {
          assert d == [d[0]] + d[1..] && s == [s[0]] + s[1..];
        }
        assert Encode(d)[1..] == Encode(d[1..]) && Encode(s)[1..] == Encode(s[1..]);
      } else {
        assert Encode(s)[0] == HeadBytes(s)[0] != d[0];
      }
    }
  }

  /** The leftmost match of an ASCII delimiter in the bytes is that in the characters. */
  lemma {:induction false} AsciiIndex(s: seq<CodeUnit>, d: seq<CodeUnit>)
    requires d != [] && IsAscii(d)
    ensures IndexOf(Encode(s), Encode(d))
         == if IndexOf(s, d) < 0 then -1 else |Encode(s[..IndexOf(s, d)])|
    decreases |s|
  {
    var e := Encode(d);
    EncodeAscii(d);
    AsciiPrefix(s, d);
    if d <= s {
      assert OccursAt(s, d, 0) && OccursAt(Encode(s), e, 0);
    } else if s != [] {
      var k := Width(s);
      AsciiIndex(s[k..], d);
      StepOver(s, d);
      StepOverBytes(s, e);
      var p := IndexOf(s, d);
      if p >= 0 {
        assert p >= k;
        EncodePrefix(s, p);
      }
    }
  }

  lemma EncodePrefix(s: seq<CodeUnit>, p: nat)
    requires s != [] && Width(s) <= p <= |s|
    ensures |Encode(s[..p])| == |HeadBytes(s)| + |Encode(s[Width(s)..][..p - Width(s)])|
  {
    var k := Width(s);
    assert s[..p][k..] == s[k..][..p - k];
    assert Width(s[..p]) == k && HeadBytes(s[..p]) == HeadBytes(s);
  }

  lemma ShiftedSlice<T>(s: seq<T>, from: nat, to: nat)
    requires 1 <= from <= to <= |s|
    ensures s[from..to] == s[1..][from - 1..to - 1]
  {
    var a, b := s[from..to], s[1..][from - 1..to - 1];
    forall i | 0 <= i < |a|
      ensures a[i] == b[i]
    {
      assert a[i] == s[from + i] == s[1..][from - 1 + i] == b[i];
    }
  }

  lemma StepOverUnit<T>(s: seq<T>, d: seq<T>)
    requires s != [] && !(d <= s)
    ensures IndexOf(s, d) == if IndexOf(s[1..], d) < 0 then -1 else 1 + IndexOf(s[1..], d)
  {
    forall p: nat
      ensures OccursAt(s, d, p) <==> p > 0 && OccursAt(s[1..], d, p - 1)
    {
      if p + |d| <= |s| {
        if p == 0 {
          assert s[0..|d|] == s[..|d|];
        } else {
          ShiftedSlice(s, p, p + |d|);
        }
      }
    }
    assert forall p: nat :: OccursAt(s[1..], d, p) ==> OccursAt(s, d, p + 1);
  }

  lemma StepOver(s: seq<CodeUnit>, d: seq<CodeUnit>)
    requires d != [] && IsAscii(d) && s != [] && !(d <= s)
    ensures var k := Width(s);
            IndexOf(s, d) == if IndexOf(s[k..], d) < 0 then -1 else k + IndexOf(s[k..], d)
  {
    if Width(s) == 2 {
      IndexOfSkip(s[..2], s[2..], d);
      assert s == s[..2] + s[2..];
    } else {
      StepOverUnit(s, d);
    }
  }

  lemma StepOverBytes(s: seq<CodeUnit>, e: seq<CodeUnit>)
    requires e != [] && e[0] < 0x80 && s != [] && !(e <= Encode(s))
    ensures var t := Encode(s[Width(s)..]);
            IndexOf(Encode(s), e) == if IndexOf(t, e) < 0 then -1 else |HeadBytes(s)| + IndexOf(t, e)
  {
    var t := Encode(s[Width(s)..]);
    if s[0] < 0x80 {
      StepOverUnit(Encode(s), e);
      assert Encode(s)[1..] == t;
    } else {
      IndexOfSkip(HeadBytes(s), t, e);
    }
  }

  // ----- Splitting bytes is splitting characters -----

  function EncodeCut(c: Cut<CodeUnit>): Cut<CodeUnit> {
    Cut(EncodeAll(c.lines), Encode(c.rest))
  }

  /** For an ASCII delimiter, the messages of the encoded string are the encodings of the messages
      of the string, whatever characters (or stray surrogates) it holds. */
  lemma {:induction false} SplitEncoded(s: seq<CodeUnit>, d: seq<CodeUnit>)
    requires d != [] && IsAscii(d)
    ensures |Encode(d)| == |d|
    ensures Split(Encode(s), Encode(d), |d|) == EncodeCut(Split(s, d, |d|))
    decreases |s|
  {
    EncodeAscii(d);
    if !Contains(s, d) {
      AsciiIndex(s, d);
    } else {
      var line, tail := EncodeAround(s, d);
      SplitEncoded(tail, d);
      SplitEncodedStep(s, d, line, tail, Encode(s), Encode(d), Encode(tail));
    }
  }

  lemma SplitEncodedStep(s: seq<CodeUnit>, d: seq<CodeUnit>, line: seq<CodeUnit>, tail: seq<CodeUnit>,
                         bytes: seq<CodeUnit>, e: seq<CodeUnit>, more: seq<CodeUnit>)
    requires d != [] && |e| == |d|
    requires |line| == IndexOf(s, d) && s[..|line|] == line && s[|line| + |d|..] == tail
    requires |Encode(line)| == IndexOf(bytes, e)
    requires bytes[..|Encode(line)|] == Encode(line) && bytes[|Encode(line)| + |d|..] == more
    requires Split(more, e, |d|) == EncodeCut(Split(tail, d, |d|))
    ensures Split(bytes, e, |d|) == EncodeCut(Split(s, d, |d|))
  {
    var inText, inBytes := Split(s, d, |d|), Split(bytes, e, |d|);
    assert inText == Cut([line] + Split(tail, d, |d|).lines, Split(tail, d, |d|).rest) by {
      CutFirst(s, line, tail, d, |d|);
    }
    assert inBytes == Cut([Encode(line)] + Split(more, e, |d|).lines, Split(more, e, |d|).rest) by {
      CutFirst(bytes, Encode(line), more, e, |d|);
    }
    EncodeCutCons(line, Split(tail, d, |d|), Split(more, e, |d|), inText, inBytes);
  }

  lemma EncodeCutCons(line: seq<CodeUnit>, c: Cut<CodeUnit>, e: Cut<CodeUnit>,
                      longer: Cut<CodeUnit>, encoded: Cut<CodeUnit>)
    requires e == EncodeCut(c)
    requires longer == Cut([line] + c.lines, c.rest) && encoded == Cut([Encode(line)] + e.lines, e.rest)
    ensures encoded == EncodeCut(longer)
  {
    EncodeAllCons(line, c.lines);
  }

  lemma EncodeAllCons(line: seq<CodeUnit>, lines: seq<seq<CodeUnit>>)
    ensures EncodeAll([line] + lines) == [Encode(line)] + EncodeAll(lines)
  {
    assert ([line] + lines)[1..] == lines;
  }

  /** The first message and what follows its delimiter, in the characters and in the bytes. */
  lemma EncodeAround(s: seq<CodeUnit>, d: seq<CodeUnit>) returns (line: seq<CodeUnit>, tail: seq<CodeUnit>)
    requires d != [] && IsAscii(d) && Contains(s, d)
    ensures |line| == IndexOf(s, d) && s[..|line|] == line && s[|line| + |d|..] == tail && |tail| < |s|
    ensures |Encode(line)| == IndexOf(Encode(s), Encode(d)) && |Encode(line)| + |d| <= |Encode(s)|
    ensures Encode(s)[..|Encode(line)|] == Encode(line) && Encode(s)[|Encode(line)| + |d|..] == Encode(tail)
  {
    var p := IndexOf(s, d);
    line, tail := s[..p], s[p + |d|..];
    assert line + d + tail == s;
    AsciiIndex(s, d);
    EncodeThree(line, d, tail, s);
  }

  lemma EncodeThree(a: seq<CodeUnit>, d: seq<CodeUnit>, b: seq<CodeUnit>, s: seq<CodeUnit>)
    requires d != [] && IsAscii(d) && a + d + b == s
    ensures |Encode(a)| + |d| <= |Encode(s)|
    ensures Encode(s)[..|Encode(a)|] == Encode(a) && Encode(s)[|Encode(a)| + |d|..] == Encode(b)
  {
    EncodeAscii(d);
    EncodeAppend(a, d);
    EncodeAppend(a + d, b);
    assert (a + d)[|a + d| - 1] == d[|d| - 1] < 0x80;
    Pieces(Encode(a), d, Encode(b));
  }

  /** Buffer mode refines string mode: for an ASCII delimiter and character-aligned chunks, bytes
      arriving chunk by chunk are cut into exactly the encodings of the characters' messages.
      `held` is what both buffers start from: nothing, or the text "null". */
  lemma Utf8Agreement(held: seq<CodeUnit>, chunks: seq<seq<CodeUnit>>, d: seq<CodeUnit>)
    requires d != [] && IsAscii(d)
    requires Aligned(chunks) && !SplitsPair(held, Concat(chunks))
    ensures |Encode(d)| == |d|
    ensures Feed(Encode(held), EncodeAll(chunks), Encode(d), |d|) == EncodeCut(Feed(held, chunks, d, |d|))
  {
    EncodeAscii(d);
    if chunks != [] {
      SplitEncoded(held + Concat(chunks), d);
      EncodeWhole(held, Concat(chunks));
      EncodeChunks(chunks);
      ChunkingInvariance(Encode(held), EncodeAll(chunks), Encode(d), |d|);
      ChunkingInvariance(held, chunks, d, |d|);
    }
  }
}
