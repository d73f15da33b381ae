/** Reading UTF-8 bytes as text, as Node does when it needs a string (the UTF-8 decoder of section 8.1.1 of
    the WHATWG Encoding Standard): a sequence that breaks off or cannot start becomes one U+FFFD. */
module Utf8Decoding {
  import opened Framing
  import opened Utf8

  const REPLACEMENT: CodeUnit := 0xFFFD

  /** How many bytes must follow the lead byte; none if it cannot lead. */
  function Following(lead: CodeUnit): (k: nat)
    ensures k <= 3
  {
    if 0xC2 <= lead <= 0xDF then 1
    else if 0xE0 <= lead <= 0xEF then 2
    else if 0xF0 <= lead <= 0xF4 then 3
    else 0
  }

  predicate IsTrail(b: CodeUnit) { 0x80 <= b <= 0xBF }

  /** The second byte must not make the sequence too long, a surrogate, or too large. */
  predicate CanBeSecond(lead: CodeUnit, b: CodeUnit) {
    (if lead == 0xE0 then 0xA0 else if lead == 0xF0 then 0x90 else 0x80) <= b
    <= (if lead == 0xED then 0x9F else if lead == 0xF4 then 0x8F else 0xBF)
  }

  /** How many bytes belong together at the start. */
  function HeadLength(b: seq<CodeUnit>): (n: nat)
    requires b != []
    ensures 1 <= n <= |b| && n <= Following(b[0]) + 1
    ensures forall i | 1 <= i < n :: IsTrail(b[i])
  {
    var k := Following(b[0]);
    if k == 0 || |b| == 1 || !CanBeSecond(b[0], b[1]) then 1
    else if k == 1 || |b| == 2 || !IsTrail(b[2]) then 2
    else if k == 2 || |b| == 3 || !IsTrail(b[3]) then 3
    else 4
  }

  function Low6(b: int): int { b % 0x40 }

  /** The text of a complete sequence. */
  function Complete(b: seq<CodeUnit>): (units: seq<CodeUnit>)
    requires b != [] && HeadLength(b) == Following(b[0]) + 1
    ensures 1 <= |units| <= 2 && (|units| == 2 ==> REPLACEMENT !in units)
  {
    var lead: int := b[0];
    match Following(b[0])
    case 0 => [b[0]]
    case 1 => [(lead - 0xC0) * 0x40 + Low6(b[1])]
    case 2 => [(lead - 0xE0) * 0x1000 + Low6(b[1]) * 0x40 + Low6(b[2])]
    case _ => Surrogates((lead - 0xF0) * 0x4_0000 + Low6(b[1]) * 0x1000 + Low6(b[2]) * 0x40 + Low6(b[3]))
  }

  function HeadText(b: seq<CodeUnit>): (units: seq<CodeUnit>)
    requires b != []
    ensures 1 <= |units| <= 2 && (|units| == 2 ==> REPLACEMENT !in units)
  {
    if b[0] < 0x80 || (Following(b[0]) > 0 && HeadLength(b) == Following(b[0]) + 1) then Complete(b)
    else [REPLACEMENT]
  }

  function Decode(b: seq<CodeUnit>): seq<CodeUnit> {
    if b == [] then [] else HeadText(b) + Decode(b[HeadLength(b)..])
  }

  // ----- Reading back what was encoded -----

  /** Every surrogate of the string belongs to a pair. */
  predicate WellFormed(s: seq<CodeUnit>)
    decreases |s|
  {
    s == [] || ((StartsWithPair(s) || !(IsHigh(s[0]) || IsLow(s[0]))) && WellFormed(s[Width(s)..]))
  }

  /** The string with U+FFFD in the place of each surrogate that does not belong to a pair. */
  function Repaired(s: seq<CodeUnit>): (r: seq<CodeUnit>)
    ensures |r| == |s|
    decreases |s|
  {
    if s == [] then []
    else
      (if StartsWithPair(s) then s[..2] else if IsHigh(s[0]) || IsLow(s[0]) then [REPLACEMENT] else [s[0]])
      + Repaired(s[Width(s)..])
  }

  lemma {:induction false} RepairedExactly(s: seq<CodeUnit>)
    ensures Repaired(s) == s <==> WellFormed(s)
    decreases |s|
  {
    if s != [] {
      var k := Width(s);
      RepairedExactly(s[k..]);
      assert s == s[..k] + s[k..];
      assert Repaired(s)[..k] + Repaired(s)[k..] == Repaired(s);
      assert Repaired(s)[k..] == Repaired(s[k..]);
    }
  }

  lemma LongEnough(b: seq<CodeUnit>, r: seq<CodeUnit>)
    requires r <= b && 2 <= |r| <= 4 && Following(r[0]) == |r| - 1
    requires CanBeSecond(r[0], r[1]) && forall i | 1 <= i < |r| :: IsTrail(r[i])
    ensures HeadLength(b) == |r| && HeadText(b) == Complete(b)
    ensures forall i | 0 <= i < |r| :: b[i] == r[i]
  {
    assert forall i | 0 <= i < |r| :: b[i] == r[i];
  }

  lemma Low6OfTrail(x: nat)
    ensures Low6(0x80 + x % 0x40) == x % 0x40 && IsTrail(0x80 + x % 0x40)
  {
  }

  lemma DecodeTwo(u: CodeUnit, b: seq<CodeUnit>)
    requires 0x80 <= u < 0x800 && EncodeUnit(u) <= b
    ensures HeadText(b) == [u] && HeadLength(b) == 2
  {
    Low6OfTrail(u);
    LongEnough(b, EncodeUnit(u));
  }

  lemma DecodeThree(u: CodeUnit, b: seq<CodeUnit>)
    requires 0x800 <= u && !IsHigh(u) && !IsLow(u) && EncodeUnit(u) <= b
    ensures HeadText(b) == [u] && HeadLength(b) == 3
  {
    Low6OfTrail(u);
    Low6OfTrail(u / 0x40);
    LongEnough(b, EncodeUnit(u));
  }

  /** A character below U+10000 other than a surrogate is read back from its bytes. */
  lemma DecodeUnit(u: CodeUnit, b: seq<CodeUnit>)
    requires !IsHigh(u) && !IsLow(u) && EncodeUnit(u) <= b
    ensures HeadText(b) == [u] && HeadLength(b) == |EncodeUnit(u)|
  {
    if u < 0x80 {
      assert b[0] == EncodeUnit(u)[0];
    } else if u < 0x800 {
      DecodeTwo(u, b);
    } else {
      DecodeThree(u, b);
    }
  }

  lemma DecodeLone(u: CodeUnit, b: seq<CodeUnit>)
    requires (IsHigh(u) || IsLow(u)) && EncodeUnit(u) <= b
    ensures HeadText(b) == [REPLACEMENT] && HeadLength(b) == 3
  {
    LongEnough(b, EncodeUnit(u));
  }

  lemma Digits(c: nat)
    ensures c == c / 0x4_0000 * 0x4_0000 + c / 0x1000 % 0x40 * 0x1000 + c / 0x40 % 0x40 * 0x40 + c % 0x40
  {
    assert c / 0x40 / 0x40 == c / 0x1000;
    assert c / 0x1000 / 0x40 == c / 0x4_0000;
  }

  lemma PairBytes(c: nat, r: seq<CodeUnit>)
    requires 0x1_0000 <= c < 0x11_0000
    requires r == [0xF0 + c / 0x4_0000, 0x80 + c / 0x1000 % 0x40, 0x80 + c / 0x40 % 0x40, 0x80 + c % 0x40]
    ensures Following(r[0]) == 3 && CanBeSecond(r[0], r[1]) && IsTrail(r[1]) && IsTrail(r[2]) && IsTrail(r[3])
    ensures (r[0] - 0xF0) * 0x4_0000 + Low6(r[1]) * 0x1000 + Low6(r[2]) * 0x40 + Low6(r[3]) == c
  {
    Digits(c);
    Low6OfTrail(c / 0x1000);
    Low6OfTrail(c / 0x40);
    Low6OfTrail(c);
  }

  lemma CompleteFour(b: seq<CodeUnit>, r: seq<CodeUnit>, c: nat)
    requires r <= b && |r| == 4 && Following(r[0]) == 3
    requires CanBeSecond(r[0], r[1]) && IsTrail(r[1]) && IsTrail(r[2]) && IsTrail(r[3])
    requires (r[0] - 0xF0) * 0x4_0000 + Low6(r[1]) * 0x1000 + Low6(r[2]) * 0x40 + Low6(r[3]) == c
    ensures HeadText(b) == Surrogates(c) && HeadLength(b) == 4
  {
    LongEnough(b, r);
  }

  lemma DecodePair(h: CodeUnit, l: CodeUnit, b: seq<CodeUnit>)
    requires IsHigh(h) && IsLow(l) && EncodePair(h, l) <= b
    ensures HeadText(b) == [h, l] && HeadLength(b) == 4
  {
    PairBytes(Scalar(h, l), EncodePair(h, l));
    CompleteFour(b, EncodePair(h, l), Scalar(h, l));
    SurrogatesOfScalar(h, l);
  }

  /** Reading what was encoded gives the string with its stray surrogates repaired. */
  lemma {:induction false} DecodeRepairs(s: seq<CodeUnit>)
    ensures Decode(Encode(s)) == Repaired(s)
    decreases |s|
  {
    if s != [] {
      var head, tail := HeadBytes(s), Encode(s[Width(s)..]);
      assert (head + tail)[|head|..] == tail && head <= head + tail;
      if StartsWithPair(s) {
        DecodePair(s[0], s[1], head + tail);
        assert s[..2] == [s[0], s[1]];
      } else if IsHigh(s[0]) || IsLow(s[0]) {
        DecodeLone(s[0], head + tail);
      } else {
        DecodeUnit(s[0], head + tail);
      }
      DecodeRepairs(s[Width(s)..]);
    }
  }

  /** A string can be read back from its bytes exactly when it is well-formed. */
  lemma DecodeEncode(s: seq<CodeUnit>)
    ensures Decode(Encode(s)) == s <==> WellFormed(s)
  {
    DecodeRepairs(s);
    RepairedExactly(s);
  }

  // ----- Reading piece by piece -----

  /** The boundary between `a` and `b` lies inside a sequence that belongs together. */
  predicate CutsCharacter(a: seq<CodeUnit>, b: seq<CodeUnit>)
    decreases |a|
  {
    && a != [] && b != []
    && if HeadLength(a) < |a| then CutsCharacter(a[HeadLength(a)..], b) else HeadLength(a + b) > |a|
  }

  /** What belongs together at the start stays so when more follows, unless it ended with the input. */
  lemma HeadKept(a: seq<CodeUnit>, b: seq<CodeUnit>)
    requires a != []
    ensures HeadLength(a) < |a| ==> HeadLength(a + b) == HeadLength(a)
    ensures HeadLength(a + b) >= HeadLength(a)
    ensures HeadLength(a + b) == HeadLength(a) ==> HeadText(a + b) == HeadText(a)
  {
    assert forall i | 0 <= i < |a| :: (a + b)[i] == a[i];
  }

  /** How often the text has U+FFFD. */
  function Losses(text: seq<CodeUnit>): nat {
    multiset(text)[REPLACEMENT]
  }

  lemma DecodeStep(b: seq<CodeUnit>, tail: seq<CodeUnit>)
    requires b != [] && b[HeadLength(b)..] == tail
    ensures Decode(b) == HeadText(b) + Decode(tail)
    ensures Losses(Decode(b)) == Losses(HeadText(b)) + Losses(Decode(tail))
    ensures Losses(HeadText(b)) <= 1
  {
    if |HeadText(b)| == 1 {
      assert HeadText(b) == [HeadText(b)[0]];
    }
  }

  /** Bytes that can only follow a lead byte are each read as U+FFFD when none is there. */
  lemma {:induction false} StrayTrails(b: seq<CodeUnit>, k: nat)
    requires k <= |b| && forall i | 0 <= i < k :: IsTrail(b[i])
    ensures Losses(Decode(b)) == k + Losses(Decode(b[k..]))
  {
    if k == 0 {
      assert b[0..] == b;
    } else {
      assert HeadText(b) == [REPLACEMENT] && HeadLength(b) == 1;
      DecodeStep(b, b[1..]);
      StrayTrails(b[1..], k - 1);
      assert b[1..][k - 1..] == b[k..];
    }
  }

  lemma CutHead(a: seq<CodeUnit>, b: seq<CodeUnit>)
    requires a != [] && HeadLength(a) == |a| < HeadLength(a + b)
    ensures Decode(a) == [REPLACEMENT]
  {
    assert (a + b)[0] == a[0];
    assert HeadText(a) == [REPLACEMENT] by {
      assert HeadLength(a) < Following(a[0]) + 1;
    }
    DecodeHeadOnly(a);
  }

  lemma CutTrails(a: seq<CodeUnit>, b: seq<CodeUnit>)
    requires a != [] && |a| < HeadLength(a + b)
    ensures var n := HeadLength(a + b); (forall i | 0 <= i < n - |a| :: IsTrail(b[i])) && (a + b)[n..] == b[n - |a|..]
  {
    assert forall i | 0 <= i < |b| :: b[i] == (a + b)[|a| + i];
  }

  lemma CutLosesText(a: seq<CodeUnit>, b: seq<CodeUnit>)
    requires a != [] && HeadLength(a) == |a| < HeadLength(a + b)
    ensures Losses(Decode(a + b)) < Losses(Decode(a)) + Losses(Decode(b))
  {
    var k := HeadLength(a + b) - |a|;
    CutHead(a, b);
    CutTrails(a, b);
    StrayTrails(b, k);
    DecodeStep(a + b, b[k..]);
  }

  /** Reading the whole text `ab` of two pieces, rather than `a` and `b`, makes a difference exactly if a
      sequence is cut, and then loses less. */
  ghost predicate ReadsAs(ab: seq<CodeUnit>, a: seq<CodeUnit>, b: seq<CodeUnit>, cut: bool) {
    if cut then Losses(ab) < Losses(a) + Losses(b) else ab == a + b
  }

  lemma HeadBefore(head: seq<CodeUnit>, ab: seq<CodeUnit>, a: seq<CodeUnit>, b: seq<CodeUnit>, cut: bool)
    requires ReadsAs(ab, a, b, cut)
    ensures ReadsAs(head + ab, head + a, b, cut)
  {
  }

  lemma PastHead(a: seq<CodeUnit>, b: seq<CodeUnit>)
    requires a != [] && HeadLength(a) < |a|
    ensures var tail := a[HeadLength(a)..];
            Decode(a) == HeadText(a) + Decode(tail) && Decode(a + b) == HeadText(a) + Decode(tail + b)
  {
    var n := HeadLength(a);
    HeadKept(a, b);
    assert (a + b)[n..] == a[n..] + b;
    DecodeStep(a, a[n..]);
    DecodeStep(a + b, a[n..] + b);
  }

  lemma WholeHead(a: seq<CodeUnit>, b: seq<CodeUnit>)
    requires a != [] && HeadLength(a) == HeadLength(a + b) == |a|
    ensures Decode(a + b) == Decode(a) + Decode(b)
  {
    HeadKept(a, b);
    assert (a + b)[|a|..] == b;
    DecodeHeadOnly(a);
    DecodeStep(a + b, b);
  }

  lemma DecodeHeadOnly(a: seq<CodeUnit>)
    requires a != [] && HeadLength(a) == |a|
    ensures Decode(a) == HeadText(a)
  {
    assert Decode(a[|a|..]) == [];
  }

  /** Reading piece by piece is reading the whole exactly when no sequence is cut; every cut leaves more
      replacement characters. */
  lemma {:induction false} DecodeAppend(a: seq<CodeUnit>, b: seq<CodeUnit>)
    ensures ReadsAs(Decode(a + b), Decode(a), Decode(b), CutsCharacter(a, b))
    decreases |a|
  {
    if a == [] {
      assert a + b == b;
    } else if b == [] {
      assert a + b == a;
    } else if HeadLength(a) < |a| {
      var tail := a[HeadLength(a)..];
      DecodeAppend(tail, b);
      PastHead(a, b);
      HeadBefore(HeadText(a), Decode(tail + b), Decode(tail), Decode(b), CutsCharacter(tail, b));
    } else if HeadLength(a + b) > |a| {
      CutLosesText(a, b);
    } else {
      HeadKept(a, b);
      WholeHead(a, b);
    }
  }

  function DecodeAll(chunks: seq<seq<CodeUnit>>): (r: seq<seq<CodeUnit>>)
    ensures |r| == |chunks|
    ensures forall i | 0 <= i < |chunks| :: r[i] == Decode(chunks[i])
  {
    if chunks == [] then [] else [Decode(chunks[0])] + DecodeAll(chunks[1..])
  }

  /** No chunk ends inside a sequence that the next ones continue. */
  predicate WholeCharacters(chunks: seq<seq<CodeUnit>>) {
    chunks == [] || (!CutsCharacter(chunks[0], Concat(chunks[1..])) && WholeCharacters(chunks[1..]))
  }

  /** Reading chunk by chunk gives the text of the whole exactly when no chunk cuts a character. */
  lemma {:induction false} DecodeChunks(chunks: seq<seq<CodeUnit>>)
    ensures Concat(DecodeAll(chunks)) == Decode(Concat(chunks)) <==> WholeCharacters(chunks)
    ensures Losses(Decode(Concat(chunks))) <= Losses(Concat(DecodeAll(chunks)))
    ensures WholeCharacters(chunks) || Losses(Decode(Concat(chunks))) < Losses(Concat(DecodeAll(chunks)))
  {
    if chunks != [] {
      DecodeChunks(chunks[1..]);
      DecodeAppend(chunks[0], Concat(chunks[1..]));
      assert DecodeAll(chunks)[1..] == DecodeAll(chunks[1..]);
    }
  }

  // ----- What is read is text, and says what the bytes were -----

  lemma TwoRead(b: seq<CodeUnit>)
    requires b != [] && Following(b[0]) == 1 && HeadLength(b) == 2
    ensures var u := Complete(b)[0];
            Complete(b) == [u] && 0x80 <= u < 0x800 && EncodeUnit(u) == [b[0], b[1]]
  {
    var x: int, y: int := b[0] - 0xC0, b[1] - 0x80;
    TwoDigits(x, y);
    assert Low6(b[1]) == y;
  }

  lemma TwoDigits(x: int, y: int)
    requires 0 <= y < 0x40
    ensures (x * 0x40 + y) / 0x40 == x && (x * 0x40 + y) % 0x40 == y
  {
  }

  lemma ThreeRead(b: seq<CodeUnit>)
    requires b != [] && Following(b[0]) == 2 && HeadLength(b) == 3
    ensures var u := Complete(b)[0];
            && Complete(b) == [u] && 0x800 <= u && !IsHigh(u) && !IsLow(u)
            && EncodeUnit(u) == [b[0], b[1], b[2]]
  {
    var x: int, y: int, z: int := b[0] - 0xE0, b[1] - 0x80, b[2] - 0x80;
    assert Low6(b[1]) == y && Low6(b[2]) == z;
    TwoDigits(x, y);
    TwoDigits(x * 0x40 + y, z);
    var u := Complete(b)[0];
    assert u == (x * 0x40 + y) * 0x40 + z;
    assert u / 0x1000 == u / 0x40 / 0x40;
  }

  lemma FourRead(b: seq<CodeUnit>)
    requires b != [] && Following(b[0]) == 3 && HeadLength(b) == 4
    ensures var r := Complete(b);
            |r| == 2 && IsHigh(r[0]) && IsLow(r[1]) && EncodePair(r[0], r[1]) == [b[0], b[1], b[2], b[3]]
  {
    var c := FourValue(b[0], b[1], b[2], b[3]);
    CompleteIs(b, c);
    PairRead(c, b[0], b[1], b[2], b[3]);
  }

  lemma CompleteIs(b: seq<CodeUnit>, c: int)
    requires b != [] && Following(b[0]) == 3 && HeadLength(b) == 4
    requires var b0: int, b1: int, b2: int, b3: int := b[0], b[1], b[2], b[3];
             c == (b0 - 0xF0) * 0x4_0000 + (b1 - 0x80) * 0x1000 + (b2 - 0x80) * 0x40 + (b3 - 0x80)
    ensures Complete(b) == Surrogates(c)
  {
    LowBits(b[1]);
    LowBits(b[2]);
    LowBits(b[3]);
  }

  lemma PairRead(c: int, b0: CodeUnit, b1: CodeUnit, b2: CodeUnit, b3: CodeUnit)
    requires 0x1_0000 <= c < 0x11_0000
    requires b0 == 0xF0 + c / 0x4_0000 && b1 == 0x80 + c / 0x1000 % 0x40
    requires b2 == 0x80 + c / 0x40 % 0x40 && b3 == 0x80 + c % 0x40
    ensures var r := Surrogates(c);
            |r| == 2 && IsHigh(r[0]) && IsLow(r[1]) && EncodePair(r[0], r[1]) == [b0, b1, b2, b3]
  {
    ScalarOfSurrogates(c);
    PairOfScalar(Surrogates(c)[0], Surrogates(c)[1], c);
  }

  lemma LowBits(b: CodeUnit)
    requires IsTrail(b)
    ensures Low6(b) == b - 0x80
  {
  }

  /** The number in four bytes, which can be read off it again. */
  lemma FourValue(b0: CodeUnit, b1: CodeUnit, b2: CodeUnit, b3: CodeUnit) returns (c: int)
    requires 0xF0 <= b0 <= 0xF4 && CanBeSecond(b0, b1) && IsTrail(b1) && IsTrail(b2) && IsTrail(b3)
    ensures c == (b0 - 0xF0) * 0x4_0000 + (b1 - 0x80) * 0x1000 + (b2 - 0x80) * 0x40 + (b3 - 0x80)
    ensures 0x1_0000 <= c < 0x11_0000
    ensures b0 == 0xF0 + c / 0x4_0000 && b1 == 0x80 + c / 0x1000 % 0x40
    ensures b2 == 0x80 + c / 0x40 % 0x40 && b3 == 0x80 + c % 0x40
  {
    var x: int, y: int, z: int, w: int := b0 - 0xF0, b1 - 0x80, b2 - 0x80, b3 - 0x80;
    FourDigits(x, y, z, w);
    c := ((x * 0x40 + y) * 0x40 + z) * 0x40 + w;
  }

  lemma PairOfScalar(h: CodeUnit, l: CodeUnit, c: int)
    requires IsHigh(h) && IsLow(l) && Scalar(h, l) == c
    ensures EncodePair(h, l) == [0xF0 + c / 0x4_0000, 0x80 + c / 0x1000 % 0x40, 0x80 + c / 0x40 % 0x40, 0x80 + c % 0x40]
  {
  }

  lemma FourDigits(x: int, y: int, z: int, w: int)
    requires 0 <= y < 0x40 && 0 <= z < 0x40 && 0 <= w < 0x40
    ensures var c := ((x * 0x40 + y) * 0x40 + z) * 0x40 + w;
            && c == x * 0x4_0000 + y * 0x1000 + z * 0x40 + w
            && c / 0x4_0000 == x && c / 0x1000 % 0x40 == y && c / 0x40 % 0x40 == z && c % 0x40 == w
  {
    TwoDigits(x, y);
    TwoDigits(x * 0x40 + y, z);
    TwoDigits((x * 0x40 + y) * 0x40 + z, w);
    var c := ((x * 0x40 + y) * 0x40 + z) * 0x40 + w;
    assert c / 0x1000 == c / 0x40 / 0x40 && c / 0x4_0000 == c / 0x1000 / 0x40;
  }

  lemma ScalarOfSurrogates(c: int)
    requires 0x1_0000 <= c < 0x11_0000
    ensures var r := Surrogates(c); |r| == 2 && IsHigh(r[0]) && IsLow(r[1]) && Scalar(r[0], r[1]) == c
  {
    var x := c - 0x1_0000;
    assert x % 0x10_0000 == x && x == x / 0x400 * 0x400 + x % 0x400;
  }

  /** The head is one character, whose bytes it is, or U+FFFD. */
  lemma HeadMeans(b: seq<CodeUnit>, rest: seq<CodeUnit>)
    requires b != []
    ensures var r := HeadText(b) + rest;
            && Width(r) == |HeadText(b)| && (StartsWithPair(r) || !(IsHigh(r[0]) || IsLow(r[0])))
            && (HeadText(b) == [REPLACEMENT] || HeadBytes(r) == b[..HeadLength(b)])
  {
    var k := Following(b[0]);
    if b[0] < 0x80 {
      assert HeadText(b) == [b[0]] && b[..1] == [b[0]];
    } else if k == 1 && HeadLength(b) == 2 {
      TwoRead(b);
      assert b[..2] == [b[0], b[1]];
    } else if k == 2 && HeadLength(b) == 3 {
      ThreeRead(b);
      assert b[..3] == [b[0], b[1], b[2]];
    } else if k == 3 && HeadLength(b) == 4 {
      FourRead(b);
      assert b[..4] == [b[0], b[1], b[2], b[3]];
    }
  }

  /** Whatever the bytes, what is read from them is well-formed text; and where it shows no replacement, it
      encodes to just these bytes. */
  lemma {:induction false} DecodedIsText(b: seq<CodeUnit>)
    ensures WellFormed(Decode(b))
    ensures REPLACEMENT !in Decode(b) ==> Encode(Decode(b)) == b
  {
    if b != [] {
      var n := HeadLength(b);
      var head, rest := HeadText(b), Decode(b[n..]);
      DecodedIsText(b[n..]);
      HeadMeans(b, rest);
      assert (head + rest)[|head|..] == rest;
      assert REPLACEMENT !in head + rest ==> REPLACEMENT !in head && REPLACEMENT !in rest;
      assert b == b[..n] + b[n..];
    }
  }

  /** Bytes are the encoding of some well-formed text exactly when encoding what is read from them gives
      them back. */
  lemma IsUtf8Exactly(b: seq<CodeUnit>)
    ensures Encode(Decode(b)) == b <==> exists s :: WellFormed(s) && Encode(s) == b
  {
    DecodedIsText(b);
    if s :| WellFormed(s) && Encode(s) == b {
      DecodeEncode(s);
    }
  }

  // ----- How malformed bytes are read -----

  /** A string of one character, in one unit or a pair. */
  predicate OneCharacter(s: seq<CodeUnit>) {
    s != [] && Width(s) == |s| && WellFormed(s)
  }

  /** The bytes start those of some character. */
  ghost predicate Begins(x: seq<CodeUnit>) {
    exists s :: OneCharacter(s) && x <= HeadBytes(s)
  }

  lemma OneCharacterBytes(s: seq<CodeUnit>)
    requires OneCharacter(s)
    ensures var r := HeadBytes(s);
            && |r| <= 4 && Following(r[0]) == |r| - 1
            && (|r| > 1 ==> CanBeSecond(r[0], r[1])) && (|r| == 1 ==> r[0] < 0x80)
            && forall i | 1 <= i < |r| :: IsTrail(r[i])
  {
    if StartsWithPair(s) {
      PairBytes(Scalar(s[0], s[1]), EncodePair(s[0], s[1]));
    } else {
      Low6OfTrail(s[0]);
      Low6OfTrail(s[0] / 0x40);
    }
  }

  /** What starts a character belongs together. */
  lemma BeginsTogether(b: seq<CodeUnit>, m: nat)
    requires 1 <= m <= |b| && Begins(b[..m])
    ensures m <= HeadLength(b) && (b[0] < 0x80 || Following(b[0]) > 0)
  {
    var s :| OneCharacter(s) && b[..m] <= HeadBytes(s);
    OneCharacterBytes(s);
    var r := HeadBytes(s);
    assert forall i | 0 <= i < m :: b[i] == b[..m][i] == r[i];
  }

  /** Filled up with continuation bytes, what belongs together at the start is a character. */
  function FilledUp(b: seq<CodeUnit>): (r: seq<CodeUnit>)
    requires b != []
  {
    var n, k := HeadLength(b), Following(b[0]);
    var second: CodeUnit := if n > 1 then b[1] else if b[0] == 0xE0 then 0xA0 else if b[0] == 0xF0 then 0x90 else 0x80;
    var third: CodeUnit := if n > 2 then b[2] else 0x80;
    var fourth: CodeUnit := if n > 3 then b[3] else 0x80;
    [b[0], second, third, fourth][..k + 1]
  }

  lemma TogetherBegins(b: seq<CodeUnit>)
    requires b != [] && (b[0] < 0x80 || Following(b[0]) > 0)
    ensures Begins(b[..HeadLength(b)])
  {
    var n, r := HeadLength(b), FilledUp(b);
    assert HeadLength(r) == |r| == Following(b[0]) + 1;
    assert forall i | 0 <= i < n :: r[i] == b[i];
    HeadMeans(r, []);
    var s := HeadText(r);
    assert s + [] == s;
    assert b[..n] <= r;
    CompleteCharacter(r);
    assert OneCharacter(s) && HeadBytes(s) == r;
  }

  lemma CompleteCharacter(r: seq<CodeUnit>)
    requires r != [] && HeadLength(r) == |r| == Following(r[0]) + 1 && (r[0] < 0x80 || Following(r[0]) > 0)
    ensures OneCharacter(HeadText(r)) && HeadBytes(HeadText(r)) == r
  {
    match Following(r[0])
    case 0 => assert r == [r[0]];
    case 1 => TwoRead(r);
    case 2 => ThreeRead(r);
    case _ => FourRead(r);
  }

  /** The number of bytes read at a time is that of the longest start of a character, or one; and if that is
      all of a character, it is read, otherwise one U+FFFD is. */
  lemma MaximalSubpart(b: seq<CodeUnit>)
    requires b != []
    ensures forall m | 1 <= m <= |b| && Begins(b[..m]) :: m <= HeadLength(b)
    ensures HeadLength(b) > 1 ==> Begins(b[..HeadLength(b)])
    ensures forall s :: OneCharacter(s) && HeadBytes(s) == b[..HeadLength(b)] ==> HeadText(b) == s
    ensures HeadText(b) == [REPLACEMENT]
         || exists s :: OneCharacter(s) && HeadBytes(s) == b[..HeadLength(b)] && HeadText(b) == s
  {
    forall m | 1 <= m <= |b| && Begins(b[..m])
      ensures m <= HeadLength(b)
    {
      BeginsTogether(b, m);
    }
    if HeadLength(b) > 1 {
      TogetherBegins(b);
    }
    forall s | OneCharacter(s) && HeadBytes(s) == b[..HeadLength(b)]
      ensures HeadText(b) == s
    {
      ReadBack(s, b);
    }
    if HeadText(b) != [REPLACEMENT] {
      var r := b[..HeadLength(b)];
      SameHead(b);
      CompleteCharacter(r);
    }
  }

  lemma ReadBack(s: seq<CodeUnit>, b: seq<CodeUnit>)
    requires OneCharacter(s) && b != [] && HeadBytes(s) == b[..HeadLength(b)]
    ensures HeadText(b) == s
  {
    assert HeadBytes(s) <= b;
    if StartsWithPair(s) {
      DecodePair(s[0], s[1], b);
    } else {
      DecodeUnit(s[0], b);
    }
  }

  lemma SameHead(b: seq<CodeUnit>)
    requires b != [] && HeadText(b) != [REPLACEMENT]
    ensures var r := b[..HeadLength(b)];
            && r != [] && HeadLength(r) == |r| == Following(r[0]) + 1 && (r[0] < 0x80 || Following(r[0]) > 0)
            && HeadText(r) == HeadText(b)
  {
    var r := b[..HeadLength(b)];
    assert forall i | 0 <= i < |r| :: r[i] == b[i];
  }

  /** Characters of one to four bytes. */
  lemma EncodedInstances()
    ensures Encode([0x24]) == [0x24]
    ensures Encode([0xA2]) == [0xC2, 0xA2]
    ensures Encode([0x20AC]) == [0xE2, 0x82, 0xAC]
    ensures Encode([0xD83D, 0xDE00]) == [0xF0, 0x9F, 0x98, 0x80]
  {
    OneEncoded([0x24]);
    OneEncoded([0xA2]);
    OneEncoded([0x20AC]);
    OneEncoded([0xD83D, 0xDE00]);
    assert Scalar(0xD83D, 0xDE00) == 0x1F600;
  }

  lemma OneEncoded(s: seq<CodeUnit>)
    requires s != [] && Width(s) == |s|
    ensures Encode(s) == HeadBytes(s)
  {
    assert Encode(s[|s|..]) == [];
  }
}
