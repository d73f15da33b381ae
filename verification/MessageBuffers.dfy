/** The receive buffer of a client (message/messageBuffer.js). */
module MessageBuffers {
  import opened Search
  import opened Sequences
  import opened Framing
  import opened Utf8
  import opened Utf8Decoding
  import opened Options

  datatype BufferType = StringType | BufferType

  /** The text of JavaScript's `null` when a string is added to it. */
  const NULL_TEXT: seq<CodeUnit> := [0x6E, 0x75, 0x6C, 0x6C]

  /** What the first append is added to: nothing for bytes, but the text "null" for strings,
      because a string buffer starts as `null` and is extended with `+=`. */
  function Origin(kind: BufferType): seq<CodeUnit> {
    if kind.StringType? then NULL_TEXT else []
  }

  /** What `indexOf(eof)` looks for: code units in a string, their UTF-8 bytes in a buffer. */
  function Needle(kind: BufferType, eof: seq<CodeUnit>): (d: seq<CodeUnit>)
    ensures |eof| <= |d|
  {
    AdvanceWithinMatch(eof);
    if kind.StringType? then eof else Encode(eof)
  }

  /** What a client can be handed: bytes, or text when the socket decodes them. */
  datatype Data = Bytes(bytes: seq<CodeUnit>) | Text(units: seq<CodeUnit>)

  /** How `Buffer.from` turns text into bytes, by the name of an encoding; UTF-8 unless another one is given. */
  type Encoding = seq<CodeUnit> -> seq<CodeUnit>

  /** The messages and the leftover that the chunks received must give, however they were cut. */
  function Reference(kind: BufferType, eof: seq<CodeUnit>, received: seq<seq<CodeUnit>>): Cut<CodeUnit>
    requires eof != []
  {
    Framing.Split(Origin(kind) + Concat(received), Needle(kind, eof), |eof|)
  }

  /** The stream `s` is cut at each first `eof`: at its characters in a string buffer, at its UTF-8 bytes in a
      byte buffer, and each time past as many units as `eof` has characters. */
  ghost predicate CutsAtEof(kind: BufferType, eof: seq<CodeUnit>, s: seq<CodeUnit>, c: Cut<CodeUnit>) {
    && |eof| <= |Encode(eof)|
    && match kind
       case StringType => LeftmostCutting(s, eof, |eof|, c)
       case BufferType => LeftmostCutting(s, Encode(eof), |eof|, c)
  }

  class MessageBuffer {
    const kind: BufferType
    const encoding: Encoding
    const eof: seq<CodeUnit>
    var buffer: Option<seq<CodeUnit>>

    constructor (kind: BufferType, eof: seq<CodeUnit>, encoding: Encoding := Encode)
      ensures this.kind == kind && this.eof == eof && this.encoding == encoding && buffer == None
    {
      this.kind := kind;
      this.encoding := encoding;
      this.eof := eof;
      buffer := None;
    }

    /** What the next append is added to. */
    function Held(): seq<CodeUnit>
      reads this
    {
      if buffer.Some? then buffer.value else Origin(kind)
    }

    /** What an append adds: a byte buffer encodes text, and a string reads bytes as text. */
    function Units(data: Data): seq<CodeUnit> {
      match data
      case Bytes(bytes) => if kind.StringType? then Decode(bytes) else bytes
      case Text(units) => if kind.StringType? then units else encoding(units)
    }

    method Empty()
      modifies this
      ensures buffer == None && Held() == Origin(kind)
    {
      buffer := None;
    }

    method AppendString(data: Data)
      requires kind.StringType?
      modifies this
      ensures buffer == Some(old(Held()) + if data.Text? then data.units else Decode(data.bytes))
    {
      var text := if buffer.None? then NULL_TEXT else buffer.value;
      buffer := Some(text + Units(data));
    }

    method AppendBuffer(data: Data)
      requires kind.BufferType?
      modifies this
      ensures buffer == Some(old(Held()) + if data.Text? then encoding(data.units) else data.bytes)
    {
      var bytes := Units(data);
      if buffer.None? {
        buffer := Some(bytes);
        assert [] + bytes == bytes;
      } else {
        buffer := Some(buffer.value + bytes);
      }
    }

    method Append(data: Data)
      modifies this
      ensures buffer == Some(old(Held()) + Units(data))
    {
      if kind.StringType? {
        AppendString(data);
      } else {
        AppendBuffer(data);
      }
    }

    /** Cuts off messages until no delimiter is left. Defined only once something was appended;
        with an empty delimiter it would not end. */
    method Split() returns (lines: seq<seq<CodeUnit>>)
      requires buffer.Some? && eof != []
      modifies this
      ensures buffer.Some?
      ensures Cut(lines, buffer.value) == Framing.Split(old(buffer.value), Needle(kind, eof), |eof|)
      ensures CutsAtEof(kind, eof, old(buffer.value), Cut(lines, buffer.value))
    {
      lines := CutAt(Needle(kind, eof));
      CutsExactly(kind, eof, old(buffer.value), Cut(lines, buffer.value));
    }

    /** The loop of `Split`. The advance is the UTF-16 length of `eof`, which may be shorter than what the
        search looks for. */
    method CutAt(d: seq<CodeUnit>) returns (lines: seq<seq<CodeUnit>>)
      requires buffer.Some? && 0 < |eof| <= |d|
      modifies this
      ensures buffer.Some?
      ensures Cut(lines, buffer.value) == Framing.Split(old(buffer.value), d, |eof|)
    {
      ghost var whole := Framing.Split(buffer.value, d, |eof|);
      lines := [];
      NothingCut(buffer.value, d, |eof|);
      var search := IndexOf(buffer.value, d);
      while search > -1
        invariant buffer.Some? && search == IndexOf(buffer.value, d)
        invariant ToCome(lines, buffer.value, d, |eof|) == whole
        decreases |buffer.value|
      {
        CutNext(buffer.value, d, |eof|, lines, search);
        lines := lines + [buffer.value[0..search]];
        buffer := Some(buffer.value[search + |eof|..|buffer.value|]);
        search := IndexOf(buffer.value, d);
      }
      NothingLeft(buffer.value, d, |eof|, lines);
    }
  }

  /** The lines already cut together with what is still to be cut. */
  ghost function ToCome(lines: seq<seq<CodeUnit>>, s: seq<CodeUnit>, d: seq<CodeUnit>, adv: nat): Cut<CodeUnit>
    requires 0 < adv <= |d|
  {
    Cut(lines + Framing.Split(s, d, adv).lines, Framing.Split(s, d, adv).rest)
  }

  lemma NothingCut(s: seq<CodeUnit>, d: seq<CodeUnit>, adv: nat)
    requires 0 < adv <= |d|
    ensures ToCome([], s, d, adv) == Framing.Split(s, d, adv)
  {
  }

  /** One turn of the loop: what was cut and what is still to be cut stay the same together. */
  lemma CutNext(s: seq<CodeUnit>, d: seq<CodeUnit>, adv: nat, lines: seq<seq<CodeUnit>>, p: nat)
    requires 0 < adv <= |d| && p == IndexOf(s, d)
    ensures p + adv <= |s| && ToCome(lines, s, d, adv) == ToCome(lines + [s[0..p]], s[p + adv..|s|], d, adv)
  {
    CutFirst(s, s[0..p], s[p + adv..|s|], d, adv);
    Associates(lines, [s[0..p]], Framing.Split(s[p + adv..|s|], d, adv).lines);
  }

  lemma NothingLeft(s: seq<CodeUnit>, d: seq<CodeUnit>, adv: nat, lines: seq<seq<CodeUnit>>)
    requires 0 < adv <= |d| && !Contains(s, d)
    ensures ToCome(lines, s, d, adv) == Cut(lines, s)
  {
  }

  lemma CutsExactly(kind: BufferType, eof: seq<CodeUnit>, s: seq<CodeUnit>, c: Cut<CodeUnit>)
    requires eof != []
    ensures CutsAtEof(kind, eof, s, c) <==> c == Framing.Split(s, Needle(kind, eof), |eof|)
  {
    AdvanceWithinMatch(eof);
    SplitCanonical(s, Needle(kind, eof), |eof|, c);
  }

  /** What has been emitted and what is held are the reference exactly when they cut everything received at
      each first `eof`, behind the text "null" in a string buffer. */
  lemma ReferenceExactly(kind: BufferType, eof: seq<CodeUnit>, received: seq<seq<CodeUnit>>, c: Cut<CodeUnit>)
    requires eof != []
    ensures c == Reference(kind, eof, received)
       <==> CutsAtEof(kind, eof, (if kind.StringType? then NULL_TEXT else []) + Concat(received), c)
  {
    CutsExactly(kind, eof, Origin(kind) + Concat(received), c);
  }

  lemma NullText()
    ensures NULL_TEXT == ['n' as CodeUnit, 'u' as CodeUnit, 'l' as CodeUnit, 'l' as CodeUnit]
  {
  }

  // ----- String mode -----

  /** Everything a string buffer cuts and holds is that of the stream with "null" put before it,
      so it is never what the stream itself would give. */
  lemma StringModeShowsNull(chunks: seq<seq<CodeUnit>>, eof: seq<CodeUnit>)
    requires eof != [] && chunks != []
    ensures Feed(NULL_TEXT, chunks, eof, |eof|) == Reference(StringType, eof, chunks)
         == Framing.Split(NULL_TEXT + Concat(chunks), eof, |eof|)
    ensures Reference(StringType, eof, chunks) != Feed([], chunks, eof, |eof|)
  {
    ChunkingInvariance(NULL_TEXT, chunks, eof, |eof|);
    ChunkingInvariance([], chunks, eof, |eof|);
    SplitConserves(NULL_TEXT + Concat(chunks), eof, |eof|);
    SplitConserves([] + Concat(chunks), eof, |eof|);
  }

  /** A string buffer that is handed bytes cuts the text of their stream, behind the "null", exactly when
      no chunk ends inside a character. */
  lemma StringModeReadsBytes(chunks: seq<seq<CodeUnit>>, eof: seq<CodeUnit>)
    requires eof != [] && chunks != []
    ensures Feed(NULL_TEXT, DecodeAll(chunks), eof, |eof|) == Reference(StringType, eof, DecodeAll(chunks))
    ensures Reference(StringType, eof, DecodeAll(chunks))
            == Framing.Split(NULL_TEXT + Decode(Concat(chunks)), eof, |eof|)
       <==> WholeCharacters(chunks)
  {
    var pieces, whole := Concat(DecodeAll(chunks)), Decode(Concat(chunks));
    DecodeChunks(chunks);
    ChunkingInvariance(NULL_TEXT, DecodeAll(chunks), eof, |eof|);
    SplitConserves(NULL_TEXT + pieces, eof, |eof|);
    SplitConserves(NULL_TEXT + whole, eof, |eof|);
    assert (NULL_TEXT + pieces)[|NULL_TEXT|..] == pieces && (NULL_TEXT + whole)[|NULL_TEXT|..] == whole;
  }

  // ----- Buffer mode -----

  /** Text handed to a byte buffer chunk by chunk, with an ASCII delimiter, comes out as the encodings of
      the messages of the text exactly when no chunk ends inside a surrogate pair. A socket that decodes its
      bytes never hands out such a chunk (tcp/tcpServerListener.js:43); other callers of `append` may. */
  lemma BufferedTextExactly(eof: seq<CodeUnit>, texts: seq<seq<CodeUnit>>)
    requires eof != [] && IsAscii(eof)
    ensures Reference(BufferType, eof, EncodeAll(texts)) == EncodeCut(Framing.Split(Concat(texts), eof, |eof|))
       <==> Aligned(texts)
  {
    var bytes := Concat(EncodeAll(texts));
    EncodeAscii(eof);
    EncodeChunks(texts);
    SplitEncoded(Concat(texts), eof);
    assert Origin(BufferType) + bytes == bytes;
    SplitConserves(bytes, eof, |eof|);
    SplitConserves(Encode(Concat(texts)), eof, |eof|);
  }

  /** Every list of delimiter-free byte messages, each sent with `d` after it, is received unchanged. */
  ghost predicate BytesRoundTrip(d: seq<CodeUnit>, adv: nat)
    requires 0 < adv <= |d|
  {
    forall ms: seq<seq<CodeUnit>> | AllFree(ms, d) && AllBytes(ms) ::
      Framing.Split(Unsplit(ms, d), d, adv) == Cut(ms, [])
  }

  ghost predicate AllBytes(ms: seq<seq<CodeUnit>>) {
    forall m | m in ms :: IsBytes(m)
  }

  lemma ShortAdvanceFails(d: seq<CodeUnit>, adv: nat)
    requires 0 < adv < |d|
    ensures !BytesRoundTrip(d, adv)
  {
    var ms: seq<seq<CodeUnit>> := [[]];
    EarlyResumeBreaks(d, adv);
    assert AllFree(ms, d) && AllBytes(ms);
    assert Framing.Split(Unsplit(ms, d), d, adv) != Cut(ms, []);
  }

  lemma BorderFails(d: seq<CodeUnit>, k: nat)
    requires IsBytes(d) && IsBorder(d, k)
    ensures !BytesRoundTrip(d, |d|)
  {
    var ms := [d[..|d| - k]];
    BorderCounterexample(d, k);
    assert IsBytes(ms[0]) by {
      assert forall b | b in ms[0] :: b in d;
    }
    assert AllFree(ms, d) && AllBytes(ms);
    assert Framing.Split(Unsplit(ms, d), d, |d|) != Cut(ms, []);
  }

  lemma BorderlessSucceeds(d: seq<CodeUnit>)
    requires d != [] && Borderless(d)
    ensures BytesRoundTrip(d, |d|)
  {
    RoundTripExactly(d, |d|);
    assert RoundTrips(d, |d|);
  }

  /** Sending delimiter-free messages of bytes, each followed by `eof`, and cutting gives the messages
      back for all lists of messages exactly when `eof` is ASCII and has no border. */
  lemma BufferRoundTripExactly(eof: seq<CodeUnit>)
    requires eof != []
    ensures |eof| <= |Encode(eof)|
    ensures BytesRoundTrip(Encode(eof), |eof|) <==> IsAscii(eof) && Borderless(eof)
  {
    AdvanceWithinMatch(eof);
    if !IsAscii(eof) {
      ShortAdvanceFails(Encode(eof), |eof|);
    } else {
      EncodeAscii(eof);
      if Borderless(eof) {
        BorderlessSucceeds(eof);
      } else {
        var k: nat :| 0 < k < |eof| && IsBorder(eof, k);
        EncodeIsBytes(eof);
        BorderFails(eof, k);
      }
    }
  }
}
