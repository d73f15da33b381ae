/** A client turning received data into messages (client/client.js). */
module Clients {
  import opened Framing
  import opened Utf8
  import opened MessageBuffers
  import opened Options

  class Client {
    const id: string
    const rx_buffer: MessageBuffer
    /** The messages emitted so far, in order. */
    var emitted: seq<seq<CodeUnit>>
    /** The data received so far, chunk by chunk. */
    ghost var received: seq<seq<CodeUnit>>

    constructor (id: string, kind: BufferType, eof: seq<CodeUnit>, encoding: Encoding := Encode)
      ensures fresh(rx_buffer) && (eof != [] ==> Faithful())
      ensures this.id == id && rx_buffer.kind == kind && rx_buffer.eof == eof && rx_buffer.encoding == encoding
      ensures received == [] && emitted == []
    {
      this.id := id;
      rx_buffer := new MessageBuffer(kind, eof, encoding);
      emitted := [];
      received := [];
    }

    /** Everything emitted and held back is one leftmost split of everything received. */
    ghost predicate Faithful()
      reads this, rx_buffer
    {
      && rx_buffer.eof != []
      && (rx_buffer.buffer.None? <==> received == [])
      && (received == [] ==> emitted == [])
      && (received != [] ==>
            Cut(emitted, rx_buffer.Held()) == Reference(rx_buffer.kind, rx_buffer.eof, received))
    }

    /** Emitted and held cut everything received at each first `eof`, behind the text "null" in a string
        buffer. */
    ghost predicate CutsAll()
      reads this, rx_buffer
    {
      CutsAtEof(rx_buffer.kind, rx_buffer.eof,
                (if rx_buffer.kind.StringType? then NULL_TEXT else []) + Concat(received),
                Cut(emitted, rx_buffer.Held()))
    }

    method ProcessRxData(data: Data)
      requires rx_buffer.eof != []
      modifies this, rx_buffer
      ensures old(Faithful()) ==> Faithful() && CutsAll()
      ensures received == old(received) + [rx_buffer.Units(data)]
      ensures old(emitted) <= emitted
      ensures var units := rx_buffer.Units(data);
              var t := Split(old(rx_buffer.Held()) + units, Needle(rx_buffer.kind, rx_buffer.eof), |rx_buffer.eof|);
              emitted == old(emitted) + t.lines && rx_buffer.buffer == Some(t.rest)
    {
      ghost var units := rx_buffer.Units(data);
      if Faithful() {
        Extended(rx_buffer.kind, rx_buffer.eof, received, units, emitted, rx_buffer.Held());
      }
      rx_buffer.Append(data);
      var messages := rx_buffer.Split();
      Deliver(messages);
      received := received + [units];
      ReferenceExactly(rx_buffer.kind, rx_buffer.eof, received, Cut(emitted, rx_buffer.Held()));
    }

    /** Emits the messages one by one. */
    method Deliver(messages: seq<seq<CodeUnit>>)
      modifies this`emitted
      ensures emitted == old(emitted) + messages
    {
      for i := 0 to |messages|
        invariant emitted == old(emitted) + messages[..i]
      {
        emitted := emitted + [messages[i]];
      }
    }
  }

  lemma Extended(kind: BufferType, eof: seq<CodeUnit>, received: seq<seq<CodeUnit>>, data: seq<CodeUnit>,
                 log: seq<seq<CodeUnit>>, held: seq<CodeUnit>)
    requires eof != []
    requires if received == [] then log == [] && held == Origin(kind)
             else Cut(log, held) == Reference(kind, eof, received)
    ensures var t := Split(held + data, Needle(kind, eof), |eof|);
            Reference(kind, eof, received + [data]) == Cut(log + t.lines, t.rest)
  {
    SplitExtended(Origin(kind), received, data, Needle(kind, eof), |eof|, log, held);
  }
}
