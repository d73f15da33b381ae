/** Turning interleaved datagrams into one framed session per endpoint, as a state machine
    (udp/udpServerListener.js:46-59, server/server.js:197-205). */
module UdpSessions {
  import opened Framing
  import opened Sequences
  import opened Utf8
  import opened Options
  import opened MessageBuffers
  import opened ObjectManagers

  /** The delimiter of the clients; the listener makes them with the default one, a carriage return. */
  type Delimiter = d: seq<CodeUnit> | d != [] witness [0x0D]

  // ----- Endpoint names -----

  function Digit(n: nat): (c: char)
    requires n < 10
    ensures c != ':'
  {
    "0123456789"[n]
  }

  function Decimal(n: nat): (s: string)
    ensures s != [] && ':' !in s
  {
    if n < 10 then [Digit(n)] else Decimal(n / 10) + [Digit(n % 10)]
  }

  /** The key under which the client of an endpoint is kept. */
  function EndpointName(address: string, port: nat): string {
    address + ":" + Decimal(port)
  }

  lemma DigitInjective(m: nat, n: nat)
    requires m < 10 && n < 10 && Digit(m) == Digit(n)
    ensures m == n
  {
  }

  lemma {:induction false} DecimalInjective(m: nat, n: nat)
    requires Decimal(m) == Decimal(n)
    ensures m == n
  {
    var s, t := Decimal(m), Decimal(n);
    DigitInjective(m % 10, n % 10) by {
      assert s[|s| - 1] == Digit(m % 10) && t[|t| - 1] == Digit(n % 10);
    }
    if m >= 10 && n >= 10 {
      assert s[..|s| - 1] == Decimal(m / 10) && t[..|t| - 1] == Decimal(n / 10);
      DecimalInjective(m / 10, n / 10);
    }
  }

  lemma LastColon(address: string, port: nat)
    ensures var s := EndpointName(address, port);
            s[|address|] == ':' && forall i | |address| < i < |s| :: s[i] != ':'
  {
    var s := EndpointName(address, port);
    assert forall i | |address| < i < |s| :: s[i] == Decimal(port)[i - |address| - 1];
  }

  /** Different endpoints never share a session key, whatever the form of the address. */
  lemma EndpointNameInjective(a: string, p: nat, b: string, q: nat)
    requires EndpointName(a, p) == EndpointName(b, q)
    ensures a == b && p == q
  {
    var s := EndpointName(a, p);
    LastColon(a, p);
    LastColon(b, q);
    assert |a| == |b|;
    assert a == s[..|a|] == b;
    assert Decimal(p) == s[|a| + 1..] == Decimal(q);
    DecimalInjective(p, q);
  }

  /** The number that decimal digits stand for. */
  function Number(s: string): int {
    if s == "" then 0 else 10 * Number(s[..|s| - 1]) + (s[|s| - 1] as int - '0' as int)
  }

  predicate AllDigits(s: string) {
    forall c | c in s :: '0' <= c <= '9'
  }

  lemma {:induction false} DecimalMeans(n: nat)
    ensures AllDigits(Decimal(n)) && Number(Decimal(n)) == n
    ensures |Decimal(n)| > 1 ==> Decimal(n)[0] != '0'
  {
    var d := Digit(n % 10);
    assert d as int == '0' as int + n % 10;
    if n < 10 {
      assert Decimal(n)[..0] == "";
    } else {
      DecimalMeans(n / 10);
      assert Decimal(n)[..|Decimal(n)| - 1] == Decimal(n / 10);
      assert n / 10 < 10 ==> Decimal(n / 10)[0] != '0';
    }
  }

  /** The key of an endpoint is its address, a colon and its port in decimal, without leading zeros. */
  lemma EndpointMeans(address: string, port: nat)
    ensures var s := EndpointName(address, port); var digits := s[|address| + 1..];
            && address + ":" <= s && digits != "" && AllDigits(digits) && Number(digits) == port
            && (|digits| > 1 ==> digits[0] != '0')
  {
    DecimalMeans(port);
    assert EndpointName(address, port)[|address| + 1..] == Decimal(port);
  }

  // ----- The machine -----

  /** What the client of an endpoint has emitted and holds back. */
  datatype Session = Session(emitted: seq<seq<CodeUnit>>, held: seq<CodeUnit>)

  datatype Message = Message(from: string, text: seq<CodeUnit>)

  /** The registered clients, and every message emitted, in order. */
  datatype Demux = Demux(clients: Manager<Session>, log: seq<Message>)

  datatype Event =
    | Datagram(address: string, port: nat, data: seq<CodeUnit>)
    | Delete(id: string)
    | Empty

  function Cutting(eof: Delimiter, s: seq<CodeUnit>): Cut<CodeUnit> {
    Split(s, Needle(BufferType, eof), |eof|)
  }

  function Received(eof: Delimiter, s: Session, data: seq<CodeUnit>): Session {
    var t := Cutting(eof, s.held + data);
    Session(s.emitted + t.lines, t.rest)
  }

  function Tagged(name: string, lines: seq<seq<CodeUnit>>): seq<Message> {
    if lines == [] then [] else [Message(name, lines[0])] + Tagged(name, lines[1..])
  }

  function NewSession(): Session { Session([], []) }

  function SessionAt(s: Demux, name: string): Session {
    if name in s.clients.objects then s.clients.objects[name] else NewSession()
  }

  /** The session of a registered client becomes `next`; one that is not registered is not kept. */
  function Stored(clients: Manager<Session>, name: string, next: Session): Manager<Session> {
    if name in clients.objects then clients.(objects := clients.objects[name := next]) else clients
  }

  /** A datagram goes to the client of its endpoint; the first one makes that client. */
  function Arrive(eof: Delimiter, s: Demux, name: string, data: seq<CodeUnit>): Demux {
    var clients := if name in s.clients.objects then s.clients else Added(s.clients, name, NewSession());
    Demux(Stored(clients, name, Received(eof, SessionAt(s, name), data)),
          s.log + Tagged(name, Cutting(eof, SessionAt(s, name).held + data).lines))
  }

  function Step(eof: Delimiter, s: Demux, e: Event): Demux {
    match e
    case Datagram(address, port, data) => Arrive(eof, s, EndpointName(address, port), data)
    case Delete(id) => s.(clients := Deleted(s.clients, id))
    case Empty => s.(clients := Emptied(s.clients))
  }

  function Run(eof: Delimiter, max: int, es: seq<Event>): Demux {
    if es == [] then Demux(Fresh(max), []) else Step(eof, Run(eof, max, es[..|es| - 1]), es[|es| - 1])
  }

  // ----- What each endpoint should see -----

  predicate IsFrom(e: Event, name: string) {
    e.Datagram? && EndpointName(e.address, e.port) == name
  }

  predicate Ends(e: Event, name: string) {
    e.Empty? || (e.Delete? && e.id == name)
  }

  /** The datagrams of the endpoint since its client was last removed. */
  function Since(es: seq<Event>, name: string): seq<seq<CodeUnit>> {
    if es == [] then []
    else
      var before, e := Since(es[..|es| - 1], name), es[|es| - 1];
      if IsFrom(e, name) then before + [e.data]
      else if Ends(e, name) then []
      else before
  }

  /** The datagrams of each earlier session of the endpoint. */
  function Finished(es: seq<Event>, name: string): seq<seq<seq<CodeUnit>>> {
    if es == [] then []
    else
      var before, e := es[..|es| - 1], es[|es| - 1];
      if Ends(e, name) && Since(before, name) != [] then Finished(before, name) + [Since(before, name)]
      else Finished(before, name)
  }

  /** The datagrams that the registered client of the endpoint was given. A client that the limit keeps
      out is given one datagram and forgotten. */
  function Kept(eof: Delimiter, max: int, es: seq<Event>, name: string): seq<seq<CodeUnit>> {
    if es == [] then []
    else
      var before, e := es[..|es| - 1], es[|es| - 1];
      if IsFrom(e, name) then
        if Dropped(Run(eof, max, before), e) then [] else Kept(eof, max, before, name) + [e.data]
      else if Ends(e, name) then []
      else Kept(eof, max, before, name)
  }

  /** The datagrams of each earlier client of the endpoint, registered or forgotten. */
  function Episodes(eof: Delimiter, max: int, es: seq<Event>, name: string): seq<seq<seq<CodeUnit>>> {
    if es == [] then []
    else
      var before, e := es[..|es| - 1], es[|es| - 1];
      if IsFrom(e, name) && Dropped(Run(eof, max, before), e) then Episodes(eof, max, before, name) + [[e.data]]
      else if Ends(e, name) && Kept(eof, max, before, name) != [] then
        Episodes(eof, max, before, name) + [Kept(eof, max, before, name)]
      else Episodes(eof, max, before, name)
  }

  /** The session that one leftmost split of the whole stream of datagrams gives. */
  function ReferenceSession(eof: Delimiter, chunks: seq<seq<CodeUnit>>): Session {
    var c := Reference(BufferType, eof, chunks);
    Session(c.lines, c.rest)
  }

  function ReferenceLines(eof: Delimiter, sessions: seq<seq<seq<CodeUnit>>>): seq<seq<CodeUnit>> {
    if sessions == [] then []
    else ReferenceLines(eof, sessions[..|sessions| - 1]) + ReferenceSession(eof, sessions[|sessions| - 1]).emitted
  }

  function SessionOf(s: Demux, name: string): Option<Session> {
    if name in s.clients.objects then Some(s.clients.objects[name]) else None
  }

  function Expected(eof: Delimiter, es: seq<Event>, name: string): Option<Session> {
    if Since(es, name) == [] then None else Some(ReferenceSession(eof, Since(es, name)))
  }

  /** The messages in the log that come from the endpoint. */
  function From(log: seq<Message>, name: string): seq<seq<CodeUnit>> {
    if log == [] then []
    else From(log[..|log| - 1], name) + if log[|log| - 1].from == name then [log[|log| - 1].text] else []
  }

  /** The datagram comes from an endpoint without a client while the collection refuses adds. */
  predicate Dropped(s: Demux, e: Event) {
    && e.Datagram?
    && EndpointName(e.address, e.port) !in s.clients.objects
    && Refuses(s.clients)
  }

  /** No datagram of this endpoint is dropped in the run. */
  ghost predicate NothingDropped(eof: Delimiter, max: int, es: seq<Event>, name: string) {
    forall k | 0 <= k < |es| && IsFrom(es[k], name) :: !Dropped(Run(eof, max, es[..k]), es[k])
  }

  lemma NothingDroppedBefore(eof: Delimiter, max: int, es: seq<Event>, name: string, n: nat)
    requires n <= |es| && NothingDropped(eof, max, es, name)
    ensures NothingDropped(eof, max, es[..n], name)
  {
    assert forall k | 0 <= k <= n :: es[..n][..k] == es[..k];
  }

  // ----- Sessions are the reference -----

  lemma ReferenceExtends(eof: Delimiter, chunks: seq<seq<CodeUnit>>, data: seq<CodeUnit>)
    ensures chunks == [] ==> ReferenceSession(eof, chunks) == NewSession()
    ensures ReferenceSession(eof, chunks + [data]) == Received(eof, ReferenceSession(eof, chunks), data)
  {
    var s := ReferenceSession(eof, chunks);
    if chunks == [] {
      assert Reference(BufferType, eof, []) == Cut([], []) by {
        assert Origin(BufferType) + Concat([]) == [];
      }
    }
    SplitExtended([], chunks, data, Needle(BufferType, eof), |eof|, s.emitted, s.held);
  }

  /** Under every limit, an endpoint has a session exactly when its client is registered, and that session
      is the reference split of just the datagrams this client was given, whatever everybody else sends. */
  lemma {:induction false} SessionsAreKept(eof: Delimiter, max: int, es: seq<Event>, name: string)
    ensures var kept := Kept(eof, max, es, name);
            SessionOf(Run(eof, max, es), name) == if kept == [] then None else Some(ReferenceSession(eof, kept))
  {
    if es != [] {
      var before, e := es[..|es| - 1], es[|es| - 1];
      SessionsAreKept(eof, max, before, name);
      if IsFrom(e, name) {
        ReferenceExtends(eof, Kept(eof, max, before, name), e.data);
      }
    }
  }

  /** Where nothing of an endpoint is dropped, its clients were given everything. */
  lemma {:induction false} KeptIsAll(eof: Delimiter, max: int, es: seq<Event>, name: string)
    requires NothingDropped(eof, max, es, name)
    ensures Kept(eof, max, es, name) == Since(es, name)
    ensures Episodes(eof, max, es, name) == Finished(es, name)
  {
    if es != [] {
      var n := |es| - 1;
      NothingDroppedBefore(eof, max, es, name, n);
      KeptIsAll(eof, max, es[..n], name);
      assert IsFrom(es[n], name) ==> !Dropped(Run(eof, max, es[..n]), es[n]);
    }
  }

  /** Where nothing of an endpoint is dropped, it has a session exactly when it sent something since it was
      last removed, and that session is the reference split of just those datagrams. */
  lemma SessionsAreReference(eof: Delimiter, max: int, es: seq<Event>, name: string)
    requires NothingDropped(eof, max, es, name)
    ensures SessionOf(Run(eof, max, es), name) == Expected(eof, es, name)
  {
    SessionsAreKept(eof, max, es, name);
    KeptIsAll(eof, max, es, name);
  }

  /** The session of an endpoint matches the reference at every moment of a run exactly when none of its own
      datagrams was dropped by the limit. */
  lemma SessionsAreReferenceExactly(eof: Delimiter, max: int, es: seq<Event>, name: string)
    ensures (forall k | 0 <= k <= |es| :: SessionOf(Run(eof, max, es[..k]), name) == Expected(eof, es[..k], name))
       <==> NothingDropped(eof, max, es, name)
  {
    if NothingDropped(eof, max, es, name) {
      forall k | 0 <= k <= |es|
        ensures SessionOf(Run(eof, max, es[..k]), name) == Expected(eof, es[..k], name)
      {
        NothingDroppedBefore(eof, max, es, name, k);
        SessionsAreReference(eof, max, es[..k], name);
      }
    } else {
      var k :| 0 <= k < |es| && IsFrom(es[k], name) && Dropped(Run(eof, max, es[..k]), es[k]);
      DroppedShows(eof, max, es[..k + 1], name);
      assert es[..k + 1][..k] == es[..k];
      assert SessionOf(Run(eof, max, es[..k + 1]), name) != Expected(eof, es[..k + 1], name);
    }
  }

  lemma DroppedShows(eof: Delimiter, max: int, es: seq<Event>, name: string)
    requires es != [] && IsFrom(es[|es| - 1], name)
    ensures Dropped(Run(eof, max, es[..|es| - 1]), es[|es| - 1]) ==>
              SessionOf(Run(eof, max, es), name) == None && Expected(eof, es, name).Some?
  {
  }

  lemma {:induction false} NoLimit(eof: Delimiter, es: seq<Event>)
    ensures Run(eof, 0, es).clients.max == 0
  {
    if es != [] {
      NoLimit(eof, es[..|es| - 1]);
    }
  }

  lemma NoLimitNothingDropped(eof: Delimiter, es: seq<Event>, name: string)
    ensures NothingDropped(eof, 0, es, name)
  {
    forall k | 0 <= k < |es| && IsFrom(es[k], name)
      ensures !Dropped(Run(eof, 0, es[..k]), es[k])
    {
      NoLimit(eof, es[..k]);
    }
  }

  // ----- The log -----

  lemma {:induction false} FromAppend(a: seq<Message>, b: seq<Message>, name: string)
    ensures From(a + b, name) == From(a, name) + From(b, name)
    decreases |b|
  {
    if b == [] {
      assert a + b == a;
    } else {
      assert (a + b)[..|a + b| - 1] == a + b[..|b| - 1];
      FromAppend(a, b[..|b| - 1], name);
    }
  }

  lemma {:induction false} FromTagged(sender: string, lines: seq<seq<CodeUnit>>, name: string)
    ensures From(Tagged(sender, lines), name) == if sender == name then lines else []
  {
    if lines != [] {
      var one := [Message(sender, lines[0])];
      FromTagged(sender, lines[1..], name);
      FromAppend(one, Tagged(sender, lines[1..]), name);
      assert one[..0] == [];
      assert lines == [lines[0]] + lines[1..];
    }
  }

  /** All messages of the clients an endpoint has had: of the earlier ones and of the present one, each
      cut as one stream. */
  function LinesOf(eof: Delimiter, episodes: seq<seq<seq<CodeUnit>>>, present: seq<seq<CodeUnit>>): seq<seq<CodeUnit>> {
    ReferenceLines(eof, episodes) + ReferenceSession(eof, present).emitted
  }

  lemma LinesClosed(eof: Delimiter, episodes: seq<seq<seq<CodeUnit>>>, present: seq<seq<CodeUnit>>)
    ensures LinesOf(eof, episodes + [present], []) == LinesOf(eof, episodes, present)
    ensures LinesOf(eof, episodes, []) == ReferenceLines(eof, episodes)
  {
    ReferenceExtends(eof, [], []);
    assert (episodes + [present])[..|episodes|] == episodes;
  }

  /** The messages that one more event adds for an endpoint whose client was given these datagrams. */
  function NewLines(eof: Delimiter, chunks: seq<seq<CodeUnit>>, e: Event, name: string): seq<seq<CodeUnit>> {
    if IsFrom(e, name) then Cutting(eof, ReferenceSession(eof, chunks).held + e.data).lines else []
  }

  lemma LinesGrown(eof: Delimiter, episodes: seq<seq<seq<CodeUnit>>>, present: seq<seq<CodeUnit>>, data: seq<CodeUnit>)
    ensures LinesOf(eof, episodes, present + [data])
         == LinesOf(eof, episodes, present) + Cutting(eof, ReferenceSession(eof, present).held + data).lines
  {
    var before := ReferenceSession(eof, present);
    var lines := Cutting(eof, before.held + data).lines;
    assert ReferenceSession(eof, present + [data]).emitted == before.emitted + lines by {
      ReferenceExtends(eof, present, data);
    }
    Associates(ReferenceLines(eof, episodes), before.emitted, lines);
  }

  lemma LinesForgotten(eof: Delimiter, episodes: seq<seq<seq<CodeUnit>>>, data: seq<CodeUnit>)
    ensures LinesOf(eof, episodes + [[data]], [])
         == LinesOf(eof, episodes, []) + Cutting(eof, ReferenceSession(eof, []).held + data).lines
  {
    LinesGrown(eof, episodes, [], data);
    assert [] + [data] == [data];
    LinesClosed(eof, episodes, [data]);
  }

  lemma LinesStep(eof: Delimiter, max: int, es: seq<Event>, name: string)
    requires es != []
    ensures var before, e := es[..|es| - 1], es[|es| - 1];
            LinesOf(eof, Episodes(eof, max, es, name), Kept(eof, max, es, name))
            == LinesOf(eof, Episodes(eof, max, before, name), Kept(eof, max, before, name))
               + NewLines(eof, Kept(eof, max, before, name), e, name)
  {
    var before, e := es[..|es| - 1], es[|es| - 1];
    var done, chunks := Episodes(eof, max, before, name), Kept(eof, max, before, name);
    if IsFrom(e, name) {
      if Dropped(Run(eof, max, before), e) {
        SessionsAreKept(eof, max, before, name);
        LinesForgotten(eof, done, e.data);
      } else {
        LinesGrown(eof, done, chunks, e.data);
      }
    } else if Ends(e, name) {
      LinesClosed(eof, done, chunks);
    }
  }

  lemma LogStep(eof: Delimiter, max: int, before: seq<Event>, e: Event, name: string)
    ensures From(Step(eof, Run(eof, max, before), e).log, name)
         == From(Run(eof, max, before).log, name) + NewLines(eof, Kept(eof, max, before, name), e, name)
  {
    if e.Datagram? {
      var s, sender := Run(eof, max, before), EndpointName(e.address, e.port);
      var lines := Cutting(eof, SessionAt(s, sender).held + e.data).lines;
      FromAppend(s.log, Tagged(sender, lines), name);
      FromTagged(sender, lines, name);
      SessionsAreKept(eof, max, before, sender);
      ReferenceExtends(eof, Kept(eof, max, before, sender), e.data);
    }
  }

  /** Under every limit, the log holds for every endpoint exactly the messages of the clients it has had,
      in order: each registered one's datagrams cut as one stream, each forgotten one's datagram alone. */
  lemma {:induction false} LogIsKept(eof: Delimiter, max: int, es: seq<Event>, name: string)
    ensures From(Run(eof, max, es).log, name)
         == LinesOf(eof, Episodes(eof, max, es, name), Kept(eof, max, es, name))
  {
    if es == [] {
      LinesClosed(eof, [], []);
    } else {
      LogIsKept(eof, max, es[..|es| - 1], name);
      LogStep(eof, max, es[..|es| - 1], es[|es| - 1], name);
      LinesStep(eof, max, es, name);
    }
  }

  /** Where nothing of it is dropped, these are all its finished sessions and the present one. */
  lemma LogIsReference(eof: Delimiter, max: int, es: seq<Event>, name: string)
    requires NothingDropped(eof, max, es, name)
    ensures From(Run(eof, max, es).log, name) == LinesOf(eof, Finished(es, name), Since(es, name))
  {
    LogIsKept(eof, max, es, name);
    KeptIsAll(eof, max, es, name);
  }

  lemma {:induction false} TaggedMeans(name: string, lines: seq<seq<CodeUnit>>)
    ensures |Tagged(name, lines)| == |lines|
    ensures forall i | 0 <= i < |lines| :: Tagged(name, lines)[i] == Message(name, lines[i])
  {
    if lines != [] {
      TaggedMeans(name, lines[1..]);
    }
  }

  /** The log only grows, and by nothing but the messages that the datagram just received completes for the
      client of its endpoint, in order. */
  lemma LogAppended(eof: Delimiter, max: int, es: seq<Event>)
    requires es != []
    ensures var before, e := es[..|es| - 1], es[|es| - 1];
            var log, log' := Run(eof, max, before).log, Run(eof, max, es).log;
            && log <= log'
            && if e.Datagram? then
                 var name := EndpointName(e.address, e.port);
                 var lines := NewLines(eof, Kept(eof, max, before, name), e, name);
                 |log'| == |log| + |lines|
                 && forall i | 0 <= i < |lines| :: log'[|log|..][i] == Message(name, lines[i])
               else log' == log
  {
    var before, e := es[..|es| - 1], es[|es| - 1];
    if e.Datagram? {
      var s, name := Run(eof, max, before), EndpointName(e.address, e.port);
      var lines := Cutting(eof, SessionAt(s, name).held + e.data).lines;
      SessionsAreKept(eof, max, before, name);
      ReferenceExtends(eof, Kept(eof, max, before, name), e.data);
      TaggedMeans(name, lines);
      assert Run(eof, max, es).log[|s.log|..] == Tagged(name, lines);
    }
  }

  // ----- The collection of clients -----

  /** What an event asks of the collection: to add the client of an endpoint that has none, to delete one
      whether or not it is there, or to be emptied. */
  function ClientOps(s: Demux, e: Event): seq<Op<Session>> {
    match e
    case Datagram(address, port, _) =>
      var name := EndpointName(address, port);
      if name in s.clients.objects then [] else [Add(name, NewSession())]
    case Delete(id) => [Op.Delete(id)]
    case Empty => [Op.Empty]
  }

  function AllClientOps(eof: Delimiter, max: int, es: seq<Event>): seq<Op<Session>> {
    if es == [] then []
    else AllClientOps(eof, max, es[..|es| - 1]) + ClientOps(Run(eof, max, es[..|es| - 1]), es[|es| - 1])
  }

  /** The same but for what is under the keys. */
  ghost predicate SameCounters(m: Manager<Session>, n: Manager<Session>) {
    m.max == n.max && m.count == n.count && m.total == n.total && m.peak == n.peak && m.objects.Keys == n.objects.Keys
  }

  /** The collection has the counters and the keys of one that went through just these operations. */
  lemma {:induction false} ClientCounters(eof: Delimiter, max: int, es: seq<Event>)
    ensures SameCounters(Run(eof, max, es).clients, ObjectManagers.Run(max, AllClientOps(eof, max, es)))
  {
    if es != [] {
      var before, e := es[..|es| - 1], es[|es| - 1];
      var past, ops := AllClientOps(eof, max, before), ClientOps(Run(eof, max, before), e);
      ClientCounters(eof, max, before);
      CountersStep(eof, Run(eof, max, before), e, ObjectManagers.Run(max, past));
      if ops == [] {
        assert past + ops == past;
      } else {
        assert ops == [ops[0]];
        RunSnoc(max, past, ops[0]);
      }
    }
  }

  lemma CountersStep(eof: Delimiter, s: Demux, e: Event, n: Manager<Session>)
    requires SameCounters(s.clients, n)
    ensures var ops := ClientOps(s, e);
            |ops| <= 1 && SameCounters(Step(eof, s, e).clients, if ops == [] then n else Apply(n, ops[0]))
  {
    match e
    case Datagram(address, port, data) =>
      var name := EndpointName(address, port);
      var clients := if name in s.clients.objects then s.clients else Added(s.clients, name, NewSession());
      StoredCounters(clients, name, Received(eof, SessionAt(s, name), data));
    case Delete(id) =>
    case Empty =>
  }

  lemma StoredCounters(m: Manager<Session>, name: string, next: Session)
    ensures SameCounters(Stored(m, name, next), m)
  {
  }

  // ----- Non-interference -----

  /** The events that concern one endpoint. */
  function Only(es: seq<Event>, name: string): seq<Event> {
    if es == [] then []
    else
      var e := es[|es| - 1];
      Only(es[..|es| - 1], name) + if IsFrom(e, name) || Ends(e, name) then [e] else []
  }

  lemma {:induction false} OnlyKeepsStreams(es: seq<Event>, name: string)
    ensures Since(Only(es, name), name) == Since(es, name)
    ensures Finished(Only(es, name), name) == Finished(es, name)
  {
    if es != [] {
      var before, e := es[..|es| - 1], es[|es| - 1];
      OnlyKeepsStreams(before, name);
      var kept := Only(before, name);
      if IsFrom(e, name) || Ends(e, name) {
        assert (kept + [e])[..|kept|] == kept && Only(es, name) == kept + [e];
      } else {
        assert Only(es, name) == kept;
      }
    }
  }

  /** Without a client limit, an endpoint's session and all its messages are the same as if nobody
      else had ever sent or been removed. */
  lemma NonInterference(eof: Delimiter, es: seq<Event>, name: string)
    ensures SessionOf(Run(eof, 0, es), name) == SessionOf(Run(eof, 0, Only(es, name)), name)
    ensures From(Run(eof, 0, es).log, name) == From(Run(eof, 0, Only(es, name)).log, name)
  {
    NoLimitNothingDropped(eof, es, name);
    NoLimitNothingDropped(eof, Only(es, name), name);
    SessionsAreReference(eof, 0, es, name);
    SessionsAreReference(eof, 0, Only(es, name), name);
    LogIsReference(eof, 0, es, name);
    LogIsReference(eof, 0, Only(es, name), name);
    OnlyKeepsStreams(es, name);
  }

  /** With a limit of one, somebody else's client makes an endpoint lose its session. */
  lemma LimitInterferes(eof: Delimiter)
    ensures var es := [Datagram("a", 1, []), Datagram("b", 1, [])]; var name := EndpointName("b", 1);
            SessionOf(Run(eof, 1, es), name) != SessionOf(Run(eof, 1, Only(es, name)), name)
  {
    var first, second := Datagram("a", 1, []), Datagram("b", 1, []);
    var es, name := [first, second], EndpointName("b", 1);
    if EndpointName("a", 1) == name {
      EndpointNameInjective("a", 1, "b", 1);
    }
    assert es[..1] == [first] && [first][..0] == [] && [second][..0] == [];
    assert Only([first], name) == [];
    assert Only(es, name) == [second];
    assert name !in Run(eof, 1, [first]).clients.objects;
    assert Run(eof, 1, [first]).clients.count == 1;
    assert name in Run(eof, 1, [second]).clients.objects;
  }
}
