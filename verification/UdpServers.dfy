/** The UDP listener and the part of the server that registers its clients
    (udp/udpServerListener.js:46-84, server/server.js:197-234). */
module UdpServers {
  import opened Utf8
  import opened MessageBuffers
  import opened Clients
  import opened ObjectManagers
  import opened UdpSessions

  class UdpServer {
    const client_manager: ObjectManager<Client>
    const eof: Delimiter
    /** The messages the server has emitted, each with the id of its client. */
    var emitted: seq<Message>

    constructor (max_clients: int)
      ensures Valid() && fresh(Repr())
      ensures View() == Demux(Fresh(max_clients), []) && eof == [0x0D]
    {
      eof := [0x0D];
      client_manager := new ObjectManager(max_clients);
      emitted := [];
      new;
      assert View().clients.objects == map[];
    }

    ghost function Clients(): set<object>
      reads client_manager
    {
      set n | n in client_manager.objects :: client_manager.objects[n]
    }

    ghost function Buffers(): set<object>
      reads client_manager
    {
      set n | n in client_manager.objects :: client_manager.objects[n].rx_buffer
    }

    ghost function Repr(): set<object>
      reads client_manager
    {
      {this, client_manager} + Clients() + Buffers()
    }

    /** A client of this listener: a buffer of bytes cut at the listener's delimiter. */
    ghost predicate UdpClient(c: Client)
      reads c, c.rx_buffer
    {
      c.rx_buffer.kind == BufferType && c.rx_buffer.eof == eof
    }

    /** Clients are kept under their ids and share nothing. */
    ghost predicate Valid()
      reads client_manager, Clients(), Buffers()
    {
      && (forall n | n in client_manager.objects ::
            client_manager.objects[n].id == n && UdpClient(client_manager.objects[n]))
      && (forall m, n | m in client_manager.objects && n in client_manager.objects && m != n ::
            client_manager.objects[m].rx_buffer != client_manager.objects[n].rx_buffer)
    }

    static function SessionView(c: Client): Session
      reads c, c.rx_buffer
    {
      Session(c.emitted, c.rx_buffer.Held())
    }

    ghost function View(): Demux
      reads this, client_manager, Clients(), Buffers()
    {
      Demux(Manager(client_manager.max_objects,
                    map n | n in client_manager.objects :: SessionView(client_manager.objects[n]),
                    client_manager.count, client_manager.count_total, client_manager.count_peak),
            emitted)
    }

    /** Makes the client of an endpoint. */
    method CreateClient(address: string, port: nat) returns (client: Client)
      ensures fresh(client) && fresh(client.rx_buffer)
      ensures UdpClient(client) && client.id == EndpointName(address, port)
      ensures SessionView(client) == NewSession()
    {
      client := new Client(EndpointName(address, port), BufferType, eof);
    }

    /** Registers a new client. */
    method HandleClientConnection(client: Client)
      requires Valid() && UdpClient(client)
      requires client.rx_buffer !in Buffers()
      modifies client_manager
      ensures Valid()
      ensures client_manager.objects == if Refuses(old(client_manager.View())) then old(client_manager.objects)
                                        else old(client_manager.objects)[client.id := client]
      ensures View() == old(View()).(clients := Added(old(View()).clients, client.id, SessionView(client)))
    {
      client_manager.AddOne(client.id, client);
      assert View().clients.objects == Added(old(View()).clients, client.id, SessionView(client)).objects;
    }

    /** Hands a datagram to a client, whose messages the server emits again. */
    method SocketReceive(client: Client, data: seq<CodeUnit>)
      requires UdpClient(client)
      modifies client, client.rx_buffer, this`emitted
      ensures UdpClient(client)
      ensures SessionView(client) == Received(eof, old(SessionView(client)), data)
      ensures emitted == old(emitted) + Tagged(client.id, Cutting(eof, old(SessionView(client)).held + data).lines)
    {
      var before := |client.emitted|;
      client.ProcessRxData(Bytes(data));
      EmitAgain(client, before);
    }

    method EmitAgain(client: Client, from: nat)
      requires from <= |client.emitted|
      modifies this`emitted
      ensures emitted == old(emitted) + Tagged(client.id, client.emitted[from..])
    {
      for i := from to |client.emitted|
        invariant emitted == old(emitted) + Tagged(client.id, client.emitted[from..i])
      {
        TaggedSnoc(client.id, client.emitted[from..i], client.emitted[i]);
        assert client.emitted[from..i + 1] == client.emitted[from..i] + [client.emitted[i]];
        emitted := emitted + [Message(client.id, client.emitted[i])];
      }
      assert client.emitted[from..|client.emitted|] == client.emitted[from..];
    }

    /** The client of an endpoint: the registered one, or a new one that is offered for registration. */
    method FindOrConnect(address: string, port: nat) returns (client: Client)
      requires Valid()
      modifies client_manager
      ensures Valid() && fresh(Repr() - old(Repr()))
      ensures UdpClient(client) && client.id == EndpointName(address, port)
      ensures client.id in client_manager.objects ==> client == client_manager.objects[client.id]
      ensures client.id !in client_manager.objects ==> client.rx_buffer !in Buffers() && client !in Clients()
      ensures client in old(Clients()) || (fresh(client) && fresh(client.rx_buffer))
      ensures SessionView(client) == SessionAt(old(View()), client.id)
      ensures View() == if client.id in old(View()).clients.objects then old(View())
                        else old(View()).(clients := Added(old(View()).clients, client.id, NewSession()))
    {
      var found := client_manager.GetOne(EndpointName(address, port));
      if found.Some? {
        client := found.value;
      } else {
        client := CreateClient(address, port);
        HandleClientConnection(client);
      }
    }

    /** Hands a datagram to the client of its endpoint. Nothing but that client's session changes, and
        that only matters if the client is registered. */
    method Relay(client: Client, data: seq<CodeUnit>)
      requires Valid() && UdpClient(client)
      requires client.id in client_manager.objects ==> client == client_manager.objects[client.id]
      requires client.id !in client_manager.objects ==> client.rx_buffer !in Buffers() && client !in Clients()
      modifies client, client.rx_buffer, this`emitted
      ensures Valid() && Repr() == old(Repr())
      ensures View().clients == Stored(old(View()).clients, client.id, SessionView(client))
      ensures SessionView(client) == Received(eof, old(SessionView(client)), data)
      ensures emitted == old(emitted) + Tagged(client.id, Cutting(eof, old(SessionView(client)).held + data).lines)
    {
      SocketReceive(client, data);
      ClientsStored(old(View()).clients, View().clients, client.id, SessionView(client));
    }

    /** The handler of an arriving datagram. */
    method OnMessage(address: string, port: nat, data: seq<CodeUnit>)
      requires Valid()
      modifies Repr()
      ensures Valid() && fresh(Repr() - old(Repr()))
      ensures View() == Step(eof, old(View()), Datagram(address, port, data))
    {
      var client := FindOrConnect(address, port);
      Relay(client, data);
    }

    /** Removes one client. */
    method DeleteClient(id: string)
      requires Valid()
      modifies client_manager
      ensures Valid() && Repr() <= old(Repr())
      ensures View() == Step(eof, old(View()), Event.Delete(id))
    {
      client_manager.Delete(id);
      assert View().clients.objects == old(View()).clients.objects - {id};
    }

    /** Removes all clients, as stopping the server does. */
    method EmptyClients()
      requires Valid()
      modifies client_manager
      ensures Valid() && Repr() <= old(Repr())
      ensures View() == Step(eof, old(View()), Event.Empty)
    {
      client_manager.Empty();
      assert View().clients.objects == map[];
    }
  }

  lemma {:induction false} TaggedSnoc(name: string, lines: seq<seq<CodeUnit>>, line: seq<CodeUnit>)
    ensures Tagged(name, lines + [line]) == Tagged(name, lines) + [Message(name, line)]
  {
    if lines == [] {
      assert [line][1..] == [];
    } else {
      assert (lines + [line])[1..] == lines[1..] + [line];
      TaggedSnoc(name, lines[1..], line);
    }
  }

  lemma ClientsStored(before: Manager<Session>, after: Manager<Session>, name: string, next: Session)
    requires after == before.(objects := after.objects)
    requires after.objects.Keys == before.objects.Keys
    requires forall n | n in after.objects :: after.objects[n] == if n == name then next else before.objects[n]
    ensures after == Stored(before, name, next)
  {
    assert after.objects == Stored(before, name, next).objects;
  }
}
