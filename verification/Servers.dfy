/** The room requests of a server, as it carries them out on its rooms (server/server.js:288-387). */
module Servers {
  import opened ObjectManagers
  import opened Options
  import opened Rooms
  import opened RoomRequests

  class Server {
    const room_manager: ObjectManager<Room>

    constructor (max_rooms: int)
      ensures Valid() && fresh(Repr())
      ensures View() == Fresh(max_rooms)
    {
      room_manager := new ObjectManager(max_rooms);
      new;
      assert View().objects == map[];
    }

    ghost function Rooms(): set<object>
      reads room_manager
    {
      set n | n in room_manager.objects :: room_manager.objects[n]
    }

    ghost function Collections(): set<object>
      reads room_manager
    {
      set n | n in room_manager.objects :: room_manager.objects[n].clients
    }

    ghost function Repr(): set<object>
      reads room_manager
    {
      {room_manager} + Rooms() + Collections()
    }

    /** Rooms are kept under their names and share nothing. */
    ghost predicate Valid()
      reads room_manager
    {
      && (forall n | n in room_manager.objects :: room_manager.objects[n].name == n)
      && (forall m, n | m in room_manager.objects && n in room_manager.objects && m != n ::
            room_manager.objects[m].clients != room_manager.objects[n].clients)
      && (forall n | n in room_manager.objects ::
            room_manager.objects[n].clients as object != room_manager as object)
    }

    ghost function View(): Directory
      reads room_manager, Rooms(), Collections()
    {
      Manager(room_manager.max_objects,
              map n | n in room_manager.objects :: room_manager.objects[n].View(),
              room_manager.count, room_manager.count_total, room_manager.count_peak)
    }

    method CreateRoom(client: Peer, password: string := "", hidden: bool := false,
                      name: string := DefaultName(client.id), max_objects: int := 0)
      requires Valid()
      modifies room_manager
      ensures Valid() && fresh(Repr() - old(Repr()))
      ensures View() == Step(old(View()), Request.CreateRoom(name, client, password, hidden, max_objects))
    {
      var room := new Room(client.id, password, hidden, name, max_objects);
      assert View() == old(View());
      AddRoom(room);
    }

    method AddRoom(room: Room)
      requires Valid()
      requires room in Rooms() || room.clients !in Repr()
      modifies room_manager
      ensures Valid()
      ensures Rooms() <= old(Rooms()) + {room} && Collections() <= old(Collections()) + {room.clients}
      ensures View() == if room.name in old(View()).objects then old(View())
                        else Added(old(View()), room.name, room.View())
    {
      if room_manager.GetOne(room.name).Some? {
        return;
      }
      room_manager.AddOne(room.name, room);
      RoomAdded(old(View()), View(), room.name, room.View());
    }

    method DeleteRoom(name: string, client: Peer)
      requires Valid()
      modifies room_manager
      ensures Valid() && Repr() <= old(Repr())
      ensures View() == Step(old(View()), Request.DeleteRoom(name, client))
    {
      var room := room_manager.GetOne(name);
      if room.Some? && room.value.IsOwner(client.id) {
        room_manager.Delete(room.value.name);
        assert View().objects == old(View()).objects - {name};
      }
    }

    method EmptyRoom(name: string, client: Peer)
      requires Valid()
      modifies Repr()
      ensures Valid() && Repr() == old(Repr())
      ensures View() == Step(old(View()), Request.EmptyRoom(name, client))
    {
      var room := room_manager.GetOne(name);
      if room.Some? {
        if room.value.IsOwner(client.id) {
          room.value.Empty();
        }
        OneRoomChanged(old(View()), View(), Request.EmptyRoom(name, client));
      }
    }

    method JoinRoom(name: string, client: Peer, password: string := "")
      requires Valid()
      modifies Repr()
      ensures Valid() && Repr() == old(Repr())
      ensures View() == Step(old(View()), Request.JoinRoom(name, client, password))
    {
      var room := room_manager.GetOne(name);
      if room.Some? {
        var _ := room.value.Join(client, password);
        OneRoomChanged(old(View()), View(), Request.JoinRoom(name, client, password));
      }
    }

    method LeaveRoom(name: string, client: Peer)
      requires Valid()
      modifies Repr()
      ensures Valid() && Repr() == old(Repr())
      ensures View() == Step(old(View()), Request.LeaveRoom(name, client))
    {
      var room := room_manager.GetOne(name);
      if room.Some? {
        room.value.Delete(client.id);
        OneRoomChanged(old(View()), View(), Request.LeaveRoom(name, client));
      }
    }

    method BanClient(name: string, client: Peer, client_to_ban: string)
      requires Valid()
      modifies Repr()
      ensures Valid() && Repr() == old(Repr())
      ensures View() == Step(old(View()), Request.BanClient(name, client, client_to_ban))
    {
      var room := room_manager.GetOne(name);
      if room.Some? {
        if room.value.IsOwner(client.id) {
          room.value.Ban(client_to_ban);
        }
        OneRoomChanged(old(View()), View(), Request.BanClient(name, client, client_to_ban));
      }
    }

    method KickClient(name: string, client: Peer, client_to_kick: string)
      requires Valid()
      modifies Repr()
      ensures Valid() && Repr() == old(Repr())
      ensures View() == Step(old(View()), Request.KickClient(name, client, client_to_kick))
    {
      var room := room_manager.GetOne(name);
      if room.Some? {
        if room.value.IsOwner(client.id) {
          room.value.Delete(client_to_kick);
        }
        OneRoomChanged(old(View()), View(), Request.KickClient(name, client, client_to_kick));
      }
    }

    method LockRoom(name: string, client: Peer)
      requires Valid()
      modifies Repr()
      ensures Valid() && Repr() == old(Repr())
      ensures View() == Step(old(View()), Request.LockRoom(name, client))
    {
      var room := room_manager.GetOne(name);
      if room.Some? {
        if room.value.IsOwner(client.id) {
          room.value.Lock(None);
        }
        OneRoomChanged(old(View()), View(), Request.LockRoom(name, client));
      }
    }

    method UnlockRoom(name: string, client: Peer)
      requires Valid()
      modifies Repr()
      ensures Valid() && Repr() == old(Repr())
      ensures View() == Step(old(View()), Request.UnlockRoom(name, client))
    {
      var room := room_manager.GetOne(name);
      if room.Some? {
        if room.value.IsOwner(client.id) {
          room.value.Unlock();
        }
        OneRoomChanged(old(View()), View(), Request.UnlockRoom(name, client));
      }
    }

    method Privatize(name: string, client: Peer)
      requires Valid()
      modifies Repr()
      ensures Valid() && Repr() == old(Repr())
      ensures View() == Step(old(View()), Request.Privatize(name, client))
    {
      var room := room_manager.GetOne(name);
      if room.Some? {
        if room.value.IsOwner(client.id) {
          room.value.Privatize();
        }
        OneRoomChanged(old(View()), View(), Request.Privatize(name, client));
      }
    }

    method Deprivatize(name: string, client: Peer)
      requires Valid()
      modifies Repr()
      ensures Valid() && Repr() == old(Repr())
      ensures View() == Step(old(View()), Request.Deprivatize(name, client))
    {
      var room := room_manager.GetOne(name);
      if room.Some? {
        if room.value.IsOwner(client.id) {
          room.value.Deprivatize();
        }
        OneRoomChanged(old(View()), View(), Request.Deprivatize(name, client));
      }
    }
  }

  /** The name of a room for which none is given. */
  function DefaultName(id: string): string {
    id + "'s Room"
  }

  /** It is the requester's id and the same for all after that, so two clients never get the same by default. */
  lemma DefaultNamesDiffer(a: string, b: string)
    ensures a < DefaultName(a) && DefaultName(a)[|a|..] == "'s Room"
    ensures DefaultName(a) == DefaultName(b) <==> a == b
  {
    var s, t := DefaultName(a), DefaultName(b);
    assert s[..|a|] == a && t[..|b|] == b;
    assert |s| == |t| ==> |a| == |b|;
  }

  lemma RoomAdded(before: Directory, after: Directory, name: string, room: RoomState)
    requires after == Added(before, name, room).(objects := after.objects)
    requires after.objects.Keys == if Refuses(before) then before.objects.Keys else before.objects.Keys + {name}
    requires forall n | n in after.objects ::
               after.objects[n] == if n in before.objects && n != name then before.objects[n] else room
    requires name !in before.objects
    ensures after == Added(before, name, room)
  {
    assert after.objects == Added(before, name, room).objects;
  }

  /** When one room changes and the others stay, only its entry changes. */
  lemma OneRoomChanged(before: Directory, after: Directory, q: Request)
    requires q.name in before.objects && !q.CreateRoom? && !q.DeleteRoom?
    requires after == before.(objects := after.objects) && after.objects.Keys == before.objects.Keys
    requires forall n | n in before.objects ::
               after.objects[n] == if n == q.name then RoomStep(before.objects[n], q) else before.objects[n]
    ensures after == Step(before, q)
  {
    assert after.objects == before.objects[q.name := RoomStep(before.objects[q.name], q)];
  }
}
