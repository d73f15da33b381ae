/** A room: a collection of clients with an owner, a password and a ban list
    (room/room.js over client/clientManager.js). */
module Rooms {
  import opened ObjectManagers
  import opened Options

  /** A client object: the id it goes by, and which object it is. */
  datatype Peer = Peer(id: string, handle: int)

  /** The fields of a room at one moment. A password of `None` is JavaScript's `undefined`, which
      `lock()` without an argument stores and which no string equals; `Some("")` is unlocked. */
  datatype RoomState = RoomState(
    owner: string, name: string, password: Option<string>, hidden: bool,
    banned: seq<string>, clients: Manager<Peer>)
  {
    predicate CheckPassword(given: string) {
      password == Some("") || password == Some(given)
    }

    predicate IsOwner(id: string) {
      id == owner
    }

    predicate IsBanned(id: string) {
      id in banned
    }

    /** Whether the room lets the client in; the limit of the collection is checked after that. */
    predicate Admits(id: string, given: string) {
      !IsBanned(id) && (CheckPassword(given) || IsOwner(id))
    }

    function Joined(client: Peer, given: string): RoomState {
      if Admits(client.id, given) then this.(clients := Added(clients, client.id, client)) else this
    }

    function Left(id: string): RoomState {
      this.(clients := Deleted(clients, id))
    }

    function Banning(id: string): RoomState {
      this.(clients := Deleted(clients, id), banned := banned + [id])
    }
  }

  function NewRoom(owner: string, password: string, hidden: bool, name: string, max: int): RoomState {
    RoomState(owner, name, Some(password), hidden, [], Fresh(max))
  }

  class Room {
    const owner: string
    const name: string
    const clients: ObjectManager<Peer>
    var password: Option<string>
    var hidden: bool
    var banned_list: seq<string>

    constructor (owner: string, password: string, hidden: bool, name: string, max_objects: int)
      ensures View() == NewRoom(owner, password, hidden, name, max_objects)
      ensures fresh(clients)
    {
      this.owner, this.name := owner, name;
      this.password := Some(password);
      this.hidden := hidden;
      banned_list := [];
      clients := new ObjectManager(max_objects);
    }

    function View(): RoomState
      reads this, clients
    {
      RoomState(owner, name, password, hidden, banned_list, clients.View())
    }

    predicate CheckPassword(given: string)
      reads this, clients
    {
      View().CheckPassword(given)
    }

    predicate IsOwner(id: string)
      reads this, clients
    {
      View().IsOwner(id)
    }

    predicate IsClientBanned(id: string)
      reads this, clients
    {
      View().IsBanned(id)
    }

    method Lock(password: Option<string>)
      modifies this
      ensures View() == old(View()).(password := password)
    {
      this.password := password;
    }

    method Unlock()
      modifies this
      ensures View() == old(View()).(password := Some(""))
    {
      password := Some("");
    }

    method Join(client: Peer, given: string) returns (ok: bool)
      modifies this, clients
      ensures ok == old(View()).Admits(client.id, given)
      ensures View() == old(View()).Joined(client, given)
    {
      if !IsClientBanned(client.id) && (CheckPassword(given) || IsOwner(client.id)) {
        clients.AddOne(client.id, client);
        return true;
      }
      return false;
    }

    method Privatize()
      modifies this
      ensures View() == old(View()).(hidden := true)
    {
      hidden := true;
    }

    method Deprivatize()
      modifies this
      ensures View() == old(View()).(hidden := false)
    {
      hidden := false;
    }

    method Delete(id: string)
      modifies this, clients
      ensures View() == old(View()).Left(id)
    {
      clients.Delete(id);
    }

    method Ban(id: string)
      modifies this, clients
      ensures View() == old(View()).Banning(id)
    {
      Delete(id);
      banned_list := banned_list + [id];
    }

    method Empty()
      modifies this, clients
      ensures View() == old(View()).(clients := Emptied(old(View()).clients))
    {
      clients.Empty();
    }
  }
}
