/** The room requests of a server as a state machine, and what holds over its whole runs
    (server/server.js:288-387). */
module RoomRequests {
  import opened ObjectManagers
  import opened Options
  import opened Rooms

  /** A request, by the client that makes it, about the room with this name. */
  datatype Request =
    | CreateRoom(name: string, client: Peer, password: string, hidden: bool, max: int)
    | DeleteRoom(name: string, client: Peer)
    | EmptyRoom(name: string, client: Peer)
    | JoinRoom(name: string, client: Peer, given: string)
    | LeaveRoom(name: string, client: Peer)
    | BanClient(name: string, client: Peer, target: string)
    | KickClient(name: string, client: Peer, target: string)
    | LockRoom(name: string, client: Peer)
    | UnlockRoom(name: string, client: Peer)
    | Privatize(name: string, client: Peer)
    | Deprivatize(name: string, client: Peer)

  type Directory = Manager<RoomState>

  /** What a request that names it does to an existing room, deletion apart. */
  function RoomStep(r: RoomState, q: Request): RoomState {
    match q
    case CreateRoom(_, _, _, _, _) => r
    case DeleteRoom(_, _) => r
    case JoinRoom(_, client, given) => r.Joined(client, given)
    case LeaveRoom(_, client) => r.Left(client.id)
    case _ => if r.IsOwner(q.client.id) then OwnerStep(r, q) else r
  }

  function OwnerStep(r: RoomState, q: Request): RoomState {
    match q
    case EmptyRoom(_, _) => r.(clients := Emptied(r.clients))
    case BanClient(_, _, target) => r.Banning(target)
    case KickClient(_, _, target) => r.Left(target)
    case LockRoom(_, _) => r.(password := None)
    case UnlockRoom(_, _) => r.(password := Some(""))
    case Privatize(_, _) => r.(hidden := true)
    case Deprivatize(_, _) => r.(hidden := false)
    case _ => r
  }

  function Created(q: Request): RoomState
    requires q.CreateRoom?
  {
    NewRoom(q.client.id, q.password, q.hidden, q.name, q.max)
  }

  function Step(s: Directory, q: Request): Directory {
    if q.CreateRoom? then
      if q.name in s.objects then s else Added(s, q.name, Created(q))
    else if q.name !in s.objects then s
    else if q.DeleteRoom? then
      if s.objects[q.name].IsOwner(q.client.id) then Deleted(s, s.objects[q.name].name) else s
    else s.(objects := s.objects[q.name := RoomStep(s.objects[q.name], q)])
  }

  /** The rooms of a new server after the requests, in order. */
  function Run(max: int, qs: seq<Request>): Directory {
    if qs == [] then Fresh(max) else Step(Run(max, qs[..|qs| - 1]), qs[|qs| - 1])
  }

  /** One room after those of the requests that name it. */
  function RoomRun(r: RoomState, qs: seq<Request>): RoomState {
    if qs == [] then r
    else
      var before := RoomRun(r, qs[..|qs| - 1]);
      if qs[|qs| - 1].name == r.name then RoomStep(before, qs[|qs| - 1]) else before
  }

  // ----- Frames -----

  /** Rooms are kept under their own names. */
  predicate WellNamed(s: Directory) {
    forall n | n in s.objects :: s.objects[n].name == n
  }

  lemma {:induction false} RunWellNamed(max: int, qs: seq<Request>)
    ensures WellNamed(Run(max, qs))
  {
    if qs != [] {
      RunWellNamed(max, qs[..|qs| - 1]);
    }
  }

  /** A request changes no room but the one it names; creating an existing name changes nothing. */
  lemma OtherRoomsUntouched(s: Directory, q: Request, n: string)
    requires WellNamed(s) && n != q.name
    ensures n in Step(s, q).objects <==> n in s.objects
    ensures n in s.objects ==> Step(s, q).objects[n] == s.objects[n]
    ensures q.CreateRoom? && q.name in s.objects ==> Step(s, q) == s
  {
  }

  /** A request by anyone but the owner leaves the room there, with its settings, its bans and every
      membership but the requester's own. */
  lemma NonOwnerFrame(s: Directory, q: Request)
    requires q.name in s.objects && !s.objects[q.name].IsOwner(q.client.id)
    ensures q.name in Step(s, q).objects
    ensures var r := s.objects[q.name]; var r' := Step(s, q).objects[q.name];
            && r' == r.(clients := r'.clients)
            && r'.clients.max == r.clients.max
            && r'.clients.objects - {q.client.id} == r.clients.objects - {q.client.id}
  {
  }

  /** Neither the owner nor the name of a room ever changes. */
  lemma {:induction false} OwnerKept(r: RoomState, qs: seq<Request>)
    ensures RoomRun(r, qs).owner == r.owner && RoomRun(r, qs).name == r.name
    ensures RoomRun(r, qs).clients.max == r.clients.max
  {
    if qs != [] {
      OwnerKept(r, qs[..|qs| - 1]);
    }
  }

  // ----- Lifetimes -----

  /** The room `n` was created by request number `b` and has existed ever since. */
  ghost predicate AliveSince(max: int, qs: seq<Request>, n: string, b: nat) {
    && b < |qs|
    && n !in Run(max, qs[..b]).objects
    && forall k | b < k <= |qs| :: n in Run(max, qs[..k]).objects
  }

  /** Every room that exists has a birth. */
  lemma {:induction false} BirthExists(max: int, qs: seq<Request>, n: string)
    requires n in Run(max, qs).objects
    ensures exists b: nat :: AliveSince(max, qs, n, b)
  {
    var before := qs[..|qs| - 1];
    assert qs[..|qs|] == qs;
    if n in Run(max, before).objects {
      BirthExists(max, before, n);
      var b: nat :| AliveSince(max, before, n, b);
      assert forall k | 0 <= k <= |before| :: qs[..k] == before[..k];
      assert AliveSince(max, qs, n, b);
    } else {
      assert AliveSince(max, qs, n, |qs| - 1);
    }
  }

  lemma AliveEarlier(max: int, qs: seq<Request>, n: string, b: nat, e: nat)
    requires AliveSince(max, qs, n, b) && b < e <= |qs|
    ensures AliveSince(max, qs[..e], n, b)
  {
    var early := qs[..e];
    assert forall k | 0 <= k <= |early| :: early[..k] == qs[..k];
  }

  /** In its lifetime a room is what its creation and the later requests naming it make of it:
      nothing else the server is asked can touch it. */
  lemma {:induction false} RoomIsItsHistory(max: int, qs: seq<Request>, n: string, b: nat)
    requires AliveSince(max, qs, n, b)
    ensures qs[b].CreateRoom? && qs[b].name == n
    ensures n in Run(max, qs).objects
    ensures Run(max, qs).objects[n] == RoomRun(Created(qs[b]), qs[b + 1..])
    decreases |qs|
  {
    var before, last := qs[..|qs| - 1], qs[|qs| - 1];
    assert qs[..|qs|] == qs;
    RunWellNamed(max, before);
    if b == |qs| - 1 {
      BornStep(Run(max, before), last, n);
      assert qs[b + 1..] == [];
    } else {
      AliveEarlier(max, qs, n, b, |before|);
      RoomIsItsHistory(max, before, n, b);
      LaterStep(Run(max, before), last, n);
      RoomRunSnoc(Created(qs[b]), before[b + 1..], last);
      assert qs[b + 1..] == before[b + 1..] + [last];
    }
  }

  /** Only its creation brings a room into being. */
  lemma BornStep(s: Directory, q: Request, n: string)
    requires WellNamed(s) && n !in s.objects && n in Step(s, q).objects
    ensures q.CreateRoom? && q.name == n && Step(s, q).objects[n] == Created(q)
  {
  }

  lemma LaterStep(s: Directory, q: Request, n: string)
    requires WellNamed(s) && n in s.objects && n in Step(s, q).objects
    ensures Step(s, q).objects[n] == if q.name == n then RoomStep(s.objects[n], q) else s.objects[n]
  {
  }

  lemma RoomRunSnoc(r: RoomState, qs: seq<Request>, q: Request)
    ensures RoomRun(r, qs + [q]) == if q.name == r.name then RoomStep(RoomRun(r, qs), q) else RoomRun(r, qs)
  {
    assert (qs + [q])[..|qs|] == qs;
  }

  // ----- Membership -----

  /** The request is a join of `id` that passes the ban, the password-or-owner and the count checks. */
  predicate Passes(r: RoomState, q: Request, id: string) {
    && q.JoinRoom? && q.name == r.name && q.client.id == id
    && r.Admits(id, q.given)
    && !Refuses(r.clients)
  }

  /** The request takes `id` out of the room, whoever is in it at that point. */
  predicate Expels(r: RoomState, q: Request, id: string) {
    && q.name == r.name
    && match q
       case LeaveRoom(_, client) => client.id == id
       case KickClient(_, client, target) => r.IsOwner(client.id) && target == id
       case BanClient(_, client, target) => r.IsOwner(client.id) && target == id
       case EmptyRoom(_, client) => r.IsOwner(client.id)
       case _ => false
  }

  /** Request number `i` put `id` into the room and no later one expelled or replaced it. */
  ghost predicate LastEntry(r: RoomState, qs: seq<Request>, id: string, i: nat) {
    && i < |qs|
    && Passes(RoomRun(r, qs[..i]), qs[i], id)
    && forall j | i < j < |qs| :: !Expels(r, qs[j], id) && !Passes(RoomRun(r, qs[..j]), qs[j], id)
  }

  lemma MemberStep(r: RoomState, q: Request, id: string)
    requires q.name == r.name
    ensures var r' := RoomStep(r, q);
            if Passes(r, q, id) then id in r'.clients.objects && r'.clients.objects[id] == q.client
            else if Expels(r, q, id) then id !in r'.clients.objects
            else && (id in r'.clients.objects <==> id in r.clients.objects)
                 && (id in r.clients.objects ==> r'.clients.objects[id] == r.clients.objects[id])
  {
  }

  lemma LastEntryStep(r: RoomState, qs: seq<Request>, id: string, i: nat)
    requires qs != [] && i < |qs| - 1
    ensures var before, last := qs[..|qs| - 1], qs[|qs| - 1];
            LastEntry(r, qs, id, i) <==>
            LastEntry(r, before, id, i) && !Expels(r, last, id) && !Passes(RoomRun(r, before), last, id)
  {
    var before := qs[..|qs| - 1];
    forall k | 0 <= k <= |before|
      ensures qs[..k] == before[..k]
    {
    }
    assert qs[..|qs| - 1] == before;
    if LastEntry(r, before, id, i) && !Expels(r, qs[|qs| - 1], id) && !Passes(RoomRun(r, before), qs[|qs| - 1], id) {
      forall j | i < j < |qs|
        ensures !Expels(r, qs[j], id) && !Passes(RoomRun(r, qs[..j]), qs[j], id)
      {
        if j < |before| {
          assert before[j] == qs[j];
        }
      }
    }
  }

  /** A room holds, for each client id, exactly the client of its last entry: the join that passed the
      checks at its time and that no leave, kick, ban or emptying has undone since. */
  lemma {:induction false} MembershipIsHistory(r: RoomState, qs: seq<Request>, id: string)
    requires r.clients.objects == map[]
    ensures id in RoomRun(r, qs).clients.objects <==> exists i: nat :: LastEntry(r, qs, id, i)
    ensures forall i: nat | LastEntry(r, qs, id, i) ::
              id in RoomRun(r, qs).clients.objects && RoomRun(r, qs).clients.objects[id] == qs[i].client
    decreases |qs|
  {
    if qs != [] {
      var before, last := qs[..|qs| - 1], qs[|qs| - 1];
      MembershipIsHistory(r, before, id);
      OwnerKept(r, before);
      var prior := RoomRun(r, before);
      if last.name == r.name {
        MemberStep(prior, last, id);
      }
      forall i: nat | i < |qs| - 1
        ensures LastEntry(r, qs, id, i) <==>
                LastEntry(r, before, id, i) && !Expels(r, last, id) && !Passes(prior, last, id)
      {
        LastEntryStep(r, qs, id, i);
      }
      assert LastEntry(r, qs, id, |qs| - 1) <==> Passes(prior, last, id);
      assert Expels(r, last, id) == Expels(prior, last, id);
      if id in RoomRun(r, qs).clients.objects {
        if Passes(prior, last, id) {
          assert LastEntry(r, qs, id, |qs| - 1);
        } else {
          var i: nat :| LastEntry(r, before, id, i);
          assert LastEntry(r, qs, id, i);
        }
      }
    }
  }

  /** In every reachable state of the server, a client is in a room exactly when, since the room's
      creation, it entered by a join that passed the checks and nothing has undone that. */
  lemma MembersAreHistory(max: int, qs: seq<Request>, n: string, b: nat, id: string)
    requires AliveSince(max, qs, n, b)
    ensures qs[b].CreateRoom? && n in Run(max, qs).objects
    ensures var r, later := Created(qs[b]), qs[b + 1..];
            id in Run(max, qs).objects[n].clients.objects <==> exists i: nat :: LastEntry(r, later, id, i)
  {
    RoomIsItsHistory(max, qs, n, b);
    MembershipIsHistory(Created(qs[b]), qs[b + 1..], id);
  }

  // ----- Bans, passwords and visibility -----

  /** The request is the owner's, about this room. */
  predicate ByOwner(r: RoomState, q: Request) {
    q.name == r.name && q.client.id == r.owner
  }

  predicate Bans(r: RoomState, q: Request, id: string) {
    ByOwner(r, q) && q.BanClient? && q.target == id
  }

  /** The ban list is the record of the owner's bans. */
  lemma {:induction false} BansAreHistory(r: RoomState, qs: seq<Request>, id: string)
    requires r.banned == []
    ensures RoomRun(r, qs).IsBanned(id) <==> exists i | 0 <= i < |qs| :: Bans(r, qs[i], id)
  {
    if qs != [] {
      var before, last := qs[..|qs| - 1], qs[|qs| - 1];
      BansAreHistory(r, before, id);
      OwnerKept(r, before);
      assert forall i | 0 <= i < |before| :: qs[i] == before[i];
      if RoomRun(r, before).IsBanned(id) {
        var i :| 0 <= i < |before| && Bans(r, before[i], id);
        assert Bans(r, qs[i], id);
      }
      assert Bans(r, last, id) ==> Bans(r, qs[|qs| - 1], id);
    }
  }

  predicate Relocks(r: RoomState, q: Request) {
    ByOwner(r, q) && (q.LockRoom? || q.UnlockRoom?)
  }

  predicate Rehides(r: RoomState, q: Request) {
    ByOwner(r, q) && (q.Privatize? || q.Deprivatize?)
  }

  /** `i` is the last request of the owner that locks or unlocks the room, or -1 if there is none. */
  ghost predicate LastRelock(r: RoomState, qs: seq<Request>, i: int) {
    && -1 <= i < |qs|
    && (i >= 0 ==> Relocks(r, qs[i]))
    && forall j | i < j < |qs| :: !Relocks(r, qs[j])
  }

  ghost predicate LastRehide(r: RoomState, qs: seq<Request>, i: int) {
    && -1 <= i < |qs|
    && (i >= 0 ==> Rehides(r, qs[i]))
    && forall j | i < j < |qs| :: !Rehides(r, qs[j])
  }

  /** The password is the one the room was made with until the owner locks or unlocks it; after that
      the last of these decides. */
  lemma {:induction false} PasswordIsHistory(r: RoomState, qs: seq<Request>) returns (i: int)
    ensures LastRelock(r, qs, i)
    ensures RoomRun(r, qs).password == if i < 0 then r.password else if qs[i].LockRoom? then None else Some("")
  {
    i := -1;
    if qs != [] {
      i := PasswordIsHistory(r, qs[..|qs| - 1]);
      OwnerKept(r, qs[..|qs| - 1]);
      if Relocks(r, qs[|qs| - 1]) {
        i := |qs| - 1;
      }
    }
  }

  /** Likewise for the visibility. */
  lemma {:induction false} VisibilityIsHistory(r: RoomState, qs: seq<Request>) returns (i: int)
    ensures LastRehide(r, qs, i)
    ensures RoomRun(r, qs).hidden == if i < 0 then r.hidden else qs[i].Privatize?
  {
    i := -1;
    if qs != [] {
      i := VisibilityIsHistory(r, qs[..|qs| - 1]);
      OwnerKept(r, qs[..|qs| - 1]);
      if Rehides(r, qs[|qs| - 1]) {
        i := |qs| - 1;
      }
    }
  }

  // ----- Safety -----

  /** Nobody banned is a member. */
  predicate BansHold(r: RoomState) {
    forall id | id in r.banned :: id !in r.clients.objects
  }

  lemma {:induction false} BansHoldForever(r: RoomState, qs: seq<Request>)
    requires BansHold(r)
    ensures BansHold(RoomRun(r, qs))
  {
    if qs != [] {
      BansHoldForever(r, qs[..|qs| - 1]);
    }
  }

  /** In every reachable state, in every room, no member is banned. */
  lemma NoMemberIsBanned(max: int, qs: seq<Request>, n: string)
    requires n in Run(max, qs).objects
    ensures BansHold(Run(max, qs).objects[n])
  {
    BirthExists(max, qs, n);
    var b: nat :| AliveSince(max, qs, n, b);
    RoomIsItsHistory(max, qs, n, b);
    BansHoldForever(Created(qs[b]), qs[b + 1..]);
  }

  /** Once the owner has banned a client, it is never again a member in that room's lifetime. */
  lemma BannedStaysOut(max: int, qs: seq<Request>, n: string, b: nat, i: nat, id: string)
    requires AliveSince(max, qs, n, b) && b < i < |qs|
    requires qs[b].CreateRoom? && qs[i] == BanClient(n, qs[i].client, id) && qs[i].client.id == qs[b].client.id
    ensures n in Run(max, qs).objects && id !in Run(max, qs).objects[n].clients.objects
  {
    RoomIsItsHistory(max, qs, n, b);
    var r, later := Created(qs[b]), qs[b + 1..];
    assert later[i - b - 1] == qs[i] && Bans(r, later[i - b - 1], id);
    BansAreHistory(r, later, id);
    BansHoldForever(r, later);
  }

  lemma {:induction false} RoomRunAppend(r: RoomState, a: seq<Request>, b: seq<Request>)
    ensures RoomRun(r, a + b) == RoomRun(RoomRun(r, a), b)
    decreases |b|
  {
    OwnerKept(r, a);
    if b == [] {
      assert a + b == a;
    } else {
      assert (a + b)[..|a + b| - 1] == a + b[..|b| - 1];
      RoomRunAppend(r, a, b[..|b| - 1]);
    }
  }

  /** While a room stays locked, everyone in it but the owner was in it when it was locked. */
  lemma {:induction false} LockedRoomRun(r: RoomState, qs: seq<Request>)
    requires r.password == None
    requires forall q | q in qs :: !(ByOwner(r, q) && q.UnlockRoom?)
    ensures RoomRun(r, qs).password == None
    ensures forall id | id in RoomRun(r, qs).clients.objects && id != r.owner :: id in r.clients.objects
  {
    if qs != [] {
      var before := qs[..|qs| - 1];
      assert qs[|qs| - 1] in qs && forall q | q in before :: q in qs;
      LockedRoomRun(r, before);
      OwnerKept(r, before);
    }
  }

  /** After the owner locks a room, and until the owner unlocks it or it is deleted, nobody but the
      owner becomes a member, whatever password is given, not even by coming back. */
  lemma LockKeepsOthersOut(max: int, qs: seq<Request>, n: string, b: nat, i: nat)
    requires AliveSince(max, qs, n, b) && b < i < |qs| && qs[b].CreateRoom?
    requires qs[i].LockRoom? && qs[i].name == n && qs[i].client.id == qs[b].client.id
    requires forall j | i < j < |qs| ::
               !(qs[j].UnlockRoom? && qs[j].name == n && qs[j].client.id == qs[b].client.id)
    ensures n in Run(max, qs).objects && n in Run(max, qs[..i + 1]).objects
    ensures forall id | id in Run(max, qs).objects[n].clients.objects && id != qs[b].client.id ::
              id in Run(max, qs[..i + 1]).objects[n].clients.objects
  {
    AliveEarlier(max, qs, n, b, i + 1);
    RoomIsItsHistory(max, qs, n, b);
    RoomIsItsHistory(max, qs[..i + 1], n, b);
    Halves(qs, b + 1, i);
    forall q | q in qs[i + 1..]
      ensures !(ByOwner(Created(qs[b]), q) && q.UnlockRoom?)
    {
      var j :| i + 1 <= j < |qs| && qs[j] == q;
    }
    LockedSince(Created(qs[b]), qs[b + 1..i + 1], qs[i + 1..]);
  }

  lemma Halves(qs: seq<Request>, from: nat, i: nat)
    requires from <= i < |qs|
    ensures qs[from..i + 1][i - from] == qs[i] && |qs[from..i + 1]| == i + 1 - from
    ensures qs[from..] == qs[from..i + 1] + qs[i + 1..]
    ensures qs[..i + 1][from..] == qs[from..i + 1]
  {
  }

  lemma LockedSince(r: RoomState, upTo: seq<Request>, after: seq<Request>)
    requires upTo != [] && ByOwner(r, upTo[|upTo| - 1]) && upTo[|upTo| - 1].LockRoom?
    requires forall q | q in after :: !(ByOwner(r, q) && q.UnlockRoom?)
    ensures forall id | id in RoomRun(r, upTo + after).clients.objects && id != r.owner ::
              id in RoomRun(r, upTo).clients.objects
  {
    RoomRunAppend(r, upTo, after);
    OwnerKept(r, upTo);
    OwnerKept(r, upTo[..|upTo| - 1]);
    LockedRoomRun(RoomRun(r, upTo), after);
  }

  // ----- Counters -----

  /** What a request to a room asks of its collection of clients. */
  function ClientOps(r: RoomState, q: Request): seq<Op<Peer>> {
    if q.name != r.name then []
    else
      match q
      case JoinRoom(_, client, given) => if r.Admits(client.id, given) then [Add(client.id, client)] else []
      case LeaveRoom(_, client) => [Delete(client.id)]
      case KickClient(_, client, target) => if r.IsOwner(client.id) then [Delete(target)] else []
      case BanClient(_, client, target) => if r.IsOwner(client.id) then [Delete(target)] else []
      case EmptyRoom(_, client) => if r.IsOwner(client.id) then [Empty] else []
      case _ => []
  }

  function AllClientOps(r: RoomState, qs: seq<Request>): seq<Op<Peer>> {
    if qs == [] then []
    else AllClientOps(r, qs[..|qs| - 1]) + ClientOps(RoomRun(r, qs[..|qs| - 1]), qs[|qs| - 1])
  }

  /** The clients of a room are a collection that went through just these operations, so its counters
      obey the exact account and are the statistics of its history. */
  lemma RoomCounters(r: RoomState, qs: seq<Request>)
    requires r.clients == Fresh(r.clients.max)
    ensures var ops := AllClientOps(r, qs); var m := RoomRun(r, qs).clients; var t := TallyOf(r.clients.max, ops);
            && m == ObjectManagers.Run(r.clients.max, ops)
            && m.count == |m.objects| + t.refused + t.overwriting - t.absent - t.inserting
            && m.total == Adds(ops)
  {
    ClientsFollowOps(r, qs);
    Accounting(r.clients.max, AllClientOps(r, qs));
    TotalIsAdds(r.clients.max, AllClientOps(r, qs));
  }

  lemma {:induction false} ClientsFollowOps(r: RoomState, qs: seq<Request>)
    requires r.clients == Fresh(r.clients.max)
    ensures RoomRun(r, qs).clients == ObjectManagers.Run(r.clients.max, AllClientOps(r, qs))
  {
    if qs != [] {
      var before, last := qs[..|qs| - 1], qs[|qs| - 1];
      ClientsFollowOps(r, before);
      OwnerKept(r, before);
      ClientOpStep(RoomRun(r, before), last);
      RunOptional(r.clients.max, AllClientOps(r, before), ClientOps(RoomRun(r, before), last));
    }
  }

  lemma ClientOpStep(r: RoomState, q: Request)
    ensures var ops := ClientOps(r, q); var r' := if q.name == r.name then RoomStep(r, q) else r;
            |ops| <= 1 && r'.clients == if ops == [] then r.clients else Apply(r.clients, ops[0])
  {
  }

  lemma RunOptional<V>(max: int, past: seq<Op<V>>, ops: seq<Op<V>>)
    requires |ops| <= 1
    ensures ObjectManagers.Run(max, past + ops)
         == if ops == [] then ObjectManagers.Run(max, past) else Apply(ObjectManagers.Run(max, past), ops[0])
  {
    if ops == [] {
      assert past + ops == past;
    } else {
      assert ops == [ops[0]];
      RunSnoc(max, past, ops[0]);
    }
  }

  /** What a request asks of the collection of rooms. */
  function DirectoryOps(s: Directory, q: Request): seq<Op<RoomState>> {
    if q.CreateRoom? then
      if q.name in s.objects then [] else [Add(q.name, Created(q))]
    else if q.name !in s.objects then []
    else if q.DeleteRoom? then
      if s.objects[q.name].IsOwner(q.client.id) then [Delete(q.name)] else []
    else [Update(q.name, RoomStep(s.objects[q.name], q))]
  }

  function AllDirectoryOps(max: int, qs: seq<Request>): seq<Op<RoomState>> {
    if qs == [] then []
    else AllDirectoryOps(max, qs[..|qs| - 1]) + DirectoryOps(Run(max, qs[..|qs| - 1]), qs[|qs| - 1])
  }

  /** The guards of the server leave only refused creations unaccounted for: the count of rooms is the
      number of live rooms and of creations refused since the start, and without a limit it is exactly
      the number of live rooms. */
  lemma {:induction false} RoomCount(max: int, qs: seq<Request>)
    ensures var s := Run(max, qs); var ops := AllDirectoryOps(max, qs); var t := TallyOf(max, ops);
            && s == ObjectManagers.Run(max, ops)
            && t.overwriting == t.absent == t.inserting == 0
            && s.count == |s.objects| + t.refused
            && (max == 0 ==> s.count == |s.objects|)
  {
    Accounting(max, AllDirectoryOps(max, qs));
    if qs != [] {
      var before, last := qs[..|qs| - 1], qs[|qs| - 1];
      RoomCount(max, before);
      RunWellNamed(max, before);
      var past := AllDirectoryOps(max, before);
      var ops := DirectoryOps(Run(max, before), last);
      RunMax(max, past);
      if ops == [] {
        assert past + ops == past;
      } else {
        assert ops == [ops[0]];
        DirectoryOpStep(Run(max, before), last, TallyOf(max, past));
        RunSnoc(max, past, ops[0]);
      }
    }
  }

  lemma DirectoryOpStep(s: Directory, q: Request, t: Tally)
    requires WellNamed(s) && DirectoryOps(s, q) != []
    ensures Step(s, q) == Apply(s, DirectoryOps(s, q)[0])
    ensures TallyStep(s, t, DirectoryOps(s, q)[0])
         == if q.CreateRoom? && Refuses(s) then t.(refused := t.refused + 1) else t
  {
  }
}
