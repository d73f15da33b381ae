/** What a room is and who gets into it, told from the requests alone (room/room.js:34-104,
    client/clientManager.js:42-54, server/server.js:288-387). */
module RoomHistory {
  import opened Options
  import opened Rooms
  import opened RoomRequests

  // ----- What the creator has asked for -----

  /** Request `j` is about the room `n` and made by the client that created it with request `b`. */
  predicate ByCreator(qs: seq<Request>, n: string, b: nat, j: nat) {
    b < j < |qs| && qs[j].name == n && qs[j].client.id == qs[b].client.id
  }

  /** The creator banned the client before request `i`. */
  ghost predicate BannedBefore(qs: seq<Request>, n: string, b: nat, i: nat, id: string) {
    exists j | b < j < i :: ByCreator(qs, n, b, j) && qs[j].BanClient? && qs[j].target == id
  }

  /** The password in force before request `i`: the one the room was created with until the creator locks or
      unlocks it. A lock leaves none that a client could give, an unlock the empty one. */
  function PasswordAt(qs: seq<Request>, n: string, b: nat, i: nat): Option<string>
    requires b < i <= |qs| && qs[b].CreateRoom?
  {
    if i == b + 1 then Some(qs[b].password)
    else if ByCreator(qs, n, b, i - 1) && qs[i - 1].LockRoom? then None
    else if ByCreator(qs, n, b, i - 1) && qs[i - 1].UnlockRoom? then Some("")
    else PasswordAt(qs, n, b, i - 1)
  }

  /** Whether the room is hidden before request `i`. */
  function HiddenAt(qs: seq<Request>, n: string, b: nat, i: nat): bool
    requires b < i <= |qs| && qs[b].CreateRoom?
  {
    if i == b + 1 then qs[b].hidden
    else if ByCreator(qs, n, b, i - 1) && (qs[i - 1].Privatize? || qs[i - 1].Deprivatize?) then qs[i - 1].Privatize?
    else HiddenAt(qs, n, b, i - 1)
  }

  /** The join `i` is by a client whom the creator has not banned, and who is the creator or gives the
      password in force, or needs none. */
  ghost predicate LetsIn(qs: seq<Request>, n: string, b: nat, i: nat)
    requires b < i < |qs| && qs[b].CreateRoom? && qs[i].JoinRoom?
  {
    && !BannedBefore(qs, n, b, i, qs[i].client.id)
    && (qs[i].client.id == qs[b].client.id
        || PasswordAt(qs, n, b, i) == Some("")
        || PasswordAt(qs, n, b, i) == Some(qs[i].given))
  }

  // ----- When a room exists -----

  /** Request `b` makes the room: its name is free, and the collection of rooms takes it. */
  ghost predicate Makes(max: int, qs: seq<Request>, n: string, b: nat) {
    && b < |qs| && qs[b].CreateRoom? && qs[b].name == n
    && n !in Run(max, qs[..b]).objects
    && (max == 0 || Run(max, qs[..b]).count != max)
  }

  predicate Unmakes(qs: seq<Request>, n: string, b: nat, j: nat) {
    ByCreator(qs, n, b, j) && qs[j].DeleteRoom?
  }

  lemma {:induction false} MaxKept(max: int, qs: seq<Request>)
    ensures Run(max, qs).max == max
  {
    if qs != [] {
      MaxKept(max, qs[..|qs| - 1]);
    }
  }

  /** A room is alive since its creation exactly when that made it and its creator has not deleted it. */
  lemma {:induction false} AliveExactly(max: int, qs: seq<Request>, n: string, b: nat)
    ensures AliveSince(max, qs, n, b) <==> Makes(max, qs, n, b) && forall j | b < j < |qs| :: !Unmakes(qs, n, b, j)
    decreases |qs|
  {
    if b == |qs| - 1 {
      JustMade(max, qs, n);
    } else if b < |qs| {
      var m := |qs| - 1;
      AliveExactly(max, qs[..m], n, b);
      AliveOneMore(max, qs, n, b);
      MakesLonger(max, qs, n, b);
      if AliveSince(max, qs[..m], n, b) {
        NotUnmade(max, qs, n, b);
      }
    }
  }

  lemma JustMade(max: int, qs: seq<Request>, n: string)
    requires qs != []
    ensures AliveSince(max, qs, n, |qs| - 1) <==> Makes(max, qs, n, |qs| - 1)
  {
    var m := |qs| - 1;
    MaxKept(max, qs[..m]);
    RunWellNamed(max, qs[..m]);
    assert qs[..|qs|] == qs;
    assert AliveSince(max, qs, n, m) <==> n !in Run(max, qs[..m]).objects && n in Run(max, qs).objects;
  }

  lemma NotUnmade(max: int, qs: seq<Request>, n: string, b: nat)
    requires b < |qs| - 1 && AliveSince(max, qs[..|qs| - 1], n, b)
    ensures n in Run(max, qs).objects <==> !Unmakes(qs, n, b, |qs| - 1)
  {
    var m := |qs| - 1;
    SettingsAreHistory(max, qs[..m], n, b);
    RunWellNamed(max, qs[..m]);
  }

  lemma AliveOneMore(max: int, qs: seq<Request>, n: string, b: nat)
    requires b < |qs| - 1
    ensures AliveSince(max, qs, n, b) <==> AliveSince(max, qs[..|qs| - 1], n, b) && n in Run(max, qs).objects
  {
    var m := |qs| - 1;
    assert qs[..|qs|] == qs;
    if AliveSince(max, qs, n, b) {
      AliveEarlier(max, qs, n, b, m);
    }
    if AliveSince(max, qs[..m], n, b) && n in Run(max, qs).objects {
      StillAlive(max, qs, n, b);
    }
  }

  lemma StillAlive(max: int, qs: seq<Request>, n: string, b: nat)
    requires b < |qs| - 1 && AliveSince(max, qs[..|qs| - 1], n, b) && n in Run(max, qs).objects
    ensures AliveSince(max, qs, n, b)
  {
    var m := |qs| - 1;
    assert qs[..m][..b] == qs[..b];
    forall k | b < k <= |qs|
      ensures n in Run(max, qs[..k]).objects
    {
      if k <= m {
        assert qs[..m][..k] == qs[..k];
      } else {
        assert qs[..k] == qs;
      }
    }
  }

  lemma MakesLonger(max: int, qs: seq<Request>, n: string, b: nat)
    requires b < |qs| - 1
    ensures var m := |qs| - 1;
            && (Makes(max, qs[..m], n, b) <==> Makes(max, qs, n, b))
            && forall j: nat | j < m :: Unmakes(qs[..m], n, b, j) <==> Unmakes(qs, n, b, j)
  {
    assert qs[..|qs| - 1][..b] == qs[..b];
  }

  /** So a room exists exactly when a request made it and its creator has not deleted it since. */
  lemma ExistsExactly(max: int, qs: seq<Request>, n: string)
    ensures n in Run(max, qs).objects
       <==> exists b: nat :: Makes(max, qs, n, b) && forall j | b < j < |qs| :: !Unmakes(qs, n, b, j)
  {
    assert qs[..|qs|] == qs;
    if n in Run(max, qs).objects {
      BirthExists(max, qs, n);
      var b: nat :| AliveSince(max, qs, n, b);
      AliveExactly(max, qs, n, b);
    }
    if b: nat :| Makes(max, qs, n, b) && forall j | b < j < |qs| :: !Unmakes(qs, n, b, j) {
      AliveExactly(max, qs, n, b);
      RoomIsItsHistory(max, qs, n, b);
    }
  }

  // ----- What a room is -----

  /** A new room belongs to the client that asked for it, under the name, password, visibility and limit of
      the request, with nobody banned and nobody in it. */
  lemma RoomBorn(max: int, qs: seq<Request>, n: string, b: nat)
    requires AliveSince(max, qs, n, b)
    ensures qs[b].CreateRoom? && n in Run(max, qs[..b + 1]).objects
    ensures var nobody := ObjectManagers.Manager(qs[b].max, map[], 0, 0, 0);
            Run(max, qs[..b + 1]).objects[n]
            == RoomState(qs[b].client.id, n, Some(qs[b].password), qs[b].hidden, [], nobody)
  {
    AliveEarlier(max, qs, n, b, b + 1);
    RoomIsItsHistory(max, qs[..b + 1], n, b);
    assert qs[..b + 1][b + 1..] == [];
  }

  /** The settings of a room are what its creation and its creator's later requests say. */
  lemma {:induction false} SettingsAreHistory(max: int, qs: seq<Request>, n: string, b: nat)
    requires AliveSince(max, qs, n, b)
    ensures qs[b].CreateRoom? && qs[b].name == n && n in Run(max, qs).objects
    ensures var r := Run(max, qs).objects[n];
            && r.owner == qs[b].client.id && r.name == n && r.clients.max == qs[b].max
            && r.password == PasswordAt(qs, n, b, |qs|) && r.hidden == HiddenAt(qs, n, b, |qs|)
            && forall id :: id in r.banned <==> BannedBefore(qs, n, b, |qs|, id)
    decreases |qs|
  {
    var m := |qs| - 1;
    RoomIsItsHistory(max, qs, n, b);
    if b == m {
      RoomBorn(max, qs, n, b);
      assert qs[..b + 1] == qs;
    } else {
      AliveEarlier(max, qs, n, b, m);
      SettingsAreHistory(max, qs[..m], n, b);
      RunWellNamed(max, qs[..m]);
      LaterStep(Run(max, qs[..m]), qs[m], n);
      SettingsLonger(qs, n, b, m);
      BannedLonger(qs, n, b);
      RoomOneMore(Run(max, qs[..m]).objects[n], qs[m]);
    }
  }

  /** What one request to a room does to its settings. */
  lemma RoomOneMore(r: RoomState, q: Request)
    ensures var r' := RoomStep(r, q); var creator := q.client.id == r.owner;
            && r'.owner == r.owner && r'.name == r.name && r'.clients.max == r.clients.max
            && r'.password == (if creator && q.LockRoom? then None
                               else if creator && q.UnlockRoom? then Some("")
                               else r.password)
            && r'.hidden == (if creator && (q.Privatize? || q.Deprivatize?) then q.Privatize? else r.hidden)
            && r'.banned == (if creator && q.BanClient? then r.banned + [q.target] else r.banned)
  {
  }

  lemma {:induction false} SettingsLonger(qs: seq<Request>, n: string, b: nat, i: nat)
    requires b < i < |qs| && qs[b].CreateRoom?
    ensures PasswordAt(qs[..|qs| - 1], n, b, i) == PasswordAt(qs, n, b, i)
    ensures HiddenAt(qs[..|qs| - 1], n, b, i) == HiddenAt(qs, n, b, i)
  {
    if i > b + 1 {
      SettingsLonger(qs, n, b, i - 1);
    }
  }

  lemma BannedLonger(qs: seq<Request>, n: string, b: nat)
    requires b < |qs| - 1
    ensures var m := |qs| - 1;
            forall id :: BannedBefore(qs, n, b, |qs|, id)
              <==> BannedBefore(qs[..m], n, b, m, id)
                   || (ByCreator(qs, n, b, m) && qs[m].BanClient? && qs[m].target == id)
  {
    var m := |qs| - 1;
    assert forall j: nat | j < m :: qs[..m][j] == qs[j];
    forall id
      ensures BannedBefore(qs, n, b, |qs|, id)
         <==> BannedBefore(qs[..m], n, b, m, id)
              || (ByCreator(qs, n, b, m) && qs[m].BanClient? && qs[m].target == id)
    {
      if BannedBefore(qs[..m], n, b, m, id) {
        var j :| b < j < m && ByCreator(qs[..m], n, b, j) && qs[..m][j].BanClient? && qs[..m][j].target == id;
        assert ByCreator(qs, n, b, j);
      }
      if j :| b < j < m && ByCreator(qs, n, b, j) && qs[j].BanClient? && qs[j].target == id {
        assert ByCreator(qs[..m], n, b, j);
      }
    }
  }

  // ----- Who is in a room -----

  /** What a join does, in every reachable state: whom the room lets in is counted, and becomes a member
      unless the count was at a limit; for anyone else nothing happens. */
  lemma AdmittedExactly(max: int, qs: seq<Request>, n: string, b: nat, i: nat)
    requires b < i < |qs| && qs[i].JoinRoom? && qs[i].name == n && AliveSince(max, qs[..i + 1], n, b)
    ensures qs[b].CreateRoom? && n in Run(max, qs[..i]).objects && n in Run(max, qs[..i + 1]).objects
    ensures var c, c' := Run(max, qs[..i]).objects[n].clients, Run(max, qs[..i + 1]).objects[n].clients;
            var client := qs[i].client;
            if LetsIn(qs, n, b, i) then
              && c'.count == c.count + 1 && c'.total == c.total + 1
              && c'.objects == (if qs[b].max == 0 || c.count != qs[b].max then c.objects[client.id := client]
                                else c.objects)
            else c' == c
  {
    var upTo := qs[..i + 1];
    assert upTo[..i] == qs[..i] && upTo[i] == qs[i] && upTo[b] == qs[b];
    AliveEarlier(max, upTo, n, b, i);
    SettingsBefore(max, qs, n, b, i);
    RunWellNamed(max, qs[..i]);
    RoomIsItsHistory(max, upTo, n, b);
    LaterStep(Run(max, qs[..i]), qs[i], n);
    JoinOneMore(Run(max, qs[..i]).objects[n], qs[i]);
  }

  /** The settings of a room before request `i`. */
  lemma SettingsBefore(max: int, qs: seq<Request>, n: string, b: nat, i: nat)
    requires b < i < |qs| && AliveSince(max, qs[..i], n, b)
    ensures qs[b].CreateRoom? && n in Run(max, qs[..i]).objects
    ensures var r := Run(max, qs[..i]).objects[n];
            && r.owner == qs[b].client.id && r.name == n && r.clients.max == qs[b].max
            && r.password == PasswordAt(qs, n, b, i)
            && forall id :: id in r.banned <==> BannedBefore(qs, n, b, i, id)
  {
    SettingsAreHistory(max, qs[..i], n, b);
    SettingsUpTo(qs, n, b, i);
  }

  lemma JoinOneMore(r: RoomState, q: Request)
    requires q.JoinRoom?
    ensures var c, c' := r.clients, RoomStep(r, q).clients;
            if q.client.id !in r.banned
               && (q.client.id == r.owner || r.password == Some("") || r.password == Some(q.given)) then
              && c'.count == c.count + 1 && c'.total == c.total + 1
              && c'.objects == if c.max == 0 || c.count != c.max then c.objects[q.client.id := q.client] else c.objects
            else c' == c
  {
  }

  /** Later requests do not change what was in force before. */
  lemma SettingsUpTo(qs: seq<Request>, n: string, b: nat, i: nat)
    requires b < i <= |qs| && qs[b].CreateRoom?
    ensures PasswordAt(qs[..i], n, b, i) == PasswordAt(qs, n, b, i)
    ensures HiddenAt(qs[..i], n, b, i) == HiddenAt(qs, n, b, i)
    ensures forall id :: BannedBefore(qs[..i], n, b, i, id) <==> BannedBefore(qs, n, b, i, id)
    decreases |qs|
  {
    if i == |qs| {
      assert qs[..i] == qs;
    } else {
      var m := |qs| - 1;
      SettingsLonger(qs, n, b, i);
      SettingsUpTo(qs[..m], n, b, i);
      assert qs[..m][..i] == qs[..i];
      assert forall j: nat | j < i :: ByCreator(qs[..m], n, b, j) == ByCreator(qs, n, b, j) && qs[..m][j] == qs[j];
    }
  }

  /** What the room has counted before request `i`: whom it let in, less everybody who left, and whom the
      creator kicked or banned, since the creator last emptied it. */
  ghost function CountAt(qs: seq<Request>, n: string, b: nat, i: nat): int
    requires b < i <= |qs| && qs[b].CreateRoom?
  {
    if i == b + 1 then 0
    else
      var q, before := qs[i - 1], CountAt(qs, n, b, i - 1);
      if q.name != n then before
      else if q.JoinRoom? then if LetsIn(qs, n, b, i - 1) then before + 1 else before
      else if q.LeaveRoom? then before - 1
      else if !ByCreator(qs, n, b, i - 1) then before
      else if q.KickClient? || q.BanClient? then before - 1
      else if q.EmptyRoom? then 0
      else before
  }

  lemma {:induction false} CountUpTo(qs: seq<Request>, n: string, b: nat, i: nat, k: nat)
    requires b < k <= i <= |qs| && qs[b].CreateRoom?
    ensures CountAt(qs[..i], n, b, k) == CountAt(qs, n, b, k)
  {
    if k > b + 1 {
      CountUpTo(qs, n, b, i, k - 1);
      assert qs[..i][..k - 1] == qs[..k - 1];
      SettingsUpTo(qs, n, b, k - 1);
      SettingsUpTo(qs[..i], n, b, k - 1);
    }
  }

  lemma {:induction false} CountIsHistory(max: int, qs: seq<Request>, n: string, b: nat)
    requires AliveSince(max, qs, n, b)
    ensures qs[b].CreateRoom? && n in Run(max, qs).objects
    ensures Run(max, qs).objects[n].clients.count == CountAt(qs, n, b, |qs|)
    decreases |qs|
  {
    var m := |qs| - 1;
    SettingsAreHistory(max, qs, n, b);
    if b == m {
      RoomBorn(max, qs, n, b);
      assert qs[..b + 1] == qs;
    } else {
      AliveEarlier(max, qs, n, b, m);
      CountIsHistory(max, qs[..m], n, b);
      CountUpTo(qs, n, b, m, m);
      CountOneMore(max, qs, n, b);
    }
  }

  lemma CountOneMore(max: int, qs: seq<Request>, n: string, b: nat)
    requires b < |qs| - 1 && AliveSince(max, qs, n, b)
    ensures var m := |qs| - 1;
            && qs[b].CreateRoom? && n in Run(max, qs[..m]).objects && n in Run(max, qs).objects
            && (Run(max, qs[..m]).objects[n].clients.count == CountAt(qs, n, b, m) ==>
                  Run(max, qs).objects[n].clients.count == CountAt(qs, n, b, m + 1))
  {
    var m := |qs| - 1;
    assert qs[..m + 1] == qs;
    AliveEarlier(max, qs, n, b, m);
    SettingsAreHistory(max, qs[..m], n, b);
    SettingsAreHistory(max, qs, n, b);
    RunWellNamed(max, qs[..m]);
    LaterStep(Run(max, qs[..m]), qs[m], n);
    if qs[m].JoinRoom? && qs[m].name == n {
      AdmittedExactly(max, qs, n, b, m);
    }
  }

  /** Request `i` puts the client into the room: it is let in, and what the room has counted is not at the
      limit. */
  ghost predicate Enters(qs: seq<Request>, n: string, b: nat, i: nat, id: string) {
    && b < i < |qs| && qs[b].CreateRoom?
    && qs[i].JoinRoom? && qs[i].name == n && qs[i].client.id == id
    && LetsIn(qs, n, b, i)
    && (qs[b].max == 0 || CountAt(qs, n, b, i) != qs[b].max)
  }

  /** Request `i` takes the client out of the room: it leaves, or the creator kicks or bans it or empties
      the room. */
  predicate Exits(qs: seq<Request>, n: string, b: nat, i: nat, id: string) {
    && b < i < |qs| && qs[i].name == n
    && match qs[i]
       case LeaveRoom(_, client) => client.id == id
       case KickClient(_, client, target) => client.id == qs[b].client.id && target == id
       case BanClient(_, client, target) => client.id == qs[b].client.id && target == id
       case EmptyRoom(_, client) => client.id == qs[b].client.id
       case _ => false
  }

  ghost predicate EnteredLast(qs: seq<Request>, n: string, b: nat, i: nat, id: string) {
    && Enters(qs, n, b, i, id)
    && forall j | i < j < |qs| :: !Enters(qs, n, b, j, id) && !Exits(qs, n, b, j, id)
  }

  /** The client is in the room, and by which object, as its last entry says. */
  ghost predicate AsEntered(max: int, qs: seq<Request>, n: string, b: nat, id: string)
    requires n in Run(max, qs).objects
  {
    var members := Run(max, qs).objects[n].clients.objects;
    && (id in members <==> exists i: nat :: EnteredLast(qs, n, b, i, id))
    && forall i: nat | EnteredLast(qs, n, b, i, id) :: id in members && members[id] == qs[i].client
  }

  /** In every reachable state, a client is in a room, and by which object, exactly as its last entry says: a
      join by which it was let in, the count not being at the limit, and that nothing has undone since. */
  lemma {:induction false} MembersExactly(max: int, qs: seq<Request>, n: string, b: nat, id: string)
    requires AliveSince(max, qs, n, b)
    ensures n in Run(max, qs).objects && AsEntered(max, qs, n, b, id)
    decreases |qs|
  {
    var m := |qs| - 1;
    if b == m {
      NobodyYet(max, qs, n, b, id);
    } else {
      AliveEarlier(max, qs, n, b, m);
      MembersExactly(max, qs[..m], n, b, id);
      EnteredStep(max, qs, n, b, id);
    }
  }

  lemma EnteredStep(max: int, qs: seq<Request>, n: string, b: nat, id: string)
    requires b < |qs| - 1 && AliveSince(max, qs, n, b)
    requires n in Run(max, qs[..|qs| - 1]).objects && AsEntered(max, qs[..|qs| - 1], n, b, id)
    ensures n in Run(max, qs).objects && AsEntered(max, qs, n, b, id)
  {
    var m := |qs| - 1;
    MemberOneMore(max, qs, n, b, id);
    EnteredOneMore(qs, n, b, id);
    if Enters(qs, n, b, m, id) {
      assert EnteredLast(qs, n, b, m, id);
    } else if i: nat :| EnteredLast(qs[..m], n, b, i, id) {
      assert EnteredLast(qs, n, b, i, id) <==> !Exits(qs, n, b, m, id);
      assert i < m && qs[..m][i] == qs[i];
    }
  }

  lemma NobodyYet(max: int, qs: seq<Request>, n: string, b: nat, id: string)
    requires b == |qs| - 1 && AliveSince(max, qs, n, b)
    ensures n in Run(max, qs).objects && Run(max, qs).objects[n].clients.objects == map[]
    ensures forall i: nat :: !EnteredLast(qs, n, b, i, id)
  {
    RoomBorn(max, qs, n, b);
    assert qs[..b + 1] == qs;
  }

  /** The last entry is the last request, or was the last entry before and that is not undone now. */
  lemma EnteredOneMore(qs: seq<Request>, n: string, b: nat, id: string)
    requires qs != []
    ensures var m := |qs| - 1;
            forall i: nat :: EnteredLast(qs, n, b, i, id)
              <==> if Enters(qs, n, b, m, id) then i == m
                   else !Exits(qs, n, b, m, id) && EnteredLast(qs[..m], n, b, i, id)
  {
    var m := |qs| - 1;
    forall i: nat
      ensures EnteredLast(qs, n, b, i, id)
         <==> if Enters(qs, n, b, m, id) then i == m
              else !Exits(qs, n, b, m, id) && EnteredLast(qs[..m], n, b, i, id)
    {
      if i < m {
        EnteredLonger(qs, n, b, i, id);
      }
    }
  }

  lemma MemberOneMore(max: int, qs: seq<Request>, n: string, b: nat, id: string)
    requires b < |qs| - 1 && AliveSince(max, qs, n, b)
    ensures var m := |qs| - 1;
            && n in Run(max, qs[..m]).objects && n in Run(max, qs).objects
            && var before, now := Run(max, qs[..m]).objects[n].clients.objects, Run(max, qs).objects[n].clients.objects;
               if Enters(qs, n, b, m, id) then id in now && now[id] == qs[m].client
               else if Exits(qs, n, b, m, id) then id !in now
               else (id in now <==> id in before) && (id in before ==> now[id] == before[id])
  {
    var m := |qs| - 1;
    assert qs[..m + 1] == qs;
    AliveEarlier(max, qs, n, b, m);
    SettingsAreHistory(max, qs[..m], n, b);
    SettingsAreHistory(max, qs, n, b);
    RunWellNamed(max, qs[..m]);
    LaterStep(Run(max, qs[..m]), qs[m], n);
    if qs[m].JoinRoom? && qs[m].name == n {
      AdmittedExactly(max, qs, n, b, m);
      CountIsHistory(max, qs[..m], n, b);
      CountUpTo(qs, n, b, m, m);
    }
  }

  lemma EnteredLonger(qs: seq<Request>, n: string, b: nat, i: nat, id: string)
    requires i < |qs| - 1
    ensures var m := |qs| - 1;
            EnteredLast(qs, n, b, i, id)
            <==> EnteredLast(qs[..m], n, b, i, id)
                 && !Enters(qs, n, b, m, id) && !Exits(qs, n, b, m, id)
  {
    var m := |qs| - 1;
    forall j: nat | j < m
      ensures Enters(qs[..m], n, b, j, id) == Enters(qs, n, b, j, id)
      ensures Exits(qs[..m], n, b, j, id) == Exits(qs, n, b, j, id)
    {
      assert qs[..m][..j] == qs[..j];
      if b < j && qs[b].CreateRoom? {
        CountUpTo(qs, n, b, m, j);
        SettingsUpTo(qs, n, b, j);
        SettingsUpTo(qs[..m], n, b, j);
      }
    }
  }
}
