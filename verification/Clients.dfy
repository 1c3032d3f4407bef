/** The registry of connected clients, kept by connection and by user, and the online events it causes. */
module Clients {
  import opened Options

  datatype Client = Client(id: int, uid: string, deviceFlag: nat)

  type ById = map<int, Client>
  type ByUser = map<string, seq<int>>

  /** The ids of a user's clients; a list that has become empty stays in the map. */
  function ListOf(users: ByUser, uid: string): seq<int> {
    if uid in users then users[uid] else []
  }

  /** The clients of a list of ids, as far as they are registered. */
  function Resolve(clients: ById, ids: seq<int>): seq<Client> {
    if ids == [] then []
    else (if ids[0] in clients then [clients[ids[0]]] else []) + Resolve(clients, ids[1..])
  }

  function FirstWith(clients: seq<Client>, flag: nat): Option<Client> {
    if clients == [] then None
    else if clients[0].deviceFlag == flag then Some(clients[0]) else FirstWith(clients[1..], flag)
  }

  function ClientWith(clients: ById, users: ByUser, uid: string, flag: nat): Option<Client> {
    FirstWith(Resolve(clients, ListOf(users, uid)), flag)
  }

  function Without(ids: seq<int>, id: int): seq<int> {
    if ids == [] then [] else if ids[0] == id then ids[1..] else [ids[0]] + Without(ids[1..], id)
  }

  // ---------- the two maps agree ----------

  ghost predicate NoRepeat(ids: seq<int>) {
    forall i, j {:trigger ids[i], ids[j]} :: 0 <= i < j < |ids| ==> ids[i] != ids[j]
  }

  /** Each user's list is exactly the ids of the clients registered for this user, each once. */
  ghost predicate Agree(clients: ById, users: ByUser) {
    && (forall id {:trigger id in clients} {:trigger clients[id]} :: id in clients ==>
          clients[id].id == id && id in ListOf(users, clients[id].uid))
    && (forall uid {:trigger uid in users} {:trigger users[uid]} :: uid in users ==>
          ListAgrees(clients, uid, users[uid]))
  }

  ghost predicate ListAgrees(clients: ById, uid: string, ids: seq<int>) {
    NoRepeat(ids) && forall id {:trigger id in ids} :: id in ids ==> id in clients && clients[id].uid == uid
  }

  /** At most one client is registered for a user and a device flag. */
  ghost predicate Unique(clients: ById) {
    forall i, j {:trigger clients[i], clients[j]} ::
      i in clients && j in clients && clients[i].uid == clients[j].uid && clients[i].deviceFlag == clients[j].deviceFlag
      ==> i == j
  }

  ghost predicate Registered(clients: ById, uid: string, flag: nat) {
    exists id :: id in clients && clients[id].uid == uid && clients[id].deviceFlag == flag
  }

  lemma {:induction false} ResolveHas(clients: ById, ids: seq<int>, c: Client)
    ensures c in Resolve(clients, ids)
            <==> exists id {:trigger id in ids} :: id in ids && id in clients && clients[id] == c
  {
    if ids != [] {
      var rest := ids[1..];
      ResolveHas(clients, rest, c);
      assert ids == [ids[0]] + rest;
      assert forall id :: id in ids <==> id == ids[0] || id in rest;
      var more := Resolve(clients, rest);
      assert Resolve(clients, ids) == (if ids[0] in clients then [clients[ids[0]]] else []) + more;
      if c in more {
        var id :| id in rest && id in clients && clients[id] == c;
        assert id in ids;
      } else if ids[0] in clients && clients[ids[0]] == c {
        assert ids[0] in ids;
      }
    }
  }

  lemma ListRegistered(clients: ById, uid: string, ids: seq<int>)
    requires ListAgrees(clients, uid, ids)
    ensures forall i :: 0 <= i < |ids| ==> ids[i] in clients
  {
    forall i | 0 <= i < |ids|
      ensures ids[i] in clients
    {
      var id := ids[i];
      assert id in ids;
    }
  }

  /** While the maps agree, a user's list gives exactly its clients, in its order. */
  lemma ResolveList(clients: ById, users: ByUser, uid: string)
    requires Agree(clients, users)
    ensures var ids, cs := ListOf(users, uid), Resolve(clients, ListOf(users, uid));
            |cs| == |ids| && forall i :: 0 <= i < |cs| ==> ids[i] in clients && cs[i] == clients[ids[i]]
  {
    var ids := ListOf(users, uid);
    if uid in users {
      ListRegistered(clients, uid, ids);
    }
    ResolveAll(clients, ids);
  }

  lemma {:induction false} ResolveAll(clients: ById, ids: seq<int>)
    requires forall i :: 0 <= i < |ids| ==> ids[i] in clients
    ensures |Resolve(clients, ids)| == |ids|
    ensures forall i :: 0 <= i < |ids| ==> Resolve(clients, ids)[i] == clients[ids[i]]
  {
    if ids != [] {
      ResolveAll(clients, ids[1..]);
      assert Resolve(clients, ids) == [clients[ids[0]]] + Resolve(clients, ids[1..]);
    }
  }

  lemma {:induction false} FirstWithIs(cs: seq<Client>, flag: nat)
    ensures match FirstWith(cs, flag)
            case Some(c) => c in cs && c.deviceFlag == flag
            case None => forall c :: c in cs ==> c.deviceFlag != flag
  {
    if cs != [] {
      FirstWithIs(cs[1..], flag);
    }
  }

  /** Looking a device up finds the registered client, and nothing when there is none. */
  lemma ClientWithIs(clients: ById, users: ByUser, uid: string, flag: nat)
    requires Agree(clients, users)
    ensures match ClientWith(clients, users, uid, flag)
            case Some(c) => c.id in clients && clients[c.id] == c && c.uid == uid && c.deviceFlag == flag
            case None => !Registered(clients, uid, flag)
  {
    var ids := ListOf(users, uid);
    var cs := Resolve(clients, ids);
    FirstWithIs(cs, flag);
    match FirstWith(cs, flag)
    case Some(c) => ResolveHas(clients, ids, c);
    case None =>
      forall id | id in clients && clients[id].uid == uid
        ensures clients[id].deviceFlag != flag
      {
        ResolveHas(clients, ids, clients[id]);
      }
  }

  // ---------- adding and removing ----------

  function AddedUsers(users: ByUser, c: Client): ByUser {
    users[c.uid := ListOf(users, c.uid) + [c.id]]
  }

  function RemovedUsers(users: ByUser, c: Client): ByUser {
    if c.uid in users then users[c.uid := Without(users[c.uid], c.id)] else users
  }

  lemma {:induction false} WithoutIs(ids: seq<int>, id: int)
    requires NoRepeat(ids)
    ensures NoRepeat(Without(ids, id)) && forall x :: x in Without(ids, id) <==> x in ids && x != id
  {
    if ids != [] {
      var first, rest := ids[0], ids[1..];
      assert ids == [first] + rest;
      assert forall k :: 0 <= k < |rest| ==> rest[k] == ids[k + 1];
      WithoutIs(rest, id);
      if first != id {
        var w := Without(rest, id);
        assert first !in w;
        assert forall k :: 0 <= k < |w| ==> w[k] in w;
      }
    }
  }

  lemma WithoutFrom(ids: seq<int>, id: int, i: nat)
    requires i <= |ids| && Without(ids, id) == ids[..i] + Without(ids[i..], id) && (i < |ids| ==> ids[i] == id)
    ensures Without(ids, id) == if i < |ids| then ids[..i] + ids[i + 1..] else ids
  {
    if i < |ids| {
      assert ids[i..][1..] == ids[i + 1..];
    }
  }

  lemma AddAgrees(clients: ById, users: ByUser, c: Client)
    requires Agree(clients, users) && c.id !in clients
    ensures Agree(clients[c.id := c], AddedUsers(users, c))
  {
    var clients', users' := clients[c.id := c], AddedUsers(users, c);
    var ids := ListOf(users, c.uid);
    assert c.id !in ids;
    forall uid | uid in users'
      ensures ListAgrees(clients', uid, users'[uid])
    {
      if uid != c.uid {
        assert ListAgrees(clients, uid, users[uid]);
      }
    }
  }

  lemma RemoveAgrees(clients: ById, users: ByUser, id: int)
    requires Agree(clients, users) && id in clients
    ensures Agree(clients - {id}, RemovedUsers(users, clients[id]))
  {
    var c := clients[id];
    var clients', users' := clients - {id}, RemovedUsers(users, c);
    WithoutIs(users[c.uid], id);
    forall uid | uid in users'
      ensures ListAgrees(clients', uid, users'[uid])
    {
      assert ListAgrees(clients, uid, users[uid]);
    }
  }

  // ---------- connecting and disconnecting ----------

  /** A user's device has come online or gone offline. */
  datatype Event = Event(uid: string, deviceFlag: nat, online: bool)

  /** The last event for a user's device. */
  function LastEvent(events: seq<Event>, uid: string, flag: nat): Option<bool> {
    if events == [] then None
    else
      var e := events[|events| - 1];
      if e.uid == uid && e.deviceFlag == flag then Some(e.online) else LastEvent(events[..|events| - 1], uid, flag)
  }

  lemma LastEventSnoc(events: seq<Event>, e: Event, uid: string, flag: nat)
    ensures LastEvent(events + [e], uid, flag)
         == if e.uid == uid && e.deviceFlag == flag then Some(e.online) else LastEvent(events, uid, flag)
  {
    assert (events + [e])[..|events|] == events;
  }

  /** A device was last reported online exactly when a client is registered for it. */
  ghost predicate Reported(clients: ById, events: seq<Event>) {
    forall uid, flag {:trigger LastEvent(events, uid, flag)} ::
      LastEvent(events, uid, flag) == Some(true) <==> Registered(clients, uid, flag)
  }

  lemma ConnectReports(clients: ById, events: seq<Event>, c: Client)
    requires Reported(clients, events) && c.id !in clients
    ensures Reported(clients[c.id := c], events + [Event(c.uid, c.deviceFlag, true)])
  {
    var clients', events' := clients[c.id := c], events + [Event(c.uid, c.deviceFlag, true)];
    forall uid, flag
      ensures LastEvent(events', uid, flag) == Some(true) <==> Registered(clients', uid, flag)
    {
      LastEventSnoc(events, Event(c.uid, c.deviceFlag, true), uid, flag);
      assert LastEvent(events, uid, flag) == Some(true) <==> Registered(clients, uid, flag);
      if Registered(clients, uid, flag) {
        var id :| id in clients && clients[id].uid == uid && clients[id].deviceFlag == flag;
        assert id in clients' && clients'[id].uid == uid && clients'[id].deviceFlag == flag;
      }
      if c.uid == uid && c.deviceFlag == flag {
        assert c.id in clients' && clients'[c.id].uid == uid && clients'[c.id].deviceFlag == flag;
      }
    }
  }

  /** The client of the same device is replaced: the device stays registered. */
  lemma ReplaceReports(clients: ById, events: seq<Event>, old': Client, c: Client)
    requires Reported(clients, events) && old'.id in clients && clients[old'.id] == old'
    requires c.uid == old'.uid && c.deviceFlag == old'.deviceFlag && c.id !in clients - {old'.id}
    ensures Reported((clients - {old'.id})[c.id := c], events + [Event(c.uid, c.deviceFlag, true)])
  {
    var clients', events' := (clients - {old'.id})[c.id := c], events + [Event(c.uid, c.deviceFlag, true)];
    forall uid, flag
      ensures LastEvent(events', uid, flag) == Some(true) <==> Registered(clients', uid, flag)
    {
      LastEventSnoc(events, Event(c.uid, c.deviceFlag, true), uid, flag);
      assert LastEvent(events, uid, flag) == Some(true) <==> Registered(clients, uid, flag);
      if Registered(clients, uid, flag) && !(c.uid == uid && c.deviceFlag == flag) {
        var id :| id in clients && clients[id].uid == uid && clients[id].deviceFlag == flag;
        assert id in clients' && clients'[id].uid == uid && clients'[id].deviceFlag == flag;
      }
      if c.uid == uid && c.deviceFlag == flag {
        assert c.id in clients' && clients'[c.id].uid == uid && clients'[c.id].deviceFlag == flag;
      }
    }
  }

  lemma DisconnectReports(clients: ById, events: seq<Event>, id: int)
    requires Reported(clients, events) && Unique(clients) && id in clients
    ensures var c := clients[id];
            && !Registered(clients - {id}, c.uid, c.deviceFlag)
            && Reported(clients - {id}, events + [Event(c.uid, c.deviceFlag, false)])
  {
    var c := clients[id];
    var clients', e := clients - {id}, Event(c.uid, c.deviceFlag, false);
    assert forall j :: j in clients' ==> clients'[j] == clients[j];
    forall uid, flag
      ensures LastEvent(events + [e], uid, flag) == Some(true) <==> Registered(clients', uid, flag)
    {
      LastEventSnoc(events, e, uid, flag);
      assert LastEvent(events, uid, flag) == Some(true) <==> Registered(clients, uid, flag);
      if Registered(clients, uid, flag) && !(c.uid == uid && c.deviceFlag == flag) {
        var j :| j in clients && clients[j].uid == uid && clients[j].deviceFlag == flag;
        assert j in clients' && clients'[j].uid == uid && clients'[j].deviceFlag == flag;
      }
    }
  }

  // ---------- one connect packet ----------

  predicate SameDevice(a: Client, b: Client) {
    a.uid == b.uid && a.deviceFlag == b.deviceFlag
  }

  /** The registry after a client of the same device, if there is one, has been replaced by `c`. */
  function ConnectedClients(clients: ById, users: ByUser, c: Client): ById {
    match ClientWith(clients, users, c.uid, c.deviceFlag)
    case Some(o) => (clients - {o.id})[c.id := c]
    case None => clients[c.id := c]
  }

  function ConnectedUsers(clients: ById, users: ByUser, c: Client): ByUser {
    match ClientWith(clients, users, c.uid, c.deviceFlag)
    case Some(o) => AddedUsers(if o.id in clients then RemovedUsers(users, clients[o.id]) else users, c)
    case None => AddedUsers(users, c)
  }

  ghost predicate Consistent(clients: ById, users: ByUser, events: seq<Event>) {
    Agree(clients, users) && Unique(clients) && Reported(clients, events)
  }

  lemma ConnectKeeps(clients: ById, users: ByUser, events: seq<Event>, c: Client)
    requires Consistent(clients, users, events) && (c.id in clients ==> SameDevice(clients[c.id], c))
    ensures Consistent(ConnectedClients(clients, users, c), ConnectedUsers(clients, users, c),
                       events + [Event(c.uid, c.deviceFlag, true)])
  {
    ClientWithIs(clients, users, c.uid, c.deviceFlag);
    match ClientWith(clients, users, c.uid, c.deviceFlag)
    case Some(o) =>
      assert c.id in clients ==> clients[c.id] == clients[o.id];
      RemoveAgrees(clients, users, o.id);
      AddAgrees(clients - {o.id}, RemovedUsers(users, o), c);
      ReplaceReports(clients, events, o, c);
      ReplaceUnique(clients, o, c);
    case None =>
      assert c.id !in clients;
      AddAgrees(clients, users, c);
      ConnectReports(clients, events, c);
      assert Unique(clients[c.id := c]);
  }

  lemma ReplaceUnique(clients: ById, o: Client, c: Client)
    requires Unique(clients) && o.id in clients && clients[o.id] == o && SameDevice(o, c)
    ensures Unique((clients - {o.id})[c.id := c])
  {
    var clients' := (clients - {o.id})[c.id := c];
    forall i, j | i in clients' && j in clients' && SameDevice(clients'[i], clients'[j])
      ensures i == j
    {
      assert i != c.id ==> clients'[i] == clients[i];
      assert j != c.id ==> clients'[j] == clients[j];
      assert SameDevice(clients'[i], o) == SameDevice(clients'[i], c);
    }
  }

  /** A connection that is registered for another device breaks the registry when it connects. */
  lemma ConnectBreaks(clients: ById, users: ByUser, c: Client)
    requires Agree(clients, users) && c.id in clients && !SameDevice(clients[c.id], c)
    ensures !Agree(ConnectedClients(clients, users, c), ConnectedUsers(clients, users, c))
  {
    ClientWithIs(clients, users, c.uid, c.deviceFlag);
    var was := clients[c.id];
    var clients', users' := ConnectedClients(clients, users, c), ConnectedUsers(clients, users, c);
    assert ListAgrees(clients, was.uid, users[was.uid]);
    match ClientWith(clients, users, c.uid, c.deviceFlag) {
      case Some(o) =>
        assert ListAgrees(clients, o.uid, users[o.uid]);
        WithoutIs(users[o.uid], o.id);
      case None =>
    }
    if was.uid != c.uid {
      assert c.id in users'[was.uid] && clients'[c.id].uid != was.uid;
      assert !ListAgrees(clients', was.uid, users'[was.uid]);
    } else {
      var ids := users'[c.uid];
      var n := |ids| - 1;
      assert c.id in ids[..n];
      assert ids[n] == c.id;
      assert !NoRepeat(ids);
      assert !ListAgrees(clients', c.uid, ids);
    }
  }

  lemma DisconnectKeeps(clients: ById, users: ByUser, events: seq<Event>, id: int)
    requires Consistent(clients, users, events) && id in clients
    ensures var c := clients[id];
            && !Registered(clients - {id}, c.uid, c.deviceFlag)
            && Consistent(clients - {id}, RemovedUsers(users, c), events + [Event(c.uid, c.deviceFlag, false)])
  {
    RemoveAgrees(clients, users, id);
    DisconnectReports(clients, events, id);
  }

  // ---------- one step of the registry ----------

  datatype Registry = Registry(clients: ById, users: ByUser, events: seq<Event>) {
    ghost predicate InOrder() {
      Consistent(clients, users, events)
    }
  }

  function Connected(r: Registry, c: Client): Registry {
    Registry(ConnectedClients(r.clients, r.users, c), ConnectedUsers(r.clients, r.users, c),
             r.events + [Event(c.uid, c.deviceFlag, true)])
  }

  /** The device is reported offline when its client was registered and no other client is. */
  function Disconnected(r: Registry, id: int): Registry {
    if id !in r.clients then r
    else
      var c := r.clients[id];
      var clients, users := r.clients - {id}, RemovedUsers(r.users, c);
      Registry(clients, users, if ClientWith(clients, users, c.uid, c.deviceFlag).None?
                               then r.events + [Event(c.uid, c.deviceFlag, false)] else r.events)
  }

  /** A connection that is registered connects again for the same device only. */
  predicate Proper(clients: ById, c: Client) {
    c.id !in clients || SameDevice(clients[c.id], c)
  }

  /** A connect keeps the registry in order exactly when the connection is new or was registered for the same device. */
  lemma ConnectedInOrder(r: Registry, c: Client)
    requires r.InOrder()
    ensures Connected(r, c).InOrder() <==> Proper(r.clients, c)
  {
    if Proper(r.clients, c) {
      ConnectKeeps(r.clients, r.users, r.events, c);
    } else {
      ConnectBreaks(r.clients, r.users, c);
    }
  }

  /** A disconnect always keeps it in order, and reports the device offline exactly when its client was registered. */
  lemma DisconnectedInOrder(r: Registry, id: int)
    requires r.InOrder()
    ensures Disconnected(r, id).InOrder()
    ensures id in r.clients ==>
              Disconnected(r, id).events == r.events + [Event(r.clients[id].uid, r.clients[id].deviceFlag, false)]
  {
    if id in r.clients {
      var c := r.clients[id];
      DisconnectKeeps(r.clients, r.users, r.events, id);
      ClientWithIs(r.clients - {id}, RemovedUsers(r.users, c), c.uid, c.deviceFlag);
    }
  }

  /** While the registry is in order, looking a device up gives exactly the client registered for it. */
  lemma LookupIs(r: Registry, uid: string, flag: nat, x: Client)
    requires r.InOrder()
    ensures ClientWith(r.clients, r.users, uid, flag) == Some(x)
       <==> x.id in r.clients && r.clients[x.id] == x && x.uid == uid && x.deviceFlag == flag
  {
    ClientWithIs(r.clients, r.users, uid, flag);
  }

  /** Registered clients that are the same up to this device are found alike. */
  lemma SameLookup(r: Registry, r': Registry, uid: string, flag: nat)
    requires r.InOrder() && r'.InOrder()
    requires forall x: Client :: x.uid == uid && x.deviceFlag == flag ==>
             (x.id in r.clients && r.clients[x.id] == x <==> x.id in r'.clients && r'.clients[x.id] == x)
    ensures ClientWith(r.clients, r.users, uid, flag) == ClientWith(r'.clients, r'.users, uid, flag)
  {
    ClientWithIs(r.clients, r.users, uid, flag);
    ClientWithIs(r'.clients, r'.users, uid, flag);
    match ClientWith(r.clients, r.users, uid, flag)
    case Some(x) => LookupIs(r', uid, flag, x);
    case None =>
      match ClientWith(r'.clients, r'.users, uid, flag) {
        case Some(x) => LookupIs(r, uid, flag, x);
        case None =>
      }
  }

  /**
   After a connect the client is registered, and nobody else for its device; the clients of other devices are, as
   before, and nobody else.
   */
  lemma ConnectedRegisters(r: Registry, c: Client, x: Client)
    requires r.InOrder() && Proper(r.clients, c)
    ensures var now := Connected(r, c).clients;
            x.id in now && now[x.id] == x
            <==> x == c || (x.id in r.clients && r.clients[x.id] == x && !SameDevice(x, c))
  {
    ClientWithIs(r.clients, r.users, c.uid, c.deviceFlag);
  }

  lemma ConnectedFinds(r: Registry, c: Client, uid: string, flag: nat)
    requires r.InOrder() && Proper(r.clients, c)
    ensures var now := Connected(r, c);
            ClientWith(now.clients, now.users, uid, flag)
            == if c.uid == uid && c.deviceFlag == flag then Some(c) else ClientWith(r.clients, r.users, uid, flag)
  {
    var now := Connected(r, c);
    ConnectedInOrder(r, c);
    if c.uid == uid && c.deviceFlag == flag {
      ConnectedRegisters(r, c, c);
      LookupIs(now, uid, flag, c);
    } else {
      forall x: Client | x.uid == uid && x.deviceFlag == flag
        ensures x.id in r.clients && r.clients[x.id] == x <==> x.id in now.clients && now.clients[x.id] == x
      {
        ConnectedRegisters(r, c, x);
      }
      SameLookup(r, now, uid, flag);
    }
  }

  /** The same, of all clients and devices. */
  lemma ConnectRegisters(r: Registry, c: Client)
    requires r.InOrder()
    ensures Proper(r.clients, c) ==> var now := Connected(r, c);
              && c.id in now.clients && now.clients[c.id] == c
              && (forall id :: id in now.clients && SameDevice(now.clients[id], c) ==> id == c.id)
              && (forall id :: id != c.id ==>
                    (id in now.clients <==> id in r.clients && !SameDevice(r.clients[id], c)))
              && (forall id :: id != c.id && id in now.clients ==> now.clients[id] == r.clients[id])
              && (forall uid, flag :: ClientWith(now.clients, now.users, uid, flag)
                    == if c.uid == uid && c.deviceFlag == flag then Some(c)
                       else ClientWith(r.clients, r.users, uid, flag))
  {
    if Proper(r.clients, c) {
      ClientWithIs(r.clients, r.users, c.uid, c.deviceFlag);
      forall uid, flag {
        ConnectedFinds(r, c, uid, flag);
      }
    }
  }

  lemma DisconnectFinds(r: Registry, id: int)
    requires r.InOrder()
    ensures var now := Disconnected(r, id);
            forall uid, flag :: ClientWith(now.clients, now.users, uid, flag)
              == if id in r.clients && r.clients[id].uid == uid && r.clients[id].deviceFlag == flag then None
                 else ClientWith(r.clients, r.users, uid, flag)
  {
    forall uid, flag {
      DisconnectedFinds(r, id, uid, flag);
    }
  }

  lemma DisconnectedFinds(r: Registry, id: int, uid: string, flag: nat)
    requires r.InOrder()
    ensures var now := Disconnected(r, id);
            ClientWith(now.clients, now.users, uid, flag)
            == if id in r.clients && r.clients[id].uid == uid && r.clients[id].deviceFlag == flag then None
               else ClientWith(r.clients, r.users, uid, flag)
  {
    var now := Disconnected(r, id);
    DisconnectedInOrder(r, id);
    if id in r.clients && r.clients[id].uid == uid && r.clients[id].deviceFlag == flag {
      DisconnectKeeps(r.clients, r.users, r.events, id);
      ClientWithIs(now.clients, now.users, uid, flag);
    } else {
      SameLookup(r, now, uid, flag);
    }
  }

  class ClientManager {
    var userClients: ByUser
    var clients: ById
    /** The online events, in order. */
    var events: seq<Event>

    ghost predicate Valid()
      reads this
    {
      Consistent(clients, userClients, events)
    }

    function State(): Registry
      reads this
    {
      Registry(clients, userClients, events)
    }

    constructor ()
      ensures Valid() && clients == map[] && userClients == map[] && events == []
    {
      userClients, clients, events := map[], map[], [];
    }

    method Add(c: Client)
      modifies `userClients, `clients
      ensures clients == old(clients)[c.id := c] && userClients == AddedUsers(old(userClients), c)
      ensures ListOf(userClients, c.uid) == ListOf(old(userClients), c.uid) + [c.id]
      ensures forall uid :: uid != c.uid ==> ListOf(userClients, uid) == ListOf(old(userClients), uid)
    {
      clients := clients[c.id := c];
      if c.uid !in userClients {
        assert [] + [c.id] == [c.id];
        userClients := userClients[c.uid := [c.id]];
      } else {
        userClients := userClients[c.uid := userClients[c.uid] + [c.id]];
      }
    }

    method Get(id: int) returns (r: Option<Client>)
      ensures r == if id in clients then Some(clients[id]) else None
    {
      r := if id in clients then Some(clients[id]) else None;
    }

    method Remove(id: int)
      modifies `userClients, `clients
      ensures clients == old(clients) - {id}
      ensures userClients
              == if id in old(clients) then RemovedUsers(old(userClients), old(clients)[id]) else old(userClients)
    {
      if id !in clients {
        return;
      }
      var c := clients[id];
      clients := clients - {id};
      if c.uid in userClients {
        var list := WithoutFirst(userClients[c.uid], c.id);
        userClients := userClients[c.uid := list];
      }
    }

    /** Searches the list for the id and takes its first occurrence out. */
    method WithoutFirst(list: seq<int>, id: int) returns (rest: seq<int>)
      ensures rest == Without(list, id)
    {
      var i := 0;
      while i < |list| && list[i] != id
        invariant i <= |list| && Without(list, id) == list[..i] + Without(list[i..], id)
      {
        assert list[i..][1..] == list[i + 1..];
        i := i + 1;
      }
      WithoutFrom(list, id, i);
      rest := if i < |list| then list[..i] + list[i + 1..] else list;
    }

    method GetClientsWithUID(uid: string) returns (r: seq<Client>)
      ensures r == Resolve(clients, ListOf(userClients, uid))
    {
      r := [];
      if uid !in userClients {
        return;
      }
      var list, i := userClients[uid], 0;
      assert list[0..] == list;
      while i < |list|
        invariant i <= |list| && r + Resolve(clients, list[i..]) == Resolve(clients, list)
      {
        assert list[i..][1..] == list[i + 1..];
        if list[i] in clients {
          r := r + [clients[list[i]]];
        }
        i := i + 1;
      }
    }

    /** The users with a list, even an empty one: those who have been connected since the start. */
    method GetOnlineUIDs(uids: seq<string>) returns (r: seq<string>)
      ensures forall uid :: uid in r <==> uid in uids && uid in userClients
    {
      r := [];
      var i := 0;
      while i < |uids|
        invariant i <= |uids| && forall uid :: uid in r <==> uid in uids[..i] && uid in userClients
      {
        if uids[i] in userClients {
          r := r + [uids[i]];
        }
        i := i + 1;
      }
    }

    method GetClientWith(uid: string, flag: nat) returns (r: Option<Client>)
      ensures r == ClientWith(clients, userClients, uid, flag)
    {
      var cs := GetClientsWithUID(uid);
      var i := 0;
      ghost var rest := cs;
      while i < |cs|
        invariant i <= |cs| && rest == cs[i..] && FirstWith(rest, flag) == FirstWith(cs, flag)
      {
        if cs[i].deviceFlag == flag {
          return Some(cs[i]);
        }
        rest, i := rest[1..], i + 1;
      }
      r := None;
    }

    /**
     `handleConnect`, the registry's part: a client of the same device is replaced, and the device reported online.
     After a proper connect the client is registered, the only one of its device, and found for it; the clients of
     other devices stay as they are.
     */
    method HandleConnect(c: Client, accepted: bool)
      modifies this
      ensures State() == if accepted then Connected(old(State()), c) else old(State())
      ensures old(Valid()) ==> (Valid() <==> !accepted || Proper(old(clients), c))
      ensures accepted ==> c.id in clients && clients[c.id] == c
      ensures accepted ==> events == old(events) + [Event(c.uid, c.deviceFlag, true)]
      ensures old(Valid()) && accepted && Proper(old(clients), c) ==>
                && (forall id :: id in clients && SameDevice(clients[id], c) ==> id == c.id)
                && (forall id :: id != c.id ==>
                      (id in clients <==> id in old(clients) && !SameDevice(old(clients)[id], c)))
                && (forall id :: id != c.id && id in clients ==> clients[id] == old(clients)[id])
                && (forall uid, flag :: ClientWith(clients, userClients, uid, flag)
                      == if c.uid == uid && c.deviceFlag == flag then Some(c)
                         else old(ClientWith(clients, userClients, uid, flag)))
    {
      if !accepted {
        return;
      }
      if Valid() {
        ConnectedInOrder(State(), c);
        ConnectRegisters(State(), c);
      }
      var o := GetClientWith(c.uid, c.deviceFlag);
      if o.Some? {
        Remove(o.value.id);
      }
      Add(c);
      events := events + [Event(c.uid, c.deviceFlag, true)];
    }

    /** `handleDisconnect`: exactly this client goes, its device is reported offline, and all others stay findable. */
    method HandleDisconnect(id: int)
      modifies this
      ensures State() == Disconnected(old(State()), id)
      ensures clients == old(clients) - {id}
      ensures old(Valid()) ==> Valid()
      ensures old(Valid()) ==>
                events == if id in old(clients)
                          then old(events) + [Event(old(clients)[id].uid, old(clients)[id].deviceFlag, false)]
                          else old(events)
      ensures old(Valid()) ==> forall uid, flag ::
                ClientWith(clients, userClients, uid, flag)
                == if id in old(clients) && old(clients)[id].uid == uid && old(clients)[id].deviceFlag == flag then None
                   else old(ClientWith(clients, userClients, uid, flag))
    {
      if Valid() {
        DisconnectedInOrder(State(), id);
        DisconnectFinds(State(), id);
      }
      var c := Get(id);
      if c.Some? {
        Remove(id);
        var newClient := GetClientWith(c.value.uid, c.value.deviceFlag);
        if newClient.None? {
          events := events + [Event(c.value.uid, c.value.deviceFlag, false)];
        }
      }
    }
  }

  /**
   Asking which users are online gives the right answer for a user exactly when the user's list is not an empty one.
   */
  lemma OnlineUsers(clients: ById, users: ByUser, uid: string)
    requires Agree(clients, users)
    ensures (uid in users <==> exists id :: id in clients && clients[id].uid == uid)
            <==> !(uid in users && users[uid] == [])
  {
    assert forall id :: id in clients && clients[id].uid == uid ==> id in ListOf(users, uid);
    if uid in users && users[uid] != [] {
      assert ListAgrees(clients, uid, users[uid]);
      var id := users[uid][0];
      assert id in users[uid] && id in clients && clients[id].uid == uid;
    }
  }

  /** A user all of whose clients have left is still given as online. */
  method StaysOnline() returns (m: ClientManager, online: seq<string>)
    ensures m.Valid() && m.clients == map[] && "u" in online
  {
    m := new ClientManager();
    m.HandleConnect(Client(1, "u", 0), true);
    m.HandleDisconnect(1);
    online := m.GetOnlineUIDs(["u"]);
  }

  // ---------- any run ----------

  datatype Step = Connect(c: Client, accepted: bool) | Disconnect(id: int)

  function After(r: Registry, step: Step): Registry {
    match step
    case Connect(c, accepted) => if accepted then Connected(r, c) else r
    case Disconnect(id) => Disconnected(r, id)
  }

  /** The registry and its events after a whole run. */
  function AfterAll(steps: seq<Step>): Registry {
    if steps == [] then Registry(map[], map[], []) else After(AfterAll(steps[..|steps| - 1]), steps[|steps| - 1])
  }

  /** No connection connects again for another device. */
  ghost predicate ProperRun(steps: seq<Step>) {
    forall i {:trigger steps[i]} :: 0 <= i < |steps| && steps[i].Connect? && steps[i].accepted ==>
      Proper(AfterAll(steps[..i]).clients, steps[i].c)
  }

  lemma StepInOrder(steps: seq<Step>, i: nat)
    requires i < |steps| && AfterAll(steps[..i]).InOrder()
    ensures AfterAll(steps[..i + 1]).InOrder()
       <==> (steps[i].Connect? && steps[i].accepted ==> Proper(AfterAll(steps[..i]).clients, steps[i].c))
  {
    assert steps[..i + 1][..i] == steps[..i];
    match steps[i]
    case Connect(c, _) => ConnectedInOrder(AfterAll(steps[..i]), c);
    case Disconnect(id) => DisconnectedInOrder(AfterAll(steps[..i]), id);
  }

  /** Then the registry is in order from the start up to any moment. */
  lemma {:induction false} ProperRunKeeps(steps: seq<Step>, i: nat)
    requires ProperRun(steps) && i <= |steps|
    ensures AfterAll(steps[..i]).InOrder()
  {
    if i > 0 {
      ProperRunKeeps(steps, i - 1);
      StepInOrder(steps, i - 1);
    }
  }

  /**
   All along a run the two maps agree, a device has one client at most, and was last reported online exactly when it
   has one, if and only if no connection connects again for another device.
   */
  lemma RunInOrder(steps: seq<Step>)
    ensures ProperRun(steps) <==> forall i :: 0 <= i <= |steps| ==> AfterAll(steps[..i]).InOrder()
  {
    if ProperRun(steps) {
      forall i | 0 <= i <= |steps|
        ensures AfterAll(steps[..i]).InOrder()
      {
        ProperRunKeeps(steps, i);
      }
    }
    if forall i :: 0 <= i <= |steps| ==> AfterAll(steps[..i]).InOrder() {
      forall i | 0 <= i < |steps| && steps[i].Connect? && steps[i].accepted
        ensures Proper(AfterAll(steps[..i]).clients, steps[i].c)
      {
        assert AfterAll(steps[..i]).InOrder() && AfterAll(steps[..i + 1]).InOrder();
        StepInOrder(steps, i);
      }
    }
  }

  /** This step ends the registration of `x`: it disconnects, or its device connects again. */
  predicate Ends(step: Step, x: Client) {
    match step
    case Connect(c, accepted) => accepted && SameDevice(c, x)
    case Disconnect(id) => id == x.id
  }

  /** The last accepted connect of `x` is step `i`. */
  ghost predicate Stands(steps: seq<Step>, x: Client, i: nat) {
    && i < |steps| && steps[i] == Connect(x, true)
    && forall j {:trigger steps[j]} :: i < j < |steps| ==> !Ends(steps[j], x)
  }

  /** After a proper run exactly those clients are registered that have connected and not been ended since. */
  lemma {:induction false} RunRegisters(steps: seq<Step>, n: nat, x: Client)
    requires ProperRun(steps) && n <= |steps|
    ensures var clients := AfterAll(steps[..n]).clients;
            x.id in clients && clients[x.id] == x <==> exists i: nat :: Stands(steps[..n], x, i)
  {
    if n > 0 {
      RunRegisters(steps, n - 1, x);
      ProperRunKeeps(steps, n - 1);
      var upTo := steps[..n];
      assert upTo[..n - 1] == steps[..n - 1] && upTo[n - 1] == steps[n - 1];
      RegistersMore(upTo, x);
    }
  }

  lemma RegistersMore(steps: seq<Step>, x: Client)
    requires steps != []
    requires var n := |steps| - 1;
             && AfterAll(steps[..n]).InOrder()
             && (steps[n].Connect? && steps[n].accepted ==> Proper(AfterAll(steps[..n]).clients, steps[n].c))
             && (var clients := AfterAll(steps[..n]).clients;
                 x.id in clients && clients[x.id] == x <==> exists i: nat :: Stands(steps[..n], x, i))
    ensures var clients := AfterAll(steps).clients;
            x.id in clients && clients[x.id] == x <==> exists i: nat :: Stands(steps, x, i)
  {
    var n := |steps| - 1;
    var r := AfterAll(steps[..n]);
    StandsMore(steps, x);
    match steps[n]
    case Connect(c, accepted) =>
      if accepted {
        ConnectedRegisters(r, c, x);
      }
    case Disconnect(id) =>
  }

  lemma StandsMore(steps: seq<Step>, x: Client)
    requires steps != []
    ensures var n := |steps| - 1;
            (exists i: nat :: Stands(steps, x, i))
            <==> steps[n] == Connect(x, true) || (!Ends(steps[n], x) && exists i: nat :: Stands(steps[..n], x, i))
  {
    var n := |steps| - 1;
    if steps[n] == Connect(x, true) {
      assert Stands(steps, x, n);
    }
    if i: nat :| Stands(steps[..n], x, i) {
      if !Ends(steps[n], x) {
        assert Stands(steps, x, i);
      }
    }
    if i: nat :| Stands(steps, x, i) {
      if i < n {
        assert Stands(steps[..n], x, i);
      }
    }
  }

  /** The handlers, called one after the other in any order, bring the registry to that state. */
  method Run(steps: seq<Step>) returns (m: ClientManager)
    ensures m.State() == AfterAll(steps)
  {
    m := new ClientManager();
    var i := 0;
    while i < |steps|
      invariant i <= |steps| && m.State() == AfterAll(steps[..i]) && fresh(m)
      decreases |steps| - i
    {
      assert steps[..i + 1][..i] == steps[..i];
      match steps[i] {
        case Connect(c, accepted) => m.HandleConnect(c, accepted);
        case Disconnect(id) => m.HandleDisconnect(id);
      }
      i := i + 1;
    }
    assert steps[..i] == steps;
  }
}
