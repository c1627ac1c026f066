/**
 * The WebSocket server: its start-up check, the registry of connected
 * sockets, the handlers for a connection opening, a message arriving and a
 * connection closing, and the per-socket helpers that reach the whole
 * server (`to`, `broadcast`, `leaveAll`).
 */
module Server {
  import opened Protocol
  import opened Events
  import opened MiddlewareChain
  import opened Rooms
  import opened Registry

  /** The server configuration `{hostname, port, secure?, certFile?, keyFile?}`. */
  datatype Config = Config(hostname: string, port: int, secure: bool, certFile: Option<string>, keyFile: Option<string>)

  /** The configuration a server gets when none is given: `localhost`, port 8000, not secure. */
  const DefaultConfig := Config("localhost", 8000, false, None, None)

  /** What a listener is bound to: plain TCP, or TLS with its certificate and key files. */
  datatype Listening =
    | Tcp(hostname: string, port: int)
    | Tls(hostname: string, port: int, certFile: string, keyFile: string)

  /** An argument handed to an event listener: the socket itself, or a payload value. */
  datatype Arg = Socket(client: Client) | Payload(value: Value)

  /** A path counts as not given when it is absent or empty (both are falsy). */
  predicate Missing(path: Option<string>)
  {
    path.None? || path.value == ""
  }

  /**
   * `start()`: a secure configuration needs both file paths and then
   * listens over TLS; otherwise the listener `bound` at construction is
   * served as it is.
   */
  function Listen(config: Config, bound: Listening): (r: Result<Listening, string>)
    ensures r.Failure? <==> config.secure && (Missing(config.certFile) || Missing(config.keyFile))
    ensures r.Failure? ==> r.error == "certfile or keyFile are not defined"
    ensures !config.secure ==> r == Success(bound)
    ensures config.secure && r.Success? ==>
      && r.value.Tls? && r.value.hostname == config.hostname && r.value.port == config.port
      && config.certFile == Some(r.value.certFile) && config.keyFile == Some(r.value.keyFile)
  {
    if !config.secure then Success(bound)
    else if Missing(config.certFile) || Missing(config.keyFile) then Failure("certfile or keyFile are not defined")
    else Success(Tls(config.hostname, config.port, config.certFile.value, config.keyFile.value))
  }

  /** Where `splice(start, 1)` starts on a list of length `n`: a negative start counts back from the end. */
  function SpliceStart(n: nat, start: int): (k: nat)
    ensures k <= n
    ensures 0 <= start <= n ==> k == start
    ensures start < 0 && 0 <= n + start ==> k == n + start
    ensures start > n ==> k == n
    ensures start < 0 && n + start < 0 ==> k == 0
  {
    if start < 0 then (if n + start < 0 then 0 else n + start)
    else if start > n then n
    else start
  }

  /** `splice(start, 1)`: the element at the start position goes, the later ones move down by one. */
  function SpliceOne(cs: seq<Client>, start: int): (r: seq<Client>)
    ensures var k := SpliceStart(|cs|, start);
      && |r| == (if k < |cs| then |cs| - 1 else |cs|)
      && (forall i :: 0 <= i < k && i < |r| ==> r[i] == cs[i])
      && (forall i :: k <= i < |r| ==> r[i] == cs[i + 1])
  {
    var k := SpliceStart(|cs|, start);
    if k < |cs| then cs[..k] + cs[k + 1..] else cs
  }

  /** Splicing past the head of a list splices its tail. */
  lemma SpliceTail(cs: seq<Client>, k: nat)
    requires k < |cs| - 1
    ensures SpliceOne(cs, k + 1) == [cs[0]] + SpliceOne(cs[1..], k)
  {
    assert cs[..k + 1] == [cs[0]] + cs[1..][..k];
    assert cs[k + 2..] == cs[1..][k + 1..];
  }

  /** Removing the first client with a listed id is removing every client with that id, when ids are distinct. */
  lemma {:induction false} SpliceFound(cs: seq<Client>, id: string)
    requires DistinctIds(cs) && HasId(cs, id)
    ensures SpliceOne(cs, IndexOfId(cs, id)) == WithoutId(cs, id)
  {
    var t := cs[1..];
    if cs[0].id == id {
      assert !HasId(t, id);
      WithoutAbsentId(t, id);
    } else {
      assert HasId(t, id) by {
        var j :| 0 <= j < |cs| && cs[j].id == id;
        assert t[j - 1].id == id;
      }
      var k := IndexOfId(t, id);
      SpliceFound(t, id);
      SpliceTail(cs, k);
    }
  }

  /**
   * The index lookup answers -1 for an id not listed, and `splice(-1, 1)`
   * then removes the last client, whose id is a different one.
   */
  lemma SpliceNotFound(cs: seq<Client>, id: string)
    requires !HasId(cs, id)
    ensures cs == [] ==> SpliceOne(cs, IndexOfId(cs, id)) == []
    ensures cs != [] ==>
      SpliceOne(cs, IndexOfId(cs, id)) == cs[..|cs| - 1] && cs[|cs| - 1].id != id
  {
  }

  /** Removing one client keeps the ids distinct. */
  lemma SpliceDistinct(cs: seq<Client>, start: int)
    requires DistinctIds(cs)
    ensures DistinctIds(SpliceOne(cs, start))
  {
    var k := SpliceStart(|cs|, start);
    var r := SpliceOne(cs, start);
    forall i, j | 0 <= i < j < |r|
      ensures r[i].id != r[j].id
    {
      var i' := if i < k then i else i + 1;
      var j' := if j < k then j else j + 1;
      assert r[i] == cs[i'] && r[j] == cs[j'];
    }
  }

  /** A prefix one longer is the prefix with the next element appended. */
  lemma PrefixSnoc(s: seq<string>, i: nat)
    requires i < |s|
    ensures s[..i + 1] == s[..i] + [s[i]]
  {
  }

  /** The payload part of a listener's arguments. */
  function Payloads(vs: seq<Value>): (r: seq<Arg>)
    ensures |r| == |vs| && forall i :: 0 <= i < |vs| ==> r[i] == Payload(vs[i])
  {
    seq(|vs|, i requires 0 <= i < |vs| => Payload(vs[i]))
  }

  /** The connection list without the client of that id, removing nothing when it is not listed. */
  function Unlisted(cs: seq<Client>, id: string): (r: seq<Client>)
    ensures !HasId(cs, id) ==> r == cs
    ensures DistinctIds(cs) ==> r == WithoutId(cs, id) && DistinctIds(r)
  {
    var k := IndexOfId(cs, id);
    if k == -1 then
      WithoutAbsentId(cs, id);
      cs
    else
      assert DistinctIds(cs) ==> SpliceOne(cs, k) == WithoutId(cs, id) && DistinctIds(WithoutId(cs, id)) by {
        if DistinctIds(cs) {
          SpliceFound(cs, id);
          WithoutIdDistinct(cs, id);
        }
      }
      SpliceOne(cs, k)
  }

  class WebSocketServer {
    var config: Config
    const roomManager: RoomManager
    const middlewareManager: MiddleWareManager
    const events: EventEmitter
    var clientList: seq<Client>
    var listener: Listening

    /**
     * Connected sockets have distinct ids, the registry is well formed and
     * every room member lists that room, and every once-token was issued.
     */
    ghost predicate Valid()
      reads this, roomManager, roomManager.roomList, roomManager.Members(), events
    {
      && DistinctIds(clientList)
      && roomManager.Valid()
      && roomManager.Consistent()
      && events.Valid()
    }

    /** `new WebSocketServer(config)`: a plain listener on the configured address, nothing else yet. */
    constructor (config: Config := DefaultConfig)
      ensures Valid()
      ensures this.config == config && listener == Tcp(config.hostname, config.port)
      ensures clientList == [] && roomManager.roomList == []
      ensures middlewareManager.middlewareList == [] && events.listeners == map[]
      ensures fresh(roomManager) && fresh(middlewareManager) && fresh(events)
    {
      this.config := config;
      listener := Tcp(config.hostname, config.port);
      roomManager := new RoomManager();
      middlewareManager := new MiddleWareManager();
      events := new EventEmitter();
      clientList := [];
    }

    /**
     * `start()`: fails on a secure configuration without both files, binds
     * the TLS listener on a secure one, and keeps the construction-time
     * plain listener otherwise; what it returns is the listener it serves.
     */
    method Start() returns (r: Result<Listening, string>)
      modifies this`listener
      ensures r == Listen(config, old(listener))
      ensures r.Success? ==> listener == r.value
      ensures r.Failure? ==> listener == old(listener)
    {
      r := Listen(config, listener);
      if r.Success? {
        listener := r.value;
      }
    }

    /** The `config` setter: replaces the configuration; the listener bound at construction stays. */
    method SetConfig(c: Config)
      modifies this`config
      ensures config == c
    {
      config := c;
    }

    /**
     * `connected(client, headers)`: the new socket, with its fresh id and no
     * rooms, is appended to the connection list, then "onConnect" is emitted
     * with the socket and the request headers.
     */
    method Connected(id: string, headers: Value) returns (client: Client, fired: seq<Call<Arg>>)
      requires Valid()
      requires !HasId(clientList, id)
      modifies this`clientList, events
      ensures Valid()
      ensures fresh(client) && client.id == id && client.rooms == [] && client.outbox == []
      ensures clientList == old(clientList) + [client]
      ensures |fired| == |ListenersOf(old(events.listeners), "onConnect")|
      ensures forall i :: 0 <= i < |fired| ==>
        fired[i] == Call(ListenersOf(old(events.listeners), "onConnect")[i].callback, [Socket(client), Payload(headers)])
      ensures events.listeners == Emitted(old(events.listeners), "onConnect")
      ensures events.nextToken == old(events.nextToken)
    {
      client := new Client(id);
      clientList := clientList + [client];
      var threw;
      fired, threw := events.Emit("onConnect", [Socket(client), Payload(headers)]);
    }

    /** `to(clientId)`: the connected socket with that id, if any. */
    function To(clientId: string): (r: Option<Client>)
      reads this
      ensures r.None? <==> !HasId(clientList, clientId)
      ensures r.Some? ==> r.value in clientList && r.value.id == clientId
    {
      FindById(clientList, clientId)
    }

    /** `broadcast(evt, ...args)`: every connected socket receives the frame `[evt, ...args]`. */
    method Broadcast(evt: string, args: seq<Value>)
      requires Valid()
      modifies (set c | c in clientList)`outbox
      ensures forall c :: c in clientList ==> c.outbox == old(c.outbox) + [Frame(evt, args)]
    {
      InvokeAll(clientList, evt, args);
    }

    /**
     * `message(client, [evt, ...arg])`: the context `{evt, ws, data}` goes
     * through the middleware chain, then `evt` is emitted with the socket
     * and the data as the chain left it, whether or not the chain ran to its
     * end. An event name inherited by the emitter's table makes the emit,
     * and so the handler, throw.
     */
    method Message(client: Client, evt: string, arg: seq<Value>) returns (run: Run, fired: seq<Call<Arg>>, threw: bool)
      requires Valid()
      modifies events
      ensures Valid()
      ensures threw <==> evt in Inherited
      ensures run == Iterate(Context(evt, client, arg), middlewareManager.middlewareList)
      ensures |fired| == |ListenersOf(old(events.listeners), evt)|
      ensures forall i :: 0 <= i < |fired| ==>
        fired[i] == Call(ListenersOf(old(events.listeners), evt)[i].callback, [Socket(client)] + Payloads(run.final.data))
      ensures events.listeners == Emitted(old(events.listeners), evt)
      ensures events.nextToken == old(events.nextToken)
    {
      run := middlewareManager.ExecuteMiddleware(Context(evt, client, arg));
      fired, threw := events.Emit(evt, [Socket(client)] + Payloads(run.final.data));
    }

    /**
     * `client.leaveAll()`: the socket leaves, through the registry, every
     * room on its own list in turn, so every room it empties that is not
     * kept alive is dropped and each remaining member is told of each leave.
     */
    method LeaveAll(client: Client)
      requires Valid()
      modifies roomManager`roomList, roomManager.Rooms()`clientList, roomManager.Members()`outbox
      ensures Valid()
      ensures roomManager.roomList ==
        Pruned(old(roomManager.roomList), old(ListsOf(roomManager.roomList)), client.rooms, client.id)
      ensures forall r :: r in old(roomManager.roomList) ==>
        r.clientList == if r.id in client.rooms then WithoutId(old(r.clientList), client.id) else old(r.clientList)
      ensures forall c :: c in old(roomManager.Members()) ==>
        c.outbox == old(c.outbox) +
          Notices(c, old(roomManager.roomList), old(ListsOf(roomManager.roomList)), client.rooms, client.id)
    {
      ghost var rs := roomManager.roomList;
      ghost var lists := ListsOf(rs);
      ghost var members := roomManager.Members();
      var rids := client.rooms;
      PrunedNone(rs, lists, client.id);
      for i := 0 to |rids|
        invariant roomManager.Valid() && roomManager.Consistent()
        invariant roomManager.roomList == Pruned(rs, lists, rids[..i], client.id)
        invariant LeftRooms(rs, lists, rids[..i], client.id)
        invariant forall c :: c in members ==> c.outbox == old(c.outbox) + Notices(c, rs, lists, rids[..i], client.id)
        invariant roomManager.Rooms() <= old(roomManager.Rooms()) && roomManager.Members() <= members
      {
        PrefixSnoc(rids, i);
        label Step:
        LeaveOneRoom(client, rids[i], rs, lists, rids[..i], members);
        forall c | c in members
          ensures c.outbox == old(c.outbox) + Notices(c, rs, lists, rids[..i + 1], client.id)
        {
          NoticesSnoc(c, rs, lists, rids[..i], rids[i], client.id);
          AppendTwice(old(c.outbox), Notices(c, rs, lists, rids[..i], client.id), NoticeAt(c, rs, lists, rids[i], client.id));
        }
      }
      assert rids[..|rids|] == rids;
    }

    /**
     * The member lists of the rooms `rs` once `userId` has left the rooms
     * `ids`, relative to their lists `lists` before the first leave.
     */
    ghost predicate LeftRooms(rs: seq<Room>, lists: map<Room, seq<Client>>, ids: seq<string>, userId: string)
      reads set r | r in rs
    {
      forall r :: r in rs ==>
        r in lists && r.clientList == if r.id in ids then WithoutId(lists[r], userId) else lists[r]
    }

    /**
     * One round of `leaveAll`: the socket leaves room `x` through the
     * registry, having left the rooms `ids` before. Stands for
     * `client.leave(roomId)` at src/WebSocketServer.ts:142; the proof takes
     * the registered and the unregistered case of the room in turn.
     */
    method LeaveOneRoom(client: Client, x: string, ghost rs: seq<Room>, ghost lists: map<Room, seq<Client>>,
                        ghost ids: seq<string>, ghost members: set<Client>)
      requires roomManager.Valid() && roomManager.Consistent() && DistinctRoomIds(rs)
      requires roomManager.roomList == Pruned(rs, lists, ids, client.id)
      requires LeftRooms(rs, lists, ids, client.id)
      requires roomManager.Members() <= members
      modifies roomManager`roomList, roomManager.Rooms()`clientList, roomManager.Members()`outbox
      ensures roomManager.Valid() && roomManager.Consistent()
      ensures roomManager.roomList == Pruned(rs, lists, ids + [x], client.id)
      ensures LeftRooms(rs, lists, ids + [x], client.id)
      ensures forall c :: c in members ==> c.outbox == old(c.outbox) + NoticeAt(c, rs, lists, x, client.id)
      ensures roomManager.Rooms() <= old(roomManager.Rooms()) && roomManager.Members() <= old(roomManager.Members())
    {
      var uid := client.id;
      var found := FindRoom(roomManager.roomList, x);
      if found.Some? {
        ghost var r := found.value;
        ghost var prev := roomManager.roomList;
        ghost var prevOf := roomManager.MembersOf(x);
        FindInPruned(rs, lists, ids, x, uid);
        PrunedStep(rs, lists, ids, x, uid);
        assert FindRoom(rs, x) == Some(r);
        assert prevOf == if x in ids then WithoutId(lists[r], uid) else lists[r];
        WithoutIdTwice(lists[r], uid);
        assert forall y :: y in ids + [x] <==> y in ids || y == x;
        LeaveRegistered(client, x, r, members, rs);
        assert r.clientList == WithoutId(lists[r], uid);
        assert roomManager.roomList == if Dies(r, lists, uid) then WithoutRoom(prev, x) else prev;
        forall r' | r' in rs
          ensures r'.clientList == if r'.id in ids + [x] then WithoutId(lists[r'], uid) else lists[r']
        {
          if r' != r {
            var i :| 0 <= i < |rs| && rs[i] == r';
            assert r'.id != x;
          }
        }
        forall c | c in members
          ensures c.outbox == old(c.outbox) + NoticeAt(c, rs, lists, x, uid)
        {
          InWithoutId(lists[r], uid, c);
        }
      } else {
        ghost var prev := roomManager.roomList;
        FindInPruned(rs, lists, ids, x, uid);
        PrunedStep(rs, lists, ids, x, uid);
        WithoutAbsentRoom(prev, x);
        assert forall y :: y in ids + [x] <==> y in ids || y == x;
        LeaveUnregistered(client, x, members, rs);
        forall r' | r' in rs && r'.id == x
          ensures r'.id in ids && Dies(r', lists, uid)
        {
          assert r' !in prev;
        }
        assert roomManager.roomList == prev;
        forall r' | r' in rs
          ensures r'.clientList == if r'.id in ids + [x] then WithoutId(lists[r'], uid) else lists[r']
        {
          assert (r'.id in ids + [x]) == (r'.id in ids);
        }
        forall c | c in members
          ensures c.outbox == old(c.outbox) + NoticeAt(c, rs, lists, x, uid)
        {
          match FindRoom(rs, x)
          case Some(r0) =>
            InWithoutId(lists[r0], uid, c);
            assert NoticeAt(c, rs, lists, x, uid) == [];
          case None =>
        }
      }
    }

    /**
     * `rooms.leave(x, socket)` for a registered room `r`, with the notices
     * stated for any set of sockets that holds every member. Stands for the
     * registry call at src/WebSocketServer.ts:134.
     */
    method LeaveRegistered(client: Client, x: string, ghost r: Room, ghost members: set<Client>, ghost rs: seq<Room>)
      requires roomManager.Valid() && FindRoom(roomManager.roomList, x) == Some(r)
      requires roomManager.Members() <= members
      modifies roomManager`roomList, roomManager.Rooms()`clientList, roomManager.Members()`outbox
      ensures roomManager.Valid()
      ensures r.clientList == WithoutId(old(r.clientList), client.id)
      ensures roomManager.roomList ==
        if r.clientList == [] && !r.keepAlive then WithoutRoom(old(roomManager.roomList), x) else old(roomManager.roomList)
      ensures forall r' :: r' in rs && r' != r ==> r'.clientList == old(r'.clientList)
      ensures forall c :: c in members ==>
        c.outbox == old(c.outbox) + if c in old(r.clientList) && c.id != client.id then [LeaveNotice(x, client.id)] else []
      ensures roomManager.Rooms() <= old(roomManager.Rooms()) && roomManager.Members() <= old(roomManager.Members())
      ensures old(roomManager.Consistent()) ==> roomManager.Consistent()
    {
      ghost var everyone := roomManager.Members();
      ghost var registered := roomManager.roomList;
      roomManager.Leave(x, client);
      forall c | c in members && c !in everyone
        ensures c !in old(r.clientList)
      {
      }
      forall r' | r' in rs && r' != r && r' in registered
        ensures r'.id != x
      {
      }
    }

    /** `rooms.leave(x, socket)` when no room `x` is registered: nothing changes. Stands for the registry call at src/WebSocketServer.ts:134. */
    method LeaveUnregistered(client: Client, x: string, ghost members: set<Client>, ghost rs: seq<Room>)
      requires roomManager.Valid() && FindRoom(roomManager.roomList, x) == None
      modifies roomManager`roomList, roomManager.Rooms()`clientList, roomManager.Members()`outbox
      ensures roomManager.Valid()
      ensures roomManager.roomList == old(roomManager.roomList)
      ensures forall r' :: r' in rs ==> r'.clientList == old(r'.clientList)
      ensures forall c :: c in members ==> c.outbox == old(c.outbox)
      ensures old(roomManager.Consistent()) ==> roomManager.Consistent()
    {
      assert roomManager.MembersOf(x) == [];
      roomManager.Leave(x, client);
    }


    /**
     * `disconnected(client)`, as written: the socket leaves every room on
     * its list directly, without the registry (so emptied rooms stay
     * registered), then `splice(index, 1)` runs even when the lookup found
     * nothing and answered -1.
     */
    method Disconnected(client: Client) returns (notFound: bool)
      requires Valid()
      modifies this`clientList, roomManager.Rooms()`clientList, roomManager.Members()`outbox
      ensures Valid()
      ensures notFound <==> !HasId(old(clientList), client.id)
      ensures clientList == SpliceOne(old(clientList), IndexOfId(old(clientList), client.id))
      ensures roomManager.roomList == old(roomManager.roomList)
      ensures forall r :: r in roomManager.roomList ==>
        r.clientList == if r.id in client.rooms then WithoutId(old(r.clientList), client.id) else old(r.clientList)
      ensures forall c :: c in old(roomManager.Members()) ==>
        c.outbox == old(c.outbox) +
          Notices(c, roomManager.roomList, old(ListsOf(roomManager.roomList)), client.rooms, client.id)
    {
      var k := IndexOfId(clientList, client.id);
      notFound := k == -1;
      LeaveListedRooms(client);
      SpliceDistinct(clientList, k);
      clientList := SpliceOne(clientList, k);
    }

    /** `disconnected(client)` with the lookup's -1 guarded: only the socket itself leaves the connection list. */
    method DisconnectedGuarded(client: Client) returns (notFound: bool)
      requires Valid()
      modifies this`clientList, roomManager.Rooms()`clientList, roomManager.Members()`outbox
      ensures Valid()
      ensures notFound <==> !HasId(old(clientList), client.id)
      ensures clientList == WithoutId(old(clientList), client.id)
      ensures roomManager.roomList == old(roomManager.roomList)
      ensures forall r :: r in roomManager.roomList ==>
        r.clientList == if r.id in client.rooms then WithoutId(old(r.clientList), client.id) else old(r.clientList)
      ensures forall c :: c in old(roomManager.Members()) ==>
        c.outbox == old(c.outbox) +
          Notices(c, roomManager.roomList, old(ListsOf(roomManager.roomList)), client.rooms, client.id)
    {
      notFound := IndexOfId(clientList, client.id) == -1;
      LeaveListedRooms(client);
      clientList := Unlisted(clientList, client.id);
    }

    /**
     * `client.rooms.forEach((r) => getRoom(r)?.leave(client))`: the socket
     * leaves each listed room that is registered, straight through `Room.leave`.
     */
    method LeaveListedRooms(client: Client)
      requires Valid()
      modifies roomManager.Rooms()`clientList, roomManager.Members()`outbox
      ensures Valid()
      ensures forall r :: r in roomManager.roomList ==>
        r.clientList == if r.id in client.rooms then WithoutId(old(r.clientList), client.id) else old(r.clientList)
      ensures forall c :: c in old(roomManager.Members()) ==>
        c.outbox == old(c.outbox) +
          Notices(c, roomManager.roomList, old(ListsOf(roomManager.roomList)), client.rooms, client.id)
    {
      ghost var rs := roomManager.roomList;
      ghost var lists := ListsOf(rs);
      ghost var members := roomManager.Members();
      assert forall r: Room, c: Client :: r in rs && c in lists[r] ==> r.id in c.rooms;
      LeaveEachListed(client, lists, members);
      forall r, c | r in roomManager.roomList && c in r.clientList
        ensures r.id in c.rooms
      {
        InWithoutId(lists[r], client.id, c);
        assert c in lists[r];
      }
    }

    /** The loop of `LeaveListedRooms`, relative to the member lists `lists` it started from. */
    method LeaveEachListed(client: Client, ghost lists: map<Room, seq<Client>>, ghost members: set<Client>)
      requires roomManager.Valid() && LeftRooms(roomManager.roomList, lists, [], client.id)
      requires forall r, c :: r in roomManager.roomList && c in lists[r] ==> c in members
      modifies roomManager.Rooms()`clientList, members`outbox
      ensures roomManager.Valid() && LeftRooms(roomManager.roomList, lists, client.rooms, client.id)
      ensures forall c :: c in members ==>
        c.outbox == old(c.outbox) + Notices(c, roomManager.roomList, lists, client.rooms, client.id)
    {
      var rids := client.rooms;
      ghost var rs := roomManager.roomList;
      for i := 0 to |rids|
        invariant roomManager.Valid() && LeftRooms(rs, lists, rids[..i], client.id)
        invariant forall c :: c in members ==> c.outbox == old(c.outbox) + Notices(c, rs, lists, rids[..i], client.id)
      {
        PrefixSnoc(rids, i);
        LeaveListedRoom(client, rids[i], lists, rids[..i], members);
        forall c | c in members
          ensures c.outbox == old(c.outbox) + Notices(c, rs, lists, rids[..i + 1], client.id)
        {
          NoticesSnoc(c, rs, lists, rids[..i], rids[i], client.id);
          AppendTwice(old(c.outbox), Notices(c, rs, lists, rids[..i], client.id), NoticeAt(c, rs, lists, rids[i], client.id));
        }
      }
      assert rids[..|rids|] == rids;
    }

    /**
     * One round of the room loop of `disconnected`: the socket leaves room
     * `x` directly if it is registered, having left the rooms `ids` before.
     */
    method LeaveListedRoom(client: Client, x: string, ghost lists: map<Room, seq<Client>>,
                           ghost ids: seq<string>, ghost members: set<Client>)
      requires roomManager.Valid() && LeftRooms(roomManager.roomList, lists, ids, client.id)
      requires forall r, c :: r in roomManager.roomList && c in lists[r] ==> c in members
      modifies roomManager.Rooms()`clientList, members`outbox
      ensures roomManager.Valid() && LeftRooms(roomManager.roomList, lists, ids + [x], client.id)
      ensures forall c :: c in members ==>
        c.outbox == old(c.outbox) + NoticeAt(c, roomManager.roomList, lists, x, client.id)
    {
      var uid := client.id;
      var found := roomManager.GetRoom(x);
      if found.Some? {
        var r := found.value;
        ghost var prevOf := r.clientList;
        WithoutIdTwice(lists[r], uid);
        assert r.Members() <= members by {
          forall c | c in prevOf
            ensures c in members
          {
            InWithoutId(lists[r], uid, c);
          }
        }
        label PreLeave:
        r.Leave(client);
        forall r' | r' in roomManager.roomList
          ensures r'.Valid()
          ensures r'.clientList == if r'.id in ids + [x] then WithoutId(lists[r'], uid) else lists[r']
        {
          if r' != r {
            assert r'.id != x;
            assert r'.clientList == old@PreLeave(r'.clientList);
            assert (r'.id in ids + [x]) == (r'.id in ids);
          }
        }
        forall c | c in members
          ensures c.outbox == old(c.outbox) + NoticeAt(c, roomManager.roomList, lists, x, uid)
        {
          InWithoutId(lists[r], uid, c);
        }
      }
    }
  }

  /**
   * A frame `["constructor"]` from any socket makes `message` throw: the
   * emit reads the `Object` function the table inherits, which is not iterable.
   */
  method ConstructorFrameThrows(client: Client) returns (threw: bool)
    ensures threw
  {
    var server := new WebSocketServer();
    var run, fired;
    run, fired, threw := server.Message(client, "constructor", []);
  }

  /**
   * `disconnected` lets the socket leave its rooms without the registry, so
   * the room it empties stays registered: a registry that satisfied `Live`
   * after the socket joined a room no longer does once the socket closes.
   */
  method DisconnectedBreaksLive(id: string, roomId: string) returns (before: bool, after: bool)
    ensures before && !after
  {
    var server, client, room := JoinedServer(id, roomId);
    before := server.roomManager.Live();
    var notFound := server.Disconnected(client);
    assert WithoutId([client], client.id) == [];
    assert room in server.roomManager.roomList && room.clientList == [];
    after := server.roomManager.Live();
  }

  /** A new server whose one socket, `id`, has connected and joined room `roomId` through the registry. */
  method JoinedServer(id: string, roomId: string) returns (server: WebSocketServer, client: Client, room: Room)
    ensures fresh(server) && fresh(server.roomManager) && fresh(client) && fresh(room)
    ensures server.Valid()
    ensures server.roomManager.roomList == [room] && room.id == roomId && !room.keepAlive
    ensures room.clientList == [client] && client.id == id && client.rooms == [roomId]
  {
    server := new WebSocketServer();
    var fired;
    client, fired := server.Connected(id, Null);
    server.roomManager.Join(roomId, client);
    room := server.roomManager.roomList[0];
  }

  /**
   * A configuration set after construction is what `start` checks, but a
   * plain start still serves the listener bound to the first address.
   */
  method StartAfterSetConfig(first: Config, second: Config) returns (r: Result<Listening, string>)
    ensures !second.secure ==> r == Success(Tcp(first.hostname, first.port))
    ensures second.secure ==> (r.Failure? <==> Missing(second.certFile) || Missing(second.keyFile))
  {
    var server := new WebSocketServer(first);
    server.SetConfig(second);
    r := server.Start();
  }
}
