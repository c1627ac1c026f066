/**
 * The room registry (`RoomManager`): the list of live rooms, created on
 * first use and dropped once empty unless kept alive.
 */
module Registry {
  import opened Protocol
  import opened Rooms

  /** No two rooms of the list share an id. */
  ghost predicate DistinctRoomIds(rs: seq<Room>)
  {
    forall i, j :: 0 <= i < j < |rs| ==> rs[i].id != rs[j].id
  }

  predicate HasRoom(rs: seq<Room>, id: string)
  {
    exists i :: 0 <= i < |rs| && rs[i].id == id
  }

  /** `find((room) => room.id === id)`: the first room with that id, if any. */
  function FindRoom(rs: seq<Room>, id: string): (r: Option<Room>)
    ensures r.None? <==> !HasRoom(rs, id)
    ensures r.Some? ==> r.value in rs && r.value.id == id
    ensures r.Some? && DistinctRoomIds(rs) ==> forall i :: 0 <= i < |rs| && rs[i].id == id ==> rs[i] == r.value
  {
    if rs == [] then None
    else if rs[0].id == id then Some(rs[0])
    else
      assert forall i :: 0 < i < |rs| ==> rs[i] == rs[1..][i - 1];
      FindRoom(rs[1..], id)
  }

  /** `filter((room) => room.id != id)`: drops the rooms with that id, keeping the order of the rest. */
  function WithoutRoom(rs: seq<Room>, id: string): (r: seq<Room>)
    ensures forall i :: 0 <= i < |r| ==> r[i] in rs && r[i].id != id
    ensures forall i :: 0 <= i < |rs| && rs[i].id != id ==> rs[i] in r
    ensures |r| <= |rs|
  {
    if rs == [] then []
    else
      var rest := WithoutRoom(rs[1..], id);
      assert forall i :: 0 < i < |rs| ==> rs[i] == rs[1..][i - 1];
      if rs[0].id == id then rest else [rs[0]] + rest
  }

  /** Dropping rooms never reorders the others: dropping from a concatenation drops from each part. */
  lemma {:induction false} WithoutRoomSplit(a: seq<Room>, b: seq<Room>, id: string)
    ensures WithoutRoom(a + b, id) == WithoutRoom(a, id) + WithoutRoom(b, id)
  {
    if a == [] {
      assert a + b == b;
    } else {
      assert (a + b)[1..] == a[1..] + b;
      WithoutRoomSplit(a[1..], b, id);
    }
  }

  lemma {:induction false} WithoutRoomDistinct(rs: seq<Room>, id: string)
    requires DistinctRoomIds(rs)
    ensures DistinctRoomIds(WithoutRoom(rs, id))
  {
    if rs != [] {
      WithoutRoomDistinct(rs[1..], id);
      var rest := WithoutRoom(rs[1..], id);
      assert forall i :: 0 <= i < |rest| ==> rest[i] in rs[1..];
    }
  }

  /** With distinct ids, dropping one id removes exactly that room: the list shrinks by one. */
  lemma {:induction false} WithoutRoomRemovesOne(rs: seq<Room>, id: string)
    requires DistinctRoomIds(rs) && HasRoom(rs, id)
    ensures |WithoutRoom(rs, id)| == |rs| - 1
  {
    if rs[0].id == id {
      WithoutAbsentRoom(rs[1..], id);
    } else {
      assert HasRoom(rs[1..], id) by {
        var i :| 0 <= i < |rs| && rs[i].id == id;
        assert rs[1..][i - 1] == rs[i];
      }
      WithoutRoomRemovesOne(rs[1..], id);
    }
  }

  lemma {:induction false} WithoutAbsentRoom(rs: seq<Room>, id: string)
    requires !HasRoom(rs, id)
    ensures WithoutRoom(rs, id) == rs
  {
    if rs != [] {
      assert !HasRoom(rs[1..], id) by {
        assert forall i :: 0 < i < |rs| ==> rs[i] == rs[1..][i - 1];
      }
      WithoutAbsentRoom(rs[1..], id);
    }
  }

  /** The member list of every room of `rs`, taken at one moment. */
  ghost function ListsOf(rs: seq<Room>): (lists: map<Room, seq<Client>>)
    reads set r | r in rs
    ensures forall r :: r in rs ==> r in lists && lists[r] == r.clientList
  {
    map r | r in rs :: r.clientList
  }

  /** Room `r` would be dropped once `userId` has left it: nobody else in it and not kept alive. */
  predicate Dies(r: Room, lists: map<Room, seq<Client>>, userId: string)
  {
    !r.keepAlive && r in lists && WithoutId(lists[r], userId) == []
  }

  /**
   * The registry `rs` (with member lists `lists`) after `userId` has left,
   * through the registry, every room whose id is in `ids`.
   */
  function Pruned(rs: seq<Room>, lists: map<Room, seq<Client>>, ids: seq<string>, userId: string): (r: seq<Room>)
    ensures forall i :: 0 <= i < |r| ==> r[i] in rs && !(r[i].id in ids && Dies(r[i], lists, userId))
    ensures forall i :: 0 <= i < |rs| && !(rs[i].id in ids && Dies(rs[i], lists, userId)) ==> rs[i] in r
    ensures |r| <= |rs|
  {
    if rs == [] then []
    else
      var rest := Pruned(rs[1..], lists, ids, userId);
      assert forall i :: 0 < i < |rs| ==> rs[i] == rs[1..][i - 1];
      if rs[0].id in ids && Dies(rs[0], lists, userId) then rest else [rs[0]] + rest
  }

  /** Pruning keeps the surviving rooms in registry order: pruning a concatenation prunes each part. */
  lemma {:induction false} PrunedSplit(a: seq<Room>, b: seq<Room>, lists: map<Room, seq<Client>>, ids: seq<string>, userId: string)
    ensures Pruned(a + b, lists, ids, userId) == Pruned(a, lists, ids, userId) + Pruned(b, lists, ids, userId)
  {
    if a == [] {
      assert a + b == b;
    } else {
      assert (a + b)[1..] == a[1..] + b;
      PrunedSplit(a[1..], b, lists, ids, userId);
    }
  }

  /** Leaving no room prunes nothing. */
  lemma {:induction false} PrunedNone(rs: seq<Room>, lists: map<Room, seq<Client>>, userId: string)
    ensures Pruned(rs, lists, [], userId) == rs
  {
    if rs != [] {
      PrunedNone(rs[1..], lists, userId);
    }
  }

  /** Leaving one more room prunes that room if it dies, and nothing else. */
  lemma {:induction false} PrunedStep(rs: seq<Room>, lists: map<Room, seq<Client>>, ids: seq<string>, x: string, userId: string)
    requires DistinctRoomIds(rs)
    ensures Pruned(rs, lists, ids + [x], userId) ==
      match FindRoom(rs, x)
      case Some(r) => if Dies(r, lists, userId) then WithoutRoom(Pruned(rs, lists, ids, userId), x) else Pruned(rs, lists, ids, userId)
      case None => Pruned(rs, lists, ids, userId)
  {
    if rs != [] {
      var h, t := rs[0], rs[1..];
      assert DistinctRoomIds(t);
      PrunedStep(t, lists, ids, x, userId);
      var p := Pruned(t, lists, ids, userId);
      var p' := Pruned(t, lists, ids + [x], userId);
      var q := if h.id in ids && Dies(h, lists, userId) then p else [h] + p;
      assert Pruned(rs, lists, ids, userId) == q;
      if h.id == x {
        assert FindRoom(rs, x) == Some(h);
        assert !HasRoom(t, x);
        assert FindRoom(t, x) == None;
        assert p' == p;
        assert !HasRoom(p, x);
        WithoutAbsentRoom(p, x);
        if Dies(h, lists, userId) {
          assert Pruned(rs, lists, ids + [x], userId) == p;
          assert q == p || q[1..] == p;
        } else {
          assert Pruned(rs, lists, ids + [x], userId) == [h] + p;
        }
      } else {
        assert FindRoom(rs, x) == FindRoom(t, x);
        assert (h.id in ids + [x]) == (h.id in ids);
        assert Pruned(rs, lists, ids + [x], userId) ==
          if h.id in ids && Dies(h, lists, userId) then p' else [h] + p';
        if !(h.id in ids && Dies(h, lists, userId)) {
          assert q[0] == h && q[1..] == p;
        }
      }
    }
  }

  /** Looking a room up in the pruned registry finds it unless it was pruned. */
  lemma {:induction false} FindInPruned(rs: seq<Room>, lists: map<Room, seq<Client>>, ids: seq<string>, x: string, userId: string)
    requires DistinctRoomIds(rs)
    ensures FindRoom(Pruned(rs, lists, ids, userId), x) ==
      match FindRoom(rs, x)
      case Some(r) => if r.id in ids && Dies(r, lists, userId) then None else Some(r)
      case None => None
  {
    if rs != [] {
      var t := rs[1..];
      assert DistinctRoomIds(t);
      FindInPruned(t, lists, ids, x, userId);
      if rs[0].id == x {
        assert !HasRoom(t, x);
        assert !HasRoom(Pruned(t, lists, ids, userId), x);
      }
    }
  }

  /** The leave notice `c` gets when `userId` leaves room `rid` of `rs`, given member lists `lists`. */
  function NoticeAt(c: Client, rs: seq<Room>, lists: map<Room, seq<Client>>, rid: string, userId: string): seq<Frame>
  {
    match FindRoom(rs, rid)
    case Some(r) => if r in lists && c in lists[r] && c.id != userId then [LeaveNotice(rid, userId)] else []
    case None => []
  }

  /** The leave notices `c` gets when `userId` leaves the rooms `rids` one after the other. */
  function Notices(c: Client, rs: seq<Room>, lists: map<Room, seq<Client>>, rids: seq<string>, userId: string): seq<Frame>
    decreases |rids|
  {
    if rids == [] then []
    else Notices(c, rs, lists, rids[..|rids| - 1], userId) + NoticeAt(c, rs, lists, rids[|rids| - 1], userId)
  }

  /** Leaving one more room adds that room's notice, if any, after the earlier ones. */
  lemma NoticesSnoc(c: Client, rs: seq<Room>, lists: map<Room, seq<Client>>, rids: seq<string>, x: string, userId: string)
    ensures Notices(c, rs, lists, rids + [x], userId) == Notices(c, rs, lists, rids, userId) + NoticeAt(c, rs, lists, x, userId)
  {
    assert (rids + [x])[..|rids|] == rids;
  }

  class RoomManager {
    var roomList: seq<Room>

    /** Room ids are unique and every room keeps its member ids unique. */
    ghost predicate Valid()
      reads this, roomList
    {
      && DistinctRoomIds(roomList)
      && forall i :: 0 <= i < |roomList| ==> roomList[i].Valid()
    }

    /**
     * Every member of a registered room has that room's id in its own
     * `rooms` list. (The converse does not hold: `leave` never shortens it.)
     */
    ghost predicate Consistent()
      reads this, roomList, Members()
    {
      forall r, c :: r in roomList && c in r.clientList ==> r.id in c.rooms
    }

    /**
     * Every registered room has a member or is kept alive: `leave` drops a
     * room that it empties unless the room is kept alive.
     */
    predicate Live()
      reads this, roomList
    {
      forall r :: r in roomList ==> r.clientList != [] || r.keepAlive
    }

    function Rooms(): set<Room>
      reads this
    {
      set r | r in roomList
    }

    /** Every socket that is a member of some registered room. */
    function Members(): set<Client>
      reads this, roomList
    {
      set r, c | r in roomList && c in r.clientList :: c
    }

    /** The members of the room with that id; none when there is no such room. */
    function MembersOf(roomId: string): seq<Client>
      reads this, roomList
    {
      match FindRoom(roomList, roomId)
      case Some(r) => r.clientList
      case None => []
    }

    /** `new RoomManager()`: no rooms yet. */
    constructor ()
      ensures roomList == [] && Valid() && Consistent()
    {
      roomList := [];
    }

    /** `rooms`: the registered rooms, ids pairwise distinct. */
    function AllRooms(): (r: seq<Room>)
      requires Valid()
      reads this, roomList
      ensures DistinctRoomIds(r)
    {
      roomList
    }

    /** `getRoom(roomId)`: the room with that id, or none. */
    function GetRoom(roomId: string): (r: Option<Room>)
      reads this
      ensures r.None? <==> !HasRoom(roomList, roomId)
      ensures r.Some? ==> r.value in roomList && r.value.id == roomId
      ensures r.Some? && DistinctRoomIds(roomList) ==>
        forall i :: 0 <= i < |roomList| && roomList[i].id == roomId ==> roomList[i] == r.value
    {
      FindRoom(roomList, roomId)
    }

    /**
     * `create(roomId, keepAlive)`: returns the registered room of that id,
     * unchanged (its `keepAlive` included); otherwise appends a new one.
     */
    method Create(roomId: string, keepAlive: bool := false) returns (r: Room)
      requires Valid()
      modifies this`roomList
      ensures Valid()
      ensures r.id == roomId && r in roomList
      ensures HasRoom(old(roomList), roomId) ==>
        roomList == old(roomList) && FindRoom(old(roomList), roomId) == Some(r)
      ensures !HasRoom(old(roomList), roomId) ==>
        && fresh(r) && roomList == old(roomList) + [r]
        && r.keepAlive == keepAlive && r.clientList == []
      ensures FindRoom(roomList, roomId) == Some(r)
      ensures Members() == old(Members())
      ensures old(Consistent()) ==> Consistent()
    {
      var found := GetRoom(roomId);
      if found.Some? {
        return found.value;
      }
      r := new Room(roomId, keepAlive);
      roomList := roomList + [r];
      assert Members() == old(Members());
    }

    /**
     * `join(roomId, socket)`: creates the room (not kept alive) when
     * absent, pushes `roomId` onto the socket's own list unconditionally,
     * then joins the socket to the room.
     */
    method Join(roomId: string, socket: Client)
      requires Valid()
      modifies this`roomList, Rooms()`clientList, socket`rooms, Members()`outbox
      ensures Valid()
      ensures socket.rooms == old(socket.rooms) + [roomId]
      ensures HasRoom(old(roomList), roomId) ==> roomList == old(roomList)
      ensures !HasRoom(old(roomList), roomId) ==>
        && |roomList| == |old(roomList)| + 1
        && roomList[..|old(roomList)|] == old(roomList)
        && fresh(roomList[|old(roomList)|])
        && roomList[|old(roomList)|].id == roomId
        && !roomList[|old(roomList)|].keepAlive
      ensures forall r :: r in old(roomList) && r.id != roomId ==> r.clientList == old(r.clientList)
      ensures MembersOf(roomId) ==
        if HasId(old(MembersOf(roomId)), socket.id) then old(MembersOf(roomId))
        else old(MembersOf(roomId)) + [socket]
      ensures forall c :: c in old(Members()) ==>
        c.outbox == old(c.outbox) +
          if c in old(MembersOf(roomId)) && !HasId(old(MembersOf(roomId)), socket.id)
          then [JoinNotice(roomId, socket.id)] else []
      ensures old(Live()) ==> Live()
      ensures old(Consistent()) ==> Consistent()
    {
      if HasRoom(roomList, roomId) {
        JoinRegistered(roomId, socket);
      } else {
        JoinNew(roomId, socket);
      }
    }

    /** `join` for an id already registered: `create` returns that room, and the socket enters it (src/rooms/RoomManager.ts:56-58, one proof case). */
    method JoinRegistered(roomId: string, socket: Client)
      requires Valid() && HasRoom(roomList, roomId)
      modifies this`roomList, Rooms()`clientList, socket`rooms, Members()`outbox
      ensures Valid()
      ensures socket.rooms == old(socket.rooms) + [roomId]
      ensures roomList == old(roomList)
      ensures forall r :: r in old(roomList) && r.id != roomId ==> r.clientList == old(r.clientList)
      ensures MembersOf(roomId) ==
        if HasId(old(MembersOf(roomId)), socket.id) then old(MembersOf(roomId))
        else old(MembersOf(roomId)) + [socket]
      ensures forall c :: c in old(Members()) ==>
        c.outbox == old(c.outbox) +
          if c in old(MembersOf(roomId)) && !HasId(old(MembersOf(roomId)), socket.id)
          then [JoinNotice(roomId, socket.id)] else []
      ensures old(Live()) ==> Live()
      ensures old(Consistent()) ==> Consistent()
    {
      var r := Create(roomId);
      Enter(r, socket);
    }

    /** `join` for a new id: `create` appends a fresh room, not kept alive, and the socket enters it (src/rooms/RoomManager.ts:56-58, one proof case). */
    method JoinNew(roomId: string, socket: Client)
      requires Valid() && !HasRoom(roomList, roomId)
      modifies this`roomList, Rooms()`clientList, socket`rooms, Members()`outbox
      ensures Valid()
      ensures socket.rooms == old(socket.rooms) + [roomId]
      ensures |roomList| == |old(roomList)| + 1
      ensures roomList[..|old(roomList)|] == old(roomList)
      ensures fresh(roomList[|old(roomList)|])
      ensures roomList[|old(roomList)|].id == roomId
      ensures !roomList[|old(roomList)|].keepAlive
      ensures forall r :: r in old(roomList) ==> r.clientList == old(r.clientList)
      ensures MembersOf(roomId) == [socket]
      ensures forall c :: c in old(Members()) ==> c.outbox == old(c.outbox)
      ensures old(Live()) ==> Live()
      ensures old(Consistent()) ==> Consistent()
    {
      var r := Create(roomId);
      EnterEmpty(r, socket);
    }

    /** The socket enters a registered room that has no members yet: it becomes the only member, and nobody is notified (src/rooms/RoomManager.ts:57-58, one proof case). */
    method EnterEmpty(r: Room, socket: Client)
      requires Valid() && FindRoom(roomList, r.id) == Some(r) && r.clientList == []
      modifies r`clientList, socket`rooms
      ensures Valid()
      ensures socket.rooms == old(socket.rooms) + [r.id]
      ensures forall r' :: r' in roomList && r'.id != r.id ==> r'.clientList == old(r'.clientList)
      ensures MembersOf(r.id) == [socket]
      ensures old(Consistent()) ==> Consistent()
    {
      Enter(r, socket);
    }

    /** The second half of `join`: the room's id goes onto the socket's list, then the socket joins the room (src/rooms/RoomManager.ts:57-58). */
    method Enter(r: Room, socket: Client)
      requires Valid() && FindRoom(roomList, r.id) == Some(r)
      modifies r`clientList, socket`rooms, r.Members()`outbox
      ensures Valid()
      ensures socket.rooms == old(socket.rooms) + [r.id]
      ensures forall r' :: r' in roomList && r'.id != r.id ==> r'.clientList == old(r'.clientList)
      ensures MembersOf(r.id) ==
        if HasId(old(r.clientList), socket.id) then old(r.clientList) else old(r.clientList) + [socket]
      ensures forall c :: c in old(Members()) ==>
        c.outbox == old(c.outbox) +
          if c in old(r.clientList) && !HasId(old(r.clientList), socket.id) then [JoinNotice(r.id, socket.id)] else []
      ensures old(Consistent()) ==> Consistent()
    {
      socket.rooms := socket.rooms + [r.id];
      r.Join(socket);
      if old(Consistent()) {
        forall r', c | r' in roomList && c in r'.clientList
          ensures r'.id in c.rooms
        {
          if c != socket {
            assert c in old(r'.clientList);
          }
        }
      }
    }

    /**
     * `leave(roomId, socket)`: an unknown id does nothing. Otherwise the
     * socket leaves the room, and the room is dropped from the registry if
     * it is then empty and not kept alive. The socket's own `rooms` list is
     * left as it is.
     */
    method Leave(roomId: string, socket: Client)
      requires Valid()
      modifies this`roomList, Rooms()`clientList, Members()`outbox
      ensures Valid()
      ensures socket.rooms == old(socket.rooms)
      ensures !HasRoom(old(roomList), roomId) ==> roomList == old(roomList)
      ensures HasRoom(old(roomList), roomId) ==>
        var r := FindRoom(old(roomList), roomId).value;
        && r.clientList == WithoutId(old(r.clientList), socket.id)
        && roomList == if r.clientList == [] && !r.keepAlive then WithoutRoom(old(roomList), roomId) else old(roomList)
      ensures forall r :: r in old(roomList) && r.id != roomId ==> r.clientList == old(r.clientList)
      ensures forall c :: c in old(Members()) ==>
        c.outbox == old(c.outbox) +
          if c in old(MembersOf(roomId)) && c.id != socket.id
          then [LeaveNotice(roomId, socket.id)] else []
      ensures Rooms() <= old(Rooms()) && Members() <= old(Members())
      ensures old(Live()) ==> Live()
      ensures old(Consistent()) ==> Consistent()
    {
      var found := GetRoom(roomId);
      if found.None? {
        return;
      }
      LeaveFound(found.value, socket);
    }

    /** `leave` once the room is found: the socket leaves it, and an empty room not kept alive is dropped (src/rooms/RoomManager.ts:68-73). */
    method LeaveFound(r: Room, socket: Client)
      requires Valid() && FindRoom(roomList, r.id) == Some(r)
      modifies this`roomList, r`clientList, r.Members()`outbox
      ensures Valid()
      ensures r.clientList == WithoutId(old(r.clientList), socket.id)
      ensures roomList == if r.clientList == [] && !r.keepAlive then WithoutRoom(old(roomList), r.id) else old(roomList)
      ensures forall c :: c in old(r.clientList) ==>
        c.outbox == old(c.outbox) + if c.id != socket.id then [LeaveNotice(r.id, socket.id)] else []
      ensures Rooms() <= old(Rooms()) && Members() <= old(Members())
      ensures old(Live()) ==> Live()
      ensures old(Consistent()) ==> Consistent()
    {
      Depart(r, socket);
      if |r.clientList| == 0 && !r.keepAlive {
        DropRoom(r.id);
      }
    }

    /** `r.leave(socket)` on a registered room: the registry stays valid and consistent, and loses no room (src/rooms/RoomManager.ts:69). */
    method Depart(r: Room, socket: Client)
      requires Valid() && FindRoom(roomList, r.id) == Some(r)
      modifies r`clientList, r.Members()`outbox
      ensures Valid()
      ensures r.clientList == WithoutId(old(r.clientList), socket.id)
      ensures forall c :: c in old(r.clientList) ==>
        c.outbox == old(c.outbox) + if c.id != socket.id then [LeaveNotice(r.id, socket.id)] else []
      ensures Members() <= old(Members())
      ensures old(Consistent()) ==> Consistent()
    {
      r.Leave(socket);
    }

    /** `filter((room) => room.id != roomId)` on the registry: it stays valid and consistent, and loses rooms and members only (src/rooms/RoomManager.ts:71). */
    method DropRoom(roomId: string)
      requires Valid()
      modifies this`roomList
      ensures Valid()
      ensures roomList == WithoutRoom(old(roomList), roomId)
      ensures Rooms() <= old(Rooms()) && Members() <= old(Members())
      ensures old(Consistent()) ==> Consistent()
    {
      WithoutRoomDistinct(roomList, roomId);
      roomList := WithoutRoom(roomList, roomId);
    }
  }

  /**
   * `create` of a new id registers an empty room that is not kept alive, so
   * a registry that satisfied `Live` no longer does.
   */
  method CreateBreaksLive(roomId: string) returns (before: bool, after: bool)
    ensures before && !after
  {
    var rm := new RoomManager();
    before := rm.Live();
    var r := rm.Create(roomId);
    after := rm.Live();
  }

  /**
   * A new registry has no room; `create` adds one, empty, that `getRoom`
   * then finds.
   */
  method CreateThenGet(roomId: string) returns (before: nat, after: nat, found: Option<Room>)
    ensures before == 0 && after == 1
    ensures found.Some? && found.value.id == roomId && found.value.clientList == []
  {
    var rm := new RoomManager();
    before := |rm.AllRooms()|;
    var r := rm.Create(roomId);
    after := |rm.AllRooms()|;
    found := rm.GetRoom(roomId);
  }

  /**
   * A socket that joins a room of a new registry and leaves it again
   * leaves no room behind: the room was not kept alive, so it is dropped.
   */
  method JoinThenLeave(roomId: string, socket: Client) returns (members: nat, rooms: nat)
    modifies socket
    ensures members == 1 && rooms == 0
    ensures socket.rooms == old(socket.rooms) + [roomId] && socket.outbox == old(socket.outbox)
  {
    var rm := new RoomManager();
    rm.Join(roomId, socket);
    members := |rm.MembersOf(roomId)|;
    rm.Leave(roomId, socket);
    rooms := |rm.AllRooms()|;
  }
}
