/**
 * A room: a named list of member sockets, keyed by socket id, that
 * tells its members about joins and leaves and fans frames out to them.
 */
module Rooms {
  import opened Protocol

  /** The notice members receive when `userId` joins room `roomId`. */
  function JoinNotice(roomId: string, userId: string): Frame
  {
    Frame("join", [Membership(roomId, userId)])
  }

  /** The notice members receive when `userId` leaves room `roomId`. */
  function LeaveNotice(roomId: string, userId: string): Frame
  {
    Frame("leave", [Membership(roomId, userId)])
  }

  class Room {
    const id: string
    const keepAlive: bool
    var clientList: seq<Client>

    /** No two members share an id. */
    ghost predicate Valid()
      reads this
    {
      DistinctIds(clientList)
    }

    function Members(): set<Client>
      reads this
    {
      set c | c in clientList
    }

    /** `new Room(id, keepAlive)`: no members yet. */
    constructor (id: string := "", keepAlive: bool := false)
      ensures this.id == id && this.keepAlive == keepAlive
      ensures clientList == [] && Valid()
    {
      this.id := id;
      this.keepAlive := keepAlive;
      clientList := [];
    }

    /** `invoke(evt, ...args)`: every member receives one frame `[evt, ...args]`. */
    method Invoke(evt: string, args: seq<Value>)
      requires Valid()
      modifies Members()`outbox
      ensures forall c :: c in clientList ==> c.outbox == old(c.outbox) + [Frame(evt, args)]
    {
      InvokeAll(clientList, evt, args);
    }

    /**
     * `join(socket)`: a socket whose id is already a member changes nothing;
     * otherwise the members so far are told, then the socket is appended.
     */
    method Join(socket: Client)
      requires Valid()
      modifies this`clientList, Members()`outbox
      ensures Valid()
      ensures HasId(old(clientList), socket.id) ==>
        clientList == old(clientList) && forall c :: c in clientList ==> c.outbox == old(c.outbox)
      ensures !HasId(old(clientList), socket.id) ==>
        && clientList == old(clientList) + [socket]
        && socket.outbox == old(socket.outbox)
        && forall c :: c in old(clientList) ==> c.outbox == old(c.outbox) + [JoinNotice(id, socket.id)]
    {
      if FindById(clientList, socket.id).Some? {
        return;
      }
      assert socket !in clientList;
      Invoke("join", [Membership(id, socket.id)]);
      clientList := clientList + [socket];
    }

    /**
     * `leave(socket)`: every member with the socket's id goes, the others
     * keep their order and are told, whether or not the socket was a member.
     */
    method Leave(socket: Client)
      requires Valid()
      modifies this`clientList, Members()`outbox
      ensures Valid()
      ensures clientList == WithoutId(old(clientList), socket.id)
      ensures forall c :: c in clientList <==> c in old(clientList) && c.id != socket.id
      ensures forall c :: c in old(clientList) ==>
        c.outbox == old(c.outbox) + (if c.id != socket.id then [LeaveNotice(id, socket.id)] else [])
    {
      WithoutIdDistinct(clientList, socket.id);
      clientList := WithoutId(clientList, socket.id);
      forall c ensures c in clientList <==> c in old(clientList) && c.id != socket.id {
        InWithoutId(old(clientList), socket.id, c);
      }
      Invoke("leave", [Membership(id, socket.id)]);
    }

    /** `clients`: the member list, whose ids are pairwise distinct. */
    function Clients(): (r: seq<Client>)
      requires Valid()
      reads this
      ensures DistinctIds(r)
    {
      clientList
    }
  }
}
