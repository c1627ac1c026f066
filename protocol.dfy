/**
 * Values and frames exchanged with a connection, and the connection
 * object itself (the `WebSocketUser` that the server decorates with an id,
 * a room list and its capabilities).
 */
module Protocol {

  datatype Option<T> = None | Some(value: T)

  datatype Result<T, E> = Success(value: T) | Failure(error: E)

  /** A JSON value, as carried in the arguments of a frame (numbers are integers here). */
  datatype Value =
    | Null
    | Bool(b: bool)
    | Num(n: int)
    | Str(s: string)
    | Arr(items: seq<Value>)
    | Obj(entries: seq<(string, Value)>)

  /** One wire message `[evt, ...args]`. */
  datatype Frame = Frame(evt: string, args: seq<Value>)

  /** Appending to an outbox in two steps is appending both at once. */
  lemma AppendTwice(box: seq<Frame>, first: seq<Frame>, second: seq<Frame>)
    ensures box + first + second == box + (first + second)
  {
  }

  /** The `{roomId, userId}` payload of the join and leave notices a room sends. */
  function Membership(roomId: string, userId: string): Value
  {
    Obj([("roomId", Str(roomId)), ("userId", Str(userId))])
  }

  /**
   * A connected socket. `id` is assigned once when the connection opens;
   * `rooms` is the list the registry pushes room ids onto; `outbox` is
   * every frame sent to this socket so far, oldest first.
   */
  class Client {
    const id: string
    var rooms: seq<string>
    var outbox: seq<Frame>

    constructor (id: string)
      ensures this.id == id && rooms == [] && outbox == []
    {
      this.id := id;
      rooms := [];
      outbox := [];
    }

    /** `client.invoke(evt, ...args)`: sends the frame `[evt, ...args]` to this socket. */
    method Invoke(evt: string, args: seq<Value>)
      modifies this`outbox
      ensures outbox == old(outbox) + [Frame(evt, args)]
    {
      outbox := outbox + [Frame(evt, args)];
    }
  }

  /** No two clients of the list share an id (hence no client occurs twice). */
  ghost predicate DistinctIds(cs: seq<Client>)
  {
    forall i, j :: 0 <= i < j < |cs| ==> cs[i].id != cs[j].id
  }

  predicate HasId(cs: seq<Client>, id: string)
  {
    exists i :: 0 <= i < |cs| && cs[i].id == id
  }

  /** `findIndex((c) => c.id === id)`: the first position holding that id, or -1. */
  function IndexOfId(cs: seq<Client>, id: string): (k: int)
    ensures -1 <= k < |cs|
    ensures k == -1 <==> !HasId(cs, id)
    ensures k >= 0 ==> cs[k].id == id && forall j :: 0 <= j < k ==> cs[j].id != id
  {
    if cs == [] then -1
    else if cs[0].id == id then 0
    else
      var k := IndexOfId(cs[1..], id);
      assert forall i :: 0 < i < |cs| ==> cs[i] == cs[1..][i - 1];
      if k == -1 then -1 else k + 1
  }

  /** `find((c) => c.id === id)`: the first client with that id, if any. */
  function FindById(cs: seq<Client>, id: string): (r: Option<Client>)
    ensures r.None? <==> !HasId(cs, id)
    ensures r.Some? ==> r.value in cs && r.value.id == id
    ensures r.Some? ==> exists k :: 0 <= k < |cs| && cs[k] == r.value && forall j :: 0 <= j < k ==> cs[j].id != id
  {
    var k := IndexOfId(cs, id);
    if k == -1 then None else Some(cs[k])
  }

  /** `filter((u) => u.id != id)`: drops every client with that id, keeping the others in order. */
  function WithoutId(cs: seq<Client>, id: string): (r: seq<Client>)
    ensures |r| <= |cs|
  {
    if cs == [] then []
    else
      var rest := WithoutId(cs[1..], id);
      if cs[0].id == id then rest else [cs[0]] + rest
  }

  /** Filtering keeps the ids distinct, and a list without that id is left as it is. */
  lemma {:induction false} WithoutIdDistinct(cs: seq<Client>, id: string)
    requires DistinctIds(cs)
    ensures DistinctIds(WithoutId(cs, id))
  {
    if cs != [] {
      WithoutIdDistinct(cs[1..], id);
      var rest := WithoutId(cs[1..], id);
      forall i | 0 <= i < |rest|
        ensures rest[i].id != cs[0].id
      {
        InWithoutId(cs[1..], id, rest[i]);
        var k :| 0 <= k < |cs[1..]| && cs[1..][k] == rest[i];
        assert cs[k + 1] == rest[i];
      }
    }
  }

  /** A client survives the filter exactly when it was there and has another id. */
  lemma {:induction false} InWithoutId(cs: seq<Client>, id: string, c: Client)
    ensures c in WithoutId(cs, id) <==> c in cs && c.id != id
  {
    if cs != [] {
      InWithoutId(cs[1..], id, c);
      assert cs == [cs[0]] + cs[1..];
    }
  }

  /** The filter keeps the survivors in order: filtering a concatenation filters each part. */
  lemma {:induction false} WithoutIdSplit(a: seq<Client>, b: seq<Client>, id: string)
    ensures WithoutId(a + b, id) == WithoutId(a, id) + WithoutId(b, id)
  {
    if a == [] {
      assert a + b == b;
    } else {
      assert (a + b)[1..] == a[1..] + b;
      WithoutIdSplit(a[1..], b, id);
    }
  }

  /** Filtering twice by the same id is filtering once. */
  lemma {:induction false} WithoutIdTwice(cs: seq<Client>, id: string)
    ensures WithoutId(WithoutId(cs, id), id) == WithoutId(cs, id)
  {
    if cs != [] {
      WithoutIdTwice(cs[1..], id);
    }
  }

  lemma {:induction false} WithoutAbsentId(cs: seq<Client>, id: string)
    requires !HasId(cs, id)
    ensures WithoutId(cs, id) == cs
  {
    if cs != [] {
      assert !HasId(cs[1..], id) by {
        assert forall i :: 0 < i < |cs| ==> cs[i] == cs[1..][i - 1];
      }
      WithoutAbsentId(cs[1..], id);
    }
  }

  /** Adding a socket whose id is new and then filtering that id out gives back the list. */
  lemma {:induction false} WithoutAppended(cs: seq<Client>, s: Client)
    requires !HasId(cs, s.id)
    ensures WithoutId(cs + [s], s.id) == cs
  {
    if cs == [] {
      assert [s][1..] == [];
    } else {
      assert (cs + [s])[1..] == cs[1..] + [s];
      assert !HasId(cs[1..], s.id) by {
        assert forall i :: 0 < i < |cs| ==> cs[i] == cs[1..][i - 1];
      }
      WithoutAppended(cs[1..], s);
      assert cs == [cs[0]] + cs[1..];
    }
  }

  /**
   * Sends `[evt, ...args]` to every client of the list, in list order
   * (the `forEach` loops of `Room.invoke` and of the server's `broadcast`).
   */
  method InvokeAll(cs: seq<Client>, evt: string, args: seq<Value>)
    requires DistinctIds(cs)
    modifies (set c | c in cs)`outbox
    ensures forall c :: c in cs ==> c.outbox == old(c.outbox) + [Frame(evt, args)]
  {
    for i := 0 to |cs|
      invariant forall j :: 0 <= j < i ==> cs[j].outbox == old(cs[j].outbox) + [Frame(evt, args)]
      invariant forall j :: i <= j < |cs| ==> cs[j].outbox == old(cs[j].outbox)
    {
      cs[i].Invoke(evt, args);
    }
  }
}
