/**
 * The named-event table of `EventEmitter`: event names map to ordered
 * lists of listeners; `emit` calls them in registration order.
 * Listeners are opaque identities: a plain callback, or the
 * self-removing wrapper that `once` builds around a callback.
 */
module Events {

  /**
   * `Plain(cb)` is a callback registered as it is. `Once(token, cb)` is the
   * closure `once` creates: `token` is its identity (each call of `once`
   * makes a new one), `callback` the function it forwards to.
   */
  datatype Listener = Plain(callback: nat) | Once(token: nat, callback: nat)

  /** One call of a listener's callback with the arguments of an `emit`. */
  datatype Call<A> = Call(callback: nat, args: seq<A>)

  type Table = map<string, seq<Listener>>

  /** The list registered under `e`; an absent entry reads as empty. */
  function ListenersOf(t: Table, e: string): seq<Listener>
  {
    if e in t then t[e] else []
  }

  /** The table after `on(e, l)`: `l` is appended to `e`'s list, created if absent. */
  function Registered(t: Table, e: string, l: Listener): (r: Table)
    ensures r.Keys == t.Keys + {e}
    ensures r[e] == ListenersOf(t, e) + [l]
    ensures forall k :: k in t && k != e ==> r[k] == t[k]
  {
    t[e := ListenersOf(t, e) + [l]]
  }

  /** The table after `only(e, l)`: `[l]` is installed only when `e` has no entry at all. */
  function Installed(t: Table, e: string, l: Listener): (r: Table)
    ensures e in t ==> r == t
    ensures e !in t ==> r.Keys == t.Keys + {e} && r[e] == [l]
    ensures forall k :: k in t && k != e ==> r[k] == t[k]
  {
    if e in t then t else t[e := [l]]
  }

  /** `s.filter((x) => x !== l)`. */
  function Without(s: seq<Listener>, l: Listener): (r: seq<Listener>)
    ensures forall x :: x in r <==> x in s && x != l
    ensures |r| == |s| - multiset(s)[l]
  {
    if s == [] then []
    else
      assert s == [s[0]] + s[1..];
      if s[0] == l then Without(s[1..], l) else [s[0]] + Without(s[1..], l)
  }

  /** The table after `off(e, l)`: every occurrence of `l` leaves `e`'s list; the key stays. */
  function Deregistered(t: Table, e: string, l: Listener): (r: Table)
    ensures r.Keys == t.Keys
    ensures ListenersOf(r, e) == Without(ListenersOf(t, e), l)
    ensures forall k :: k in t && k != e ==> r[k] == t[k]
  {
    if e in t then t[e := Without(t[e], l)] else t
  }

  /** The plain listeners of `s`, in order. */
  function WithoutOnce(s: seq<Listener>): (r: seq<Listener>)
    ensures forall x :: x in r <==> x in s && x.Plain?
  {
    if s == [] then []
    else
      assert s == [s[0]] + s[1..];
      if s[0].Once? then WithoutOnce(s[1..]) else [s[0]] + WithoutOnce(s[1..])
  }

  /** The filter keeps the order of what it keeps: filtering a concatenation filters each part. */
  lemma {:induction false} WithoutSplit(a: seq<Listener>, b: seq<Listener>, l: Listener)
    ensures Without(a + b, l) == Without(a, l) + Without(b, l)
  {
    if a == [] {
      assert a + b == b;
    } else {
      assert (a + b)[1..] == a[1..] + b;
      WithoutSplit(a[1..], b, l);
    }
  }

  /** The filter keeps every other listener as many times as it was registered. */
  lemma {:induction false} WithoutCount(s: seq<Listener>, l: Listener)
    ensures multiset(Without(s, l)) == multiset(s)[l := 0]
  {
    if s != [] {
      WithoutCount(s[1..], l);
      assert s == [s[0]] + s[1..];
    }
  }

  /** Dropping the once-wrappers keeps the plain listeners in order, each as often as it occurs. */
  lemma {:induction false} WithoutOnceSplit(a: seq<Listener>, b: seq<Listener>)
    ensures WithoutOnce(a + b) == WithoutOnce(a) + WithoutOnce(b)
  {
    if a == [] {
      assert a + b == b;
    } else {
      assert (a + b)[1..] == a[1..] + b;
      WithoutOnceSplit(a[1..], b);
    }
  }

  /**
   * The table after `emit(e)`: each once-wrapper that was called removed
   * itself; the plain listeners and every other event are as they were.
   */
  function Emitted(t: Table, e: string): (r: Table)
    ensures r.Keys == t.Keys
    ensures ListenersOf(r, e) == WithoutOnce(ListenersOf(t, e))
    ensures forall x :: x in ListenersOf(r, e) ==> x.Plain? && x in ListenersOf(t, e)
    ensures forall k :: k in t && k != e ==> r[k] == t[k]
  {
    if e in t then t[e := WithoutOnce(t[e])] else t
  }

  /** The listener count summed over every key of the table. */
  ghost function Total(t: Table): nat
    decreases |t|
  {
    if t == map[] then 0
    else
      var e :| e in t;
      assert |t - {e}| < |t| by {
        assert (t - {e}).Keys == t.Keys - {e};
      }
      |t[e]| + Total(t - {e})
  }

  /** The sum does not depend on the key taken first. */
  lemma {:induction false} TotalRemove(t: Table, e: string)
    requires e in t
    ensures Total(t) == |t[e]| + Total(t - {e})
    decreases |t|
  {
    var e' :| e' in t && Total(t) == |t[e']| + Total(t - {e'});
    if e' != e {
      assert (t - {e'}).Keys == t.Keys - {e'};
      assert (t - {e}).Keys == t.Keys - {e};
      TotalRemove(t - {e'}, e);
      TotalRemove(t - {e}, e');
      assert t - {e'} - {e} == t - {e} - {e'};
    }
  }

  /** Replacing one list changes the total by the difference of the lengths. */
  lemma TotalUpdate(t: Table, e: string, s: seq<Listener>)
    ensures Total(t[e := s]) == Total(t) - |ListenersOf(t, e)| + |s|
  {
    TotalRemove(t[e := s], e);
    assert t[e := s] - {e} == t - {e};
    if e in t {
      TotalRemove(t, e);
    } else {
      assert t - {e} == t;
    }
  }

  /** `on` adds exactly one listener to the total. */
  lemma TotalRegistered(t: Table, e: string, l: Listener)
    ensures Total(Registered(t, e, l)) == Total(t) + 1
  {
    TotalUpdate(t, e, ListenersOf(t, e) + [l]);
  }

  /** `off` takes away exactly the occurrences of the listener in that event's list. */
  lemma TotalDeregistered(t: Table, e: string, l: Listener)
    ensures Total(Deregistered(t, e, l)) == Total(t) - multiset(ListenersOf(t, e))[l]
  {
    if e in t {
      TotalUpdate(t, e, Without(t[e], l));
    }
  }

  /** A count of one event never exceeds the total. */
  lemma TotalBoundsCount(t: Table, e: string)
    ensures |ListenersOf(t, e)| <= Total(t)
  {
    if e in t {
      TotalRemove(t, e);
    }
  }

  /**
   * An entry emptied by `off` still blocks `only`: after `on(e, a)` and
   * `off(e, a)` on an event that had no entry, `only(e, b)` registers nothing.
   */
  lemma OnlyBlockedByEmptiedEntry(t: Table, e: string, a: nat, b: nat)
    requires e !in t
    ensures ListenersOf(Installed(Deregistered(Registered(t, e, Plain(a)), e, Plain(a)), e, Plain(b)), e) == []
  {
  }

  /** Removing the once-wrappers that occur in `done` from `s`. */
  function Purged(s: seq<Listener>, done: seq<Listener>): seq<Listener>
  {
    if s == [] then []
    else if s[0].Once? && s[0] in done then Purged(s[1..], done)
    else [s[0]] + Purged(s[1..], done)
  }

  lemma {:induction false} PurgedNothing(s: seq<Listener>)
    ensures Purged(s, []) == s
  {
    if s != [] {
      PurgedNothing(s[1..]);
    }
  }

  lemma {:induction false} PurgedStep(s: seq<Listener>, done: seq<Listener>, l: Listener)
    ensures Purged(s, done + [l]) == if l.Once? then Without(Purged(s, done), l) else Purged(s, done)
  {
    if s != [] {
      PurgedStep(s[1..], done, l);
    }
  }

  lemma {:induction false} PurgedAll(s: seq<Listener>, done: seq<Listener>)
    requires forall x :: x in s ==> x in done
    ensures Purged(s, done) == WithoutOnce(s)
  {
    if s != [] {
      PurgedAll(s[1..], done);
    }
  }

  /** Every once-wrapper in table `t` has a token below `n`. */
  ghost predicate TokensBelow(t: Table, n: nat)
  {
    forall e, l :: e in t && l in t[e] && l.Once? ==> l.token < n
  }

  lemma {:induction false} PurgedWithin(s: seq<Listener>, done: seq<Listener>, x: Listener)
    ensures x in Purged(s, done) ==> x in s
  {
    if s != [] {
      PurgedWithin(s[1..], done, x);
    }
  }

  /** Purging once-wrappers from one entry issues no new token. */
  lemma PurgedTokens(t: Table, e: string, done: seq<Listener>, n: nat)
    requires TokensBelow(t, n) && e in t
    ensures TokensBelow(t[e := Purged(t[e], done)], n)
  {
    var t' := t[e := Purged(t[e], done)];
    forall k: string, l: Listener | k in t' && l in t'[k] && l.Once?
      ensures l.token < n
    {
      if k == e {
        PurgedWithin(t[e], done, l);
      }
    }
  }

  /**
   * The properties every plain object inherits from `Object.prototype`
   * under Deno, each with what reading `length` on it gives: the arity of
   * the inherited method. (Deno removes the `__proto__` accessor, so that
   * name is an ordinary one.)
   */
  const Inherited: map<string, nat> := map[
    "constructor" := 1, "__defineGetter__" := 2, "__defineSetter__" := 2,
    "hasOwnProperty" := 1, "__lookupGetter__" := 1, "__lookupSetter__" := 1,
    "isPrototypeOf" := 1, "propertyIsEnumerable" := 1, "toString" := 0,
    "valueOf" := 0, "toLocaleString" := 0]

  /**
   * What `listeners[e]` reads on the emitter's plain-object table: an own
   * list, a property inherited from `Object.prototype` (truthy, and not an
   * array), or `undefined`.
   */
  datatype Slot = Own(list: seq<Listener>) | FromPrototype(length: nat) | Undefined

  function Lookup(t: Table, e: string): Slot
  {
    if e in t then Own(t[e])
    else if e in Inherited then FromPrototype(Inherited[e])
    else Undefined
  }

  /** No inherited name is an own key of the table. */
  ghost predicate OwnKeys(t: Table)
  {
    forall e :: e in t ==> e !in Inherited
  }

  class EventEmitter {
    var listeners: Table
    /** The identity the next once-wrapper gets (a new closure per `once` call). */
    var nextToken: nat

    /**
     * Every once-wrapper in the table was made by an earlier `once` call,
     * and no inherited name ever became an own key (every write to one
     * throws or is skipped before it happens).
     */
    ghost predicate Valid()
      reads this
    {
      TokensBelow(listeners, nextToken) && OwnKeys(listeners)
    }

    constructor ()
      ensures Valid() && listeners == map[] && nextToken == 0
    {
      listeners := map[];
      nextToken := 0;
    }

    /**
     * `on(e, l)`: a falsy lookup gets a new empty list, then `l` is pushed.
     * An inherited property is truthy and has no `push`: the call throws and
     * the table is left as it was. This method also accepts an issued
     * once-wrapper, because `Once` registers one through it; in the source the
     * wrapper is local to `once`, so no outside caller can pass one to `on`.
     */
    method On(e: string, l: Listener) returns (threw: bool)
      requires Valid() && (l.Once? ==> l.token < nextToken)
      modifies this`listeners
      ensures Valid()
      ensures threw <==> e in Inherited
      ensures listeners == if threw then old(listeners) else Registered(old(listeners), e, l)
    {
      if Lookup(listeners, e).FromPrototype? {
        return true;
      }
      threw := false;
      listeners := Registered(listeners, e, l);
    }

    /** `only(e, callback)`: does nothing when the lookup is truthy, an inherited property included. */
    method Only(e: string, callback: nat)
      requires Valid()
      modifies this`listeners
      ensures Valid()
      ensures listeners == if e in Inherited then old(listeners) else Installed(old(listeners), e, Plain(callback))
    {
      if !Lookup(listeners, e).Undefined? {
        return;
      }
      listeners := listeners[e := [Plain(callback)]];
    }

    /**
     * `off(e, l)`: `l` is a callback, or a once-wrapper removing itself. An
     * inherited property has no `filter`: the call throws.
     */
    method Off(e: string, l: Listener) returns (threw: bool)
      requires Valid()
      modifies this`listeners
      ensures Valid()
      ensures threw <==> e in Inherited
      ensures listeners == Deregistered(old(listeners), e, l)
    {
      match Lookup(listeners, e)
      case Own(s) =>
        threw := false;
        listeners := listeners[e := Without(s, l)];
      case FromPrototype(_) =>
        threw := true;
      case Undefined =>
        threw := false;
    }

    /**
     * `once(e, callback)`: makes a new wrapper, whose token no listener had
     * before, and registers it with `on` (which throws on an inherited name).
     */
    method Once(e: string, callback: nat) returns (threw: bool)
      requires Valid()
      modifies this
      ensures Valid()
      ensures nextToken == old(nextToken) + 1
      ensures threw <==> e in Inherited
      ensures listeners ==
        if threw then old(listeners) else Registered(old(listeners), e, Listener.Once(old(nextToken), callback))
      ensures forall k, l :: k in old(listeners) && l in old(listeners)[k] ==> l != Listener.Once(old(nextToken), callback)
    {
      var fn := Listener.Once(nextToken, callback);
      nextToken := nextToken + 1;
      threw := On(e, fn);
    }

    /**
     * `emit(e, ...args)`: an inherited property is not iterable, so the call
     * throws before any listener runs; otherwise the own list, if any, is
     * run by `EmitOwn`.
     */
    method Emit<A>(e: string, args: seq<A>) returns (fired: seq<Call<A>>, threw: bool)
      requires Valid()
      modifies this`listeners
      ensures Valid()
      ensures threw <==> e in Inherited
      ensures |fired| == |ListenersOf(old(listeners), e)|
      ensures forall i :: 0 <= i < |fired| ==> fired[i] == Call(ListenersOf(old(listeners), e)[i].callback, args)
      ensures listeners == Emitted(old(listeners), e)
    {
      if Lookup(listeners, e).FromPrototype? {
        return [], true;
      }
      fired := EmitOwn(e, args);
      threw := false;
    }

    /**
     * Emitting on the own entry of `e` only: calls every listener present
     * when the call starts, in registration order, each with `args`. A
     * once-wrapper first removes itself, then forwards to its callback. An
     * event without an own entry fires nothing, whatever its name.
     */
    method EmitOwn<A>(e: string, args: seq<A>) returns (fired: seq<Call<A>>)
      requires Valid()
      modifies this`listeners
      ensures Valid()
      ensures |fired| == |ListenersOf(old(listeners), e)|
      ensures forall i :: 0 <= i < |fired| ==> fired[i] == Call(ListenersOf(old(listeners), e)[i].callback, args)
      ensures listeners == Emitted(old(listeners), e)
    {
      fired := [];
      if e !in listeners {
        return;
      }
      var snapshot := listeners[e];
      PurgedNothing(snapshot);
      for i := 0 to |snapshot|
        invariant nextToken == old(nextToken)
        invariant listeners == old(listeners)[e := Purged(snapshot, snapshot[..i])]
        invariant |fired| == i
        invariant forall j :: 0 <= j < i ==> fired[j] == Call(snapshot[j].callback, args)
      {
        RunListener(e, snapshot[i], old(listeners), i);
        fired := fired + [Call(snapshot[i].callback, args)];
      }
      assert snapshot[..|snapshot|] == snapshot;
      PurgedTokens(old(listeners), e, snapshot, nextToken);
      PurgedAll(snapshot, snapshot);
    }

    /**
     * Calling the `i`-th listener of `e`'s list as it was when the emit
     * began (`t[e]`): a once-wrapper removes itself before forwarding, a
     * plain callback changes nothing in the table.
     */
    method RunListener(e: string, l: Listener, ghost t: Table, ghost i: nat)
      requires e in t && i < |t[e]| && l == t[e][i] && TokensBelow(t, nextToken) && OwnKeys(t)
      requires listeners == t[e := Purged(t[e], t[e][..i])]
      modifies this`listeners
      ensures listeners == t[e := Purged(t[e], t[e][..i + 1])]
    {
      ghost var snapshot := t[e];
      PurgedStep(snapshot, snapshot[..i], l);
      assert snapshot[..i + 1] == snapshot[..i] + [l];
      if l.Once? {
        PurgedTokens(t, e, snapshot[..i], nextToken);
        var threw := Off(e, l);
      }
    }

    /** `removeAllListeners()`: the table becomes empty (inherited names still read through). */
    method RemoveAllListeners()
      requires Valid()
      modifies this`listeners
      ensures Valid()
      ensures listeners == map[] && Total(listeners) == 0
      ensures forall e :: e !in Inherited ==> ListenerCount(e) == 0
    {
      listeners := map[];
    }

    /**
     * `listenerCount(e)`: the `length` of whatever the lookup reads, 0 when
     * it is undefined. For an inherited name that is the inherited
     * function's arity, which no own entry accounts for.
     */
    function ListenerCount(e: string): (n: nat)
      requires Valid()
      reads this
      ensures e in Inherited ==> n == Inherited[e]
      ensures e !in Inherited ==> n == |ListenersOf(listeners, e)| && n <= Total(listeners)
    {
      match Lookup(listeners, e)
      case Own(s) => TotalBoundsCount(listeners, e); |s|
      case FromPrototype(k) => k
      case Undefined => 0
    }

    /** `totalListenerCount()`: sums the list lengths over the own keys. */
    method TotalListenerCount() returns (count: nat)
      ensures count == Total(listeners)
    {
      count := 0;
      var rest := listeners;
      while rest != map[]
        invariant count + Total(rest) == Total(listeners)
        decreases |rest|
      {
        var e :| e in rest;
        TotalRemove(rest, e);
        assert (rest - {e}).Keys == rest.Keys - {e};
        count := count + |rest[e]|;
        rest := rest - {e};
      }
    }
  }

  /**
   * A callback registered with `once` on a new emitter fires on the first
   * of two successive emits and not on the second; on an inherited name
   * the registration throws.
   */
  method OnceFiresOnce(e: string, callback: nat) returns (threw: bool, first: seq<Call<int>>, second: seq<Call<int>>)
    ensures threw <==> e in Inherited
    ensures !threw ==> first == [Call(callback, [1])] && second == []
  {
    var emitter := new EventEmitter();
    threw := emitter.Once(e, callback);
    if threw {
      return threw, [], [];
    }
    assert ListenersOf(emitter.listeners, e) == [Listener.Once(0, callback)];
    var t;
    first, t := emitter.Emit(e, [1]);
    assert WithoutOnce([Listener.Once(0, callback)]) == [];
    assert ListenersOf(emitter.listeners, e) == [];
    second, t := emitter.Emit(e, [2]);
  }

  /**
   * On a new emitter `listenerCount("constructor")` reads the arity of the
   * inherited `Object` function, 1, while the total over the table is 0.
   */
  method InheritedCountAboveTotal() returns (count: nat, total: nat)
    ensures count == 1 && total == 0
  {
    var emitter := new EventEmitter();
    count := emitter.ListenerCount("constructor");
    total := emitter.TotalListenerCount();
  }
}
