/**
 * The middleware chain every inbound message passes through. Each
 * middleware gets the shared context and a `next` continuation; the chain
 * goes on only if it calls `next`.
 */
module MiddlewareChain {
  import opened Protocol

  /** The context handed to every middleware of one message: `{evt, ws, data}`. */
  datatype Context = Context(evt: string, ws: Client, data: seq<Value>)

  /**
   * A middleware, seen from the chain: it changes the shared context
   * (`before`), then decides on the changed context whether to call `next`.
   */
  datatype Middleware = Middleware(before: Context -> Context, callsNext: Context -> bool)

  /**
   * What one run of the chain did: `entered[i]` is the context middleware i
   * was called with, for every middleware that ran; `final` is the shared
   * context once the chain has settled.
   */
  datatype Run = Run(entered: seq<Context>, final: Context)

  /** The context middleware `i` starts from: `ctx` after the changes of middlewares 0 .. i-1. */
  function Reached(ctx: Context, ms: seq<Middleware>, i: nat): Context
    requires i <= |ms|
    decreases i
  {
    if i == 0 then ctx else Reached(ms[0].before(ctx), ms[1..], i - 1)
  }

  /** Middleware `i` passes control on: it calls `next`. */
  predicate PassesOn(ctx: Context, ms: seq<Middleware>, i: nat)
    requires i < |ms|
  {
    ms[i].callsNext(Reached(ctx, ms, i + 1))
  }

  /** Every middleware before position `i` called `next`. */
  predicate AllPassedBefore(ctx: Context, ms: seq<Middleware>, i: nat)
    requires i <= |ms|
  {
    forall j :: 0 <= j < i ==> PassesOn(ctx, ms, j)
  }

  /** Each middleware sees exactly the changes of the one before it, on top of what that one saw. */
  lemma {:induction false} ReachedStep(ctx: Context, ms: seq<Middleware>, i: nat)
    requires i < |ms|
    ensures Reached(ctx, ms, i + 1) == ms[i].before(Reached(ctx, ms, i))
    decreases i
  {
    if i > 0 {
      ReachedStep(ms[0].before(ctx), ms[1..], i - 1);
    }
  }

  lemma AllPassedShift(ctx: Context, ms: seq<Middleware>, i: nat)
    requires 1 <= i <= |ms|
    ensures AllPassedBefore(ctx, ms, i)
      <==> ms[0].callsNext(ms[0].before(ctx)) && AllPassedBefore(ms[0].before(ctx), ms[1..], i - 1)
  {
    var c := ms[0].before(ctx);
    forall j | 1 <= j < i
      ensures PassesOn(ctx, ms, j) == PassesOn(c, ms[1..], j - 1)
    {
    }
    if AllPassedBefore(ctx, ms, i) {
      assert PassesOn(ctx, ms, 0);
      forall j | 0 <= j < i - 1
        ensures PassesOn(c, ms[1..], j)
      {
        assert PassesOn(ctx, ms, j + 1);
      }
    }
  }

  /**
   * `iterateMiddleWare(context, middlewares)`: calls the first middleware
   * with a `next` that runs the rest of the list; an empty list returns
   * at once, so the last middleware's `next` does nothing.
   */
  function Iterate(ctx: Context, ms: seq<Middleware>): (r: Run)
    ensures ms == [] ==> r == Run([], ctx)
    ensures |r.entered| <= |ms|
    ensures forall i :: 0 <= i < |r.entered| ==> r.entered[i] == Reached(ctx, ms, i)
    ensures forall i :: 0 <= i < |ms| ==> (i < |r.entered| <==> AllPassedBefore(ctx, ms, i))
    ensures r.final == Reached(ctx, ms, |r.entered|)
    decreases |ms|
  {
    if ms == [] then Run([], ctx)
    else
      var c := ms[0].before(ctx);
      if ms[0].callsNext(c) then
        var rest := Iterate(c, ms[1..]);
        assert forall i :: 1 <= i < |ms| ==> AllPassedBefore(ctx, ms, i) == AllPassedBefore(c, ms[1..], i - 1) by {
          forall i | 1 <= i < |ms| {
            AllPassedShift(ctx, ms, i);
          }
        }
        Run([ctx] + rest.entered, rest.final)
      else
        assert forall i :: 1 <= i < |ms| ==> !AllPassedBefore(ctx, ms, i) by {
          forall i | 1 <= i < |ms| {
            AllPassedShift(ctx, ms, i);
          }
        }
        Run([ctx], c)
  }

  class MiddleWareManager {
    var middlewareList: seq<Middleware>

    constructor ()
      ensures middlewareList == []
    {
      middlewareList := [];
    }

    /** `use(m1, ..., mk)`: appends the middlewares in argument order. */
    method Use(ms: seq<Middleware>)
      modifies this
      ensures middlewareList == old(middlewareList) + ms
    {
      middlewareList := middlewareList + ms;
    }

    /** `executeMiddleware(context)`: runs the chain over the current list, which it leaves as it is. */
    method ExecuteMiddleware(ctx: Context) returns (r: Run)
      ensures r == Iterate(ctx, middlewareList)
      ensures middlewareList == [] ==> r.entered == [] && r.final == ctx
    {
      r := Iterate(ctx, middlewareList);
    }
  }
}
