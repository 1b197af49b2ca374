/** Properties of the composite's dispatch rules: the tick handler slot
    holds the latest registration only, the Z engine receives every
    forwarded call except the list accessors, and no forwarded call
    returns the planar engine. */
module FacadeProperties {

  import opened Options
  import opened ShadowSync
  import opened Facade

  /** A call made on the composite by its user. */
  datatype Op<A, R> =
    | OnCall(event: string, fn: Option<Handler>)
    | MethodCall(name: string, args: A, xyReply: Reply<R>)

  /** The calls the composite dispatches: everything but `on` goes to the
      forwarder built for that name. */
  predicate Dispatchable<A, R>(op: Op<A, R>) {
    op.MethodCall? ==> op.name != "on"
  }

  /** The composite after the calls `ops`, in order. */
  function Run<P, A, R>(f: Layout<P, A>, ops: seq<Op<A, R>>): (g: Layout<P, A>)
    requires forall i :: 0 <= i < |ops| ==> Dispatchable(ops[i])
    ensures |g.xyCalls| >= |f.xyCalls| && |g.xyListeners| >= |f.xyListeners|
    decreases |ops|
  {
    if ops == [] then f
    else
      var n := |ops| - 1;
      assert forall i :: 0 <= i < n ==> ops[..n][i] == ops[i];
      var g := Run(f, ops[..n]);
      assert Dispatchable(ops[n]);
      match ops[n]
      case OnCall(event, fn) => On(g, event, fn).layout
      case MethodCall(name, args, xyReply) => Forward(g, name, args, xyReply).layout
  }

  /** Registering two tick handlers keeps only the latter, and the next
      tick calls it. */
  lemma OnTickReplaces<P, A>(f: Layout<P, A>, first: Option<Handler>, second: Option<Handler>,
                                nodes: seq<Node<P>>, links: seq<Link>)
    ensures var g := On(On(f, "tick", first).layout, "tick", second).layout;
      && g.sync.tickFn == second
      && g.sync == f.sync.(tickFn := second)
      && g.xyListeners == f.xyListeners
      && Tick(g.sync, nodes, links).called == second
  {
  }

  /** Only the exact name `tick` is kept back: a tick event with a
      namespace, `tick.foo` or `tick.` with an empty one, is registered on
      the planar engine like any other event, and the handler slot is left
      as it was. */
  lemma TickNamespacePassesThrough<P, A>(f: Layout<P, A>, ns: string, fn: Option<Handler>)
    ensures var g := On(f, "tick." + ns, fn).layout;
      && g.sync == f.sync
      && g.xyListeners == f.xyListeners + [Listener("tick." + ns, fn)]
      && (TickListenerKept(g) <==> TickListenerKept(f))
  {
    var name := "tick." + ns;
    assert |name| > |"tick"|;
    var g := On(f, name, fn).layout;
    if TickListenerKept(f) {
      forall i | 0 <= i < |g.xyListeners|
        ensures g.xyListeners[i].event != "tick"
      {
        if i < |f.xyListeners| {
          assert g.xyListeners[i] == f.xyListeners[i];
        }
      }
    }
    if TickListenerKept(g) {
      forall i | 0 <= i < |f.xyListeners|
        ensures f.xyListeners[i].event != "tick"
      {
        assert g.xyListeners[i] == f.xyListeners[i];
      }
    }
  }

  /** No reply of the composite is the planar engine itself. */
  lemma ForwardNeverLeaks<P, A, R>(f: Layout<P, A>, name: string, args: A, xyReply: Reply<R>)
    requires name != "on"
    ensures !Forward(f, name, args, xyReply).reply.XYEngine?
  {
  }

  /** Appending a call to the planar engine's log extends the Z engine's
      expected log by that call unless it is a list accessor. */
  lemma {:induction false} ToZAppend<A>(calls: seq<Call<A>>, c: Call<A>)
    ensures ToZ(calls + [c]) == if ListAccessor(c.name) then ToZ(calls) else ToZ(calls) + [c]
  {
    assert (calls + [c])[..|calls|] == calls;
  }

  /** Filtering a log split in two is filtering each part and joining the
      results: the Z engine receives the forwarded calls in the order the
      planar engine received them. */
  lemma {:induction false} ToZConcat<A>(a: seq<Call<A>>, b: seq<Call<A>>)
    ensures ToZ(a + b) == ToZ(a) + ToZ(b)
    decreases |b|
  {
    if b == [] {
      assert a + b == a;
    } else {
      var n := |b| - 1;
      var c := b[n];
      assert b == b[..n] + [c];
      assert a + b == (a + b[..n]) + [c];
      ToZAppend(a + b[..n], c);
      ToZAppend(b[..n], c);
      ToZConcat(a, b[..n]);
    }
  }

  /** The call logs stay in step across `on` and a forwarded call, and no
      registration named exactly `tick` ever reaches the planar engine. */
  lemma {:induction false} OnKeepsInvariants<P, A>(f: Layout<P, A>, name: string, fn: Option<Handler>)
    requires ZMirrorsXY(f) && TickListenerKept(f)
    ensures var g := On(f, name, fn).layout;
      ZMirrorsXY(g) && TickListenerKept(g)
  {
    var g := On(f, name, fn).layout;
    if name != "tick" {
      assert g.xyListeners == f.xyListeners + [Listener(name, fn)];
      forall i | 0 <= i < |g.xyListeners|
        ensures g.xyListeners[i].event != "tick"
      {
        if i < |f.xyListeners| {
          assert g.xyListeners[i] == f.xyListeners[i];
        }
      }
    }
  }

  lemma {:induction false} ForwardKeepsInvariants<P, A, R>(f: Layout<P, A>, name: string, args: A, xyReply: Reply<R>)
    requires name != "on"
    requires ZMirrorsXY(f) && TickListenerKept(f)
    ensures var g := Forward(f, name, args, xyReply).layout;
      ZMirrorsXY(g) && TickListenerKept(g)
  {
    ToZAppend(f.xyCalls, Call(name, args));
  }

  /** From construction on, whatever the calls: the Z engine's log is the
      planar engine's log without the list accessors, and the planar
      engine holds no registration named exactly `tick`. */
  lemma {:induction false} RunKeepsInvariants<P, A, R>(ops: seq<Op<A, R>>)
    requires forall i :: 0 <= i < |ops| ==> Dispatchable(ops[i])
    ensures var g := Run<P, A, R>(New(), ops);
      && ZMirrorsXY(g)
      && TickListenerKept(g)
    decreases |ops|
  {
    var g := Run<P, A, R>(New(), ops);
    if ops != [] {
      var n := |ops| - 1;
      assert forall i :: 0 <= i < n ==> ops[..n][i] == ops[i];
      RunKeepsInvariants<P, A, R>(ops[..n]);
      var h := Run<P, A, R>(New(), ops[..n]);
      match ops[n]
      case OnCall(event, fn) =>
        OnKeepsInvariants(h, event, fn);
        assert g == On(h, event, fn).layout;
      case MethodCall(name, args, xyReply) =>
        ForwardKeepsInvariants(h, name, args, xyReply);
        assert g == Forward(h, name, args, xyReply).layout;
    }
  }

  /** While the logs are in step, no list accessor has reached the Z
      engine and every call it received went to the planar engine too. */
  lemma ZNeverSeesLists<P, A>(f: Layout<P, A>)
    requires ZMirrorsXY(f)
    ensures forall i :: 0 <= i < |f.zCalls| ==> !ListAccessor(f.zCalls[i].name) && f.zCalls[i] in f.xyCalls
    ensures |f.zCalls| <= |f.xyCalls|
  {
  }
}
