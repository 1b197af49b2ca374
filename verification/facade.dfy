/** The composite layout object: every method of the planar engine is
    forwarded to it and, except the two list accessors, to the Z engine as
    well; `on` keeps the tick event for itself. The engines are not
    modelled: a call into one is recorded in that engine's call log, and
    what the planar engine answers is a parameter. */
module Facade {

  import opened Options
  import opened ShadowSync

  /** A method call passed on to an engine, with its arguments. */
  datatype Call<A> = Call(name: string, args: A)

  /** A registration `forceXY.on(event, fn)` made through the composite. */
  datatype Listener = Listener(event: string, fn: Option<Handler>)

  /** What a method call returns: the composite itself, the planar engine
      itself (the chaining convention of its setters) or any other value. */
  datatype Reply<R> = Composite | XYEngine | Value(value: R)

  /** The composite: the tick synchroniser's closure state, the calls made
      on each engine and the event registrations passed to the planar
      engine, oldest first. */
  datatype Layout<P, A> = Layout(
    sync: Sync<P>,
    xyCalls: seq<Call<A>>,
    zCalls: seq<Call<A>>,
    xyListeners: seq<Listener>)

  /** A call's effect on the composite and the value it returns. */
  datatype Outcome<P, A, R> = Outcome(layout: Layout<P, A>, reply: Reply<R>)

  /** The two accessors that set or read an engine's own node and link
      lists; the Z engine's lists are only ever filled by the tick. */
  predicate ListAccessor(name: string) {
    name == "nodes" || name == "links"
  }

  /** The calls of `calls` that also reach the Z engine, in order. */
  function ToZ<A>(calls: seq<Call<A>>): (r: seq<Call<A>>)
    ensures |r| <= |calls|
    ensures forall i :: 0 <= i < |r| ==> !ListAccessor(r[i].name) && r[i] in calls
    ensures forall i :: 0 <= i < |calls| && !ListAccessor(calls[i].name) ==> calls[i] in r
    decreases |calls|
  {
    if calls == [] then []
    else
      var n := |calls| - 1;
      assert calls == calls[..n] + [calls[n]];
      if ListAccessor(calls[n].name) then ToZ(calls[..n]) else ToZ(calls[..n]) + [calls[n]]
  }

  /** The Z engine has received exactly the planar engine's calls other
      than the list accessors. */
  ghost predicate ZMirrorsXY<P, A>(f: Layout<P, A>) {
    f.zCalls == ToZ(f.xyCalls)
  }

  /** No registration passed on to the planar engine is named exactly
      `tick`. A name that merely starts with it, such as `tick.foo` or
      `tick.`, is a different name and is passed on like any other. */
  predicate TickListenerKept<P, A>(f: Layout<P, A>) {
    forall i :: 0 <= i < |f.xyListeners| ==> f.xyListeners[i].event != "tick"
  }

  /** The composite right after construction. */
  function New<P, A>(): (f: Layout<P, A>)
    ensures f.sync == Initial()
    ensures f.xyCalls == [] && f.zCalls == [] && f.xyListeners == []
    ensures ZMirrorsXY(f) && TickListenerKept(f)
  {
    Layout(Initial(), [], [], [])
  }

  /** `force3d.on(name, fn)`: the tick event fills the single handler slot,
      any other event is registered on the planar engine; the composite is
      returned either way, so the reply carries no other value (`()`). */
  function On<P, A>(f: Layout<P, A>, name: string, fn: Option<Handler>): (o: Outcome<P, A, ()>)
    ensures o.reply.Composite?
    ensures o.layout.xyCalls == f.xyCalls && o.layout.zCalls == f.zCalls
    ensures name == "tick" ==> o.layout.sync == f.sync.(tickFn := fn) && o.layout.xyListeners == f.xyListeners
    ensures name != "tick" ==> o.layout.sync == f.sync && o.layout.xyListeners == f.xyListeners + [Listener(name, fn)]
  {
    if name == "tick" then
      Outcome(f.(sync := f.sync.(tickFn := fn)), Composite)
    else
      Outcome(f.(xyListeners := f.xyListeners + [Listener(name, fn)]), Composite)
  }

  /** The forwarder built for method `name` of the planar engine, given
      what that engine answers. The forwarder built for `on` is replaced
      by `On` before the composite is handed out, so it is never called. */
  function Forward<P, A, R>(f: Layout<P, A>, name: string, args: A, xyReply: Reply<R>): (o: Outcome<P, A, R>)
    requires name != "on"
    ensures o.layout.sync == f.sync && o.layout.xyListeners == f.xyListeners
    ensures o.layout.xyCalls == f.xyCalls + [Call(name, args)]
    ensures !ListAccessor(name) <==> o.layout.zCalls == f.zCalls + [Call(name, args)]
    ensures ListAccessor(name) <==> o.layout.zCalls == f.zCalls
    ensures xyReply.XYEngine? ==> o.reply.Composite?
    ensures !xyReply.XYEngine? ==> o.reply == xyReply
  {
    var zCalls := if ListAccessor(name) then f.zCalls else f.zCalls + [Call(name, args)];
    var reply := if xyReply.XYEngine? then Composite else xyReply;
    Outcome(Layout(f.sync, f.xyCalls + [Call(name, args)], zCalls, f.xyListeners), reply)
  }
}
