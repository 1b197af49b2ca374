/** A run of the layout: one tick after another, each over the caller's
    lists as they stand at that tick, threading the sync state from each
    tick into the next. */
module TickRuns {

  import opened Options
  import opened ShadowSync
  import opened SyncProperties

  /** The caller's node and link lists as one tick sees them. */
  datatype Step<P> = Step(nodes: seq<Node<P>>, links: seq<Link>)

  /** The value after the first `t` steps of a run that applies `next`
      once per step, starting from `s`. */
  function Fold<S, T>(next: (S, T) -> S, s: S, steps: seq<T>, t: int): S
    requires 0 <= t <= |steps|
    decreases t
  {
    if t == 0 then s else next(Fold(next, s, steps, t - 1), steps[t - 1])
  }

  /** A property every step keeps holds all along a run. */
  lemma {:induction false} FoldKeeps<S, T>(next: (S, T) -> S, inv: S -> bool, s: S, steps: seq<T>, t: int)
    requires inv(s)
    requires forall x, st :: inv(x) ==> inv(next(x, st))
    requires 0 <= t <= |steps|
    ensures inv(Fold(next, s, steps, t))
    decreases t
  {
    if t > 0 {
      FoldKeeps(next, inv, s, steps, t - 1);
    }
  }

  /** A measure no step decreases never decreases along a run. */
  lemma {:induction false} FoldGrows<S, T>(next: (S, T) -> S, key: S -> int, s: S, steps: seq<T>, t: int, u: int)
    requires forall x, st :: key(x) <= key(next(x, st))
    requires 0 <= t <= u <= |steps|
    ensures key(Fold(next, s, steps, t)) <= key(Fold(next, s, steps, u))
    decreases u - t
  {
    if t < u {
      FoldGrows(next, key, s, steps, t, u - 1);
    }
  }

  /** The state a tick over the lists of `st` leaves behind. */
  function NextState<P>(x: Sync<P>, st: Step<P>): Sync<P> {
    Tick(x, st.nodes, st.links).state
  }

  /** The state before tick `t` of a run from `s`: `s` itself before the
      first tick, then the state each tick leaves behind. The handler slot
      is the same in every state, since a tick never registers a handler. */
  function StateAt<P>(s: Sync<P>, steps: seq<Step<P>>, t: int): (r: Sync<P>)
    requires 0 <= t <= |steps|
    ensures r.tickFn == s.tickFn
  {
    FoldKeeps(NextState, (x: Sync<P>) => x.tickFn == s.tickFn, s, steps, t);
    Fold(NextState, s, steps, t)
  }

  /** The outcome of tick `t` of the run. */
  function TickAt<P>(s: Sync<P>, steps: seq<Step<P>>, t: int): TickResult<P>
    requires 0 <= t < |steps|
  {
    Tick(StateAt(s, steps, t), steps[t].nodes, steps[t].links)
  }

  /** Each state of the run is the one the tick before it left. */
  lemma {:induction false} StatesStep<P>(s: Sync<P>, steps: seq<Step<P>>, t: int)
    requires 0 <= t < |steps|
    ensures StateAt(s, steps, t + 1) == TickAt(s, steps, t).state
  {
  }

  /** Every state of a run from a well-formed state is well formed. */
  lemma {:induction false} RunWf<P>(s: Sync<P>, steps: seq<Step<P>>, t: int)
    requires Wf(s)
    requires 0 <= t <= |steps|
    ensures Wf(StateAt(s, steps, t))
  {
    forall x: Sync<P>, st: Step<P> | Wf(x)
      ensures Wf(NextState(x, st))
    {
      TickPreservesWf(x, st.nodes, st.links);
    }
    FoldKeeps(NextState, Wf, s, steps, t);
  }

  /** Along a run neither counter ever goes down. */
  lemma {:induction false} CountersNeverDecrease<P>(s: Sync<P>, steps: seq<Step<P>>, t: int, u: int)
    requires 0 <= t <= u <= |steps|
    ensures StateAt(s, steps, t).nodeID <= StateAt(s, steps, u).nodeID
    ensures StateAt(s, steps, t).linkID <= StateAt(s, steps, u).linkID
  {
    forall x: Sync<P>, st: Step<P>
      ensures x.nodeID <= NextState(x, st).nodeID && x.linkID <= NextState(x, st).linkID
    {
      TickCountersGrow(x, st.nodes, st.links);
    }
    FoldGrows(NextState, (x: Sync<P>) => x.nodeID, s, steps, t, u);
    FoldGrows(NextState, (x: Sync<P>) => x.linkID, s, steps, t, u);
  }

  /** Every id the node counter hands out in a later tick is larger than
      every id it handed out in an earlier tick, however many ticks lie
      between them; the same holds for linkIDs. */
  lemma {:induction false} LaterTicksDrawLargerIds<P>(s: Sync<P>, steps: seq<Step<P>>, t: int, u: int)
    requires 0 <= t < u < |steps|
    ensures var r := TickAt(s, steps, t);
      var r2 := TickAt(s, steps, u);
      && (forall i, j {:trigger r.nodes[i], r2.nodes[j]} ::
            0 <= i < |steps[t].nodes| && 0 <= j < |steps[u].nodes| &&
            !Truthy(steps[t].nodes[i].id) && !Truthy(steps[u].nodes[j].id) ==>
              r.nodes[i].id.value < r2.nodes[j].id.value)
      && (forall i, j {:trigger r.links[i], r2.links[j]} ::
            0 <= i < |steps[t].links| && 0 <= j < |steps[u].links| &&
            !Truthy(steps[t].links[i].linkID) && !Truthy(steps[u].links[j].linkID) ==>
              r.links[i].linkID.value < r2.links[j].linkID.value)
  {
    StatesStep(s, steps, t);
    CountersNeverDecrease(s, steps, t + 1, u);
    TickStampsIds(StateAt(s, steps, t), steps[t].nodes, steps[t].links);
    TickStampsIds(StateAt(s, steps, u), steps[u].nodes, steps[u].links);
  }
}
