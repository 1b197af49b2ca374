/** What happens when callers set ids themselves. The stamping test only
    asks whether a node already has a truthy id, and the counter never
    looks at ids it did not hand out, so caller ids can meet counter ids
    and each other; nodes sharing an id share one shadow, and only the
    last of them is guaranteed a `z` equal to that shadow's `x`. */
module CallerIds {

  import opened Options
  import opened ShadowSync
  import opened SyncProperties

  /** On a fresh layout, a node the caller gave id 1 and a node without
      an id end up with the same id and a single shadow. */
  lemma {:induction false} CounterMeetsCallerId<P>(a: Node<P>, b: Node<P>)
    requires a.id == Some(1) && b.id == None
    ensures var r := SyncNodes(map[], [a, b], Initial<P>().nodeID);
      && r.nodes[0].id.value == 1
      && r.nodes[1].id.value == 1
      && r.shadows.built.Keys == {1}
  {
    var nodes := [a, b];
    var r := SyncNodes(map[], nodes, 1);
    var ids := NodeIds(nodes);
    assert ids[0] == Some(1) && ids[1] == None;
    assert Drawn(ids, 1) == 0;
    SyncNodesStampsFromCounter(map[], nodes, 1);
    assert r.nodes[0].id.value == 1 && r.nodes[1].id.value == 1;
    SyncNodesKeys(map[], nodes, 1);
    SameIds(r.nodes, 1);
  }

  /** Nodes that all carry id `k` give the single id `k`. */
  lemma {:induction false} SameIds<P>(nodes: seq<Node<P>>, k: int)
    requires |nodes| > 0
    requires forall i :: 0 <= i < |nodes| ==> nodes[i].id.Some? && nodes[i].id.value == k
    ensures NodeIdSet(nodes) == {k}
  {
    assert nodes[0].id.value in NodeIdSet(nodes);
  }

  /** Two nodes sharing a caller id, both new: the shadow is made from the
      later one, so the earlier one's `z` differs from its shadow's `x`. */
  lemma {:induction false} SharedIdSplitsZ(a: Node<int>, b: Node<int>)
    requires a.id == b.id == Some(5)
    requires a.z != b.z
    ensures var r := Tick(Initial(), [a, b], []);
      && r.nodes[0].z == a.z
      && r.state.zNodes[5].x == b.z
      && r.nodes[0].z != r.state.zNodes[r.nodes[0].id.value].x
  {
    var nodes := [a, b];
    var r := Tick(Initial(), nodes, []);
    TickStampsIds(Initial(), nodes, []);
    TickWritesBackZ(Initial(), nodes, []);
    TickCreatesShadow(Initial(), nodes, [], 1);
  }
}
