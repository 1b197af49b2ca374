/** The per-tick synchronisation of the 3D force layout: the planar (XY)
    engine's nodes and links are mirrored, by stamped integer ids, into
    shadow nodes and shadow links that a second engine (the Z engine)
    simulates, and each shadow's `x` is written back as the node's `z`. */
module ShadowSync {

  import opened Options
  import KeyOrder

  /** A caller-owned node. `x` and `y` are driven by the planar engine and
      never touched here; `z` is written back each tick; `id` is stamped
      lazily. Positions have the opaque type `P`: they are only copied. */
  datatype Node<P> = Node(id: Option<int>, x: P, y: P, z: P)

  /** A caller-owned link. Its endpoints are the positions of the source
      and target nodes in the planar engine's current node list. */
  datatype Link = Link(linkID: Option<int>, source: int, target: int)

  /** The Z engine's view of a node: a planar node whose `x` (and `y`)
      carry the synthetic z coordinate. */
  datatype Shadow<P> = Shadow(id: int, x: P, y: P, px: P, py: P)

  /** The Z engine's view of a link. An endpoint is `None` when it has no
      shadow node (the lookup yields `undefined`). */
  datatype ShadowLink<P> = ShadowLink(source: Option<Shadow<P>>, target: Option<Shadow<P>>)

  /** A tick handler: the built-in `Object` function installed at
      construction, or a caller's callback. */
  datatype Handler = ObjectCtor | Callback(tag: nat)

  /** The synchroniser's closure state. */
  datatype Sync<P> = Sync(
    zNodes: map<int, Shadow<P>>,
    zLinks: map<int, ShadowLink<P>>,
    nodeID: int,
    linkID: int,
    tickFn: Option<Handler>)

  /** The state right after construction: empty shadow maps, both counters
      at 1 and `Object` as the tick handler. */
  function Initial<P>(): (s: Sync<P>)
    ensures Wf(s)
    ensures s.zNodes == map[] && s.zLinks == map[]
    ensures s.nodeID == 1 && s.linkID == 1
    ensures s.tickFn == Some(ObjectCtor)
  {
    Sync(map[], map[], 1, 1, Some(ObjectCtor))
  }

  /** Well-formed state: counters are positive (so every id they hand out
      is truthy) and every shadow node is filed under its own id. */
  predicate Wf<P>(s: Sync<P>) {
    && s.nodeID >= 1
    && s.linkID >= 1
    && forall k :: k in s.zNodes ==> s.zNodes[k].id == k
  }

  /** JavaScript truthiness of an id field: absent and 0 are falsy. */
  predicate Truthy(id: Option<int>) {
    id.Some? && id.value != 0
  }

  /** The number of falsy ids among the first `n` of `ids`, i.e. how many
      ids a stamping pass draws from its counter before position `n`. */
  function Drawn(ids: seq<Option<int>>, n: int): (c: nat)
    requires 0 <= n <= |ids|
    ensures c <= n
  {
    if n == 0 then 0 else Drawn(ids, n - 1) + (if Truthy(ids[n - 1]) then 0 else 1)
  }

  /** Counting over a prefix of `ids` is counting over `ids`. */
  lemma {:induction false} DrawnOfPrefix(ids: seq<Option<int>>, m: int, n: int)
    requires 0 <= n <= m <= |ids|
    ensures Drawn(ids[..m], n) == Drawn(ids, n)
  {
    if n > 0 {
      DrawnOfPrefix(ids, m, n - 1);
      assert ids[..m][n - 1] == ids[n - 1];
    }
  }

  datatype Stamped = Stamped(ids: seq<int>, next: int)

  /** One stamping pass: `if (!d.id) d.id = counter++` over the list in
      order. */
  function Stamp(ids: seq<Option<int>>, next: int): (r: Stamped)
    ensures |r.ids| == |ids|
    ensures r.next == next + Drawn(ids, |ids|)
    ensures forall i {:trigger r.ids[i]} :: 0 <= i < |ids| && Truthy(ids[i]) ==> r.ids[i] == ids[i].value
    ensures forall i {:trigger r.ids[i]} :: 0 <= i < |ids| && !Truthy(ids[i]) ==> r.ids[i] == next + Drawn(ids, i)
    decreases |ids|
  {
    if ids == [] then
      Stamped([], next)
    else
      var n := |ids| - 1;
      var p := Stamp(ids[..n], next);
      DrawnOfPrefixAll(ids, n);
      assert forall i :: 0 <= i < n ==> ids[..n][i] == ids[i];
      if Truthy(ids[n]) then Stamped(p.ids + [ids[n].value], p.next)
      else Stamped(p.ids + [p.next], p.next + 1)
  }

  lemma DrawnOfPrefixAll(ids: seq<Option<int>>, m: int)
    requires 0 <= m <= |ids|
    ensures forall n :: 0 <= n <= m ==> Drawn(ids[..m], n) == Drawn(ids, n)
  {
    forall n | 0 <= n <= m
      ensures Drawn(ids[..m], n) == Drawn(ids, n)
    {
      DrawnOfPrefix(ids, m, n);
    }
  }

  /** `i` is the last position of `keys` holding `keys[i]`. */
  predicate LastOf(keys: seq<int>, i: int)
    requires 0 <= i < |keys|
  {
    forall j :: i < j < |keys| ==> keys[j] != keys[i]
  }

  /** Every key of a list has a last position. */
  lemma {:induction false} LastIndex(keys: seq<int>, k: int) returns (i: int)
    requires k in keys
    ensures 0 <= i < |keys| && keys[i] == k && LastOf(keys, i)
    decreases |keys|
  {
    var n := |keys| - 1;
    if keys[n] == k {
      i := n;
    } else {
      var j :| 0 <= j < |keys| && keys[j] == k;
      assert keys[..n][j] == k;
      i := LastIndex(keys[..n], k);
      assert keys[..n][i] == keys[i];
      assert forall j :: i < j < n ==> keys[..n][j] == keys[j];
    }
  }

  datatype Rebuilt<V> = Rebuilt(built: map<int, V>, order: seq<int>)

  /** One rebuild pass: a new map receives, for each key in list order,
      the previous map's entry if there is one (`zNodes[id] || {...}`) and
      otherwise the value made for that position; a later duplicate key
      overwrites an earlier one. `order` lists the keys in order of first
      insertion. */
  function Rebuild<V>(prior: map<int, V>, keys: seq<int>, made: seq<V>): (r: Rebuilt<V>)
    requires |made| == |keys|
    ensures forall i :: 0 <= i < |keys| ==> keys[i] in r.built
    ensures forall k :: k in r.order <==> k in r.built
    ensures |r.order| == |r.built|
    decreases |keys|
  {
    if keys == [] then
      Rebuilt(map[], [])
    else
      var n := |keys| - 1;
      var p := Rebuild(prior, keys[..n], made[..n]);
      var k := keys[n];
      var r := Rebuilt(p.built[k := if k in prior then prior[k] else made[n]],
                       if k in p.built then p.order else p.order + [k]);
      assert forall i :: 0 <= i < n ==> keys[..n][i] == keys[i];
      assert |r.order| == |r.built| by {
        if k !in p.built {
          assert r.built.Keys == p.built.Keys + {k};
        } else {
          assert r.built.Keys == p.built.Keys;
        }
      }
      r
  }

  /** The rebuilt map holds no key outside the current list: entries of
      vanished nodes or links are dropped. */
  lemma {:induction false} RebuildOnlyCurrentKeys<V>(prior: map<int, V>, keys: seq<int>, made: seq<V>, k: int)
    requires |made| == |keys|
    requires k in Rebuild(prior, keys, made).built
    ensures k in keys
    decreases |keys|
  {
    if keys != [] {
      var n := |keys| - 1;
      if k != keys[n] {
        assert k in Rebuild(prior, keys[..n], made[..n]).built;
        RebuildOnlyCurrentKeys(prior, keys[..n], made[..n], k);
        var j :| 0 <= j < n && keys[..n][j] == k;
        assert keys[j] == k;
      }
    }
  }

  /** An entry of the previous map whose key is still present is reused
      unchanged. */
  lemma {:induction false} RebuildReuses<V>(prior: map<int, V>, keys: seq<int>, made: seq<V>, k: int)
    requires |made| == |keys|
    requires k in Rebuild(prior, keys, made).built && k in prior
    ensures Rebuild(prior, keys, made).built[k] == prior[k]
    decreases |keys|
  {
    if keys != [] {
      var n := |keys| - 1;
      if k != keys[n] {
        RebuildReuses(prior, keys[..n], made[..n], k);
      }
    }
  }

  /** A key absent from the previous map gets the value made for its last
      position in the list. */
  lemma {:induction false} RebuildMakesLast<V>(prior: map<int, V>, keys: seq<int>, made: seq<V>, i: int)
    requires |made| == |keys|
    requires 0 <= i < |keys| && keys[i] !in prior && LastOf(keys, i)
    ensures Rebuild(prior, keys, made).built[keys[i]] == made[i]
    decreases |keys|
  {
    var n := |keys| - 1;
    if i < n {
      var p := Rebuild(prior, keys[..n], made[..n]);
      assert keys[..n][i] == keys[i] && made[..n][i] == made[i];
      assert LastOf(keys[..n], i);
      RebuildMakesLast(prior, keys[..n], made[..n], i);
      assert keys[n] != keys[i];
    }
  }

  /** The shadow created for a node seen for the first time: every planar
      field of the Z engine carries the node's current `z`. */
  function NewShadow<P>(id: int, z: P): (sh: Shadow<P>)
    ensures sh.id == id
    ensures sh.x == z && sh.y == z && sh.px == z && sh.py == z
  {
    Shadow(id, z, z, z, z)
  }

  /** `zNodes[d.id]` for the link endpoint at position `e` of the (already
      stamped) node list; `None` when there is no such node or shadow. */
  function Endpoint<P>(shadows: map<int, Shadow<P>>, nodes: seq<Node<P>>, e: int): (r: Option<Shadow<P>>)
    ensures r.Some? <==> 0 <= e < |nodes| && nodes[e].id.Some? && nodes[e].id.value in shadows
    ensures r.Some? ==> r.value == shadows[nodes[e].id.value]
  {
    if 0 <= e < |nodes| && nodes[e].id.Some? && nodes[e].id.value in shadows then
      Some(shadows[nodes[e].id.value])
    else
      None
  }

  /** The shadow each node would get if its id had none yet. */
  function NewShadows<P>(ids: seq<int>, nodes: seq<Node<P>>): (made: seq<Shadow<P>>)
    requires |ids| == |nodes|
    ensures |made| == |nodes|
    ensures forall i {:trigger made[i]} :: 0 <= i < |nodes| ==> made[i] == NewShadow(ids[i], nodes[i].z)
    decreases |nodes|
  {
    if nodes == [] then [] else [NewShadow(ids[0], nodes[0].z)] + NewShadows(ids[1..], nodes[1..])
  }

  /** The shadow link each link would get if its linkID had none yet:
      `{target: zNodes[d.target.id], source: zNodes[d.source.id]}`. */
  function NewShadowLinks<P>(shadows: map<int, Shadow<P>>, nodes: seq<Node<P>>, links: seq<Link>): (made: seq<ShadowLink<P>>)
    ensures |made| == |links|
    ensures forall i {:trigger made[i]} :: 0 <= i < |links| ==>
      made[i] == ShadowLink(Endpoint(shadows, nodes, links[i].source), Endpoint(shadows, nodes, links[i].target))
    decreases |links|
  {
    if links == [] then []
    else
      [ShadowLink(Endpoint(shadows, nodes, links[0].source), Endpoint(shadows, nodes, links[0].target))]
      + NewShadowLinks(shadows, nodes, links[1..])
  }

  function NodeIds<P>(nodes: seq<Node<P>>): (ids: seq<Option<int>>)
    ensures |ids| == |nodes|
    ensures forall i {:trigger ids[i]} :: 0 <= i < |nodes| ==> ids[i] == nodes[i].id
  {
    seq(|nodes|, i requires 0 <= i < |nodes| => nodes[i].id)
  }

  function LinkIds(links: seq<Link>): (ids: seq<Option<int>>)
    ensures |ids| == |links|
    ensures forall i {:trigger ids[i]} :: 0 <= i < |links| ==> ids[i] == links[i].linkID
  {
    seq(|links|, i requires 0 <= i < |links| => links[i].linkID)
  }

  /** The keys of `m` in the order JavaScript enumerates them, given the
      order in which they were inserted. */
  function EnumeratedKeys<V>(m: map<int, V>, inserted: seq<int>): (ks: seq<int>)
    requires Ordered(m, inserted)
    ensures |ks| == |m|
    ensures forall i :: 0 <= i < |ks| ==> ks[i] in m
    ensures forall k {:trigger k in ks} :: k in m ==> k in ks
    ensures KeyOrder.Distinct(ks)
  {
    var e := KeyOrder.Enumerate(inserted);
    assert |e| == |inserted| by {
      assert |multiset(e)| == |multiset(inserted)|;
    }
    assert forall i :: 0 <= i < |e| ==> e[i] in m by {
      forall i | 0 <= i < |e|
        ensures e[i] in m
      {
        assert e[i] in multiset(e);
        assert e[i] in inserted;
      }
    }
    assert forall k {:trigger k in e} :: k in m ==> k in e by {
      forall k | k in m
        ensures k in e
      {
        assert k in multiset(inserted);
        assert k in multiset(e);
      }
    }
    KeyOrder.CoverIsDistinct(e, m.Keys);
    e
  }

  /** `d3.values(m)`: the values of `m` in key enumeration order. */
  function Values<V>(m: map<int, V>, inserted: seq<int>): (r: seq<V>)
    requires Ordered(m, inserted)
    ensures |r| == |m|
  {
    Pick(m, EnumeratedKeys(m, inserted))
  }

  /** The entries of `m` at the keys `ks`, in that order. */
  function Pick<V>(m: map<int, V>, ks: seq<int>): (r: seq<V>)
    requires forall i :: 0 <= i < |ks| ==> ks[i] in m
    ensures |r| == |ks|
    ensures forall i {:trigger r[i]} :: 0 <= i < |ks| ==> r[i] == m[ks[i]]
    decreases |ks|
  {
    if ks == [] then [] else [m[ks[0]]] + Pick(m, ks[1..])
  }

  /** Each node with its stamped id and with `z` taken from the shadow
      chosen at its turn: the previous map's entry if there is one, else
      the new shadow made from the node's own `z`. */
  function WriteBack<P>(prior: map<int, Shadow<P>>, ids: seq<int>, nodes: seq<Node<P>>): (r: seq<Node<P>>)
    requires |ids| == |nodes|
    ensures |r| == |nodes|
    ensures forall i {:trigger r[i]} :: 0 <= i < |nodes| ==>
      r[i] == nodes[i].(id := Some(ids[i]), z := if ids[i] in prior then prior[ids[i]].x else nodes[i].z)
    decreases |nodes|
  {
    if nodes == [] then []
    else
      var z := if ids[0] in prior then prior[ids[0]].x else nodes[0].z;
      [nodes[0].(id := Some(ids[0]), z := z)] + WriteBack(prior, ids[1..], nodes[1..])
  }

  /** Each link with its stamped linkID. */
  function SetLinkIds(ids: seq<int>, links: seq<Link>): (r: seq<Link>)
    requires |ids| == |links|
    ensures |r| == |links|
    ensures forall i {:trigger r[i]} :: 0 <= i < |links| ==> r[i] == links[i].(linkID := Some(ids[i]))
    decreases |links|
  {
    if links == [] then [] else [links[0].(linkID := Some(ids[0]))] + SetLinkIds(ids[1..], links[1..])
  }

  datatype NodeSync<P> = NodeSync(nodes: seq<Node<P>>, shadows: Rebuilt<Shadow<P>>, next: int)

  /** The node half of a tick: stamp missing ids from the node counter,
      rebuild the id-to-shadow map and write each node's shadow `x` back
      onto its `z`. The shadow a node reads is the one chosen at its own
      turn: the previous map's entry, or else the new shadow made from the
      node's own `z`. */
  function SyncNodes<P>(prior: map<int, Shadow<P>>, nodes: seq<Node<P>>, next: int): (r: NodeSync<P>)
    ensures |r.nodes| == |nodes|
    ensures r.next == next + Drawn(NodeIds(nodes), |nodes|)
    ensures forall i {:trigger r.nodes[i]} :: 0 <= i < |nodes| && Truthy(nodes[i].id) ==> r.nodes[i].id == nodes[i].id
    ensures forall i {:trigger r.nodes[i]} :: 0 <= i < |nodes| ==>
      r.nodes[i].id == Some(Stamp(NodeIds(nodes), next).ids[i])
    ensures forall i {:trigger r.nodes[i]} :: 0 <= i < |nodes| ==> r.nodes[i].x == nodes[i].x && r.nodes[i].y == nodes[i].y
    ensures forall i :: 0 <= i < |nodes| ==> r.nodes[i].id.Some? && r.nodes[i].id.value in r.shadows.built
    ensures forall i {:trigger r.nodes[i]} :: 0 <= i < |nodes| && r.nodes[i].id.value in prior ==>
      r.nodes[i].z == prior[r.nodes[i].id.value].x
    ensures forall i {:trigger r.nodes[i]} :: 0 <= i < |nodes| && r.nodes[i].id.value !in prior ==> r.nodes[i].z == nodes[i].z
    ensures |r.shadows.order| == |r.shadows.built|
    ensures forall k :: k in r.shadows.order <==> k in r.shadows.built
  {
    var ids := NodeIds(nodes);
    var st := Stamp(ids, next);
    var rb := Rebuild(prior, st.ids, NewShadows(st.ids, nodes));
    var out := WriteBack(prior, st.ids, nodes);
    assert forall i {:trigger out[i]} :: 0 <= i < |nodes| ==> out[i].id == Some(st.ids[i]) && ids[i] == nodes[i].id;
    NodeSync(out, rb, st.next)
  }

  datatype LinkSync<P> = LinkSync(links: seq<Link>, shadows: Rebuilt<ShadowLink<P>>, next: int)

  /** The link half of a tick: stamp missing link ids from the link
      counter and rebuild the linkID-to-shadow-link map. A new shadow link
      points at the entries of the node map `shadows` just rebuilt. */
  function SyncLinks<P>(prior: map<int, ShadowLink<P>>, shadows: map<int, Shadow<P>>, nodes: seq<Node<P>>,
                        links: seq<Link>, next: int): (r: LinkSync<P>)
    ensures |r.links| == |links|
    ensures r.next == next + Drawn(LinkIds(links), |links|)
    ensures forall i {:trigger r.links[i]} :: 0 <= i < |links| && Truthy(links[i].linkID) ==> r.links[i].linkID == links[i].linkID
    ensures forall i {:trigger r.links[i]} :: 0 <= i < |links| ==>
      r.links[i].linkID == Some(Stamp(LinkIds(links), next).ids[i])
    ensures forall i {:trigger r.links[i]} :: 0 <= i < |links| ==> r.links[i].source == links[i].source && r.links[i].target == links[i].target
    ensures forall i :: 0 <= i < |links| ==> r.links[i].linkID.Some? && r.links[i].linkID.value in r.shadows.built
    ensures |r.shadows.order| == |r.shadows.built|
    ensures forall k :: k in r.shadows.order <==> k in r.shadows.built
  {
    var ids := LinkIds(links);
    var st := Stamp(ids, next);
    var rb := Rebuild(prior, st.ids, NewShadowLinks(shadows, nodes, links));
    var out := SetLinkIds(st.ids, links);
    assert forall i {:trigger out[i]} :: 0 <= i < |links| ==> out[i].linkID == Some(st.ids[i]) && ids[i] == links[i].linkID;
    LinkSync(out, rb, st.next)
  }

  /** `order` lists each key of `m` once: the insertion order of the
      JavaScript object that `m` models. */
  ghost predicate Ordered<V>(m: map<int, V>, order: seq<int>) {
    && |order| == |m|
    && forall k :: k in order <==> k in m
  }

  /** What one tick produces: the new closure state, the caller's nodes and
      links as the tick leaves them, the order in which keys were inserted
      into the two fresh shadow objects, and the handler the tick invokes. */
  datatype TickResult<P> = TickResult(
    state: Sync<P>,
    nodes: seq<Node<P>>,
    links: seq<Link>,
    zNodeOrder: seq<int>,
    zLinkOrder: seq<int>,
    called: Option<Handler>)

  /** The planar engine's tick listener, applied to its current node and
      link lists. */
  function Tick<P>(s: Sync<P>, nodes: seq<Node<P>>, links: seq<Link>): (r: TickResult<P>)
    ensures |r.nodes| == |nodes| && |r.links| == |links|
    ensures r.state.tickFn == s.tickFn && r.called == s.tickFn
    ensures Ordered(r.state.zNodes, r.zNodeOrder) && Ordered(r.state.zLinks, r.zLinkOrder)
    ensures forall i :: 0 <= i < |r.nodes| ==> r.nodes[i].id.Some? && r.nodes[i].id.value in r.state.zNodes
    ensures forall i :: 0 <= i < |r.links| ==> r.links[i].linkID.Some? && r.links[i].linkID.value in r.state.zLinks
  {
    var ns := SyncNodes(s.zNodes, nodes, s.nodeID);
    var ls := SyncLinks(s.zLinks, ns.shadows.built, ns.nodes, links, s.linkID);
    TickResult(
      Sync(ns.shadows.built, ls.shadows.built, ns.next, ls.next, s.tickFn),
      ns.nodes, ls.links, ns.shadows.order, ls.shadows.order, s.tickFn)
  }

  /** `forceZ.nodes(d3.values(zNodes))`: the shadow nodes handed to the Z
      engine at the end of a tick. */
  function ZEngineNodes<P>(r: TickResult<P>): (zs: seq<Shadow<P>>)
    requires Ordered(r.state.zNodes, r.zNodeOrder)
    ensures |zs| == |r.state.zNodes|
  {
    Values(r.state.zNodes, r.zNodeOrder)
  }

  /** `forceZ.links(d3.values(zLinks))`: the shadow links handed to the Z
      engine at the end of a tick. */
  function ZEngineLinks<P>(r: TickResult<P>): (zs: seq<ShadowLink<P>>)
    requires Ordered(r.state.zLinks, r.zLinkOrder)
    ensures |zs| == |r.state.zLinks|
  {
    Values(r.state.zLinks, r.zLinkOrder)
  }
}
