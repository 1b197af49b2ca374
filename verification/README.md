# force3d shadow synchronisation, in Dafny

`d3.layout.force3d` builds a three-dimensional force layout out of two
planar d3 force engines. The XY engine lays out the caller's nodes and
links. The Z engine lays out *shadow* copies of them, whose `x` is read
back as each node's `z`. On every tick of the XY engine, the composite does
four things:

- it stamps a missing `id` on each node and a missing `linkID` on each link,
  drawing from two counters that start at 1;
- it rebuilds the id-to-shadow map from scratch, reusing existing shadows
  and creating new ones from the node's `z`;
- it writes each shadow's `x` back onto the node's `z`;
- it rebuilds the linkID-to-shadow-link map the same way. A new shadow link
  points into the node map just rebuilt.

The composite also forwards every method of the XY engine, and all but
`nodes` and `links` also go to the Z engine. It keeps the `tick` event for
itself in a single handler slot.

The model is functional. The tick is a pure function from the closure state
(`zNodes`, `zLinks`, `nodeID`, `linkID`, the tick handler) and the current
node and link lists to a new state and the updated lists.

The modules are:

- `ShadowSync` (`shadow_sync.dfy`): the data model and the tick. Its
  building blocks are `Stamp` for the id stamping, `Rebuild` for the map
  rebuild and `SyncNodes` / `SyncLinks` for the two halves of the tick.
- `KeyOrder` (`key_order.dfy`): the order in which JavaScript enumerates an
  object's keys. This is the order in which `d3.values` hands the shadows to
  the Z engine.
- `SyncProperties` (`sync_properties.dfy`): the properties of the tick.
- `Facade` and `FacadeProperties` (`facade.dfy`, `facade_properties.dfy`):
  the `on` override and the forwarder, with call logs standing in for the
  two engines.
- `TickRuns` (`tick_runs.dfy`): a run of ticks, each starting from the state
  the previous one left, folded with `Fold` over the list of per-tick
  node and link lists.
- `CallerIds` (`caller_ids.dfy`): what happens when callers set ids
  themselves.
- `Options` (`options.dfy`): the `Option` type. `None` stands for
  JavaScript's `undefined`.

Modelling choices:

- Positions have an opaque type parameter `P`: the core only copies them.
- An id is an `Option<int>`. The test `!d.id` is `Truthy`, under which
  `None` and `0` are falsy.
- A link's `source` and `target` are positions in the current node list.
- Every entry of a list is a separate object. The source stamps the object
  itself (`d.id = nodeID++`), so an object listed twice would be stamped
  once; the model treats the two entries as two nodes (or links).
- The per-node loop is split into a stamping pass followed by a rebuild
  pass. When every list entry is a separate object this is equivalent,
  because stamping node `i` never reads the shadow map and never changes
  another entry.
- The `z` written back to a node comes from the shadow chosen at that node's
  turn (`_zNodes[d.id]` right after it was assigned). When two new nodes
  share an id, that shadow is not necessarily the map's final entry.

## Model

| member | source | states |
|---|---|---|
| ShadowSync.Initial | libs/d3.layout.force3d.js:9-13 | A new layout has empty shadow maps, both counters at exactly 1 and the default handler `Object` in the tick slot. Every shadow is filed under its own id. |
| ShadowSync.Stamp | libs/d3.layout.force3d.js:41-42 | A truthy id is kept. The i-th falsy id is replaced by the counter's start plus the number of falsy ids before it. The counter ends advanced by exactly the number of falsy ids. |
| ShadowSync.Rebuild | libs/d3.layout.force3d.js:40-46 | Every key of the list is in the rebuilt map. The insertion order lists each key of the map exactly once. |
| ShadowSync.RebuildOnlyCurrentKeys | libs/d3.layout.force3d.js:40-46 | The rebuilt map has no key outside the current list, so entries of vanished nodes are dropped. |
| ShadowSync.RebuildReuses | libs/d3.layout.force3d.js:43 | A key already in the previous map keeps the previous entry unchanged. |
| ShadowSync.RebuildMakesLast | libs/d3.layout.force3d.js:43 | A key absent from the previous map gets the value made for its last position in the list. |
| ShadowSync.SyncNodes | libs/d3.layout.force3d.js:40-46 | For the node half of a tick: truthy ids are kept and the others are stamped from the counter; `x` and `y` are untouched. Every node's id has a shadow. A node whose id had a shadow gets that shadow's `x` as `z`, and any other node keeps its `z`. |
| ShadowSync.SyncLinks | libs/d3.layout.force3d.js:49-56 | For the link half: truthy linkIDs are kept and the others are stamped from the link counter. Endpoints are untouched, and every linkID has a shadow link. |
| ShadowSync.Tick | libs/d3.layout.force3d.js:37-65 | The lists keep their lengths. The handler slot is unchanged and its handler is the one called. Every id and linkID after the tick has an entry in its shadow map. |
| ShadowSync.EnumeratedKeys | libs/d3.layout.force3d.js:59-60 | The enumeration of an object's keys lists every key exactly once: no key is repeated, none is missing and nothing else appears. |
| KeyOrder.Enumerate | libs/d3.layout.force3d.js:59-60 | `for ... in` order: a permutation of the keys. Array-index keys come first, ascending, and the other keys follow in insertion order. |
| KeyOrder.SelectConcat | libs/d3.layout.force3d.js:59-60 | Selecting the array-index keys (or the other keys) from a sequence split in two selects from each part and joins the results, so the selected keys keep their input order. |
| KeyOrder.SelectOne | libs/d3.layout.force3d.js:59-60 | A single key is selected exactly when it is of the kind asked for. With SelectConcat this determines the selection, order included. |
| SyncProperties.SyncNodesKeys | libs/d3.layout.force3d.js:40-46 | After the node half, the shadow map's keys are exactly the nodes' ids. |
| SyncProperties.SyncNodesReuses | libs/d3.layout.force3d.js:43 | An existing shadow for a current id is kept as it was. |
| SyncProperties.SyncNodesCreates | libs/d3.layout.force3d.js:43 | A node whose id had no shadow, and which is the last node with that id, gets a new shadow with its id and with `x`, `y`, `px`, `py` all equal to its `z`. |
| SyncProperties.SyncNodesAgree | libs/d3.layout.force3d.js:43-44 | With distinct ids, every node's `z` equals its shadow's `x`. |
| SyncProperties.SyncNodesFilesById | libs/d3.layout.force3d.js:43 | Every shadow stays filed under its own id. |
| SyncProperties.SyncLinksKeys | libs/d3.layout.force3d.js:49-56 | After the link half, the shadow-link map's keys are exactly the links' linkIDs. |
| SyncProperties.SyncLinksReuses | libs/d3.layout.force3d.js:53 | An existing shadow link for a current linkID is kept as it was. |
| SyncProperties.SyncLinksCreates | libs/d3.layout.force3d.js:53 | A new shadow link, for the last link with its linkID, points at the given node map's entries for its endpoints' ids. |
| SyncProperties.SyncNodesStampsFromCounter | libs/d3.layout.force3d.js:42 | A node without a truthy id gets the counter value that follows the ids drawn before it in the list. |
| SyncProperties.SyncLinksStampsFromCounter | libs/d3.layout.force3d.js:52 | The same for links and the link counter. |
| SyncProperties.SyncNodesStampsInOrder | libs/d3.layout.force3d.js:42 | Counter-assigned ids lie between the old and new counter values and strictly increase in list order. |
| SyncProperties.SyncLinksStampsInOrder | libs/d3.layout.force3d.js:52 | Counter-assigned linkIDs lie between the old and new counter values and strictly increase in list order. |
| SyncProperties.TickStampsIds | libs/d3.layout.force3d.js:41-52 | Over a whole tick: truthy ids and linkIDs are kept. Each counter advances by exactly the number of falsy ones, and counter-assigned ids are in range and strictly increasing. |
| SyncProperties.TickStampsFromCounter | libs/d3.layout.force3d.js:41-52 | Over a whole tick, each drawn id or linkID is the counter's old value plus the number drawn before it. |
| SyncProperties.LaterTickIdsLarger | libs/d3.layout.force3d.js:11-12 | Every id or linkID the counter hands out in the next tick is larger than every one it handed out in this tick. |
| TickRuns.StateAt | libs/d3.layout.force3d.js:37-65 | Every state of a run of ticks keeps the handler slot of the state the run started from: a tick never registers a handler, only `on` does. |
| TickRuns.StatesStep | libs/d3.layout.force3d.js:37-65 | Each state of a run is the state the tick before it left: the next tick starts from the maps and counters the previous tick assigned. |
| TickRuns.CountersNeverDecrease | libs/d3.layout.force3d.js:42-52 | Along any run of ticks, neither counter ever decreases. |
| TickRuns.LaterTicksDrawLargerIds | libs/d3.layout.force3d.js:11-12 | Along any run, every id or linkID the counter hands out in a later tick is larger than every one it handed out in an earlier tick, however many ticks lie between them. |
| TickRuns.RunWf | libs/d3.layout.force3d.js:9-13 | Every state of a run from a well-formed state, in particular from a new layout, is well formed, so the second-tick and sorted-feed results apply to every reachable state. |
| SyncProperties.TickMirrorsLists | libs/d3.layout.force3d.js:40-56 | After a tick, the keys of `zNodes` are exactly the current ids and the keys of `zLinks` exactly the current linkIDs. |
| SyncProperties.TickReuses | libs/d3.layout.force3d.js:43-53 | Shadows and shadow links whose key survives the tick are unchanged. |
| SyncProperties.TickLinksFreshShadows | libs/d3.layout.force3d.js:46-53 | A new shadow link's endpoints are the entries of the rebuilt `zNodes` for its endpoint nodes. An endpoint is defined exactly when its position is in the node list. |
| SyncProperties.TickCreatesShadow | libs/d3.layout.force3d.js:43 | For a node new to `zNodes` and last with its id, the new shadow carries its id, and all four planar fields hold the node's `z` from before the tick. |
| SyncProperties.TickWritesBackZ | libs/d3.layout.force3d.js:43-44 | A node with an old shadow takes that shadow's `x` as `z`, and a new node keeps its `z`. With distinct ids, every node's `z` equals its shadow's `x`. |
| SyncProperties.TickCountersGrow | libs/d3.layout.force3d.js:42-52 | Neither counter goes down over a tick. |
| SyncProperties.TickPreservesWf | libs/d3.layout.force3d.js:40-56 | A tick keeps the counters positive and never decreases them. Shadows stay filed under their own ids. |
| SyncProperties.TickLeavesTruthyIds | libs/d3.layout.force3d.js:42-52 | After a tick, every node and link of the lists carries a truthy id. |
| SyncProperties.SyncNodesIdle | libs/d3.layout.force3d.js:40-46 | When the nodes carry truthy ids that are exactly the map's keys, a node pass keeps the map, the counter and every id, and sets each `z` to its shadow's `x`. When every `z` already equals that, the pass is the identity. |
| SyncProperties.SyncNodesKeepsList | libs/d3.layout.force3d.js:41-44 | When every node carries a truthy id that already has a shadow, a node pass keeps the counter and every id and `x`/`y`, and sets each `z` to its shadow's `x`. |
| SyncProperties.SyncNodesKeepsMap | libs/d3.layout.force3d.js:40-46 | When the nodes carry truthy ids that are exactly the map's keys, the rebuilt map equals the previous one. |
| SyncProperties.SyncLinksIdle | libs/d3.layout.force3d.js:49-56 | A link pass is the identity when every link carries a truthy linkID and those linkIDs are exactly the map's keys. |
| SyncProperties.SecondTickStable | libs/d3.layout.force3d.js:37-56 | On any well-formed state, a second tick over the lists the first one left changes no counter, shadow, shadow link, link or id. It only sets each node's `z` to its shadow's `x`. With distinct ids it changes nothing at all. |
| SyncProperties.ValuesCover | libs/d3.layout.force3d.js:59-60 | `d3.values` walks the keys in enumeration order, each key exactly once, and its i-th element is the map's value at the i-th key. So every value appears once per key mapping to it, and nothing else appears. |
| ShadowSync.Values | libs/d3.layout.force3d.js:59-60 | `d3.values(m)` has one element per key of the map. |
| SyncProperties.TickFeedsZEngine | libs/d3.layout.force3d.js:58-60 | The arrays pushed into the Z engine hold the shadow of each current id and the shadow link of each current linkID, each exactly once, in key enumeration order. |
| ShadowSync.ZEngineNodes | libs/d3.layout.force3d.js:59 | The array handed to `forceZ.nodes` has one element per shadow. |
| ShadowSync.ZEngineLinks | libs/d3.layout.force3d.js:60 | The array handed to `forceZ.links` has one element per shadow link. |
| SyncProperties.ValuesAscending | libs/d3.layout.force3d.js:59-60 | When every key is an array index, `d3.values` lists the values in ascending key order. |
| SyncProperties.TickFeedsNodesById | libs/d3.layout.force3d.js:59 | When every id is an array index, the shadows reach the Z engine sorted by id. |
| Facade.New | libs/d3.layout.force3d.js:7-15 | A new composite has the initial synchroniser state and empty call logs. Its two dispatch invariants hold. |
| Facade.ToZ | libs/d3.layout.force3d.js:20 | Every call that reaches the Z engine is a call of the XY log not named `nodes` or `links`, and every such call of the XY log reaches it. |
| Facade.On | libs/d3.layout.force3d.js:26-34 | `on("tick", fn)` stores `fn` in the handler slot. Any other event is registered on the XY engine unchanged. Both return the composite, and neither touches the call logs. |
| Facade.Forward | libs/d3.layout.force3d.js:17-23 | A method call goes to the XY engine. It also goes to the Z engine exactly when its name is neither `nodes` nor `links`. The composite is returned when the XY engine returned itself, and the XY engine's result otherwise. |
| FacadeProperties.OnTickReplaces | libs/d3.layout.force3d.js:26-34 | Registering two tick handlers keeps only the second, which is the one the next tick calls. Nothing else changes. |
| FacadeProperties.ForwardNeverLeaks | libs/d3.layout.force3d.js:21 | No forwarded call returns the XY engine itself. |
| FacadeProperties.ToZAppend | libs/d3.layout.force3d.js:20 | One more call on the XY engine extends the Z engine's calls by that call unless it is a list accessor. |
| FacadeProperties.ToZConcat | libs/d3.layout.force3d.js:20 | The calls reaching the Z engine from a log split in two are those from the first part followed by those from the second. Together with ToZAppend this fixes their order to the order of the XY log. |
| FacadeProperties.OnKeepsInvariants | libs/d3.layout.force3d.js:26-34 | `on` keeps the Z call log in step with the XY one and never passes a registration named exactly `tick` to the XY engine. |
| FacadeProperties.TickNamespacePassesThrough | libs/d3.layout.force3d.js:26-34 | `on("tick." + ns, fn)`, for any namespace `ns` including the empty one, leaves the handler slot alone and registers `fn` on the XY engine, and the invariant on exact `tick` names still holds. |
| FacadeProperties.ForwardKeepsInvariants | libs/d3.layout.force3d.js:17-23 | A forwarded call keeps both invariants. |
| FacadeProperties.RunKeepsInvariants | libs/d3.layout.force3d.js:15-34 | From construction, after any sequence of forwarded calls and `on` calls, the Z engine's log of forwarded calls is exactly the XY engine's forwarded calls other than `nodes` and `links`. No registration named exactly `tick` reaches the XY engine. The tick's own calls to `forceZ.nodes`, `forceZ.links` and `forceZ.start` (lines 59-61) are not part of this log. |
| FacadeProperties.ZNeverSeesLists | libs/d3.layout.force3d.js:20 | While the logs are in step, no `nodes` or `links` call forwarded by the composite has reached the Z engine, and each forwarded call it received also went to the XY engine. The tick's own `forceZ.nodes` and `forceZ.links` calls are modelled by ZEngineNodes and ZEngineLinks, not in this log. |
| CallerIds.CounterMeetsCallerId | libs/d3.layout.force3d.js:42-43 | On a new layout, a node given id 1 by its caller and a node without an id both end up with id 1 and share a single shadow. |
| CallerIds.SharedIdSplitsZ | libs/d3.layout.force3d.js:43-44 | When two new nodes share a caller id and differ in `z`, the shadow is made from the later one. The earlier node keeps its own `z`, which then differs from its shadow's `x`. |

## Left out

- `resources/public/force-worker/worker.js` is not part of this model. It loads the compiled ClojureScript and `../libs/d3-3d.js`, then calls `gravity.force.worker.create()`; it does not call `d3.layout.force3d()` itself.
- The d3 force engines themselves are left out: `d3.layout.force()`, the physics that moves `x` and `px`, and `forceZ.start()`. Their source is not part of this model. Calls to them are recorded in call logs, and the XY engine's replies are parameters.
- The physics of the two engines is not modelled. A tick accepts whatever shadow positions its state holds, and a reused shadow is the entry as it stood when the tick began. Shadow links hold shadow values, not references, so a reused shadow link's endpoints are not kept in step with the physics.
- Floating-point positions are not modelled: positions are an opaque type that is only copied.
- The counters are unbounded integers. JavaScript numbers stop being exact above 2^53, which a layout would take that many stampings to reach.
- Ids are integers. String or other non-numeric ids a caller might set are not modelled, and neither are fractional ids.
- A link endpoint is a position in the current node list, and one out of range has no shadow (`None`). Endpoints given as node objects outside the list are not modelled.
- Reflection over the XY engine's method names (`Object.keys`, `apply(this, arguments)`) is replaced by an explicit method name and argument value.
- Facade.Forward: requires the name not to be `on`, because the composite's own `on` replaces the forwarder built for it at construction.
- Facade.Forward: accepts any other method name, including ones the XY engine does not have. In the source a forwarder exists only for the XY engine's own keys (libs/d3.layout.force3d.js:17), so calling any other name throws before either engine is reached; every property is stated for all names and so also covers the names that exist.
- Facade.Forward: the loose comparison `result == forceXY` is modelled as identity with the XY engine. A string that happens to equal the engine's string form is not modelled.
- Event namespaces of d3's dispatcher (`tick.foo`) are not modelled: only the exact name `tick` is intercepted, as in the source, and every other name is recorded as passed to the XY engine (TickNamespacePassesThrough).
- FacadeProperties.OnKeepsInvariants: promises only that no registration named exactly `tick` reaches the XY engine. A namespaced tick name (`tick.foo`, `tick.`) does reach it, where d3's dispatcher adds it as a tick listener; `tick.` would even replace the synchroniser's own listener registered at libs/d3.layout.force3d.js:37. The model does not say what the dispatcher does with it.
- FacadeProperties.RunKeepsInvariants: the same limit: the XY engine may hold the caller's tick listeners under namespaced names (`tick.foo`, `tick.`), since only the exact name `tick` is kept back.
- Timer-driven scheduling of ticks is left out. So is the user callback itself beyond recording which handler the tick calls (`TickResult.called`).
- ShadowSync.Values: states only the number of elements. Its contents and their order are stated by SyncProperties.ValuesCover and SyncProperties.ValuesAscending.
- ShadowSync.ZEngineNodes: states only the number of elements. Its contents are stated by SyncProperties.TickFeedsZEngine and its order by SyncProperties.TickFeedsNodesById and KeyOrder.Enumerate.
- ShadowSync.ZEngineLinks: states only the number of elements. Its contents are stated by SyncProperties.TickFeedsZEngine and its order by KeyOrder.Enumerate.
- ShadowSync.Rebuild: the insertion order it returns is not proved to be the order of first occurrence in the list. That order matters only for keys that are not array indices, such as negative caller ids.
- A node or link object that appears more than once in its list is not modelled: each list entry is treated as a separate object, while the source would stamp the shared object once and both entries would see that id.
- The debugging properties `xy` and `z` (libs/d3.layout.force3d.js:67-69), which expose the two engines to any caller, are not modelled. The composite's own methods never return the XY engine, but these two properties do hand both engines out.
