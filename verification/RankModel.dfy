/** One rank of the resolver as a value: its state, the control messages, and what
    each API call and each handler does to it. A callback is a token; running it is
    a firing. What leaves the rank is returned beside the new state. */
module RankModel {
  import opened Records
  import opened LookupTable

  type Token = nat

  datatype Msg =
    | UpdateHome(id: EntityID, node: NodeType)
    | LocationRequest(id: EntityID, requester: NodeType)
    | ResolveResponse(id: EntityID, node: NodeType)
    | ExistsRequest(id: EntityID, requester: NodeType)
    | ExistsResponse(id: EntityID, found: bool, node: NodeType)

  datatype Packet = Packet(src: NodeType, dst: NodeType, msg: Msg)

  /** What a callback is invoked with: a location callback with a node, an existence
      callback with a verdict and a node. */
  datatype Answer = Location(node: NodeType) | Existence(found: bool, node: NodeType)

  datatype Firing = Firing(rank: NodeType, id: EntityID, token: Token, answer: Answer)

  datatype RankState = RankState(
    me: NodeType,
    local: set<EntityID>,
    recs: Table<EntityID, LocRecord>,
    pending: map<EntityID, seq<Token>>,
    pendingExists: map<EntityID, seq<Token>>,
    pendingHome: map<EntityID, seq<NodeType>>,
    locAsks: map<EntityID, set<NodeType>>)

  datatype Effect = Effect(state: RankState, sends: seq<Packet>, fires: seq<Firing>)

  function Fresh(me: NodeType, cap: nat): RankState {
    RankState(me, {}, Table(map[], [], cap), map[], map[], map[], map[])
  }

  // ---------- helpers ----------

  /** The buffered list under `id`; an absent key is an empty list. */
  function Buffered<T>(m: map<EntityID, seq<T>>, id: EntityID): seq<T> {
    if id in m then m[id] else []
  }

  function Askers(k: RankState, id: EntityID): set<NodeType> {
    if id in k.locAsks then k.locAsks[id] else {}
  }

  function Fanout(src: NodeType, dsts: seq<NodeType>, msg: Msg): (packets: seq<Packet>)
    ensures |packets| == |dsts|
    ensures forall i :: 0 <= i < |dsts| ==> packets[i] == Packet(src, dsts[i], msg)
  {
    seq(|dsts|, i requires 0 <= i < |dsts| => Packet(src, dsts[i], msg))
  }

  function Fire(rank: NodeType, id: EntityID, tokens: seq<Token>, answer: Answer): (fires: seq<Firing>)
    ensures |fires| == |tokens|
    ensures forall i :: 0 <= i < |tokens| ==> fires[i] == Firing(rank, id, tokens[i], answer)
  {
    seq(|tokens|, i requires 0 <= i < |tokens| => Firing(rank, id, tokens[i], answer))
  }

  /** `order` visits every member of `s` exactly once. */
  ghost predicate Enumerates(order: seq<NodeType>, s: set<NodeType>) {
    multiset(order) == multiset(s)
  }

  function Elements(xs: seq<NodeType>): set<NodeType> {
    set x | x in xs
  }

  /** The node recorded for a known entity. */
  function KnownNode(k: RankState, id: EntityID): NodeType
    requires k.recs.Exists(id)
  {
    k.recs.Read(id).value.curNode
  }

  // ---------- the home learns a location ----------

  /** The location of `id` is now `node`: record it, refresh the askers in the given
      order, answer the early requesters, and run the local waiters. */
  function Announce(k: RankState, id: EntityID, node: NodeType, order: seq<NodeType>): Effect
    requires 1 <= k.recs.cap
  {
    var early := Buffered(k.pendingHome, id);
    var msg := ResolveResponse(id, node);
    Effect(
      k.(recs := k.recs.Stored(id, true, MakeRec(id, node, k.me)),
         pending := k.pending - {id},
         pendingHome := k.pendingHome - {id},
         locAsks := if id in k.pendingHome then k.locAsks[id := Askers(k, id) + Elements(early)] else k.locAsks),
      Fanout(k.me, order, msg) + Fanout(k.me, early, msg),
      Fire(k.me, id, Buffered(k.pending, id), Location(node)))
  }

  // ---------- API calls ----------

  function Register(k: RankState, id: EntityID, home: NodeType, order: seq<NodeType>): Effect
    requires 1 <= k.recs.cap
  {
    var k' := k.(local := k.local + {id});
    if home == k.me then Announce(k', id, k.me, order)
    else Effect(k', [Packet(k.me, home, UpdateHome(id, k.me))], [])
  }

  function Emigrate(k: RankState, id: EntityID, newNode: NodeType): Effect
    requires 1 <= k.recs.cap
  {
    Effect(k.(local := k.local - {id}, recs := k.recs.Updated(id, MakeRec(id, newNode, k.me))), [], [])
  }

  function Unregister(k: RankState, id: EntityID): Effect {
    Effect(k.(local := k.local - {id}, recs := k.recs.Removed(id)), [], [])
  }

  function GetLocation(k: RankState, id: EntityID, home: NodeType, token: Token): Effect {
    if id in k.local then
      Effect(k, [], [Firing(k.me, id, token, Location(k.me))])
    else if k.recs.Exists(id) then
      Effect(k.(recs := k.recs.Gotten(id)), [], [Firing(k.me, id, token, Location(KnownNode(k, id)))])
    else
      var list := Buffered(k.pending, id) + [token];
      Effect(
        k.(pending := k.pending[id := list]),
        if |list| == 1 && home != k.me then [Packet(k.me, home, LocationRequest(id, k.me))] else [],
        [])
  }

  function EntityExists(k: RankState, id: EntityID, home: NodeType, token: Token): Effect {
    if id in k.local then
      Effect(k, [], [Firing(k.me, id, token, Existence(true, k.me))])
    else if k.recs.Exists(id) then
      Effect(k.(recs := k.recs.Gotten(id)), [], [Firing(k.me, id, token, Existence(true, KnownNode(k, id)))])
    else if home == k.me then
      Effect(k, [], [Firing(k.me, id, token, Existence(false, NO_NODE))])
    else
      var list := Buffered(k.pendingExists, id) + [token];
      Effect(
        k.(pendingExists := k.pendingExists[id := list]),
        if |list| == 1 then [Packet(k.me, home, ExistsRequest(id, k.me))] else [],
        [])
  }

  function ClearCache(k: RankState): Effect {
    Effect(k.(recs := k.recs.Cleared()), [], [])
  }

  // ---------- handlers ----------

  function OnLocationRequest(k: RankState, id: EntityID, requester: NodeType): Effect {
    if k.recs.Exists(id) then
      Effect(
        k.(recs := k.recs.Gotten(id), locAsks := k.locAsks[id := Askers(k, id) + {requester}]),
        [Packet(k.me, requester, ResolveResponse(id, KnownNode(k, id)))], [])
    else if id in k.local then
      Effect(
        k.(locAsks := k.locAsks[id := Askers(k, id) + {requester}]),
        [Packet(k.me, requester, ResolveResponse(id, k.me))], [])
    else
      Effect(k.(pendingHome := k.pendingHome[id := Buffered(k.pendingHome, id) + [requester]]), [], [])
  }

  function OnResolveResponse(k: RankState, id: EntityID, node: NodeType): Effect
    requires 1 <= k.recs.cap
  {
    Effect(
      k.(recs := k.recs.Updated(id, MakeRec(id, node, k.me)), pending := k.pending - {id}),
      [],
      Fire(k.me, id, Buffered(k.pending, id), Location(node)))
  }

  function OnExistsRequest(k: RankState, id: EntityID, requester: NodeType): Effect {
    if k.recs.Exists(id) then
      Effect(
        k.(recs := k.recs.Gotten(id)),
        [Packet(k.me, requester, ExistsResponse(id, true, KnownNode(k, id)))], [])
    else if id in k.local then
      Effect(k, [Packet(k.me, requester, ExistsResponse(id, true, k.me))], [])
    else
      Effect(k, [Packet(k.me, requester, ExistsResponse(id, false, NO_NODE))], [])
  }

  function OnExistsResponse(k: RankState, id: EntityID, found: bool, node: NodeType): Effect
    requires 1 <= k.recs.cap
  {
    Effect(
      k.(recs := if found then k.recs.Updated(id, MakeRec(id, node, k.me)) else k.recs,
         pendingExists := k.pendingExists - {id}),
      [],
      Fire(k.me, id, Buffered(k.pendingExists, id), Existence(found, node)))
  }

  /** What delivering `msg` does; `order` matters only when it makes the home announce. */
  function Handle(k: RankState, msg: Msg, order: seq<NodeType>): Effect
    requires 1 <= k.recs.cap
  {
    match msg
    case UpdateHome(id, node) => Announce(k, id, node, order)
    case LocationRequest(id, requester) => OnLocationRequest(k, id, requester)
    case ResolveResponse(id, node) => OnResolveResponse(k, id, node)
    case ExistsRequest(id, requester) => OnExistsRequest(k, id, requester)
    case ExistsResponse(id, found, node) => OnExistsResponse(k, id, found, node)
  }
}
