/** The whole system: N ranks and the packets in flight. An action is one API call
    on one rank or the delivery of one packet; a run is any list of enabled actions. */
module Protocol {
  import opened Records
  import opened RankModel
  import opened Network

  /** Number of ranks, home of every entity, cache capacity per rank. */
  datatype Config = Config(n: nat, home: EntityID -> NodeType, cap: nat) {
    ghost predicate Valid() {
      1 <= cap && forall id :: 0 <= home(id) < n
    }

    predicate IsRank(r: NodeType) {
      0 <= r < n
    }

    /** `r` is a rank other than the home of `id`. */
    predicate Away(id: EntityID, r: NodeType) {
      0 <= r < n && r != home(id)
    }
  }

  /** `sent` and `fired` are history: everything ever sent, every callback ever run. */
  datatype System = System(ranks: seq<RankState>, net: seq<Packet>, sent: seq<Packet>, fired: seq<Firing>)

  datatype Action =
    | Register(rank: NodeType, id: EntityID, order: seq<NodeType>)
    | Emigrate(rank: NodeType, id: EntityID, newNode: NodeType)
    | Unregister(rank: NodeType, id: EntityID)
    | GetLocation(rank: NodeType, id: EntityID, token: Token)
    | EntityExists(rank: NodeType, id: EntityID, token: Token)
    | ClearCache(rank: NodeType)
    | Deliver(index: nat, packet: Packet, order: seq<NodeType>)
  {
    function Actor(): NodeType {
      if Deliver? then packet.dst else rank
    }
  }

  function Init(c: Config): System {
    System(seq(c.n, r => Fresh(r, c.cap)), [], [], [])
  }

  /** `id` becomes known to its home in this action. */
  predicate Announces(c: Config, a: Action, id: EntityID) {
    || (a.Register? && a.id == id && a.rank == c.home(id))
    || (a.Deliver? && a.packet.msg.UpdateHome? && a.packet.msg.id == id)
  }

  /** The only demands: ranks are ranks, a delivery takes a packet in flight, and an
      announcement visits the askers in some order. */
  ghost predicate Enabled(c: Config, s: System, a: Action) {
    && |s.ranks| == c.n
    && c.IsRank(a.Actor())
    && 1 <= s.ranks[a.Actor()].recs.cap
    && (a.Emigrate? ==> c.IsRank(a.newNode))
    && (a.Deliver? ==> a.index < |s.net| && s.net[a.index] == a.packet)
    && (a.Register? && Announces(c, a, a.id) ==> Enumerates(a.order, Askers(s.ranks[a.rank], a.id)))
    && (a.Deliver? && a.packet.msg.UpdateHome? ==>
          Enumerates(a.order, Askers(s.ranks[a.packet.dst], a.packet.msg.id)))
  }

  /** What the acting rank does. */
  function Acts(c: Config, k: RankState, a: Action): Effect
    requires 1 <= k.recs.cap
  {
    match a
    case Register(_, id, order) => RankModel.Register(k, id, c.home(id), order)
    case Emigrate(_, id, newNode) => RankModel.Emigrate(k, id, newNode)
    case Unregister(_, id) => RankModel.Unregister(k, id)
    case GetLocation(_, id, token) => RankModel.GetLocation(k, id, c.home(id), token)
    case EntityExists(_, id, token) => RankModel.EntityExists(k, id, c.home(id), token)
    case ClearCache(_) => RankModel.ClearCache(k)
    case Deliver(_, packet, order) => Handle(k, packet.msg, order)
  }

  ghost function Apply(c: Config, s: System, a: Action): System
    requires Enabled(c, s, a)
  {
    var e := Acts(c, s.ranks[a.Actor()], a);
    System(
      s.ranks[a.Actor() := e.state],
      (if a.Deliver? then RemoveAt(s.net, a.index) else s.net) + e.sends,
      s.sent + e.sends,
      s.fired + e.fires)
  }

  /** The state after the run `acts`, if every action was enabled in turn. */
  ghost function Run(c: Config, acts: seq<Action>): Option<System> {
    if acts == [] then Some(Init(c))
    else
      var before := Run(c, acts[..|acts| - 1]);
      var a := acts[|acts| - 1];
      if before.Some? && Enabled(c, before.value, a) then Some(Apply(c, before.value, a)) else None
  }

  lemma LastAction(acts: seq<Action>)
    requires acts != []
    ensures acts == acts[..|acts| - 1] + [acts[|acts| - 1]]
  {
  }

  /** How a step changes the packets in flight. */
  lemma NetStep(c: Config, s: System, a: Action)
    requires Enabled(c, s, a)
    ensures
      var s', sends := Apply(c, s, a), Acts(c, s.ranks[a.Actor()], a).sends;
      && (forall p :: p in sends ==> p in s'.net)
      && (forall p :: p in s.net && !(a.Deliver? && p == a.packet) ==> p in s'.net)
      && (forall p :: p in s'.net ==> p in s.net || p in sends)
  {
    if a.Deliver? { RemoveAtMembers(s.net, a.index); }
  }
}
