/** The network: the packets in flight, in the order they were sent. Delivery may
    take any of them; FIFO per ordered pair of ranks is a restriction of that. */
module Network {
  import opened Records
  import opened RankModel

  function RemoveAt<T>(s: seq<T>, i: nat): seq<T>
    requires i < |s|
  {
    s[..i] + s[i + 1..]
  }

  /** No earlier packet travels between the same two ranks. */
  ghost predicate FirstOnChannel(net: seq<Packet>, i: nat)
    requires i < |net|
  {
    forall j :: 0 <= j < i ==> net[j].src != net[i].src || net[j].dst != net[i].dst
  }

  lemma RemoveAtMembers(net: seq<Packet>, i: nat)
    requires i < |net|
    ensures forall p :: p in net && p != net[i] ==> p in RemoveAt(net, i)
    ensures forall p :: p in RemoveAt(net, i) ==> p in net
  {
    forall p | p in net && p != net[i] ensures p in RemoveAt(net, i) {
      var j :| 0 <= j < |net| && net[j] == p;
      assert RemoveAt(net, i)[if j < i then j else j - 1] == p;
    }
  }

  // ---------- counting ----------

  datatype Query =
    | AllUpdates | AllRequests | AllResponses
    | UpdatesOf(id: EntityID)
    | ExistenceOf(id: EntityID, rank: NodeType)

  predicate Matches(q: Query, p: Packet) {
    match q
    case AllUpdates => p.msg.UpdateHome?
    case AllRequests => p.msg.LocationRequest? || p.msg.ExistsRequest?
    case AllResponses => p.msg.ResolveResponse? || p.msg.ExistsResponse?
    case UpdatesOf(id) => p.msg.UpdateHome? && p.msg.id == id
    case ExistenceOf(id, rank) =>
      p.msg.id == id && ((p.msg.ExistsRequest? && p.src == rank) || (p.msg.ExistsResponse? && p.dst == rank))
  }

  function Count(net: seq<Packet>, q: Query): nat {
    if net == [] then 0 else (if Matches(q, net[0]) then 1 else 0) + Count(net[1..], q)
  }

  lemma {:induction false} CountAppend(a: seq<Packet>, b: seq<Packet>, q: Query)
    ensures Count(a + b, q) == Count(a, q) + Count(b, q)
  {
    if a == [] {
      assert a + b == b;
    } else {
      assert (a + b)[1..] == a[1..] + b;
      CountAppend(a[1..], b, q);
    }
  }

  lemma CountOne(p: Packet, q: Query)
    ensures Count([p], q) == if Matches(q, p) then 1 else 0
  {
    assert [p][1..] == [];
  }

  lemma CountRemoveAt(net: seq<Packet>, i: nat, q: Query)
    requires i < |net|
    ensures Count(RemoveAt(net, i), q) == Count(net, q) - if Matches(q, net[i]) then 1 else 0
  {
    assert net == net[..i] + ([net[i]] + net[i + 1..]);
    CountAppend(net[..i], [net[i]] + net[i + 1..], q);
    CountAppend([net[i]], net[i + 1..], q);
    CountAppend(net[..i], net[i + 1..], q);
    CountOne(net[i], q);
  }

  lemma {:induction false} CountNone(net: seq<Packet>, q: Query)
    ensures Count(net, q) == 0 <==> forall p :: p in net ==> !Matches(q, p)
  {
    if net != [] {
      CountNone(net[1..], q);
      assert forall p :: p in net <==> p == net[0] || p in net[1..];
    }
  }

  /** The count after delivering one packet and sending others. */
  lemma CountExchange(net: seq<Packet>, i: nat, sends: seq<Packet>, q: Query)
    requires i < |net|
    ensures Count(RemoveAt(net, i) + sends, q)
         == Count(net, q) - (if Matches(q, net[i]) then 1 else 0) + Count(sends, q)
  {
    CountRemoveAt(net, i, q);
    CountAppend(RemoveAt(net, i), sends, q);
  }

  // ---------- the newest location on a channel ----------

  /** Tells `p.dst` where `id` lives. */
  predicate BearsLocation(p: Packet, id: EntityID) {
    && p.msg.id == id
    && (p.msg.ResolveResponse? || (p.msg.ExistsResponse? && p.msg.found))
  }

  /** The node in the last packet to `dst` that bears a location of `id`. */
  function Newest(net: seq<Packet>, dst: NodeType, id: EntityID): Option<NodeType> {
    if net == [] then None
    else
      var p := net[|net| - 1];
      if p.dst == dst && BearsLocation(p, id) then Some(p.msg.node)
      else Newest(net[..|net| - 1], dst, id)
  }

  lemma {:induction false} NewestAppend(a: seq<Packet>, b: seq<Packet>, dst: NodeType, id: EntityID)
    ensures Newest(a + b, dst, id) ==
            if Newest(b, dst, id).Some? then Newest(b, dst, id) else Newest(a, dst, id)
  {
    if b == [] {
      assert a + b == a;
    } else {
      assert (a + b)[..|a + b| - 1] == a + b[..|b| - 1];
      assert (a + b)[|a + b| - 1] == b[|b| - 1];
      NewestAppend(a, b[..|b| - 1], dst, id);
    }
  }

  lemma NewestOne(p: Packet, dst: NodeType, id: EntityID)
    ensures Newest([p], dst, id) == if p.dst == dst && BearsLocation(p, id) then Some(p.msg.node) else None
  {
    assert [p][..0] == [];
  }

  lemma {:induction false} NewestNone(net: seq<Packet>, dst: NodeType, id: EntityID)
    ensures Newest(net, dst, id).None? <==> forall p :: p in net && p.dst == dst ==> !BearsLocation(p, id)
  {
    if net != [] {
      var rest := net[..|net| - 1];
      NewestNone(rest, dst, id);
      assert net == rest + [net[|net| - 1]];
      assert forall p :: p in net <==> p == net[|net| - 1] || p in rest;
    }
  }

  /** Delivering a packet that says nothing to `dst` about `id` leaves the newest alone. */
  lemma NewestSkip(net: seq<Packet>, i: nat, dst: NodeType, id: EntityID)
    requires i < |net| && !(net[i].dst == dst && BearsLocation(net[i], id))
    ensures Newest(RemoveAt(net, i), dst, id) == Newest(net, dst, id)
  {
    assert net == net[..i] + ([net[i]] + net[i + 1..]);
    NewestAppend(net[..i], [net[i]] + net[i + 1..], dst, id);
    NewestAppend([net[i]], net[i + 1..], dst, id);
    NewestAppend(net[..i], net[i + 1..], dst, id);
    NewestOne(net[i], dst, id);
  }

  /** Delivering the oldest one either leaves the newest alone or was the newest. */
  lemma NewestOldestTaken(net: seq<Packet>, i: nat, dst: NodeType, id: EntityID)
    requires i < |net| && net[i].dst == dst && BearsLocation(net[i], id)
    requires forall j :: 0 <= j < i && net[j].dst == dst ==> !BearsLocation(net[j], id)
    ensures Newest(RemoveAt(net, i), dst, id) == Newest(net, dst, id) ||
            (Newest(RemoveAt(net, i), dst, id).None? && Newest(net, dst, id) == Some(net[i].msg.node))
  {
    assert net == net[..i] + ([net[i]] + net[i + 1..]);
    NewestAppend(net[..i], [net[i]] + net[i + 1..], dst, id);
    NewestAppend([net[i]], net[i + 1..], dst, id);
    NewestAppend(net[..i], net[i + 1..], dst, id);
    NewestOne(net[i], dst, id);
    NewestNone(net[..i], dst, id);
  }
}
