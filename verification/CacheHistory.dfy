/** What a rank away from home has cached, as a function of the run alone, and from
    that exactly when its record is right, whatever filled it and in whatever order. */
module CacheHistory {
  import opened Records
  import opened Recency
  import opened LookupTable
  import opened RankModel
  import opened Network
  import opened Protocol
  import opened Migration
  import opened RankInvariant
  import opened Subscriptions
  import opened Convergence

  /** The last location of `id` that reached rank `r`: in a response delivered to it, or
      in an emigration it reported itself; none after its own removal of `id`. */
  function LastHeard(acts: seq<Action>, r: NodeType, id: EntityID): Option<NodeType> {
    if acts == [] then None
    else
      var earlier := LastHeard(acts[..|acts| - 1], r, id);
      match acts[|acts| - 1]
      case Deliver(_, p, _) => if p.dst == r && BearsLocation(p, id) then Some(p.msg.node) else earlier
      case Emigrate(x, y, n) => if x == r && y == id then Some(n) else earlier
      case Unregister(x, y) => if x == r && y == id then None else earlier
      case _ => earlier
  }

  /** The record of `id`, if there is one, names the node last heard. */
  predicate Remembers(k: RankState, id: EntityID, heard: Option<NodeType>) {
    Has(k.recs.cache, id) ==> heard == Some(Find(k.recs.cache, id).value.curNode)
  }

  lemma RemembersStep(c: Config, s: System, acts: seq<Action>, a: Action, r: NodeType, id: EntityID)
    requires c.Valid() && SystemInv(c, s) && Enabled(c, s, a) && c.Away(id, r)
    requires Remembers(s.ranks[r], id, LastHeard(acts, r, id))
    ensures Remembers(Apply(c, s, a).ranks[r], id, LastHeard(acts + [a], r, id))
  {
    var acts', k := acts + [a], s.ranks[r];
    assert acts'[..|acts'| - 1] == acts;
    if a.Actor() == r {
      if a.Deliver? { assert Addressed(c, a.packet); }
      if a.Emigrate? && a.id == id {
        UpdateThenRead(k.recs, id, MakeRec(id, a.newNode, k.me));
        assert k.recs.Updated(id, MakeRec(id, a.newNode, k.me)).Read(id).Some?;
      } else if a.Unregister? && a.id == id {
        RemovedFromTable(k.recs, id);
      } else if a.Deliver? && BearsLocation(a.packet, id) {
        ToldIsFiled(c, k, a.packet, a.order, id);
      } else {
        RecordStaysOrGoes(c, k, a, id);
      }
    }
  }

  /** In every run, under any delivery order and any use of the API, a record away from
      home names exactly the node last heard. */
  lemma {:induction false} CacheFollowsRun(c: Config, acts: seq<Action>, s: System, r: NodeType, id: EntityID)
    requires c.Valid() && Run(c, acts) == Some(s) && c.Away(id, r)
    ensures |s.ranks| == c.n && Remembers(s.ranks[r], id, LastHeard(acts, r, id))
    ensures s.ranks[r].recs.Exists(id) ==> LastHeard(acts, r, id) == Some(KnownNode(s.ranks[r], id))
  {
    SystemInvAlways(c, acts);
    if acts != [] {
      var before, a := acts[..|acts| - 1], acts[|acts| - 1];
      CacheFollowsRun(c, before, Run(c, before).value, r, id);
      SystemInvAlways(c, before);
      RemembersStep(c, Run(c, before).value, before, a, r, id);
      LastAction(acts);
    }
    assert DirectoryInv(c, s.ranks[r]);
  }

  /** Away from home a record is right exactly when the node last heard is. */
  lemma RightExactly(c: Config, acts: seq<Action>, s: System, r: NodeType, id: EntityID, node: NodeType)
    requires c.Valid() && Run(c, acts) == Some(s) && c.Away(id, r) && |s.ranks| == c.n
    requires s.ranks[r].recs.Exists(id)
    ensures KnownNode(s.ranks[r], id) == node <==> LastHeard(acts, r, id) == Some(node)
  {
    CacheFollowsRun(c, acts, s, r, id);
  }

  /** With FIFO channels, patient registration and nothing in flight: any rank's record
      names the host exactly when that is the home or last heard so; a rank the home
      keeps informed always did. */
  lemma QuiescentRecordsExactly(c: Config, acts: seq<Action>, s: System, id: EntityID, node: NodeType, r: NodeType)
    requires c.Valid() && Run(c, acts) == Some(s) && FifoRun(c, acts) && PatientRun(c, acts, id) && c.IsRank(r)
    requires WhereIs(acts, id) == At(node) && s.net == []
    ensures |s.ranks| == c.n
    ensures s.ranks[r].recs.Exists(id) ==>
              (KnownNode(s.ranks[r], id) == node <==> r == c.home(id) || LastHeard(acts, r, id) == Some(node))
    ensures s.ranks[r].recs.Exists(id) && r in Askers(s.ranks[c.home(id)], id) ==> LastHeard(acts, r, id) == Some(node)
  {
    QuiescentCachesAgree(c, acts, s, id, node, r);
    SystemInvAlways(c, acts);
    if r != c.home(id) { CacheFollowsRun(c, acts, s, r, id); }
  }

  /** Without FIFO: between an announcement and the next silent change at the home, the
      record of an asker agrees with the directory exactly when the location it heard
      last is the one it was sent last. */
  lemma OvertakenExactly(c: Config, acts: seq<Action>, s: System, id: EntityID, r: NodeType)
    requires c.Valid() && Run(c, acts) == Some(s) && Settled(c, acts, id)
    ensures |s.ranks| == c.n && id in s.ranks[c.home(id)].recs.dir
    ensures
      var h := s.ranks[c.home(id)];
      r in Askers(h, id) ==>
        c.IsRank(r) &&
        (s.ranks[r].recs.Exists(id) ==>
          (KnownNode(s.ranks[r], id) == h.recs.dir[id].curNode <==> LastHeard(acts, r, id) == Newest(s.sent, r, id)))
  {
    SettledTellsTruth(c, acts, id);
    SystemInvAlways(c, acts);
    if r in Askers(s.ranks[c.home(id)], id) {
      assert AwayInv(c, s.ranks[c.home(id)]);
      CacheFollowsRun(c, acts, s, r, id);
    }
  }
}
