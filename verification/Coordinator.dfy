/** The coordinator as the object it is: fields updated in place, loops over
    askers, requesters and callbacks. Every method is proved against the
    corresponding function of `RankModel`. */
module Coordinator {
  import opened Records
  import opened LookupTable
  import opened RankModel
  import opened Lookup

  lemma ConcatAssociative<T>(a: seq<T>, b: seq<T>, c: seq<T>)
    ensures (a + b) + c == a + (b + c)
  {
  }

  class Coordinator {
    const thisNode: NodeType
    const recs: LocLookup<EntityID, LocRecord>
    var localRegistered: set<EntityID>
    var pending: map<EntityID, seq<Token>>
    var pendingExists: map<EntityID, seq<Token>>
    var pendingHome: map<EntityID, seq<NodeType>>
    var locAsks: map<EntityID, set<NodeType>>

    var sent: seq<Packet>   // everything handed to the communicator, in order
    var fired: seq<Firing>  // every callback invocation, in order
    ghost var Repr: set<object>

    ghost predicate Valid()
      reads this, Repr
      ensures Valid() ==> this in Repr
    {
      && this in Repr && recs in Repr
      && recs.Repr <= Repr && this !in recs.Repr
      && recs.Valid() && recs.thisNode == thisNode
    }

    ghost function View(): RankState
      requires Valid()
      reads this, Repr
    {
      RankState(thisNode, localRegistered, recs.View(), pending, pendingExists, pendingHome, locAsks)
    }

    /** The object went through exactly the step `e`. */
    twostate predicate Did(e: Effect)
      reads this, Repr
    {
      && Valid() && fresh(Repr - old(Repr))
      && View() == e.state
      && sent == old(sent) + e.sends
      && fired == old(fired) + e.fires
    }

    constructor (rank: NodeType, maxCacheSize: nat)
      requires 1 <= maxCacheSize
      ensures Valid() && fresh(Repr)
      ensures View() == Fresh(rank, maxCacheSize) && sent == [] && fired == []
    {
      thisNode := rank;
      var r := new LocLookup<EntityID, LocRecord>(maxCacheSize, rank);
      recs := r;
      localRegistered := {};
      pending, pendingExists, pendingHome, locAsks := map[], map[], map[], map[];
      sent, fired := [], [];
      Repr := {this} + r.Repr;
    }

    // ---------- reading and writing records ----------

    /** Only the records went from `old` to `table`. */
    twostate predicate RecordsBecame(table: Table<EntityID, LocRecord>)
      reads this, Repr
    {
      && Valid() && fresh(Repr - old(Repr))
      && recs.View() == table
      && unchanged(`localRegistered, `pending, `pendingExists, `pendingHome, `locAsks, `sent, `fired)
    }

    /** Read the node of a known entity; a cached record becomes the most recent. */
    method Recall(id: EntityID) returns (node: NodeType)
      requires Valid() && recs.View().Exists(id)
      modifies Repr
      ensures RecordsBecame(old(recs.View().Gotten(id)))
      ensures node == old(KnownNode(View(), id))
    {
      var rec := recs.Get(id);
      Repr := Repr + recs.Repr;
      node := rec.curNode;
    }

    /** Overwrite or cache the location of `id`. */
    method Record(id: EntityID, node: NodeType)
      requires Valid()
      modifies Repr
      ensures RecordsBecame(old(recs.View().Updated(id, MakeRec(id, node, thisNode))))
    {
      recs.Update(id, MakeRec(id, node, thisNode));
      Repr := Repr + recs.Repr;
    }

    method RecordAtHome(id: EntityID, node: NodeType)
      requires Valid()
      modifies Repr
      ensures RecordsBecame(old(recs.View().Stored(id, true, MakeRec(id, node, thisNode))))
    {
      recs.Insert(id, thisNode, MakeRec(id, node, thisNode));
      Repr := Repr + recs.Repr;
    }

    // ---------- loops ----------

    /** Whichever member the set's iteration comes to next. */
    static method AnyOf(s: set<NodeType>) returns (x: NodeType)
      requires s != {}
      ensures x in s
    {
      ghost var y: NodeType :| y in s || forall z :: z !in s;
      assert y !in s ==> s == {};
      x :| x in s;
    }

    /** Send `msg` to every member of `dsts`, in whatever order the set yields them. */
    method SendToSet(dsts: set<NodeType>, msg: Msg) returns (ghost order: seq<NodeType>)
      modifies this`sent
      ensures Enumerates(order, dsts)
      ensures sent == old(sent) + Fanout(thisNode, order, msg)
    {
      var rest := dsts;
      order := [];
      while rest != {}
        invariant rest <= dsts
        decreases |rest|
        invariant multiset(order) + multiset(rest) == multiset(dsts)
        invariant sent == old(sent) + Fanout(thisNode, order, msg)
      {
        var dst := AnyOf(rest);
        sent := sent + [Packet(thisNode, dst, msg)];
        rest := rest - {dst};
        order := order + [dst];
      }
    }

    /** Answer the early requesters in arrival order and remember each of them. */
    method AnswerEarly(requesters: seq<NodeType>, id: EntityID, msg: Msg)
      modifies this`sent, this`locAsks
      ensures sent == old(sent) + Fanout(thisNode, requesters, msg)
      ensures locAsks == old(locAsks)[id := (if id in old(locAsks) then old(locAsks)[id] else {}) + Elements(requesters)]
    {
      if id !in locAsks { locAsks := locAsks[id := {}]; }
      ghost var start := locAsks[id];
      assert start + Elements(requesters[..0]) == start;
      for i := 0 to |requesters|
        invariant id in locAsks
        invariant locAsks == old(locAsks)[id := start + Elements(requesters[..i])]
        invariant sent == old(sent) + Fanout(thisNode, requesters[..i], msg)
      {
        sent := sent + [Packet(thisNode, requesters[i], msg)];
        locAsks := locAsks[id := locAsks[id] + {requesters[i]}];
        assert requesters[..i + 1] == requesters[..i] + [requesters[i]];
        assert start + Elements(requesters[..i + 1]) == start + Elements(requesters[..i]) + {requesters[i]};
      }
      assert requesters[..|requesters|] == requesters;
    }

    /** Invoke the callbacks in registration order. */
    method InvokeAll(tokens: seq<Token>, id: EntityID, answer: Answer)
      modifies this`fired
      ensures fired == old(fired) + Fire(thisNode, id, tokens, answer)
    {
      for i := 0 to |tokens|
        invariant fired == old(fired) + Fire(thisNode, id, tokens[..i], answer)
      {
        fired := fired + [Firing(thisNode, id, tokens[i], answer)];
        assert tokens[..i + 1] == tokens[..i] + [tokens[i]];
      }
      assert tokens[..|tokens|] == tokens;
    }

    /** Invoke and clear the location callbacks buffered for `id`. */
    method FlushPending(id: EntityID, node: NodeType)
      modifies this`pending, this`fired
      ensures pending == old(pending) - {id}
      ensures fired == old(fired) + Fire(thisNode, id, Buffered(old(pending), id), Location(node))
    {
      if id in pending {
        InvokeAll(pending[id], id, Location(node));
        pending := pending - {id};
      }
    }

    // ---------- the home learns a location ----------

    /** Eagerly refresh the ranks already answered. */
    method Refresh(id: EntityID, node: NodeType) returns (ghost order: seq<NodeType>)
      modifies this`sent
      ensures Enumerates(order, if id in locAsks then locAsks[id] else {})
      ensures sent == old(sent) + Fanout(thisNode, order, Msg.ResolveResponse(id, node))
    {
      order := [];
      if id in locAsks {
        order := SendToSet(locAsks[id], Msg.ResolveResponse(id, node));
      }
    }

    /** Answer those who asked too early, and forget that they were waiting. */
    method DrainEarly(id: EntityID, node: NodeType)
      modifies this`sent, this`pendingHome, this`locAsks
      ensures
        var early := Buffered(old(pendingHome), id);
        && sent == old(sent) + Fanout(thisNode, early, Msg.ResolveResponse(id, node))
        && locAsks == (if id in old(pendingHome)
                       then old(locAsks)[id := (if id in old(locAsks) then old(locAsks)[id] else {}) + Elements(early)]
                       else old(locAsks))
      ensures pendingHome == old(pendingHome) - {id}
    {
      if id in pendingHome {
        AnswerEarly(pendingHome[id], id, Msg.ResolveResponse(id, node));
        pendingHome := pendingHome - {id};
      }
    }

    /** Refresh the askers, answer the early requesters, run the local waiters. */
    method Publish(id: EntityID, node: NodeType) returns (ghost order: seq<NodeType>)
      modifies this`sent, this`fired, this`pending, this`pendingHome, this`locAsks
      ensures Enumerates(order, if id in old(locAsks) then old(locAsks)[id] else {})
      ensures
        var msg, early := Msg.ResolveResponse(id, node), Buffered(old(pendingHome), id);
        && sent == old(sent) + (Fanout(thisNode, order, msg) + Fanout(thisNode, early, msg))
        && locAsks == (if id in old(pendingHome)
                       then old(locAsks)[id := (if id in old(locAsks) then old(locAsks)[id] else {}) + Elements(early)]
                       else old(locAsks))
      ensures pendingHome == old(pendingHome) - {id} && pending == old(pending) - {id}
      ensures fired == old(fired) + Fire(thisNode, id, Buffered(old(pending), id), Location(node))
    {
      order := Refresh(id, node);
      DrainEarly(id, node);
      FlushPending(id, node);
      ConcatAssociative(old(sent), Fanout(thisNode, order, Msg.ResolveResponse(id, node)),
                        Fanout(thisNode, Buffered(old(pendingHome), id), Msg.ResolveResponse(id, node)));
    }

    method AnnounceLocation(id: EntityID, node: NodeType) returns (ghost order: seq<NodeType>)
      requires Valid()
      modifies Repr
      ensures Enumerates(order, old(Askers(View(), id)))
      ensures Did(old(Announce(View(), id, node, order)))
    {
      RecordAtHome(id, node);
      order := Publish(id, node);
    }

    // ---------- API calls ----------

    method RegisterEntity(id: EntityID, home: NodeType) returns (ghost order: seq<NodeType>)
      requires Valid()
      modifies Repr
      ensures home == thisNode ==> Enumerates(order, old(Askers(View(), id)))
      ensures Did(old(Register(View(), id, home, order)))
    {
      order := [];
      localRegistered := localRegistered + {id};
      if home == thisNode {
        order := AnnounceLocation(id, thisNode);
      } else {
        sent := sent + [Packet(thisNode, home, Msg.UpdateHome(id, thisNode))];
      }
    }

    method EntityEmigrated(id: EntityID, newNode: NodeType)
      requires Valid()
      modifies Repr
      ensures Did(old(Emigrate(View(), id, newNode)))
    {
      localRegistered := localRegistered - {id};
      Record(id, newNode);
    }

    method UnregisterEntity(id: EntityID)
      requires Valid()
      modifies Repr
      ensures Did(old(Unregister(View(), id)))
    {
      localRegistered := localRegistered - {id};
      recs.Remove(id);
      Repr := Repr + recs.Repr;
    }

    /** Invoke one callback on the recorded node. */
    method RunOnRecord(id: EntityID, action: Token, existence: bool)
      requires Valid() && recs.View().Exists(id)
      modifies Repr
      ensures
        var k := old(View());
        var node := KnownNode(k, id);
        Did(Effect(k.(recs := k.recs.Gotten(id)), [],
                   [Firing(k.me, id, action, if existence then Existence(true, node) else Location(node))]))
    {
      var node := Recall(id);
      fired := fired + [Firing(thisNode, id, action, if existence then Existence(true, node) else Location(node))];
    }

    method GetLocation(id: EntityID, home: NodeType, action: Token)
      requires Valid()
      modifies Repr
      ensures Did(old(RankModel.GetLocation(View(), id, home, action)))
    {
      if id in localRegistered {
        fired := fired + [Firing(thisNode, id, action, Location(thisNode))];
        return;
      }
      var known := recs.Exists(id);
      if known {
        RunOnRecord(id, action, false);
        return;
      }
      AwaitLocation(id, home, action);
    }

    /** Buffer the callback; only the first waiter issues the request. */
    method AwaitLocation(id: EntityID, home: NodeType, action: Token)
      modifies this`pending, this`sent
      ensures
        var list := Buffered(old(pending), id) + [action];
        && pending == old(pending)[id := list]
        && sent == old(sent) + if |list| == 1 && home != thisNode
                               then [Packet(thisNode, home, Msg.LocationRequest(id, thisNode))] else []
    {
      var list := (if id in pending then pending[id] else []) + [action];
      pending := pending[id := list];
      if |list| == 1 && home != thisNode {
        sent := sent + [Packet(thisNode, home, Msg.LocationRequest(id, thisNode))];
      }
    }

    method EntityExists(id: EntityID, home: NodeType, action: Token)
      requires Valid()
      modifies Repr
      ensures Did(old(RankModel.EntityExists(View(), id, home, action)))
    {
      if id in localRegistered {
        fired := fired + [Firing(thisNode, id, action, Existence(true, thisNode))];
        return;
      }
      var known := recs.Exists(id);
      if known {
        RunOnRecord(id, action, true);
        return;
      }
      SettleExistence(id, home, action);
    }

    /** The entity is unknown here: the home decides at once, others wait. */
    method SettleExistence(id: EntityID, home: NodeType, action: Token)
      modifies this`pendingExists, this`sent, this`fired
      ensures home == thisNode ==>
        && fired == old(fired) + [Firing(thisNode, id, action, Existence(false, NO_NODE))]
        && unchanged(`pendingExists, `sent)
      ensures home != thisNode ==>
        var list := Buffered(old(pendingExists), id) + [action];
        && pendingExists == old(pendingExists)[id := list]
        && sent == old(sent) + (if |list| == 1
                                then [Packet(thisNode, home, Msg.ExistsRequest(id, thisNode))] else [])
        && unchanged(`fired)
    {
      if home == thisNode {
        fired := fired + [Firing(thisNode, id, action, Existence(false, NO_NODE))];
        return;
      }
      var list := (if id in pendingExists then pendingExists[id] else []) + [action];
      pendingExists := pendingExists[id := list];
      if |list| == 1 {
        sent := sent + [Packet(thisNode, home, Msg.ExistsRequest(id, thisNode))];
      }
    }

    method ClearCache()
      requires Valid()
      modifies Repr
      ensures Did(old(RankModel.ClearCache(View())))
    {
      recs.ClearCache();
      Repr := Repr + recs.Repr;
    }

    // ---------- handlers ----------

    method UpdateHome(id: EntityID, node: NodeType) returns (ghost order: seq<NodeType>)
      requires Valid()
      modifies Repr
      ensures Enumerates(order, old(Askers(View(), id)))
      ensures Did(old(Handle(View(), Msg.UpdateHome(id, node), order)))
    {
      order := AnnounceLocation(id, node);
    }

    /** Remember that `requester` wants refreshes, and answer it. */
    method AnswerAsker(id: EntityID, requester: NodeType, node: NodeType)
      modifies this`locAsks, this`sent
      ensures locAsks == old(locAsks)[id := (if id in old(locAsks) then old(locAsks)[id] else {}) + {requester}]
      ensures sent == old(sent) + [Packet(thisNode, requester, Msg.ResolveResponse(id, node))]
    {
      if id !in locAsks { locAsks := locAsks[id := {}]; }
      locAsks := locAsks[id := locAsks[id] + {requester}];
      sent := sent + [Packet(thisNode, requester, Msg.ResolveResponse(id, node))];
    }

    method AnswerFromRecord(id: EntityID, requester: NodeType)
      requires Valid() && recs.View().Exists(id)
      modifies Repr
      ensures Did(old(OnLocationRequest(View(), id, requester)))
    {
      var node := Recall(id);
      AnswerAsker(id, requester, node);
    }

    method LocationRequest(id: EntityID, requester: NodeType)
      requires Valid()
      modifies Repr
      ensures Did(old(OnLocationRequest(View(), id, requester)))
    {
      var known := recs.Exists(id);
      if known {
        AnswerFromRecord(id, requester);
      } else if id in localRegistered {
        AnswerAsker(id, requester, thisNode);
      } else {
        pendingHome := pendingHome[id := (if id in pendingHome then pendingHome[id] else []) + [requester]];
      }
    }

    method ResolveResponse(id: EntityID, node: NodeType)
      requires Valid()
      modifies Repr
      ensures Did(old(OnResolveResponse(View(), id, node)))
    {
      Record(id, node);
      FlushPending(id, node);
    }

    method ExistsRequest(id: EntityID, requester: NodeType)
      requires Valid()
      modifies Repr
      ensures Did(old(OnExistsRequest(View(), id, requester)))
    {
      var known := recs.Exists(id);
      if known {
        var node := Recall(id);
        sent := sent + [Packet(thisNode, requester, Msg.ExistsResponse(id, true, node))];
      } else if id in localRegistered {
        sent := sent + [Packet(thisNode, requester, Msg.ExistsResponse(id, true, thisNode))];
      } else {
        sent := sent + [Packet(thisNode, requester, Msg.ExistsResponse(id, false, NO_NODE))];
      }
    }

    method ExistsResponse(id: EntityID, found: bool, node: NodeType)
      requires Valid()
      modifies Repr
      ensures Did(old(OnExistsResponse(View(), id, found, node)))
    {
      if found {
        Record(id, node);
      }
      FlushExists(id, found, node);
    }

    method FlushExists(id: EntityID, found: bool, node: NodeType)
      modifies this`pendingExists, this`fired
      ensures pendingExists == old(pendingExists) - {id}
      ensures fired == old(fired) + Fire(thisNode, id, Buffered(old(pendingExists), id), Existence(found, node))
    {
      if id in pendingExists {
        InvokeAll(pendingExists[id], id, Existence(found, node));
        pendingExists := pendingExists - {id};
      }
    }
  }
}
