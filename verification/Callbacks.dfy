/** Conservation of callbacks: every issued callback is either still buffered on the
    rank it was issued on, or has been invoked, exactly once. */
module Callbacks {
  import opened Records
  import opened RankModel
  import opened Protocol
  import opened RankInvariant
  import opened Waiters

  /** The two kinds of callback. */
  datatype Kind = ForLocation | ForExistence

  /** A callback by where, about what and with which token it was issued. */
  datatype Callback = Callback(kind: Kind, rank: NodeType, id: EntityID, token: Token)

  /** The action issues exactly this callback. */
  predicate Issues(a: Action, w: Callback) {
    match w.kind
    case ForLocation => a == GetLocation(w.rank, w.id, w.token)
    case ForExistence => a == EntityExists(w.rank, w.id, w.token)
  }

  /** How often the run issued the callback. */
  function TimesIssued(acts: seq<Action>, w: Callback): nat {
    if acts == [] then 0
    else TimesIssued(acts[..|acts| - 1], w) + if Issues(acts[|acts| - 1], w) then 1 else 0
  }

  predicate Invokes(f: Firing, w: Callback) {
    f.rank == w.rank && f.id == w.id && f.token == w.token && (w.kind.ForLocation? <==> f.answer.Location?)
  }

  /** How often the callback was invoked. */
  function TimesInvoked(fires: seq<Firing>, w: Callback): nat {
    if fires == [] then 0
    else (if Invokes(fires[0], w) then 1 else 0) + TimesInvoked(fires[1..], w)
  }

  function Occurrences(tokens: seq<Token>, token: Token): nat {
    if tokens == [] then 0
    else (if tokens[0] == token then 1 else 0) + Occurrences(tokens[1..], token)
  }

  /** How often the callback sits in the buffer of rank `k`. */
  function TimesWaiting(k: RankState, w: Callback): nat {
    Occurrences(Buffered(if w.kind.ForLocation? then k.pending else k.pendingExists, w.id), w.token)
  }

  lemma {:induction false} InvokedAppend(a: seq<Firing>, b: seq<Firing>, w: Callback)
    ensures TimesInvoked(a + b, w) == TimesInvoked(a, w) + TimesInvoked(b, w)
  {
    if a == [] {
      assert a + b == b;
    } else {
      assert (a + b)[1..] == a[1..] + b;
      InvokedAppend(a[1..], b, w);
    }
  }

  lemma InvokedOne(f: Firing, w: Callback)
    ensures TimesInvoked([f], w) == if Invokes(f, w) then 1 else 0
  {
    assert [f][1..] == [];
  }

  lemma {:induction false} OccurrencesAppend(tokens: seq<Token>, last: Token, token: Token)
    ensures Occurrences(tokens + [last], token) == Occurrences(tokens, token) + if last == token then 1 else 0
  {
    if tokens != [] {
      assert (tokens + [last])[1..] == tokens[1..] + [last];
      OccurrencesAppend(tokens[1..], last, token);
    }
  }

  lemma {:induction false} InvokedFlush(rank: NodeType, x: EntityID, tokens: seq<Token>, answer: Answer, w: Callback)
    ensures
      TimesInvoked(Fire(rank, x, tokens, answer), w) ==
      if rank == w.rank && x == w.id && (w.kind.ForLocation? <==> answer.Location?)
      then Occurrences(tokens, w.token) else 0
  {
    if tokens != [] {
      var fires := Fire(rank, x, tokens, answer);
      assert fires[1..] == Fire(rank, x, tokens[1..], answer);
      InvokedFlush(rank, x, tokens[1..], answer, w);
    }
  }

  // ---------- one step ----------

  /** On the acting rank, what was waiting or is issued now is waiting or invoked
      now; for any other rank nothing is issued or invoked. */
  ghost predicate Balanced(c: Config, k: RankState, a: Action, w: Callback)
    requires 1 <= k.recs.cap
  {
    var e := Acts(c, k, a);
    var issued := if Issues(a, w) then 1 else 0;
    if w.rank == k.me then
      TimesWaiting(k, w) + issued == TimesWaiting(e.state, w) + TimesInvoked(e.fires, w)
    else
      issued == 0 && TimesInvoked(e.fires, w) == 0
  }

  lemma GetLocationBalanced(c: Config, k: RankState, a: Action, w: Callback)
    requires 1 <= k.recs.cap && k.me == a.Actor() && a.GetLocation?
    ensures Balanced(c, k, a, w)
  {
    var e := Acts(c, k, a);
    OccurrencesAppend(Buffered(k.pending, a.id), a.token, w.token);
    if |e.fires| == 1 {
      assert e.fires == [e.fires[0]];
      InvokedOne(e.fires[0], w);
    }
  }

  lemma EntityExistsBalanced(c: Config, k: RankState, a: Action, w: Callback)
    requires 1 <= k.recs.cap && k.me == a.Actor() && a.EntityExists?
    ensures Balanced(c, k, a, w)
  {
    var e := Acts(c, k, a);
    OccurrencesAppend(Buffered(k.pendingExists, a.id), a.token, w.token);
    if |e.fires| == 1 {
      assert e.fires == [e.fires[0]];
      InvokedOne(e.fires[0], w);
    }
  }

  lemma AnnounceBalanced(c: Config, k: RankState, a: Action, w: Callback)
    requires 1 <= k.recs.cap && k.me == a.Actor()
    requires a.Register? || (a.Deliver? && a.packet.msg.UpdateHome?)
    ensures Balanced(c, k, a, w)
  {
    var x := if a.Register? then a.id else a.packet.msg.id;
    var node := if a.Register? then k.me else a.packet.msg.node;
    InvokedFlush(k.me, x, Buffered(k.pending, x), Location(node), w);
  }

  lemma ResponseBalanced(c: Config, k: RankState, a: Action, w: Callback)
    requires 1 <= k.recs.cap && k.me == a.Actor()
    requires a.Deliver? && (a.packet.msg.ResolveResponse? || a.packet.msg.ExistsResponse?)
    ensures Balanced(c, k, a, w)
  {
    match a.packet.msg
    case ResolveResponse(x, node) =>
      InvokedFlush(k.me, x, Buffered(k.pending, x), Location(node), w);
    case ExistsResponse(x, found, node) =>
      InvokedFlush(k.me, x, Buffered(k.pendingExists, x), Existence(found, node), w);
  }

  lemma StepBalanced(c: Config, k: RankState, a: Action, w: Callback)
    requires 1 <= k.recs.cap && k.me == a.Actor()
    ensures Balanced(c, k, a, w)
  {
    match a
    case GetLocation(_, _, _) => GetLocationBalanced(c, k, a, w);
    case EntityExists(_, _, _) => EntityExistsBalanced(c, k, a, w);
    case Register(_, _, _) => AnnounceBalanced(c, k, a, w);
    case Deliver(_, packet, _) =>
      match packet.msg {
        case UpdateHome(_, _) => AnnounceBalanced(c, k, a, w);
        case ResolveResponse(_, _) => ResponseBalanced(c, k, a, w);
        case ExistsResponse(_, _, _) => ResponseBalanced(c, k, a, w);
        case _ =>
      }
    case _ =>
  }

  // ---------- every run ----------

  /** In every run, every callback issued on a rank is still waiting there or has
      been invoked there, counted with multiplicity; nothing else is ever invoked. */
  lemma {:induction false} Conservation(c: Config, acts: seq<Action>, w: Callback)
    requires c.Valid() && Run(c, acts).Some? && c.IsRank(w.rank)
    ensures |Run(c, acts).value.ranks| == c.n
    ensures
      var s := Run(c, acts).value;
      TimesIssued(acts, w) == TimesWaiting(s.ranks[w.rank], w) + TimesInvoked(s.fired, w)
  {
    SystemInvAlways(c, acts);
    if acts != [] {
      var before, a := acts[..|acts| - 1], acts[|acts| - 1];
      Conservation(c, before, w);
      SystemInvAlways(c, before);
      ConservationStep(c, Run(c, before).value, a, w);
    }
  }

  lemma ConservationStep(c: Config, s: System, a: Action, w: Callback)
    requires c.Valid() && SystemInv(c, s) && Enabled(c, s, a) && c.IsRank(w.rank)
    ensures
      var s' := Apply(c, s, a);
      TimesWaiting(s.ranks[w.rank], w) + TimesInvoked(s.fired, w) + (if Issues(a, w) then 1 else 0)
      == TimesWaiting(s'.ranks[w.rank], w) + TimesInvoked(s'.fired, w)
  {
    var k := s.ranks[a.Actor()];
    StepBalanced(c, k, a, w);
    InvokedAppend(s.fired, Acts(c, k, a).fires, w);
  }

  /** A callback issued once is invoked once as soon as it no longer waits. */
  lemma NeverTwice(c: Config, acts: seq<Action>, w: Callback)
    requires c.Valid() && Run(c, acts).Some? && c.IsRank(w.rank) && TimesIssued(acts, w) == 1
    ensures |Run(c, acts).value.ranks| == c.n
    ensures
      var s := Run(c, acts).value;
      TimesInvoked(s.fired, w) == if TimesWaiting(s.ranks[w.rank], w) == 0 then 1 else 0
  {
    Conservation(c, acts, w);
  }

  /** The buffer of location callbacks for one entity changes in two ways only: a
      call appends its own callback and invokes nothing, or the whole buffer is
      invoked, in registration order, with the node that was just announced or sent. */
  lemma BufferedRunTogether(c: Config, s: System, a: Action, r: NodeType, id: EntityID)
    requires c.Valid() && SystemInv(c, s) && Enabled(c, s, a) && c.IsRank(r)
    requires Buffered(Apply(c, s, a).ranks[r].pending, id) != Buffered(s.ranks[r].pending, id)
    ensures
      var was, now, s' := Buffered(s.ranks[r].pending, id), Buffered(Apply(c, s, a).ranks[r].pending, id), Apply(c, s, a);
      || (a.GetLocation? && a.rank == r && a.id == id && now == was + [a.token] && s'.fired == s.fired)
      || (now == [] && a.Actor() == r && Tells(c, a, id)
          && s'.fired == s.fired + Fire(r, id, was, Location(ToldNode(c, a, id))))
  {
    assert a.Actor() == r;
    PendingChange(c, s.ranks[r], a, id);
  }

  /** The same for existence callbacks: they hear the verdict that was just delivered. */
  lemma ExistenceRunTogether(c: Config, s: System, a: Action, r: NodeType, id: EntityID)
    requires c.Valid() && SystemInv(c, s) && Enabled(c, s, a) && c.IsRank(r)
    requires Buffered(Apply(c, s, a).ranks[r].pendingExists, id) != Buffered(s.ranks[r].pendingExists, id)
    ensures
      var was, now, s' := Buffered(s.ranks[r].pendingExists, id), Buffered(Apply(c, s, a).ranks[r].pendingExists, id), Apply(c, s, a);
      || (a.EntityExists? && a.rank == r && a.id == id && now == was + [a.token] && s'.fired == s.fired)
      || (now == [] && a.Deliver? && a.packet.dst == r && a.packet.msg.ExistsResponse? && a.packet.msg.id == id
          && s'.fired == s.fired + Fire(r, id, was, Existence(a.packet.msg.found, a.packet.msg.node)))
  {
    assert a.Actor() == r;
    if a.Deliver? {
      assert a.packet.msg.ExistsResponse? && a.packet.msg.id == id;
    }
  }
}
