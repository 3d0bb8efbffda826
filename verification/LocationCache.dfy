/** The LRU cache as it is stored: a doubly linked list of entries, front = most
    recently used, and a map from each key to its own list node. */
module LocationCache {
  import opened Records
  import opened Recency

  class Node<K, V> {
    const key: K
    var value: V
    var prev: Node?<K, V>
    var next: Node?<K, V>

    constructor (key: K, value: V)
      ensures this.key == key && this.value == value && prev == null && next == null
    {
      this.key := key;
      this.value := value;
      prev, next := null, null;
    }
  }

  /** The node at position `i`, or null off either end. */
  function At<K, V>(nodes: seq<Node<K, V>>, i: int): Node?<K, V> {
    if 0 <= i < |nodes| then nodes[i] else null
  }

  ghost predicate LinkedAt<K, V>(nodes: seq<Node<K, V>>, i: nat)
    requires i < |nodes|
    reads {nodes[i]}`prev, {nodes[i]}`next
  {
    nodes[i].prev == At(nodes, i - 1) && nodes[i].next == At(nodes, i + 1)
  }

  /** `nodes` is a well-linked list from `head` to `tail`. */
  ghost predicate Linked<K, V>(nodes: seq<Node<K, V>>, head: Node?<K, V>, tail: Node?<K, V>)
    reads nodes`prev, nodes`next
  {
    && NoRepeats(nodes)
    && head == At(nodes, 0)
    && tail == At(nodes, |nodes| - 1)
    && (forall i :: 0 <= i < |nodes| ==> LinkedAt(nodes, i))
  }

  ghost predicate KeyedAt<K, V>(lookup: map<K, Node<K, V>>, nodes: seq<Node<K, V>>, i: nat)
    requires i < |nodes|
  {
    nodes[i].key in lookup && lookup[nodes[i].key] == nodes[i]
  }

  ghost predicate Listed<K, V>(lookup: map<K, Node<K, V>>, nodes: seq<Node<K, V>>, k: K)
    requires k in lookup
  {
    lookup[k].key == k && lookup[k] in nodes
  }

  /** `lookup` sends each key to precisely its own node, and nothing else. */
  ghost predicate Indexed<K, V>(lookup: map<K, Node<K, V>>, nodes: seq<Node<K, V>>) {
    && |lookup| == |nodes|
    && (forall i :: 0 <= i < |nodes| ==> KeyedAt(lookup, nodes, i))
    && (forall k :: k in lookup ==> Listed(lookup, nodes, k))
  }

  ghost predicate Apart<K, V>(nodes: seq<Node<K, V>>, i: nat, j: nat)
    requires i < |nodes| && j < |nodes|
  {
    i != j ==> nodes[i] != nodes[j]
  }

  ghost predicate NoRepeats<K, V>(nodes: seq<Node<K, V>>) {
    forall i, j :: 0 <= i < |nodes| && 0 <= j < |nodes| ==> Apart(nodes, i, j)
  }

  /** The list with position `p` cut out. */
  function Cut<T>(s: seq<T>, p: nat): (r: seq<T>)
    requires p < |s|
    ensures |r| == |s| - 1
  {
    s[..p] + s[p + 1..]
  }

  lemma IndexedCut<K, V>(lookup: map<K, Node<K, V>>, nodes: seq<Node<K, V>>, p: nat)
    requires Indexed(lookup, nodes) && NoRepeats(nodes) && p < |nodes|
    ensures Indexed(lookup - {nodes[p].key}, Cut(nodes, p))
    ensures nodes[p] !in Cut(nodes, p)
  {
    var k, rest := nodes[p].key, Cut(nodes, p);
    assert KeyedAt(lookup, nodes, p);
    assert (lookup - {k}).Keys == lookup.Keys - {k};
    forall i | 0 <= i < |rest| ensures KeyedAt(lookup - {k}, rest, i) && rest[i] != nodes[p] {
      var j := if i < p then i else i + 1;
      assert rest[i] == nodes[j];
      assert Apart(nodes, j, p);
      assert KeyedAt(lookup, nodes, j);
    }
    forall o | o in lookup - {k} ensures Listed(lookup - {k}, rest, o) {
      assert Listed(lookup, nodes, o);
      var i :| 0 <= i < |nodes| && nodes[i] == lookup[o];
      assert nodes[i] == rest[if i < p then i else i - 1];
    }
  }

  lemma IndexedFront<K, V>(lookup: map<K, Node<K, V>>, nodes: seq<Node<K, V>>, n: Node<K, V>)
    requires Indexed(lookup, nodes) && n.key !in lookup
    ensures Indexed(lookup[n.key := n], [n] + nodes)
  {
    var lookup', nodes' := lookup[n.key := n], [n] + nodes;
    assert lookup'.Keys == lookup.Keys + {n.key};
    forall i | 0 <= i < |nodes'| ensures KeyedAt(lookup', nodes', i) {
      if i > 0 {
        assert nodes'[i] == nodes[i - 1];
        assert KeyedAt(lookup, nodes, i - 1);
      }
    }
    forall k | k in lookup' ensures Listed(lookup', nodes', k) {
      if k != n.key { assert Listed(lookup, nodes, k); }
    }
  }

  lemma IndexedMove<K, V>(lookup: map<K, Node<K, V>>, nodes: seq<Node<K, V>>, p: nat)
    requires Indexed(lookup, nodes) && NoRepeats(nodes) && p < |nodes|
    ensures nodes[p] !in Cut(nodes, p)
    ensures Indexed(lookup, [nodes[p]] + Cut(nodes, p))
  {
    var n := nodes[p];
    assert KeyedAt(lookup, nodes, p);
    IndexedCut(lookup, nodes, p);
    IndexedFront(lookup - {n.key}, Cut(nodes, p), n);
    assert (lookup - {n.key})[n.key := n] == lookup;
  }

  ghost predicate EntryAt<K, V>(nodes: seq<Node<K, V>>, entries: seq<(K, V)>, i: nat)
    requires i < |nodes| && i < |entries|
    reads {nodes[i]}`value
  {
    entries[i] == (nodes[i].key, nodes[i].value)
  }

  /** `entries` spells out the keys and values of the list. */
  ghost predicate Mirrors<K, V>(nodes: seq<Node<K, V>>, entries: seq<(K, V)>)
    reads nodes`value
  {
    |entries| == |nodes| && forall i :: 0 <= i < |nodes| ==> EntryAt(nodes, entries, i)
  }

  lemma MirrorsCut<K, V>(nodes: seq<Node<K, V>>, entries: seq<(K, V)>, p: nat)
    requires Mirrors(nodes, entries) && p < |nodes|
    ensures Mirrors(Cut(nodes, p), Cut(entries, p))
  {
    forall i | 0 <= i < |nodes| - 1 ensures EntryAt(Cut(nodes, p), Cut(entries, p), i) {
      assert EntryAt(nodes, entries, if i < p then i else i + 1);
    }
  }

  lemma MirrorsFront<K, V>(nodes: seq<Node<K, V>>, entries: seq<(K, V)>, n: Node<K, V>)
    requires Mirrors(nodes, entries)
    ensures Mirrors([n] + nodes, [(n.key, n.value)] + entries)
  {
    forall i | 0 <= i <= |nodes| ensures EntryAt([n] + nodes, [(n.key, n.value)] + entries, i) {
      if i > 0 { assert EntryAt(nodes, entries, i - 1); }
    }
  }

  class Cache<K(==), V> {
    var lookup: map<K, Node<K, V>>
    var head: Node?<K, V>
    var tail: Node?<K, V>
    const maxSize: nat

    ghost var nodes: seq<Node<K, V>>
    ghost var Contents: seq<(K, V)>  // the entries in list order
    ghost var Repr: set<object>

    ghost predicate Footprint()
      reads this
    {
      && this in Repr
      && (forall i :: 0 <= i < |nodes| ==> nodes[i] in Repr && nodes[i] as object != this)
    }

    ghost predicate Valid()
      reads this, Repr
      ensures Valid() ==> this in Repr
    {
      && Footprint()
      && Linked(nodes, head, tail)
      && Indexed(lookup, nodes)
      && Mirrors(nodes, Contents)
      && |nodes| <= maxSize
    }

    constructor (maxSize: nat)
      ensures Valid() && fresh(Repr)
      ensures Contents == [] && this.maxSize == maxSize
    {
      lookup := map[];
      head, tail := null, null;
      this.maxSize := maxSize;
      nodes, Contents := [], [];
      Repr := {this};
    }

    /** Unlink the node at position `p`, leaving `lookup` alone. */
    method Unlink(n: Node<K, V>, ghost p: nat)
      requires Footprint() && Linked(nodes, head, tail)
      requires p < |nodes| && nodes[p] == n
      modifies this`head, this`tail, this`nodes, nodes`prev, nodes`next
      ensures nodes == Cut(old(nodes), p)
      ensures Footprint() && Linked(nodes, head, tail)
    {
      assert LinkedAt(nodes, p);
      var before, after := n.prev, n.next;
      ghost var was := nodes;
      assert before != null ==> before in was;
      assert after != null ==> after in was;
      nodes := Cut(nodes, p);
      if before == null { head := after; } else { before.next := after; }
      if after == null { tail := before; } else { after.prev := before; }
      forall i | 0 <= i < |nodes| ensures LinkedAt(nodes, i) {
        var j := if i < p then i else i + 1;
        assert nodes[i] == was[j];
        assert old(LinkedAt(was, j));
        assert p > 0 ==> Apart(was, j, p - 1);
        assert p + 1 < |was| ==> Apart(was, j, p + 1);
        assert At(nodes, i + 1) == if i + 1 < p then was[i + 1] else At(was, i + 2);
        assert At(nodes, i - 1) == if i <= p then At(was, i - 1) else was[i];
      }
      forall i, j | 0 <= i < |nodes| && 0 <= j < |nodes| ensures Apart(nodes, i, j) {
        assert Apart(was, if i < p then i else i + 1, if j < p then j else j + 1);
      }
    }

    /** Link a node that is not in the list in front of it. */
    method LinkFront(n: Node<K, V>)
      requires Footprint() && Linked(nodes, head, tail)
      requires n !in nodes && n as object != this && n in Repr
      modifies this`head, this`tail, this`nodes, nodes`prev, n`prev, n`next
      ensures nodes == old([n] + nodes)
      ensures Footprint() && Linked(nodes, head, tail)
    {
      ghost var was := nodes;
      assert head != null ==> head in was;
      nodes := [n] + nodes;
      n.prev, n.next := null, head;
      if head == null { tail := n; } else { head.prev := n; }
      head := n;
      forall i | 0 <= i < |nodes| ensures LinkedAt(nodes, i) {
        if i > 0 {
          assert nodes[i] == was[i - 1];
          assert old(LinkedAt(was, i - 1));
          assert Apart(was, i - 1, 0);
        }
      }
      forall i, j | 0 <= i < |nodes| && 0 <= j < |nodes| ensures Apart(nodes, i, j) {
        assert i > 0 && j > 0 ==> Apart(was, i - 1, j - 1);
      }
    }

    /** Distinct nodes carry distinct keys, and a key is mapped iff it is listed. */
    lemma Resident(k: K)
      requires Valid()
      ensures WellFormed(Contents, maxSize)
      ensures k in lookup <==> Has(Contents, k)
    {
      forall i, j | 0 <= i < j < |nodes| ensures nodes[i].key != nodes[j].key {
        assert KeyedAt(lookup, nodes, i) && KeyedAt(lookup, nodes, j) && Apart(nodes, i, j);
      }
      assert forall i :: 0 <= i < |nodes| ==> Contents[i].0 == nodes[i].key by {
        forall i | 0 <= i < |nodes| ensures Contents[i].0 == nodes[i].key { assert EntryAt(nodes, Contents, i); }
      }
      FindAbsent(Contents, k);
      if k in lookup {
        assert Listed(lookup, nodes, k);
        var i :| 0 <= i < |nodes| && nodes[i] == lookup[k];
        assert Contents[i].0 == k;
      }
      forall i | 0 <= i < |nodes| ensures nodes[i].key in lookup { assert KeyedAt(lookup, nodes, i); }
    }

    /** Where the node of a resident key sits, and what removing it leaves. */
    lemma Position(k: K) returns (p: nat)
      requires Valid() && k in lookup
      ensures p < |nodes| && nodes[p] == lookup[k]
      ensures Find(Contents, k) == Some(nodes[p].value)
      ensures Without(Contents, k) == Cut(Contents, p)
    {
      Resident(k);
      assert Listed(lookup, nodes, k);
      p :| 0 <= p < |nodes| && nodes[p] == lookup[k];
      assert EntryAt(nodes, Contents, p);
      FindAt(Contents, p);
      WithoutAt(Contents, p);
    }

    method Exists(k: K) returns (found: bool)
      requires Valid()
      ensures found <==> Has(Contents, k)
    {
      Resident(k);
      found := k in lookup;
    }

    /** Move the node of a resident key to the front of the list. */
    method Splice(n: Node<K, V>, ghost p: nat)
      requires Valid() && p < |nodes| && nodes[p] == n
      modifies this`head, this`tail, this`nodes, this`Contents, nodes`prev, nodes`next
      ensures Valid()
      ensures Contents == [(n.key, n.value)] + Cut(old(Contents), p)
    {
      IndexedMove(lookup, nodes, p);
      MirrorsCut(nodes, Contents, p);
      MirrorsFront(Cut(nodes, p), Cut(Contents, p), n);
      Unlink(n, p);
      LinkFront(n);
      Contents := [(n.key, n.value)] + Cut(Contents, p);
    }

    /** Assign a new value to the entry at position `p`. */
    method Overwrite(n: Node<K, V>, ghost p: nat, v: V)
      requires Valid() && p < |nodes| && nodes[p] == n
      modifies this`Contents, n`value
      ensures Valid()
      ensures n.value == v && Contents == old(Contents)[p := (n.key, v)]
    {
      n.value := v;
      ghost var was := Contents;
      Contents := Contents[p := (n.key, v)];
      forall i | 0 <= i < |nodes| ensures EntryAt(nodes, Contents, i) {
        if i != p { assert old(EntryAt(nodes, was, i)) && Apart(nodes, i, p); }
      }
    }

    method Get(k: K) returns (v: V)
      requires Valid() && Has(Contents, k)
      modifies Repr
      ensures Valid() && Repr == old(Repr)
      ensures v == old(Find(Contents, k).value)
      ensures Contents == old(Touched(Contents, k))
    {
      Resident(k);
      var n := lookup[k];
      ghost var p := Position(k);
      Splice(n, p);
      v := n.value;
    }

    method Remove(k: K)
      requires Valid()
      modifies Repr
      ensures Valid() && Repr == old(Repr)
      ensures Contents == old(Without(Contents, k))
    {
      Resident(k);
      if k in lookup {
        ghost var p := Position(k);
        IndexedCut(lookup, nodes, p);
        MirrorsCut(nodes, Contents, p);
        Unlink(lookup[k], p);
        lookup, Contents := lookup - {k}, Cut(Contents, p);
      } else {
        WithoutAbsent(Contents, k);
      }
    }

    /** Drop the least recently used entry. */
    method PopBack()
      requires Valid() && nodes != []
      modifies this`lookup, this`head, this`tail, this`nodes, this`Contents, nodes`prev, nodes`next
      ensures Valid() && |nodes| < maxSize
      ensures Contents == old(Contents[..|Contents| - 1])
      ensures lookup.Keys <= old(lookup.Keys)
    {
      ghost var p := |nodes| - 1;
      IndexedCut(lookup, nodes, p);
      MirrorsCut(nodes, Contents, p);
      lookup, Contents := lookup - {tail.key}, Cut(Contents, p);
      Unlink(tail, p);
    }

    /** Take a new node in as the most recent entry. */
    method PushFront(n: Node<K, V>)
      requires Valid() && |nodes| < maxSize && n.key !in lookup
      requires n !in Repr
      modifies this, nodes`prev, n`prev, n`next
      ensures Valid() && Repr == old(Repr) + {n}
      ensures Contents == [(n.key, n.value)] + old(Contents)
    {
      IndexedFront(lookup, nodes, n);
      MirrorsFront(nodes, Contents, n);
      Repr := Repr + {n};
      LinkFront(n);
      lookup, Contents := lookup[n.key := n], [(n.key, n.value)] + Contents;
    }

    /** Insert a key that is not resident, evicting first when full. */
    method InsertNew(k: K, v: V)
      requires Valid() && 1 <= maxSize && k !in lookup
      modifies Repr
      ensures Valid() && fresh(Repr - old(Repr))
      ensures Contents == old([(k, v)] + if |Contents| + 1 > maxSize then Contents[..|Contents| - 1] else Contents)
    {
      if |lookup| + 1 > maxSize {
        PopBack();
      }
      var n := new Node(k, v);
      PushFront(n);
    }

    method Insert(k: K, v: V)
      requires Valid() && 1 <= maxSize
      modifies Repr
      ensures Valid() && fresh(Repr - old(Repr))
      ensures Contents == old(Inserted(Contents, maxSize, k, v))
    {
      Resident(k);
      if k !in lookup {
        InsertNew(k, v);
      } else {
        var n := lookup[k];
        ghost var p := Position(k);
        Overwrite(n, p, v);
        Splice(n, p);
      }
    }
  }
}
