/** The directory and the combined lookup as mutable objects. */
module Lookup {
  import opened Records
  import opened LookupTable
  import LC = LocationCache

  /** Permanent map of the home rank. */
  class Directory<K(==), V> {
    var dir: map<K, V>

    constructor ()
      ensures dir == map[]
    {
      dir := map[];
    }

    method Remove(k: K)
      modifies this
      ensures dir == old(dir) - {k}
    {
      if k in dir {
        dir := dir - {k};
      }
    }

    /** Add an entry, or overwrite the one that is there. */
    method Insert(k: K, v: V)
      modifies this
      ensures dir == old(dir)[k := v]
      ensures |dir| == |old(dir)| + if k in old(dir) then 0 else 1
    {
      if k !in dir {
        dir := dir + map[k := v];
      } else {
        dir := dir[k := v];
      }
    }
  }

  class LocLookup<K(!new,==), V> {
    const maxCacheSize: nat
    const thisNode: NodeType
    const directory: Directory<K, V>
    var cache: LC.Cache<K, V>
    ghost var Repr: set<object>

    ghost predicate Valid()
      reads this, Repr
      ensures Valid() ==> this in Repr
    {
      && this in Repr && directory in Repr && cache in Repr
      && cache.Repr <= Repr
      && this !in cache.Repr && directory !in cache.Repr
      && cache.Valid()
      && cache.maxSize == maxCacheSize >= 1
    }

    ghost function View(): Table<K, V>
      requires Valid()
      reads this, Repr
    {
      Table(directory.dir, cache.Contents, maxCacheSize)
    }

    constructor (maxCacheSize: nat, thisNode: NodeType)
      requires 1 <= maxCacheSize
      ensures Valid() && fresh(Repr)
      ensures View() == Table(map[], [], maxCacheSize) && this.thisNode == thisNode
    {
      this.maxCacheSize := maxCacheSize;
      this.thisNode := thisNode;
      var d := new Directory<K, V>();
      var c := new LC.Cache<K, V>(maxCacheSize);
      directory, cache := d, c;
      Repr := {this, d} + c.Repr;
    }

    method Exists(k: K) returns (found: bool)
      requires Valid()
      ensures found <==> View().Exists(k)
    {
      if k in directory.dir {
        found := true;
      } else {
        found := cache.Exists(k);
      }
    }

    method Get(k: K) returns (v: V)
      requires Valid() && View().Exists(k)
      modifies Repr
      ensures Valid() && fresh(Repr - old(Repr))
      ensures Some(v) == old(View().Read(k))
      ensures View() == old(View().Gotten(k))
    {
      if k in directory.dir {
        v := directory.dir[k];
      } else {
        v := cache.Get(k);
      }
    }

    method Remove(k: K)
      requires Valid()
      modifies Repr
      ensures Valid() && fresh(Repr - old(Repr))
      ensures View() == old(View().Removed(k))
    {
      directory.Remove(k);
      cache.Remove(k);
    }

    method Insert(k: K, home: NodeType, v: V)
      requires Valid()
      modifies Repr
      ensures Valid() && fresh(Repr - old(Repr))
      ensures View() == old(View().Stored(k, thisNode == home, v))
    {
      if thisNode == home {
        directory.Insert(k, v);
      } else {
        cache.Insert(k, v);
        Repr := Repr + cache.Repr;
      }
    }

    method Update(k: K, v: V)
      requires Valid()
      modifies Repr
      ensures Valid() && fresh(Repr - old(Repr))
      ensures View() == old(View().Updated(k, v))
    {
      if k in directory.dir {
        directory.Insert(k, v);
      } else {
        cache.Insert(k, v);
        Repr := Repr + cache.Repr;
      }
    }

    method ClearCache()
      requires Valid()
      modifies Repr
      ensures Valid() && fresh(Repr - old(Repr))
      ensures View() == old(View().Cleared())
    {
      cache := new LC.Cache<K, V>(maxCacheSize);
      Repr := Repr + cache.Repr;
    }
  }
}
