/** Iteration over the table of `dict.c`, during which the caller may delete the entry that it
    has just been given. */
module DictIterator {
  import opened Basics
  import opened DictChains
  import opened Dict

  class Iterator<K(==), V> {
    const ht: Dict<K, V>
    var index: int
    var entry: Entry?<K, V>
    var nextEntry: Entry?<K, V>
    ghost var rest: Chain<K, V>   // what is left of the bucket

    /** The rest is a suffix of the bucket, and the saved pointer is its head. */
    ghost predicate InStep()
      reads this, ht
    {
      && -1 <= index
      && (entry != null ==> index < |ht.chains| && index >= 0 && Suffix(rest, ht.chains[index]) && nextEntry == At(rest, 0))
    }

    /** What has not been visited. */
    ghost function Pending(): Chain<K, V>
      requires InStep()
      reads this, ht
    {
      var later := if index + 1 <= |ht.chains| then Flat(ht.chains[index + 1..]) else [];
      if entry == null then later else rest + later
    }

    /** `dictInitIterator` */
    constructor (d: Dict<K, V>)
      ensures ht == d && InStep() && Pending() == Flat(d.chains)
    {
      ht, index, entry, nextEntry, rest := d, -1, null, null, [];
      new;
      assert ht.chains[0..] == ht.chains;
    }

    /** `dictNext` */
    method Next() returns (de: Entry?<K, V>)
      requires ht.Valid() && InStep()
      modifies this
      ensures InStep() && entry == de
      ensures de == null <==> old(Pending()) == []
      ensures de != null ==> old(Pending()) == [de] + Pending() && Suffix([de] + rest, ht.chains[index])
    {
      while true
        invariant InStep() && Pending() == old(Pending())
        decreases |ht.chains| - index, if entry == null then 0 else 1
      {
        var stop := Step();
        if stop {
          break;
        }
        if entry != null {
          return entry;
        }
      }
      return null;
    }

    /** One round of the loop, which stops behind the last bucket. */
    method Step() returns (stop: bool)
      requires ht.Valid() && InStep()
      modifies this
      ensures InStep() && (stop ==> entry == null && old(Pending()) == [])
      ensures !stop ==> old(index) <= index < |ht.chains| && (old(entry) == null ==> old(index) < index)
      ensures !stop && entry == null ==> Pending() == old(Pending())
      ensures !stop && entry != null ==> old(Pending()) == [entry] + Pending() && Suffix([entry] + rest, ht.chains[index])
    {
      ghost var all := Pending();
      if entry == null {
        index := index + 1;
        if index >= ht.size {
          return true;
        }
        Enter(all);
      } else {
        assert Linked(ht.table[index], ht.chains[index]);
        Save(nextEntry, rest, all);
      }
      return false;
    }

    /** The first entry of a bucket. */
    method Enter(ghost all: Chain<K, V>)
      requires ht.Valid() && 0 <= index < |ht.chains| && all == Flat(ht.chains[index..])
      modifies `entry, `nextEntry, `rest
      ensures InStep()
      ensures entry == null ==> all == Pending()
      ensures entry != null ==> all == [entry] + Pending() && Suffix([entry] + rest, ht.chains[index])
    {
      FlatNext(ht.chains, index);
      assert Linked(ht.table[index], ht.chains[index]);
      Save(ht.table[index], ht.chains[index], all);
    }

    /** Makes an entry the current one, and saves the one behind it. */
    method Save(e: Entry?<K, V>, ghost bucket: Chain<K, V>, ghost all: Chain<K, V>)
      requires 0 <= index < |ht.chains| == ht.table.Length && Linked(ht.table[index], ht.chains[index])
      requires Suffix(bucket, ht.chains[index]) && e == At(bucket, 0)
      requires all == bucket + Flat(ht.chains[index + 1..])
      modifies `entry, `nextEntry, `rest
      ensures InStep() && entry == e
      ensures e == null ==> all == Pending()
      ensures e != null ==> all == [e] + Pending() && Suffix([e] + rest, ht.chains[index])
    {
      entry := e;
      if e == null {
        assert bucket == [];
        assert all == Flat(ht.chains[index + 1..]);
      } else {
        Behind(ht.table[index], ht.chains[index], bucket);
        nextEntry := e.next;
        rest := bucket[1..];
        Shift(e, bucket, rest, Flat(ht.chains[index + 1..]));
      }
    }
  }

  /** Links lead through every suffix. */
  lemma Behind<K, V>(head: Entry?<K, V>, c: Chain<K, V>, bucket: Chain<K, V>)
    requires Linked(head, c) && Suffix(bucket, c) && bucket != []
    ensures bucket[0].next == At(bucket[1..], 0) && Suffix(bucket[1..], c) && [bucket[0]] + bucket[1..] == bucket
  {
    var i := |c| - |bucket|;
    assert c[i] == c[i..][0];
    assert c[i + 1..] == c[i..][1..];
    assert |bucket| > 1 ==> c[i..][1] == c[i + 1];
  }

  lemma Shift<K, V>(e: Entry<K, V>, bucket: Chain<K, V>, rest: Chain<K, V>, later: Chain<K, V>)
    requires bucket == [e] + rest
    ensures bucket + later == [e] + (rest + later)
  {
  }

  ghost predicate Suffix<K, V>(s: Chain<K, V>, c: Chain<K, V>) {
    |s| <= |c| && c[|c| - |s|..] == s
  }

  // ---------------------------------------------------------------- deleting on the way

  /** Deleting the entry just visited leaves what is to be visited. */
  lemma DeleteKeeps<K, V>(hash: K -> nat, before: Buckets<K, V>, after: Buckets<K, V>, keys: set<K>,
                          index: nat, de: Entry<K, V>, rest: Chain<K, V>)
    requires before != [] && Holds(hash, before, keys) && index < |before| && Suffix([de] + rest, before[index])
    requires ErasedFrom(hash, before, after, de.key)
    ensures |after| == |before| && Suffix(rest, after[index]) && after[index + 1..] == before[index + 1..]
  {
    var c := before[index];
    var i := |c| - |rest| - 1;
    assert c[i] == c[i..][0] == de;
    assert c[i + 1..] == c[i..][1..] == rest;
    assert Slot(hash, de.key, |before|) == index;
    assert after == before[index := Without(c, i)];
    assert Without(c, i)[i..] == c[i + 1..];
  }

  ghost function Dropped<K, V>(visited: Chain<K, V>, drop: K -> bool): set<K> {
    set e | e in visited && drop(e.key) :: e.key
  }

  /** Each key is visited once, and no other. */
  lemma VisitsEachOnce<K, V>(hash: K -> nat, cs: Buckets<K, V>, keys: set<K>)
    requires Holds(hash, cs, keys)
    ensures DistinctKeys(Flat(cs))
    ensures forall k :: k in keys <==> KeyIn(Flat(cs), k)
  {
    if cs != [] {
      FlatDistinct(hash, cs, |cs|, 0);
    }
    var es := Flat(cs);
    forall k | k in keys
      ensures KeyIn(es, k)
    {
      var i := HoldsKey(hash, cs, keys, k);
      InFlat(cs, Slot(hash, k, |cs|), i);
    }
    forall k | KeyIn(es, k)
      ensures k in keys
    {
      var j :| 0 <= j < |es| && es[j].key == k;
      var h, i := OfFlat(cs, j);
    }
  }

  /** A walk over the whole table whose caller deletes some of the entries it is given. */
  method Sweep<K(==), V>(ht: Dict<K, V>, drop: K -> bool) returns (visited: seq<Entry<K, V>>)
    requires ht.Valid()
    modifies ht, ht.table, ht.repr`next
    ensures ht.Valid() && visited == Flat(old(ht.chains))
    ensures ht.contents == map k | k in old(ht.contents) && !drop(k) :: old(ht.contents)[k]
  {
    ghost var all, m := Flat(ht.chains), ht.contents;
    var it := new Iterator(ht);
    visited := VisitAll(it, drop);
    VisitsEachOnce(ht.hash, old(ht.chains), m.Keys);
    KeptIs(m, all, drop);
  }

  method VisitAll<K(==), V>(it: Iterator<K, V>, drop: K -> bool) returns (visited: seq<Entry<K, V>>)
    requires it.ht.Valid() && it.InStep()
    modifies it, it.ht`chains, it.ht`contents, it.ht`repr, it.ht`used, it.ht.table, it.ht.repr`next
    ensures it.ht.Valid() && visited == old(it.Pending())
    ensures it.ht.contents == old(it.ht.contents) - Dropped(visited, drop)
  {
    visited := [];
    while true
      invariant it.ht.Valid() && it.ht.table == old(it.ht.table) && it.ht.repr == old(it.ht.repr)
      invariant it.InStep() && visited + it.Pending() == old(it.Pending())
      invariant it.ht.contents == old(it.ht.contents) - Dropped(visited, drop)
      decreases |it.Pending()|
    {
      ghost var before := visited;
      var de := Visit(it, drop);
      if de == null {
        break;
      }
      var e: Entry<K, V> := de;
      visited := visited + [e];
      Associative(before, [e], it.Pending());
      DroppedNext(old(it.ht.contents), before, e, drop);
    }
    assert visited + [] == visited;
  }

  method Visit<K(==), V>(it: Iterator<K, V>, drop: K -> bool) returns (de: Entry?<K, V>)
    requires it.ht.Valid() && it.InStep()
    modifies it, it.ht`chains, it.ht`contents, it.ht`repr, it.ht`used, it.ht.table, it.ht.repr`next
    ensures it.ht.Valid() && it.ht.repr == old(it.ht.repr) && it.InStep()
    ensures de == null ==> old(it.Pending()) == [] && it.ht.contents == old(it.ht.contents)
    ensures de != null ==> old(it.Pending()) == [de] + it.Pending()
    ensures de != null ==> it.ht.contents == if drop(de.key) then old(it.ht.contents) - {de.key} else old(it.ht.contents)
  {
    de := it.Next();
    if de != null && drop(de.key) {
      DeleteCurrent(it, de);
    }
  }

  lemma DroppedNext<K, V>(m: map<K, V>, visited: Chain<K, V>, de: Entry<K, V>, drop: K -> bool)
    ensures var kept := m - Dropped(visited, drop);
            m - Dropped(visited + [de], drop) == if drop(de.key) then kept - {de.key} else kept
  {
    assert Dropped(visited + [de], drop) == Dropped(visited, drop) + if drop(de.key) then {de.key} else {} by {
      forall e | e in visited + [de]
        ensures e in visited || e == de
      {
      }
      assert de in visited + [de];
    }
  }

  lemma KeptIs<K, V>(m: map<K, V>, all: Chain<K, V>, drop: K -> bool)
    requires forall k :: k in m.Keys <==> KeyIn(all, k)
    ensures m - Dropped(all, drop) == map k | k in m && !drop(k) :: m[k]
  {
    forall k | k in m
      ensures k in Dropped(all, drop) <==> drop(k)
    {
      assert KeyIn(all, k);
      var i :| 0 <= i < |all| && all[i].key == k;
      assert all[i] in all;
    }
  }

  method DeleteCurrent<K(==), V>(it: Iterator<K, V>, de: Entry<K, V>)
    requires it.ht.Valid() && it.InStep() && it.entry == de && Suffix([de] + it.rest, it.ht.chains[it.index])
    modifies it.ht`chains, it.ht`contents, it.ht`repr, it.ht`used, it.ht.table, it.ht.repr`next
    ensures it.ht.Valid() && it.ht.repr == old(it.ht.repr) && it.ht.contents == old(it.ht.contents) - {de.key}
    ensures it.InStep() && it.Pending() == old(it.Pending())
  {
    ghost var before, keys := it.ht.chains, it.ht.contents.Keys;
    ghost var c := before[it.index];
    assert c[|c| - |it.rest| - 1] == c[|c| - |it.rest| - 1..][0] == de;
    assert de.key in keys;
    var ok := it.ht.Delete(de.key);
    DeleteKeeps(it.ht.hash, before, it.ht.chains, keys, it.index, de, it.rest);
  }
}
