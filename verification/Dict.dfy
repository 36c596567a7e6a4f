/** The hash table of `dict.c` on the heap: an array of buckets and linked entries that are
    relinked in place, refining a finite map. */
module Dict {
  import opened Basics
  import opened Options
  import opened DictChains

  const DICT_HT_INITIAL_SIZE: nat := 4
  const SIZE_MAX: nat := 0xffff_ffff_ffff_ffff
  const SLOT_SIZE: nat := 8
  /** The largest power of two of pointers that `hi_calloc` asks its allocator for. */
  const MAX_BUCKETS: nat := 0x1000_0000_0000_0000

  /** The overflow test of `hi_calloc`. */
  predicate Overflows(nmemb: nat) {
    SIZE_MAX / SLOT_SIZE < nmemb
  }

  lemma OverflowsIff(i: nat, size: nat)
    requires if size <= MAX_BUCKETS then i <= MAX_BUCKETS else 2 * MAX_BUCKETS <= i
    ensures Overflows(i) <==> MAX_BUCKETS < size
  {
    assert SIZE_MAX / SLOT_SIZE == 2 * MAX_BUCKETS - 1;
  }

  // ---------------------------------------------------------------- linked lists

  ghost function At<K, V>(c: Chain<K, V>, i: nat): Entry?<K, V> {
    if i < |c| then c[i] else null
  }

  ghost predicate Linked<K, V>(head: Entry?<K, V>, c: Chain<K, V>)
    reads c`next
  {
    head == At(c, 0) && forall i :: 0 <= i < |c| ==> c[i].next == At(c, i + 1)
  }

  /** The buckets hang from the table. */
  ghost predicate Hangs<K, V>(table: array<Entry?<K, V>>, cs: Buckets<K, V>, repr: set<Entry<K, V>>)
    reads table, repr`next
  {
    && table.Length == |cs|
    && (forall h, i :: 0 <= h < |cs| && 0 <= i < |cs[h]| ==> cs[h][i] in repr)
    && forall h :: 0 <= h < |cs| ==> Linked(table[h], cs[h])
  }

  /** Puts an entry in front of its bucket. */
  method Link<K, V>(ghost hash: K -> nat, table: array<Entry?<K, V>>, h: nat, he: Entry<K, V>,
                    ghost cs: Buckets<K, V>, ghost repr: set<Entry<K, V>>)
    requires PowerOfTwo(|cs|) && Hangs(table, cs, repr) && he in repr && h == Slot(hash, he.key, |cs|)
    requires forall h, i :: 0 <= h < |cs| && 0 <= i < |cs[h]| ==> cs[h][i] != he
    modifies table, he`next
    ensures Hangs(table, PushFront(hash, cs, he), repr)
  {
    he.next := table[h];
    table[h] := he;
    ghost var ds := PushFront(hash, cs, he);
    assert Linked(table[h], ds[h]);
    forall g | 0 <= g < |ds| && g != h
      ensures Linked(table[g], ds[g])
    {
      assert old(Linked(table[g], cs[g]));
    }
  }

  /** The loop over one bucket; done are the entries of the buckets before it. */
  method MoveBucket<K, V>(hash: K -> nat, table: array<Entry?<K, V>>, head: Entry?<K, V>, n: nat,
                          ghost done: Chain<K, V>, ghost c: Chain<K, V>, ghost repr: set<Entry<K, V>>)
    returns (used: nat)
    requires PowerOfTwo(table.Length) && Linked(head, c) && n >= |c|
    requires DistinctKeys(done + c) && (forall e :: e in done + c ==> e in repr)
    requires Hangs(table, Rehash(hash, done, table.Length), repr)
    modifies table, c`next
    ensures used == n - |c| && Hangs(table, Rehash(hash, done + c, table.Length), repr)
  {
    used := n;
    var he := head;
    ghost var j := 0;
    assert done + c[..0] == done;
    while he != null
      invariant j <= |c| && he == At(c, j) && used == n - j
      invariant forall i :: j <= i < |c| ==> c[i].next == At(c, i + 1)
      invariant Hangs(table, Rehash(hash, done + c[..j], table.Length), repr)
      decreases |c| - j
    {
      he := MoveNext(hash, table, he, done, c, j, repr);
      j := j + 1;
      used := used - 1;
    }
    assert c[..j] == c;
  }

  method MoveNext<K, V>(hash: K -> nat, table: array<Entry?<K, V>>, he: Entry<K, V>,
                        ghost done: Chain<K, V>, ghost c: Chain<K, V>, ghost j: nat, ghost repr: set<Entry<K, V>>)
    returns (next: Entry?<K, V>)
    requires PowerOfTwo(table.Length) && j < |c| && he == c[j]
    requires forall i :: j <= i < |c| ==> c[i].next == At(c, i + 1)
    requires DistinctKeys(done + c) && (forall e :: e in done + c ==> e in repr)
    requires Hangs(table, Rehash(hash, done + c[..j], table.Length), repr)
    modifies table, he`next
    ensures next == At(c, j + 1) && forall i :: j < i < |c| ==> c[i].next == At(c, i + 1)
    ensures Hangs(table, Rehash(hash, done + c[..j + 1], table.Length), repr)
  {
    next := he.next;
    ghost var cs := Rehash(hash, done + c[..j], table.Length);
    NotYet(hash, done, c, j, table.Length, cs);
    var h := And(hash(he.key), table.Length - 1);
    Link(hash, table, h, he, cs, repr);
    NextMoved(hash, done, c, j, table.Length);
  }

  lemma NextMoved<K, V>(hash: K -> nat, done: Chain<K, V>, c: Chain<K, V>, j: nat, n: nat)
    requires PowerOfTwo(n) && j < |c|
    ensures Rehash(hash, done + c[..j + 1], n) == PushFront(hash, Rehash(hash, done + c[..j], n), c[j])
  {
    assert done + c[..j + 1] == done + c[..j] + [c[j]];
    RehashSnoc(hash, done + c[..j], c[j], n);
  }

  lemma NotYet<K, V>(hash: K -> nat, done: Chain<K, V>, c: Chain<K, V>, j: nat, n: nat, cs: Buckets<K, V>)
    requires PowerOfTwo(n) && DistinctKeys(done + c) && j < |c| && cs == Rehash(hash, done + c[..j], n)
    ensures c[j] in done + c
    ensures forall h, i :: 0 <= h < n && 0 <= i < |cs[h]| ==> cs[h][i] != c[j]
    ensures forall i :: j < i < |c| ==> c[i] != c[j]
  {
    var es := done + c[..j];
    assert (done + c)[|done| + j] == c[j];
    forall h, i | 0 <= h < n && 0 <= i < |cs[h]|
      ensures cs[h][i] != c[j]
    {
      RehashFrom(hash, es, n, h, i);
      var k :| 0 <= k < |es| && es[k] == cs[h][i];
      assert (done + c)[k] == es[k];
    }
    forall i | j < i < |c|
      ensures c[i] != c[j]
    {
      assert (done + c)[|done| + i] == c[i];
    }
  }

  /** The loop over all buckets; the count of entries left is what ends it early. */
  method MoveAll<K, V>(hash: K -> nat, table: array<Entry?<K, V>>, n: nat, target: array<Entry?<K, V>>,
                       ghost cs: Buckets<K, V>, ghost repr: set<Entry<K, V>>)
    returns (used: nat)
    requires table != target && PowerOfTwo(target.Length) && n == |Flat(cs)|
    requires Hangs(table, cs, repr) && Hangs(target, NoBuckets(target.Length), repr)
    requires cs != [] ==> PowerOfTwo(|cs|) && Placed(hash, cs, |cs|, 0)
    requires DistinctKeys(Flat(cs))
    modifies target, repr`next
    ensures used == 0 && Hangs(target, Rehash(hash, Flat(cs), target.Length), repr)
  {
    used := n;
    var i := 0;
    assert cs[0..] == cs && cs[..0] == [];
    while i < table.Length && used > 0
      invariant i <= table.Length == |cs| && used == |Flat(cs[i..])|
      invariant forall h :: i <= h < |cs| ==> Linked(table[h], cs[h])
      invariant Hangs(target, Rehash(hash, Flat(cs[..i]), target.Length), repr)
      decreases table.Length - i
    {
      used := MoveAt(hash, table, i, used, target, cs, repr);
      i := i + 1;
    }
    AllMoved(cs, i);
  }

  /** One turn of that loop. */
  method MoveAt<K, V>(hash: K -> nat, table: array<Entry?<K, V>>, i: nat, n: nat, target: array<Entry?<K, V>>,
                      ghost cs: Buckets<K, V>, ghost repr: set<Entry<K, V>>)
    returns (used: nat)
    requires table != target && PowerOfTwo(target.Length) && i < table.Length == |cs| && n == |Flat(cs[i..])|
    requires PowerOfTwo(|cs|) && Placed(hash, cs, |cs|, 0) && DistinctKeys(Flat(cs))
    requires forall h, k :: 0 <= h < |cs| && 0 <= k < |cs[h]| ==> cs[h][k] in repr
    requires forall h :: i <= h < |cs| ==> Linked(table[h], cs[h])
    requires Hangs(target, Rehash(hash, Flat(cs[..i]), target.Length), repr)
    modifies target, repr`next
    ensures used == |Flat(cs[i + 1..])|
    ensures forall h :: i < h < |cs| ==> Linked(table[h], cs[h])
    ensures Hangs(target, Rehash(hash, Flat(cs[..i + 1]), target.Length), repr)
  {
    FlatNext(cs, i);
    PrefixDistinct(cs, i, repr);
    BucketsApart(hash, cs, i);
    used := MoveBucket(hash, target, table[i], n, Flat(cs[..i]), cs[i], repr);
  }

  lemma BucketsApart<K, V>(hash: K -> nat, cs: Buckets<K, V>, i: nat)
    requires i < |cs| && PowerOfTwo(|cs|) && Placed(hash, cs, |cs|, 0)
    ensures forall h, k :: 0 <= h < |cs| && h != i && 0 <= k < |cs[h]| ==> cs[h][k] !in cs[i]
  {
  }

  lemma AllMoved<K, V>(cs: Buckets<K, V>, i: nat)
    requires i <= |cs| && (i == |cs| || |Flat(cs[i..])| == 0)
    ensures i == |cs| ==> |Flat(cs[i..])| == 0
    ensures Flat(cs[..i]) == Flat(cs)
  {
    FlatSplit(cs, i);
    assert i == |cs| ==> cs[i..] == [];
    assert Flat(cs) == Flat(cs[..i]);
  }

  lemma PrefixDistinct<K, V>(cs: Buckets<K, V>, i: nat, repr: set<Entry<K, V>>)
    requires i < |cs| && DistinctKeys(Flat(cs))
    requires forall h, i :: 0 <= h < |cs| && 0 <= i < |cs[h]| ==> cs[h][i] in repr
    ensures DistinctKeys(Flat(cs[..i]) + cs[i])
    ensures forall e :: e in Flat(cs[..i]) + cs[i] ==> e in repr
  {
    FlatSplit(cs, i + 1);
    FlatNext(cs, i);
    var es := Flat(cs[..i + 1]);
    forall j | 0 <= j < |es|
      ensures es[j] in repr
    {
      var h, k := OfFlat(cs[..i + 1], j);
      assert cs[h][k] in repr;
    }
    forall j, k | 0 <= j < k < |es|
      ensures es[j].key != es[k].key
    {
      assert es[j] == Flat(cs)[j] && es[k] == Flat(cs)[k];
    }
  }

  // ---------------------------------------------------------------- the table

  ghost predicate Values<K, V>(cs: Buckets<K, V>, repr: set<Entry<K, V>>, contents: map<K, V>)
    reads repr`val
  {
    forall h, i :: 0 <= h < |cs| && 0 <= i < |cs[h]| ==>
                     cs[h][i] in repr && cs[h][i].key in contents && cs[h][i].val == contents[cs[h][i].key]
  }

  lemma RehashValues<K, V>(hash: K -> nat, cs: Buckets<K, V>, repr: set<Entry<K, V>>, contents: map<K, V>, n: nat)
    requires Values(cs, repr, contents) && PowerOfTwo(n)
    ensures Values(Rehash(hash, Flat(cs), n), repr, contents)
  {
    var r := Rehash(hash, Flat(cs), n);
    forall h, i | 0 <= h < |r| && 0 <= i < |r[h]|
      ensures r[h][i] in repr && r[h][i].key in contents && r[h][i].val == contents[r[h][i].key]
    {
      RehashFrom(hash, Flat(cs), n, h, i);
      var j :| 0 <= j < |Flat(cs)| && Flat(cs)[j] == r[h][i];
      var g, k := OfFlat(cs, j);
      assert cs[g][k] == r[h][i];
    }
  }

  lemma AddValues<K, V>(hash: K -> nat, cs: Buckets<K, V>, repr: set<Entry<K, V>>, contents: map<K, V>, e: Entry<K, V>)
    requires Values(cs, repr, contents) && PowerOfTwo(|cs|) && e.key !in contents
    ensures Values(PushFront(hash, cs, e), repr + {e}, contents[e.key := e.val])
    ensures contents[e.key := e.val].Keys == contents.Keys + {e.key}
    ensures |contents[e.key := e.val]| == |contents| + 1
  {
    assert contents[e.key := e.val].Keys == contents.Keys + {e.key};
    assert |contents.Keys| == |contents| && |contents[e.key := e.val].Keys| == |contents[e.key := e.val]|;
  }

  class Dict<K(==), V> {
    const hash: K -> nat
    var table: array<Entry?<K, V>>
    var size: nat
    var sizemask: nat
    var used: nat
    ghost var chains: Buckets<K, V>
    ghost var repr: set<Entry<K, V>>
    ghost var contents: map<K, V>

    ghost predicate Valid()
      reads this, table, repr
    {
      && size == |chains| && sizemask == (if size == 0 then 0 else size - 1)
      && Hangs(table, chains, repr)
      && Holds(hash, chains, contents.Keys)
      && Values(chains, repr, contents)
      && used == |Flat(chains)| == |contents| && used <= size
    }

    /** `dictCreate` */
    constructor (h: K -> nat)
      ensures Valid() && fresh(table) && hash == h && contents == map[] && size == 0
    {
      hash := h;
      table := new Entry?<K, V>[0];
      size, sizemask, used := 0, 0, 0;
      chains, repr, contents := [], {}, map[];
    }

    /** `dictExpand`; false for DICT_ERR. */
    method Expand(n: nat) returns (ok: bool)
      requires Valid()
      modifies `table, `size, `sizemask, `chains, repr`next
      ensures Valid()
      ensures ok <==> old(used) <= n <= MAX_BUCKETS
      ensures !ok ==> table == old(table) && size == old(size) && chains == old(chains)
      ensures ok ==> fresh(table) && size >= n && PowerOfTwo(size) && IsNextPower(n, size)
      ensures ok ==> chains == Rehash(hash, Flat(old(chains)), size)
    {
      var realsize := NextPower(n);
      NextPowerOverflows(n, realsize);
      if used > n {
        return false;
      }
      if Overflows(realsize) {
        return false;
      }
      Rebuild(realsize);
      ok := true;
    }

    /** The rest of `dictExpand`, from the new array on. */
    method Rebuild(n: nat)
      requires Valid() && PowerOfTwo(n) && used <= n
      modifies `table, `size, `sizemask, `chains, repr`next
      ensures Valid() && fresh(table) && size == n
      ensures chains == Rehash(hash, Flat(old(chains)), n)
    {
      var t, left := Relink(n);
      assert left == 0;
      RehashHolds(hash, chains, contents.Keys, n);
      RehashValues(hash, chains, repr, contents, n);
      Adopt(t, n, Rehash(hash, Flat(chains), n));
    }

    method Adopt(t: array<Entry?<K, V>>, n: nat, ghost cs: Buckets<K, V>)
      requires n == |cs| > 0 && Hangs(t, cs, repr)
      requires Holds(hash, cs, contents.Keys) && Values(cs, repr, contents)
      requires used == |Flat(cs)| == |contents| && used <= n
      modifies `table, `size, `sizemask, `chains
      ensures Valid() && table == t && size == n && chains == cs
    {
      table, size, sizemask := t, n, n - 1;
      chains := cs;
    }

    /** A new array of buckets and the entries in it; left are the entries that are not. */
    method Relink(n: nat) returns (t: array<Entry?<K, V>>, left: nat)
      requires Valid() && PowerOfTwo(n)
      modifies repr`next
      ensures fresh(t) && left == 0 && Hangs(t, Rehash(hash, Flat(chains), n), repr)
    {
      t := new Entry?<K, V>[n](_ => null);
      if chains != [] {
        FlatDistinct(hash, chains, |chains|, 0);
      }
      left := MoveAll(hash, table, used, t, chains, repr);
    }

    /** `_dictExpandIfNeeded` */
    method ExpandIfNeeded() returns (ok: bool)
      requires Valid()
      modifies `table, `size, `sizemask, `chains, repr`next
      ensures Valid()
      ensures ok <==> old(used < size || 2 * size <= MAX_BUCKETS)
      ensures ok <==> used < size
      ensures fresh(table) || (table == old(table) && chains == old(chains))
    {
      if size == 0 {
        ok := Expand(DICT_HT_INITIAL_SIZE);
      } else if used == size {
        ok := Expand(size * 2);
      } else {
        ok := true;
      }
    }

    /** `_dictKeyIndex`; None for -1. */
    method KeyIndex(key: K) returns (index: Option<nat>)
      requires Valid() && size <= 0x4000_0000
      modifies `table, `size, `sizemask, `chains, repr`next
      ensures Valid() && (fresh(table) || table == old(table))
      ensures index.None? <==> key in contents
      ensures index.Some? ==> size > used && index.value == Slot(hash, key, size)
    {
      var ok := ExpandIfNeeded();
      if !ok {
        return None;
      }
      var h := And(hash(key), sizemask);
      assert h == Slot(hash, key, size);
      NotHeld(hash, chains, contents.Keys, key);
      ghost var i;
      var he;
      he, i := Search(table[h], key, chains[h]);
      return if he != null then None else Some(h);
    }

    /** `dictAdd`; false for DICT_ERR. */
    method Add(key: K, val: V) returns (ok: bool)
      requires Valid() && size <= 0x4000_0000
      modifies this, table, repr`next
      ensures Valid() && fresh(repr - old(repr)) && (fresh(table) || table == old(table))
      ensures ok <==> key !in old(contents)
      ensures contents == if ok then old(contents)[key := val] else old(contents)
    {
      var index := KeyIndex(key);
      if index.None? {
        return false;
      }
      Insert(index.value, key, val);
      return true;
    }

    method Insert(index: nat, key: K, val: V)
      requires Valid() && key !in contents && used < size && index == Slot(hash, key, size)
      modifies `chains, `repr, `contents, `used, table
      ensures Valid() && fresh(repr - old(repr)) && contents == old(contents)[key := val]
    {
      var entry := new Entry(key, val, null);
      ghost var cs, entries, m := PushFront(hash, chains, entry), repr + {entry}, contents[key := val];
      AddHolds(hash, chains, contents.Keys, entry);
      AddValues(hash, chains, repr, contents, entry);
      MoreEntries(table, chains, repr, entries);
      EntryIsNew(chains, repr, entry);
      assert Holds(hash, cs, m.Keys) && Values(cs, entries, m);
      Link(hash, table, index, entry, chains, entries);
      Commit(used + 1, cs, entries, m);
    }

    method Commit(n: nat, ghost cs: Buckets<K, V>, ghost entries: set<Entry<K, V>>, ghost m: map<K, V>)
      requires |cs| == size > 0 && sizemask == size - 1 && Hangs(table, cs, entries)
      requires Holds(hash, cs, m.Keys) && Values(cs, entries, m)
      requires n == |Flat(cs)| == |m| && n <= size
      modifies `chains, `repr, `contents, `used
      ensures Valid() && chains == cs && repr == entries && contents == m
    {
      used := n;
      chains, repr, contents := cs, entries, m;
    }

    /** `dictReplace`; true when the key is new. */
    method Replace(key: K, val: V) returns (added: bool)
      requires Valid() && size <= 0x4000_0000
      modifies this, table, repr
      ensures Valid() && fresh(repr - old(repr)) && (fresh(table) || table == old(table))
      ensures added <==> key !in old(contents)
      ensures contents == old(contents)[key := val]
    {
      added := Add(key, val);
      if added {
        return;
      }
      var entry := Find(key);
      SetVal(entry, val);
    }

    method SetVal(entry: Entry<K, V>, val: V)
      requires Valid() && size > 0 && entry in chains[Slot(hash, entry.key, size)]
      modifies `contents, entry`val
      ensures Valid() && contents == old(contents)[entry.key := val]
    {
      ghost var h := Slot(hash, entry.key, size);
      ghost var i :| 0 <= i < |chains[h]| && chains[h][i] == entry;
      OneEntry(hash, chains, contents.Keys, h, i);
      entry.val := val;
      contents := contents[entry.key := val];
      assert contents.Keys == old(contents).Keys;
      assert |contents.Keys| == |contents| && |old(contents).Keys| == |old(contents)|;
    }

    /** `dictDelete`; false for DICT_ERR. */
    method Delete(key: K) returns (ok: bool)
      requires Valid()
      modifies `chains, `contents, `repr, `used, table, repr`next
      ensures Valid() && repr == old(repr)
      ensures ok <==> key in old(contents)
      ensures contents == old(contents) - {key}
      ensures ok ==> size > 0 && ErasedFrom(hash, old(chains), chains, key)
    {
      if size == 0 {
        return false;
      }
      var h := And(hash(key), sizemask);
      assert h == Slot(hash, key, size);
      NotHeld(hash, chains, contents.Keys, key);
      var prev, de;
      ghost var i;
      prev, de, i := SearchPrev(table[h], key, chains[h]);
      if de == null {
        assert contents - {key} == contents;
        return false;
      }
      Remove(h, prev, de, i);
      return true;
    }

    method Remove(h: nat, prev: Entry?<K, V>, de: Entry<K, V>, ghost i: nat)
      requires Valid() && h < size && i < |chains[h]|
      requires de == chains[h][i] && prev == if i == 0 then null else chains[h][i - 1]
      modifies `chains, `contents, `repr, `used, table, (if prev == null then {} else {prev})`next
      ensures Valid() && repr == old(repr) && contents == old(contents) - {de.key}
      ensures chains == old(chains)[h := Without(old(chains)[h], i)]
    {
      ghost var cs, m := chains[h := Without(chains[h], i)], contents - {de.key};
      Removable(hash, chains, repr, contents, h, i);
      Unlink(table, h, prev, de, chains, i, repr);
      Commit(used - 1, cs, repr, m);
    }

    /** `dictFind` */
    method Find(key: K) returns (he: Entry?<K, V>)
      requires Valid()
      ensures he == null <==> key !in contents
      ensures he != null ==> he in repr && he.key == key && he.val == contents[key]
      ensures he != null ==> size > 0 && he in chains[Slot(hash, key, size)]
    {
      if size == 0 {
        return null;
      }
      var h := And(hash(key), sizemask);
      assert h == Slot(hash, key, size);
      NotHeld(hash, chains, contents.Keys, key);
      ghost var i;
      he, i := Search(table[h], key, chains[h]);
    }
  }

  /** The entry of the key is gone, and nothing else has changed. */
  ghost predicate ErasedFrom<K, V>(hash: K -> nat, before: Buckets<K, V>, after: Buckets<K, V>, key: K)
    requires PowerOfTwo(|before|)
  {
    var h := Slot(hash, key, |before|);
    forall i :: 0 <= i < |before[h]| && before[h][i].key == key ==> after == before[h := Without(before[h], i)]
  }

  /** Takes an entry out of its bucket. */
  method Bypass<K, V>(table: array<Entry?<K, V>>, h: nat, prev: Entry?<K, V>, de: Entry<K, V>, ghost c: Chain<K, V>, ghost i: nat)
    requires h < table.Length && i < |c| && DistinctKeys(c) && Linked(table[h], c)
    requires de == c[i] && prev == if i == 0 then null else c[i - 1]
    modifies table, (if prev == null then {} else {prev})`next
    ensures Linked(table[h], Without(c, i))
    ensures forall g :: 0 <= g < table.Length && g != h ==> table[g] == old(table[g])
  {
    if prev != null {
      prev.next := de.next;
    } else {
      table[h] := de.next;
    }
    ghost var r := Without(c, i);
    forall j | 0 <= j < |r|
      ensures r[j].next == At(r, j + 1)
    {
      var k := if j < i then j else j + 1;
      assert r[j] == c[k] && old(c[k].next) == At(c, k + 1);
    }
  }

  method Unlink<K, V>(table: array<Entry?<K, V>>, h: nat, prev: Entry?<K, V>, de: Entry<K, V>,
                      ghost cs: Buckets<K, V>, ghost i: nat, ghost repr: set<Entry<K, V>>)
    requires Hangs(table, cs, repr) && h < |cs| && i < |cs[h]| && DistinctKeys(cs[h])
    requires forall g, j :: 0 <= g < |cs| && g != h && 0 <= j < |cs[g]| ==> cs[g][j] != prev
    requires de == cs[h][i] && prev == if i == 0 then null else cs[h][i - 1]
    modifies table, (if prev == null then {} else {prev})`next
    ensures Hangs(table, cs[h := Without(cs[h], i)], repr)
  {
    Bypass(table, h, prev, de, cs[h], i);
    ghost var r := cs[h := Without(cs[h], i)];
    forall g | 0 <= g < |cs|
      ensures Linked(table[g], r[g])
    {
      assert old(Linked(table[g], cs[g]));
    }
    forall j | 0 <= j < |r[h]|
      ensures r[h][j] in repr
    {
      assert r[h][j] == cs[h][if j < i then j else j + 1];
    }
  }

  lemma RemoveValues<K, V>(cs: Buckets<K, V>, repr: set<Entry<K, V>>, contents: map<K, V>, h: nat, i: nat)
    requires Values(cs, repr, contents) && h < |cs| && i < |cs[h]| && cs[h][i].key in contents
    requires forall g, j :: 0 <= g < |cs| && 0 <= j < |cs[g]| && (g != h || j != i) ==> cs[g][j].key != cs[h][i].key
    ensures Values(cs[h := Without(cs[h], i)], repr, contents - {cs[h][i].key})
    ensures |contents - {cs[h][i].key}| == |contents| - 1
  {
    var key, c := cs[h][i].key, Without(cs[h], i);
    forall j | 0 <= j < |c|
      ensures c[j] == cs[h][if j < i then j else j + 1]
    {
    }
    assert (contents - {key}).Keys == contents.Keys - {key};
    assert |contents.Keys| == |contents| && |(contents - {key}).Keys| == |contents - {key}|;
  }

  /** All that `Remove` needs to know about the buckets. */
  lemma Removable<K, V>(hash: K -> nat, cs: Buckets<K, V>, repr: set<Entry<K, V>>, contents: map<K, V>, h: nat, i: nat)
    requires cs != [] && Holds(hash, cs, contents.Keys) && Values(cs, repr, contents) && h < |cs| && i < |cs[h]|
    ensures var r, m := cs[h := Without(cs[h], i)], contents - {cs[h][i].key};
            && Holds(hash, r, m.Keys) && Values(r, repr, m)
            && |Flat(r)| == |Flat(cs)| - 1 && |m| == |contents| - 1
    ensures DistinctKeys(cs[h])
    ensures i > 0 ==> forall g, j :: 0 <= g < |cs| && g != h && 0 <= j < |cs[g]| ==> cs[g][j] != cs[h][i - 1]
  {
    RemoveHolds(hash, cs, contents.Keys, h, i);
    OneEntry(hash, cs, contents.Keys, h, i);
    RemoveValues(cs, repr, contents, h, i);
    assert (contents - {cs[h][i].key}).Keys == contents.Keys - {cs[h][i].key};
    if i > 0 {
      OneEntry(hash, cs, contents.Keys, h, i - 1);
    }
  }

  /** The buckets still hang when entries that they do not hold come in. */
  lemma EntryIsNew<K, V>(cs: Buckets<K, V>, repr: set<Entry<K, V>>, e: Entry<K, V>)
    requires e !in repr && forall h, i :: 0 <= h < |cs| && 0 <= i < |cs[h]| ==> cs[h][i] in repr
    ensures forall h, i :: 0 <= h < |cs| && 0 <= i < |cs[h]| ==> cs[h][i] != e
  {
  }

  lemma MoreEntries<K, V>(table: array<Entry?<K, V>>, cs: Buckets<K, V>, repr: set<Entry<K, V>>, more: set<Entry<K, V>>)
    requires Hangs(table, cs, repr) && repr <= more
    ensures Hangs(table, cs, more)
  {
  }

  /** The loop of `dictDelete` along a bucket, which trails by one. */
  method SearchPrev<K(==), V>(head: Entry?<K, V>, key: K, ghost c: Chain<K, V>)
    returns (prev: Entry?<K, V>, de: Entry?<K, V>, ghost i: nat)
    requires Linked(head, c)
    ensures de == null <==> !KeyIn(c, key)
    ensures de != null ==> i < |c| && de == c[i] && de.key == key && prev == if i == 0 then null else c[i - 1]
  {
    prev, de, i := null, head, 0;
    while de != null
      invariant i <= |c| && de == At(c, i) && prev == if i == 0 then null else c[i - 1]
      invariant forall j :: 0 <= j < i ==> c[j].key != key
      decreases |c| - i
    {
      if de.key == key {
        return;
      }
      prev, de, i := de, de.next, i + 1;
    }
  }

  /** The loop along a bucket. */
  method Search<K(==), V>(head: Entry?<K, V>, key: K, ghost c: Chain<K, V>) returns (he: Entry?<K, V>, ghost i: nat)
    requires Linked(head, c)
    ensures he == null <==> !KeyIn(c, key)
    ensures he != null ==> i < |c| && he == c[i] && he.key == key
  {
    he, i := head, 0;
    while he != null
      invariant i <= |c| && he == At(c, i)
      invariant forall j :: 0 <= j < i ==> c[j].key != key
      decreases |c| - i
    {
      if he.key == key {
        return;
      }
      he, i := he.next, i + 1;
    }
  }

  lemma {:induction false} PowersApart(a: nat, b: nat)
    requires PowerOfTwo(a) && PowerOfTwo(b) && a < b
    ensures 2 * a <= b
  {
    if a == 1 {
    } else {
      PowersApart(a / 2, b / 2);
    }
  }

  lemma Doubling(i: nat, m: nat)
    requires PowerOfTwo(i) && PowerOfTwo(m)
    ensures i < m ==> 2 * i <= m
    ensures m < i ==> 2 * m <= i
  {
    if i < m {
      PowersApart(i, m);
    }
    if m < i {
      PowersApart(m, i);
    }
  }

  lemma TimesThirtyTwo(n: nat)
    requires PowerOfTwo(n)
    ensures PowerOfTwo(32 * n)
  {
    assert PowerOfTwo(2 * n) by {
      assert 2 * n / 2 == n;
    }
    assert 4 * n / 2 == 2 * n && 8 * n / 2 == 4 * n && 16 * n / 2 == 8 * n && 32 * n / 2 == 16 * n;
    assert PowerOfTwo(4 * n);
    assert PowerOfTwo(8 * n);
    assert PowerOfTwo(16 * n);
  }

  lemma MaxBucketsPower()
    ensures PowerOfTwo(MAX_BUCKETS)
  {
    TimesThirtyTwo(0x1);
    TimesThirtyTwo(0x20);
    TimesThirtyTwo(0x400);
    TimesThirtyTwo(0x8000);
    TimesThirtyTwo(0x100000);
    TimesThirtyTwo(0x2000000);
    TimesThirtyTwo(0x40000000);
    TimesThirtyTwo(0x800000000);
    TimesThirtyTwo(0x10000000000);
    TimesThirtyTwo(0x200000000000);
    TimesThirtyTwo(0x4000000000000);
    TimesThirtyTwo(0x80000000000000);
  }

  /** What `_dictNextPower` gives for a size. */
  predicate IsNextPower(size: nat, i: nat) {
    if size >= LONG_MAX then i == LONG_MAX
    else PowerOfTwo(i) && i >= size && i >= DICT_HT_INITIAL_SIZE && (i == DICT_HT_INITIAL_SIZE || i / 2 < size)
  }

  lemma NextPowerBelow(size: nat, i: nat, m: nat)
    requires PowerOfTwo(i) && PowerOfTwo(m) && i >= size && 4 <= m && (i == 4 || (i > 1 && i / 2 < size))
    ensures if size <= m then i <= m else 2 * m <= i
  {
    Doubling(i, m);
    if i != 4 && size <= m {
      Doubling(i / 2, m);
    }
  }

  lemma NextPowerOverflows(size: nat, i: nat)
    requires IsNextPower(size, i)
    ensures Overflows(i) <==> MAX_BUCKETS < size
  {
    if size < LONG_MAX {
      MaxBucketsPower();
      NextPowerBelow(size, i, MAX_BUCKETS);
    }
    OverflowsIff(i, size);
  }

  /** `_dictNextPower` */
  method NextPower(size: nat) returns (i: nat)
    ensures IsNextPower(size, i)
  {
    i := DICT_HT_INITIAL_SIZE;
    if size >= LONG_MAX {
      return LONG_MAX;
    }
    while i < size
      invariant PowerOfTwo(i) && i >= DICT_HT_INITIAL_SIZE && (i == DICT_HT_INITIAL_SIZE || i / 2 < size)
    {
      i := i * 2;
    }
  }
}
