/** The chained hash table of `dict.c`, first without the links: buckets as sequences of entries,
    and what moving the entries to a new array of buckets does to them. */
module DictChains {
  import opened Basics

  // ---------------------------------------------------------------- sizes and masks

  predicate PowerOfTwo(n: nat) {
    n == 1 || (n > 1 && n % 2 == 0 && PowerOfTwo(n / 2))
  }

  /** The & operator. */
  function And(a: nat, b: nat): nat {
    if a == 0 || b == 0 then 0 else 2 * And(a / 2, b / 2) + if a % 2 == 1 && b % 2 == 1 then 1 else 0
  }

  /** Masking with the size less one is taking the remainder. */
  lemma {:induction false} Mask(a: nat, n: nat)
    requires PowerOfTwo(n)
    ensures And(a, n - 1) == a % n
  {
    if n <= 1 {
    } else {
      var m := n / 2;
      Mask(a / 2, m);
      assert (n - 1) / 2 == m - 1;
      Halves(a, m);
      if a == 0 {
        assert a % n == 0;
      }
    }
  }

  lemma Halves(a: nat, m: nat)
    requires m > 0
    ensures a % (2 * m) == 2 * (a / 2 % m) + a % 2
  {
    var q, r := a / (2 * m), a % (2 * m);
    assert a == 2 * (q * m) + r by {
      assert q * (2 * m) == 2 * (q * m);
    }
    assert a / 2 == q * m + r / 2;
    Remainder(a / 2, q, m, r / 2);
  }

  // ---------------------------------------------------------------- entries and chains

  class Entry<K, V> {
    const key: K
    var val: V
    var next: Entry?<K, V>

    constructor (k: K, v: V, n: Entry?<K, V>)
      ensures key == k && val == v && next == n
    {
      key, val, next := k, v, n;
    }
  }

  type Chain<K, V> = seq<Entry<K, V>>
  type Buckets<K, V> = seq<Chain<K, V>>

  /** The bucket of a key: its hash masked. */
  function Slot<K>(hash: K -> nat, k: K, n: nat): (r: nat)
    requires PowerOfTwo(n)
    ensures r < n
  {
    Mask(hash(k), n);
    And(hash(k), n - 1)
  }

  ghost predicate DistinctKeys<K, V>(c: Chain<K, V>) {
    forall i, j :: 0 <= i < j < |c| ==> c[i].key != c[j].key
  }

  ghost predicate KeyIn<K, V>(c: Chain<K, V>, k: K) {
    exists i :: 0 <= i < |c| && c[i].key == k
  }

  /** Every entry is in the bucket of its key, counted from a base. */
  ghost predicate Placed<K, V>(hash: K -> nat, cs: Buckets<K, V>, n: nat, base: nat)
    requires PowerOfTwo(n)
  {
    forall h, i :: 0 <= h < |cs| && 0 <= i < |cs[h]| ==> Slot(hash, cs[h][i].key, n) == base + h
  }

  /** The buckets hold these keys, each once and in its place. */
  ghost predicate Holds<K, V>(hash: K -> nat, cs: Buckets<K, V>, keys: set<K>) {
    if cs == [] then keys == {}
    else
      && PowerOfTwo(|cs|) && Placed(hash, cs, |cs|, 0)
      && (forall h :: 0 <= h < |cs| ==> DistinctKeys(cs[h]))
      && (forall h, i :: 0 <= h < |cs| && 0 <= i < |cs[h]| ==> cs[h][i].key in keys)
      && (forall k {:trigger KeyIn(cs[Slot(hash, k, |cs|)], k)} :: k in keys ==> KeyIn(cs[Slot(hash, k, |cs|)], k))
  }

  function Flat<K, V>(cs: Buckets<K, V>): Chain<K, V> {
    if cs == [] then [] else cs[0] + Flat(cs[1..])
  }

  lemma {:induction false} InFlat<K, V>(cs: Buckets<K, V>, h: nat, i: nat)
    requires h < |cs| && i < |cs[h]|
    ensures cs[h][i] in Flat(cs)
  {
    if h == 0 {
    } else {
      InFlat(cs[1..], h - 1, i);
    }
  }

  lemma {:induction false} OfFlat<K, V>(cs: Buckets<K, V>, j: nat) returns (h: nat, i: nat)
    requires j < |Flat(cs)|
    ensures h < |cs| && i < |cs[h]| && cs[h][i] == Flat(cs)[j]
  {
    if j < |cs[0]| {
      h, i := 0, j;
    } else {
      h, i := OfFlat(cs[1..], j - |cs[0]|);
      h := h + 1;
    }
  }

  lemma {:induction false} FlatSplit<K, V>(cs: Buckets<K, V>, i: nat)
    requires i <= |cs|
    ensures Flat(cs) == Flat(cs[..i]) + Flat(cs[i..])
  {
    if i == 0 {
      assert cs[0..] == cs;
    } else {
      FlatSplit(cs[1..], i - 1);
      assert cs[..i][1..] == cs[1..][..i - 1];
      assert cs[1..][i - 1..] == cs[i..];
    }
  }

  lemma FlatNext<K, V>(cs: Buckets<K, V>, i: nat)
    requires i < |cs|
    ensures Flat(cs[..i + 1]) == Flat(cs[..i]) + cs[i] && Flat(cs[i..]) == cs[i] + Flat(cs[i + 1..])
  {
    var a := cs[..i + 1];
    FlatSplit(a, i);
    assert a[..i] == cs[..i] && a[i..] == [cs[i]];
    assert Flat([cs[i]]) == cs[i];
    assert cs[i..][1..] == cs[i + 1..];
  }

  lemma {:induction false} FlatUpdate<K, V>(cs: Buckets<K, V>, h: nat, c: Chain<K, V>)
    requires h < |cs|
    ensures |Flat(cs[h := c])| == |Flat(cs)| - |cs[h]| + |c|
  {
    if h > 0 {
      FlatUpdate(cs[1..], h - 1, c);
      assert cs[h := c][1..] == cs[1..][h - 1 := c];
    } else {
      assert cs[h := c][1..] == cs[1..];
    }
  }

  /** Entries of different buckets have different keys, so all of them have. */
  lemma {:induction false} FlatDistinct<K, V>(hash: K -> nat, cs: Buckets<K, V>, n: nat, base: nat)
    requires PowerOfTwo(n) && Placed(hash, cs, n, base)
    requires forall h :: 0 <= h < |cs| ==> DistinctKeys(cs[h])
    ensures DistinctKeys(Flat(cs))
  {
    if cs == [] {
    } else {
      var rest := Flat(cs[1..]);
      FlatDistinct(hash, cs[1..], n, base + 1);
      forall i, j | 0 <= i < |cs[0]| && 0 <= j < |rest|
        ensures cs[0][i].key != rest[j].key
      {
        var h, k := OfFlat(cs[1..], j);
        assert cs[1..][h][k] == cs[h + 1][k];
      }
    }
  }

  // ---------------------------------------------------------------- moving entries to new buckets

  function PushFront<K, V>(hash: K -> nat, cs: Buckets<K, V>, e: Entry<K, V>): (r: Buckets<K, V>)
    requires PowerOfTwo(|cs|)
    ensures |r| == |cs|
  {
    var h := Slot(hash, e.key, |cs|);
    cs[h := [e] + cs[h]]
  }

  function NoBuckets<K, V>(n: nat): (r: Buckets<K, V>)
    ensures |r| == n && forall h :: 0 <= h < n ==> r[h] == []
  {
    seq(n, _ => [])
  }

  function Rehash<K, V>(hash: K -> nat, es: Chain<K, V>, n: nat): (r: Buckets<K, V>)
    requires PowerOfTwo(n)
    ensures |r| == n
  {
    if es == [] then NoBuckets(n)
    else PushFront(hash, Rehash(hash, es[..|es| - 1], n), es[|es| - 1])
  }

  lemma RehashSnoc<K, V>(hash: K -> nat, es: Chain<K, V>, e: Entry<K, V>, n: nat)
    requires PowerOfTwo(n)
    ensures Rehash(hash, es + [e], n) == PushFront(hash, Rehash(hash, es, n), e)
  {
    assert (es + [e])[..|es|] == es;
  }

  lemma {:induction false} NoBucketsFlat<K, V>(n: nat)
    ensures Flat(NoBuckets<K, V>(n)) == []
  {
    if n > 0 {
      NoBucketsFlat<K, V>(n - 1);
      assert NoBuckets<K, V>(n)[1..] == NoBuckets<K, V>(n - 1);
    }
  }

  /** Nothing else gets in. */
  lemma {:induction false} RehashFrom<K, V>(hash: K -> nat, es: Chain<K, V>, n: nat, h: nat, i: nat)
    requires PowerOfTwo(n) && h < n && i < |Rehash(hash, es, n)[h]|
    ensures Rehash(hash, es, n)[h][i] in es && Slot(hash, Rehash(hash, es, n)[h][i].key, n) == h
  {
    if es == [] {
    } else {
      var init, last := es[..|es| - 1], es[|es| - 1];
      if h != Slot(hash, last.key, n) {
        RehashFrom(hash, init, n, h, i);
      } else if i > 0 {
        RehashFrom(hash, init, n, h, i - 1);
      }
    }
  }

  /** Nothing is lost. */
  lemma {:induction false} RehashTo<K, V>(hash: K -> nat, es: Chain<K, V>, n: nat, e: Entry<K, V>)
    requires PowerOfTwo(n) && e in es
    ensures e in Rehash(hash, es, n)[Slot(hash, e.key, n)]
  {
    var init, last := es[..|es| - 1], es[|es| - 1];
    assert es == init + [last];
    if e in init {
      RehashTo(hash, init, n, e);
    }
  }

  /** Nothing is duplicated. */
  lemma {:induction false} RehashDistinct<K, V>(hash: K -> nat, es: Chain<K, V>, n: nat, h: nat)
    requires PowerOfTwo(n) && DistinctKeys(es) && h < n
    ensures DistinctKeys(Rehash(hash, es, n)[h])
  {
    if es == [] {
    } else {
      var init, last := es[..|es| - 1], es[|es| - 1];
      RehashDistinct(hash, init, n, h);
      forall i | 0 <= i < |Rehash(hash, init, n)[h]|
        ensures Rehash(hash, init, n)[h][i].key != last.key
      {
        RehashFrom(hash, init, n, h, i);
      }
    }
  }

  lemma {:induction false} RehashCount<K, V>(hash: K -> nat, es: Chain<K, V>, n: nat)
    requires PowerOfTwo(n)
    ensures |Flat(Rehash(hash, es, n))| == |es|
  {
    if es == [] {
      NoBucketsFlat<K, V>(n);
    } else {
      var init, last := es[..|es| - 1], es[|es| - 1];
      var cs, h := Rehash(hash, init, n), Slot(hash, last.key, n);
      RehashCount(hash, init, n);
      FlatUpdate(cs, h, [last] + cs[h]);
    }
  }

  lemma HoldsKey<K, V>(hash: K -> nat, cs: Buckets<K, V>, keys: set<K>, k: K) returns (i: nat)
    requires cs != [] && Holds(hash, cs, keys) && k in keys
    ensures var c := cs[Slot(hash, k, |cs|)]; i < |c| && c[i].key == k
  {
    var c := cs[Slot(hash, k, |cs|)];
    assert KeyIn(c, k);
    i :| 0 <= i < |c| && c[i].key == k;
  }

  /** A rehash keeps the keys, and the very entries. */
  lemma RehashHolds<K, V>(hash: K -> nat, cs: Buckets<K, V>, keys: set<K>, n: nat)
    requires Holds(hash, cs, keys) && PowerOfTwo(n)
    ensures Holds(hash, Rehash(hash, Flat(cs), n), keys)
    ensures |Flat(Rehash(hash, Flat(cs), n))| == |Flat(cs)|
  {
    var es := Flat(cs);
    var r := Rehash(hash, es, n);
    if cs != [] {
      FlatDistinct(hash, cs, |cs|, 0);
    }
    RehashCount(hash, es, n);
    forall h | 0 <= h < n
      ensures DistinctKeys(r[h])
    {
      RehashDistinct(hash, es, n, h);
    }
    forall h, i | 0 <= h < n && 0 <= i < |r[h]|
      ensures Slot(hash, r[h][i].key, n) == h && r[h][i].key in keys
    {
      RehashKey(hash, cs, keys, n, h, i);
    }
    forall k | k in keys
      ensures KeyIn(r[Slot(hash, k, n)], k)
    {
      var i := HoldsKey(hash, cs, keys, k);
      var e := cs[Slot(hash, k, |cs|)][i];
      InFlat(cs, Slot(hash, k, |cs|), i);
      RehashTo(hash, es, n, e);
    }
  }

  lemma RehashKey<K, V>(hash: K -> nat, cs: Buckets<K, V>, keys: set<K>, n: nat, h: nat, i: nat)
    requires Holds(hash, cs, keys) && PowerOfTwo(n) && h < n && i < |Rehash(hash, Flat(cs), n)[h]|
    ensures var e := Rehash(hash, Flat(cs), n)[h][i]; Slot(hash, e.key, n) == h && e.key in keys
  {
    var e := Rehash(hash, Flat(cs), n)[h][i];
    RehashFrom(hash, Flat(cs), n, h, i);
    var j :| 0 <= j < |Flat(cs)| && Flat(cs)[j] == e;
    var g, k := OfFlat(cs, j);
  }

  // ---------------------------------------------------------------- adding and removing

  lemma NotHeld<K, V>(hash: K -> nat, cs: Buckets<K, V>, keys: set<K>, k: K)
    requires cs != [] && Holds(hash, cs, keys)
    ensures k in keys <==> KeyIn(cs[Slot(hash, k, |cs|)], k)
  {
    var c := cs[Slot(hash, k, |cs|)];
    if KeyIn(c, k) {
      var i :| 0 <= i < |c| && c[i].key == k;
      assert c[i].key in keys;
    }
  }

  /** No other entry has the key. */
  lemma OneEntry<K, V>(hash: K -> nat, cs: Buckets<K, V>, keys: set<K>, h: nat, i: nat)
    requires cs != [] && Holds(hash, cs, keys) && h < |cs| && i < |cs[h]|
    ensures forall g, j :: 0 <= g < |cs| && 0 <= j < |cs[g]| && (g != h || j != i) ==> cs[g][j].key != cs[h][i].key
  {
    forall g, j | 0 <= g < |cs| && 0 <= j < |cs[g]| && (g != h || j != i)
      ensures cs[g][j].key != cs[h][i].key
    {
      if g == h {
        assert DistinctKeys(cs[h]);
      }
    }
  }

  lemma AddHolds<K, V>(hash: K -> nat, cs: Buckets<K, V>, keys: set<K>, e: Entry<K, V>)
    requires cs != [] && Holds(hash, cs, keys) && e.key !in keys
    ensures Holds(hash, PushFront(hash, cs, e), keys + {e.key})
    ensures |Flat(PushFront(hash, cs, e))| == |Flat(cs)| + 1
  {
    var h, r := Slot(hash, e.key, |cs|), PushFront(hash, cs, e);
    FlatUpdate(cs, h, [e] + cs[h]);
    forall k | k in keys + {e.key}
      ensures KeyIn(r[Slot(hash, k, |r|)], k)
    {
      if k == e.key {
        assert r[h][0].key == k;
      } else {
        var i := HoldsKey(hash, cs, keys, k);
        assert Slot(hash, k, |cs|) == h ==> r[h][i + 1] == cs[h][i];
      }
    }
  }

  function Without<K, V>(c: Chain<K, V>, i: nat): Chain<K, V>
    requires i < |c|
  {
    c[..i] + c[i + 1..]
  }

  lemma RemoveHolds<K, V>(hash: K -> nat, cs: Buckets<K, V>, keys: set<K>, h: nat, i: nat)
    requires cs != [] && Holds(hash, cs, keys) && h < |cs| && i < |cs[h]|
    ensures Holds(hash, cs[h := Without(cs[h], i)], keys - {cs[h][i].key})
    ensures |Flat(cs[h := Without(cs[h], i)])| == |Flat(cs)| - 1
  {
    var gone, c := cs[h][i].key, Without(cs[h], i);
    var r := cs[h := c];
    FlatUpdate(cs, h, c);
    forall k | k in keys - {gone}
      ensures KeyIn(r[Slot(hash, k, |r|)], k)
    {
      var j := HoldsKey(hash, cs, keys, k);
      if Slot(hash, k, |cs|) == h {
        assert cs[h][j] == if j < i then c[j] else c[j - 1];
      }
    }
    forall g, j | 0 <= g < |r| && 0 <= j < |r[g]|
      ensures Slot(hash, r[g][j].key, |r|) == g && r[g][j].key in keys - {gone}
    {
      StillHeld(hash, cs, keys, h, i, g, j);
    }
  }

  lemma StillHeld<K, V>(hash: K -> nat, cs: Buckets<K, V>, keys: set<K>, h: nat, i: nat, g: nat, j: nat)
    requires cs != [] && Holds(hash, cs, keys) && h < |cs| && i < |cs[h]|
    requires var r := cs[h := Without(cs[h], i)]; g < |r| && j < |r[g]|
    ensures var e := cs[h := Without(cs[h], i)][g][j];
            Slot(hash, e.key, |cs|) == g && e.key in keys && e.key != cs[h][i].key
  {
    var e := cs[h := Without(cs[h], i)][g][j];
    if g == h {
      assert e == cs[h][if j < i then j else j + 1];
    } else {
      assert e == cs[g][j];
    }
  }
}
