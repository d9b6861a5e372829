/*
 * The fixed-size chained hash table of hash_table.c. The table owns an array of
 * bucket heads; each bucket is a doubly-linked chain of nodes (see hash_node.dfy)
 * whose keys all hash to that bucket. Ghost state mirrors the chains as sequences
 * so that the contracts can talk about the abstract key -> node map.
 */
module HashTable {
  import opened HashNode

  /** C's `/` on `int`: truncates toward zero. */
  function CDiv(a: int, b: int): int
    requires b > 0
  {
    if a >= 0 then a / b else -((-a) / b)
  }

  /** C's `%` on `int`: the remainder of CDiv, so it has the sign of the dividend. */
  function CRem(a: int, b: int): (r: int)
    requires b > 0
    ensures a == CDiv(a, b) * b + r
    ensures a >= 0 ==> 0 <= r < b
    ensures a < 0 ==> -b < r <= 0
  {
    if a >= 0 then a % b
    else
      var q := (-a) / b;
      assert -a == q * b + (-a) % b;
      assert (-q) * b == -(q * b);
      -((-a) % b)
  }

  lemma MulAtLeast(z: int, b: int)
    requires z >= 1 && b > 0
    ensures z * b >= b
  {
    assert z * b == (z - 1) * b + b;
    assert (z - 1) * b >= 0;
  }

  /** Any quotient/remainder split with a remainder in [0, b) is the Euclidean one. */
  lemma ModUnique(a: int, b: int, q: int, r: int)
    requires b > 0 && 0 <= r < b && a == q * b + r
    ensures a % b == r
  {
    var q', r' := a / b, a % b;
    assert a == q' * b + r';
    assert (q - q') * b == r' - r;
    if q > q' {
      MulAtLeast(q - q', b);
    } else if q < q' {
      MulAtLeast(q' - q, b);
    }
  }

  /** calc_hash_code: the C remainder, shifted up by numBuckets when negative; 0 for a bad bucket count. */
  function Hash(key: int, numBuckets: int): (h: int)
    ensures numBuckets <= 0 ==> h == 0
    ensures numBuckets > 0 ==> 0 <= h < numBuckets
  {
    if numBuckets <= 0 then 0
    else
      var r := CRem(key, numBuckets);
      if r < 0 then r + numBuckets else r
  }

  /** For a positive bucket count the bucket is the mathematical residue of the key, negative keys included. */
  lemma HashIsResidue(key: int, numBuckets: int)
    requires numBuckets > 0
    ensures Hash(key, numBuckets) == key % numBuckets
  {
    var r := CRem(key, numBuckets);
    var q := CDiv(key, numBuckets);
    if r < 0 {
      assert (q - 1) * numBuckets == q * numBuckets - numBuckets;
      ModUnique(key, numBuckets, q - 1, r + numBuckets);
    } else {
      ModUnique(key, numBuckets, q, r);
    }
  }

  /** The bucket indices the test suite expects for a ten-bucket table. */
  lemma HashExamples()
    ensures Hash(5, 10) == 5 && Hash(-1, 10) == 9 && Hash(-11, 10) == 9
    ensures Hash(0, 10) == 0 && Hash(10, 10) == 0
    ensures Hash(5, 0) == 0 && Hash(5, -5) == 0
  {
  }

  /** The index of the first occurrence of k in ks, or |ks| when there is none. */
  function IndexOf(ks: seq<int>, k: int): (j: nat)
    ensures j <= |ks|
    ensures j < |ks| ==> ks[j] == k
    ensures forall m :: 0 <= m < j ==> ks[m] != k
  {
    if |ks| == 0 then 0
    else if ks[0] == k then 0
    else 1 + IndexOf(ks[1..], k)
  }

  /** All buckets one after another: the table's contents in bucket order. */
  function Flatten<T>(ss: seq<seq<T>>): seq<T>
  {
    if |ss| == 0 then [] else ss[0] + Flatten(ss[1..])
  }

  /** Replacing one bucket changes the total size by the difference of the bucket sizes. */
  lemma {:induction false} FlattenUpdate<T>(ss: seq<seq<T>>, i: int, s: seq<T>)
    requires 0 <= i < |ss|
    ensures |Flatten(ss[i := s])| == |Flatten(ss)| - |ss[i]| + |s|
  {
    if i > 0 {
      assert ss[i := s][1..] == ss[1..][i - 1 := s];
      FlattenUpdate(ss[1..], i - 1, s);
    } else {
      assert ss[i := s][1..] == ss[1..];
    }
  }

  /** Flattening one more bucket appends that bucket's contents. */
  lemma {:induction false} FlattenSnoc<T>(ss: seq<seq<T>>, i: int)
    requires 0 <= i < |ss|
    ensures Flatten(ss[..i + 1]) == Flatten(ss[..i]) + ss[i]
  {
    if i > 0 {
      assert ss[..i + 1][1..] == ss[1..][..i];
      assert ss[..i][1..] == ss[1..][..i - 1];
      FlattenSnoc(ss[1..], i - 1);
    } else {
      assert ss[..1][1..] == [];
    }
  }

  /** Buckets of matching sizes flatten to sequences of the same size. */
  lemma {:induction false} FlattenLength<T, U>(ss: seq<seq<T>>, tt: seq<seq<U>>)
    requires |ss| == |tt| && forall i :: 0 <= i < |ss| ==> |ss[i]| == |tt[i]|
    ensures |Flatten(ss)| == |Flatten(tt)|
  {
    if |ss| > 0 {
      assert |ss[0]| == |tt[0]|;
      FlattenLength(ss[1..], tt[1..]);
    }
  }

  /** A sequence of empty buckets holds nothing. */
  lemma {:induction false} FlattenEmpty<T>(ss: seq<seq<T>>)
    requires forall i :: 0 <= i < |ss| ==> ss[i] == []
    ensures Flatten(ss) == []
  {
    if |ss| > 0 {
      FlattenEmpty(ss[1..]);
    }
  }

  /** ks[a] and ks[b] differ. Kept as its own predicate so that Distinct is
      only instantiated for the pairs a proof names. */
  ghost predicate Apart(ks: seq<int>, a: int, b: int)
    requires 0 <= a < |ks| && 0 <= b < |ks|
  {
    ks[a] != ks[b]
  }

  /** No key occurs twice in ks. */
  ghost predicate Distinct(ks: seq<int>)
  {
    forall a, b :: 0 <= a < b < |ks| ==> Apart(ks, a, b)
  }

  lemma DistinctAt(ks: seq<int>, a: int, b: int)
    requires Distinct(ks) && 0 <= a < b < |ks|
    ensures ks[a] != ks[b]
  {
    assert Apart(ks, a, b);
  }

  /** Appending a key that is not there yet keeps the keys distinct. */
  lemma DistinctAppend(ks: seq<int>, k: int)
    requires Distinct(ks) && k !in ks
    ensures Distinct(ks + [k])
  {
    var d := ks + [k];
    forall a, b | 0 <= a < b < |d|
      ensures Apart(d, a, b)
    {
      if b < |ks| {
        assert Apart(ks, a, b);
      }
    }
  }

  /** Deleting a key keeps the keys distinct. */
  lemma DistinctDelete(ks: seq<int>, k: int)
    requires Distinct(ks) && 0 <= k < |ks|
    ensures Distinct(Delete(ks, k))
  {
    var d := Delete(ks, k);
    forall a, b | 0 <= a < b < |d|
      ensures Apart(d, a, b)
    {
      var a', b' := if a < k then a else a + 1, if b < k then b else b + 1;
      assert d[a] == ks[a'] && d[b] == ks[b'] && Apart(ks, a', b');
    }
  }

  /** Every key sits in the bucket it hashes to, and no bucket holds a key twice. */
  ghost predicate WellKeyed(keys: seq<seq<int>>, numBuckets: int)
  {
    && |keys| == numBuckets
    && (forall i, j :: 0 <= i < numBuckets && 0 <= j < |keys[i]| ==> Hash(keys[i][j], numBuckets) == i)
    && (forall i :: 0 <= i < numBuckets ==> Distinct(keys[i]))
  }

  /** Keys are unique across the whole table, not only within a bucket. */
  lemma KeysUnique(keys: seq<seq<int>>, n: int, i: int, j: int, i': int, j': int)
    requires WellKeyed(keys, n)
    requires 0 <= i < n && 0 <= j < |keys[i]| && 0 <= i' < n && 0 <= j' < |keys[i']|
    requires keys[i][j] == keys[i'][j']
    ensures i == i' && j == j'
  {
    assert Hash(keys[i][j], n) == i && Hash(keys[i'][j'], n) == i';
    if j < j' {
      DistinctAt(keys[i], j, j');
    } else if j' < j {
      DistinctAt(keys[i], j', j);
    }
  }

  /** IndexOf is determined by its contract: the first position holding k, or |ks|. */
  lemma IndexOfIs(ks: seq<int>, k: int, e: int)
    requires 0 <= e <= |ks|
    requires e < |ks| ==> ks[e] == k
    requires forall m :: 0 <= m < e ==> ks[m] != k
    ensures IndexOf(ks, k) == e
  {
  }

  /** Deleting position j, which does not hold k, moves k's first position down past j. */
  lemma IndexOfDelete(ks: seq<int>, j: int, k: int)
    requires 0 <= j < |ks| && ks[j] != k
    ensures var f := IndexOf(ks, k);
      IndexOf(Delete(ks, j), k) == if f < j then f else f - 1
  {
    var d := Delete(ks, j);
    var f := IndexOf(ks, k);
    var e := if f < j then f else f - 1;
    forall m | 0 <= m < e
      ensures d[m] != k
    {
      assert d[m] == ks[if m < j then m else m + 1];
    }
    if e < |d| {
      assert d[e] == ks[f];
    }
    IndexOfIs(d, k, e);
  }

  /** Appending a new key finds it last and leaves every other key's first position where it
      was (an absent key stays absent). */
  lemma IndexOfAppend(ks: seq<int>, key: int, k: int)
    requires key !in ks
    ensures IndexOf(ks + [key], k) ==
      if k == key then |ks| else if IndexOf(ks, k) < |ks| then IndexOf(ks, k) else |ks| + 1
  {
    var d := ks + [key];
    var f := IndexOf(ks, k);
    if k == key {
      IndexOfIs(d, k, |ks|);
    } else {
      forall m | 0 <= m < f
        ensures d[m] != k
      {
        assert d[m] == ks[m];
      }
      if f == |ks| {
        assert d[f] == key;
        IndexOfIs(d, k, |d|);
      } else {
        IndexOfIs(d, k, f);
      }
    }
  }

  /** The ghost picture of a table: one chain and one key list per bucket, of equal lengths. */
  ghost predicate Shaped(chains: seq<seq<Node>>, keys: seq<seq<int>>, n: int)
  {
    && |chains| == n && |keys| == n
    && forall i :: 0 <= i < n ==> |chains[i]| == |keys[i]|
  }

  /** The abstract map of a table: the first node of k's bucket whose key is k, or null. */
  ghost function Find(chains: seq<seq<Node>>, keys: seq<seq<int>>, n: int, k: int): Node?
    requires Shaped(chains, keys, n)
  {
    if n <= 0 then null
    else
      var h := Hash(k, n);
      var j := IndexOf(keys[h], k);
      if j < |keys[h]| then chains[h][j] else null
  }

  /** Find succeeds exactly for the keys stored somewhere in the table, and finds that node. */
  lemma FindSpec(chains: seq<seq<Node>>, keys: seq<seq<int>>, n: int, k: int)
    requires Shaped(chains, keys, n) && WellKeyed(keys, n)
    ensures Find(chains, keys, n, k) != null <==>
      exists i, j :: 0 <= i < n && 0 <= j < |keys[i]| && keys[i][j] == k
    ensures forall i, j :: 0 <= i < n && 0 <= j < |keys[i]| && keys[i][j] == k ==>
      Find(chains, keys, n, k) == chains[i][j]
  {
    forall i, j | 0 <= i < n && 0 <= j < |keys[i]| && keys[i][j] == k
      ensures Find(chains, keys, n, k) == chains[i][j]
    {
      var h := Hash(k, n);
      assert h == i;
      var m := IndexOf(keys[h], k);
      if m != j {
        assert m < |keys[h]|;
        KeysUnique(keys, n, i, j, h, m);
      }
    }
  }

  /** Deleting the entry at position j of bucket h keeps the ghost picture well-formed. */
  lemma DeleteKeepsShape(chains: seq<seq<Node>>, keys: seq<seq<int>>, n: int, h: int, j: int)
    requires Shaped(chains, keys, n) && WellKeyed(keys, n)
    requires 0 <= h < n && 0 <= j < |keys[h]|
    ensures Shaped(chains[h := Delete(chains[h], j)], keys[h := Delete(keys[h], j)], n)
    ensures WellKeyed(keys[h := Delete(keys[h], j)], n)
  {
    var ks := keys[h];
    var ks' := Delete(ks, j);
    forall m | 0 <= m < |ks'|
      ensures ks'[m] == ks[if m < j then m else m + 1]
    {
    }
    DistinctDelete(ks, j);
  }

  /** Deleting the entry at position j of bucket h removes exactly its key from the map. */
  lemma FindDelete(chains: seq<seq<Node>>, keys: seq<seq<int>>, n: int, h: int, j: int)
    requires Shaped(chains, keys, n) && WellKeyed(keys, n)
    requires 0 <= h < n && 0 <= j < |keys[h]|
    ensures Shaped(chains[h := Delete(chains[h], j)], keys[h := Delete(keys[h], j)], n)
    ensures forall k ::
      Find(chains[h := Delete(chains[h], j)], keys[h := Delete(keys[h], j)], n, k) ==
      if k == keys[h][j] then null else Find(chains, keys, n, k)
  {
    DeleteKeepsShape(chains, keys, n, h, j);
    var ks := keys[h];
    var c' := Delete(chains[h], j);
    var ks' := Delete(ks, j);
    var chains', keys' := chains[h := c'], keys[h := ks'];
    forall k
      ensures Find(chains', keys', n, k) == if k == ks[j] then null else Find(chains, keys, n, k)
    {
      if Hash(k, n) == h {
        if k == ks[j] {
          var f := IndexOf(ks', k);
          if f < |ks'| {
            assert ks'[f] == ks[if f < j then f else f + 1];
            KeysUnique(keys, n, h, j, h, if f < j then f else f + 1);
          }
        } else {
          IndexOfDelete(ks, j, k);
        }
      }
    }
  }

  /** Appending node x under a new key to its bucket adds exactly that entry to the map. */
  lemma FindAppend(chains: seq<seq<Node>>, keys: seq<seq<int>>, n: int, key: int, x: Node)
    requires Shaped(chains, keys, n) && WellKeyed(keys, n) && n > 0
    requires key !in keys[Hash(key, n)]
    ensures var h := Hash(key, n);
      Shaped(chains[h := chains[h] + [x]], keys[h := keys[h] + [key]], n)
    ensures WellKeyed(keys[Hash(key, n) := keys[Hash(key, n)] + [key]], n)
    ensures var h := Hash(key, n);
      forall k ::
        Find(chains[h := chains[h] + [x]], keys[h := keys[h] + [key]], n, k) ==
        if k == key then x else Find(chains, keys, n, k)
  {
    var h := Hash(key, n);
    var chains', keys' := chains[h := chains[h] + [x]], keys[h := keys[h] + [key]];
    DistinctAppend(keys[h], key);
    forall k
      ensures Find(chains', keys', n, k) == if k == key then x else Find(chains, keys, n, k)
    {
      if Hash(k, n) == h {
        IndexOfAppend(keys[h], key, k);
      }
    }
  }

  /** The ghost side of a table: well-formed and well-keyed buckets, `count` entries in all,
      and every node inside the footprint R. */
  ghost predicate Coherent(chains: seq<seq<Node>>, keys: seq<seq<int>>, n: int, count: int, R: set<object>)
  {
    && Shaped(chains, keys, n)
    && WellKeyed(keys, n)
    && count == |Flatten(keys)|
    && (forall i, j :: 0 <= i < n && 0 <= j < |chains[i]| ==> chains[i][j] in R)
  }

  /** Deleting the entry at position j of bucket h, whose node sits in one place only, leaves
      one entry fewer and lets the footprint drop that node. */
  lemma CoherentDelete(chains: seq<seq<Node>>, keys: seq<seq<int>>, n: int, count: int, R: set<object>, h: int, j: int)
    requires Coherent(chains, keys, n, count, R)
    requires 0 <= h < n && 0 <= j < |chains[h]|
    requires forall i, m, m' ::
      (0 <= i < n && 0 <= m < |chains[i]| && 0 <= m' < |chains[h]| && chains[i][m] == chains[h][m']) ==>
      i == h && m == m'
    ensures Coherent(chains[h := Delete(chains[h], j)], keys[h := Delete(keys[h], j)], n, count - 1, R - {chains[h][j]})
  {
    var chains' := chains[h := Delete(chains[h], j)];
    DeleteKeepsShape(chains, keys, n, h, j);
    FlattenUpdate(keys, h, Delete(keys[h], j));
    forall i, m | 0 <= i < n && 0 <= m < |chains'[i]|
      ensures chains'[i][m] in R - {chains[h][j]}
    {
      if i == h {
        assert chains'[i][m] == chains[h][if m < j then m else m + 1];
      }
    }
  }

  /** Appending a node from outside the footprint under a new key adds one entry and that node. */
  lemma CoherentAppend(chains: seq<seq<Node>>, keys: seq<seq<int>>, n: int, count: int, R: set<object>, key: int, x: Node)
    requires Coherent(chains, keys, n, count, R) && n > 0
    requires key !in keys[Hash(key, n)] && x !in R
    ensures var h := Hash(key, n);
      Coherent(chains[h := chains[h] + [x]], keys[h := keys[h] + [key]], n, count + 1, R + {x})
  {
    var h := Hash(key, n);
    var chains' := chains[h := chains[h] + [x]];
    FindAppend(chains, keys, n, key, x);
    FlattenUpdate(keys, h, keys[h] + [key]);
    forall i, m | 0 <= i < n && 0 <= m < |chains'[i]|
      ensures chains'[i][m] in R + {x}
    {
      if i == h && m < |chains[h]| {
        assert chains'[i][m] == chains[h][m];
      }
    }
  }

  /** Deleting the same position from a chain and from its key list keeps them matched. */
  lemma DeleteKeys(c: seq<Node>, ks: seq<int>, j: int)
    requires |c| == |ks| && 0 <= j < |c|
    requires forall m :: 0 <= m < |c| ==> c[m].key == ks[m]
    ensures forall m :: 0 <= m < |c| - 1 ==> Delete(c, j)[m].key == Delete(ks, j)[m]
  {
  }

  /** Appending a node and its key to a chain and its key list keeps them matched. */
  lemma AppendKeys(c: seq<Node>, ks: seq<int>, x: Node)
    requires |c| == |ks|
    requires forall m :: 0 <= m < |c| ==> c[m].key == ks[m]
    ensures forall m :: 0 <= m <= |c| ==> (c + [x])[m].key == (ks + [x.key])[m]
  {
  }

  /** One bucket: the chain has the recorded keys, is well linked, and starts at the head slot. */
  ghost predicate BucketOk(c: seq<Node>, ks: seq<int>, head: Node?)
    reads c
  {
    && |c| == |ks|
    && (forall j :: 0 <= j < |c| ==> c[j].key == ks[j])
    && Linked(c)
    && head == (if |c| == 0 then null else c[0])
  }

  class Table {
    var buckets: array<Node?>
    var numBuckets: int
    var numItems: int
    ghost var chains: seq<seq<Node>>
    ghost var keys: seq<seq<int>>
    ghost var Repr: set<object>

    ghost predicate Valid()
      reads this, Repr
    {
      && this in Repr && buckets in Repr
      && numBuckets == buckets.Length
      && Coherent(chains, keys, numBuckets, numItems, Repr)
      && (forall i :: 0 <= i < numBuckets ==> BucketOk(chains[i], keys[i], buckets[i]))
    }

    /** The abstract map: the node stored under key k, or null. */
    ghost function Lookup(k: int): (r: Node?)
      requires Valid()
      reads this, Repr
      ensures numBuckets <= 0 ==> r == null
      ensures r != null ==> r in Repr && r.key == k
    {
      Find(chains, keys, numBuckets, k)
    }

    /** Keys are unique across the whole table, so Lookup has exactly one answer per stored key. */
    lemma LookupSpec(k: int)
      requires Valid()
      ensures Lookup(k) != null <==>
        exists i, j :: 0 <= i < numBuckets && 0 <= j < |keys[i]| && keys[i][j] == k
      ensures forall i, j :: 0 <= i < numBuckets && 0 <= j < |keys[i]| && keys[i][j] == k ==>
        Lookup(k) == chains[i][j]
    {
      FindSpec(chains, keys, numBuckets, k);
    }

    /** num_items counts the nodes: it is the total length of the bucket chains. */
    lemma CountIsSize()
      requires Valid()
      ensures numItems == |Flatten(chains)|
    {
      FlattenLength(chains, keys);
    }

    /** No node sits in two places of the table. */
    lemma NodesUnique(i: int, j: int, i': int, j': int)
      requires Valid()
      requires 0 <= i < numBuckets && 0 <= j < |chains[i]| && 0 <= i' < numBuckets && 0 <= j' < |chains[i']|
      requires chains[i][j] == chains[i'][j']
      ensures i == i' && j == j'
    {
      assert BucketOk(chains[i], keys[i], buckets[i]) && BucketOk(chains[i'], keys[i'], buckets[i']);
      KeysUnique(keys, numBuckets, i, j, i', j');
    }

    /** ht_create: every bucket head null and no items. */
    constructor (size: int)
      requires size >= 0
      ensures Valid() && fresh(Repr)
      ensures numBuckets == size && numItems == 0
      ensures forall i :: 0 <= i < numBuckets ==> buckets[i] == null
      ensures forall k :: Lookup(k) == null
    {
      buckets := new Node?[size](_ => null);
      numBuckets := size;
      numItems := 0;
      chains := seq(size, _ => []);
      keys := seq(size, _ => []);
      Repr := {this, buckets};
      new;
      FlattenEmpty(keys);
    }

    /**
     * ht_clear: walk every bucket from its head, releasing each node (the C code frees it;
     * here it leaves the footprint and is recorded in `freed`), then empty the bucket slot;
     * finally the count is zero. Every node of the table is released exactly once, bucket
     * by bucket in chain order.
     */
    method Clear() returns (ghost freed: seq<Node>)
      requires Valid()
      modifies Repr
      ensures Valid()
      ensures numBuckets == old(numBuckets) && buckets == old(buckets)
      ensures numItems == 0 && Repr == {this, buckets}
      ensures forall i :: 0 <= i < numBuckets ==> buckets[i] == null && chains[i] == []
      ensures forall k :: Lookup(k) == null
      ensures freed == Flatten(old(chains))
    {
      freed := [];
      var i := 0;
      while i < numBuckets
        modifies buckets
        invariant 0 <= i <= numBuckets
        invariant forall i' :: 0 <= i' < i ==> buckets[i'] == null
        invariant forall i' :: i <= i' < numBuckets ==> BucketOk(chains[i'], keys[i'], buckets[i'])
        invariant freed == Flatten(chains[..i])
      {
        ghost var f := ClearBucket(i);
        freed := freed + f;
        FlattenSnoc(chains, i);
        i := i + 1;
      }
      assert chains[..i] == chains;
      Reset();
    }

    /** The count reset that ends ht_clear: once every slot is empty, the table holds no nodes and no items. */
    method Reset()
      requires this in Repr && buckets in Repr && numBuckets == buckets.Length
      requires forall i :: 0 <= i < numBuckets ==> buckets[i] == null
      modifies this
      ensures Valid()
      ensures numBuckets == old(numBuckets) && buckets == old(buckets)
      ensures numItems == 0 && Repr == {this, buckets}
      ensures forall i :: 0 <= i < numBuckets ==> chains[i] == []
      ensures forall k :: Lookup(k) == null
    {
      chains, keys, Repr, numItems := seq(numBuckets, _ => []), seq(numBuckets, _ => []), {this, buckets}, 0;
      FlattenEmpty(keys);
    }

    /**
     * The inner walk of ht_clear for bucket i: follow the chain from the head, reading each
     * node's successor before releasing it, and leave the slot empty. The nodes released are
     * the bucket's chain, in order.
     */
    method ClearBucket(i: int) returns (ghost freed: seq<Node>)
      requires 0 <= i < buckets.Length && 0 <= i < |chains| && 0 <= i < |keys|
      requires BucketOk(chains[i], keys[i], buckets[i])
      modifies buckets
      ensures buckets[i] == null && freed == chains[i]
      ensures forall i' :: 0 <= i' < buckets.Length && i' != i ==> buckets[i'] == old(buckets[i'])
    {
      ghost var c := chains[i];
      var node := buckets[i];
      freed := [];
      while node != null
        invariant 0 <= |freed| <= |c| && node == (if |freed| < |c| then c[|freed|] else null)
        invariant freed == c[..|freed|]
        decreases |c| - |freed|
      {
        ghost var t := |freed|;
        if t + 1 < |c| {
          assert c[t].next == c[t + 1];
        }
        var next := node.next;
        freed := freed + [node];
        node := next;
      }
      buckets[i] := null;
    }

    /** ht_get_node: scan the key's bucket from the head for the first node holding key. */
    method GetNode(key: int) returns (r: Node?)
      requires Valid()
      ensures r == Lookup(key)
    {
      if numBuckets <= 0 {
        return null;
      }
      var idx := Hash(key, numBuckets);
      ghost var c := chains[idx];
      assert BucketOk(c, keys[idx], buckets[idx]);
      var n := buckets[idx];
      ghost var j := 0;
      while n != null
        invariant 0 <= j <= |c|
        invariant n == (if j < |c| then c[j] else null)
        invariant forall m :: 0 <= m < j ==> keys[idx][m] != key
        decreases |c| - j
      {
        if n.key == key {
          return n;
        }
        if j + 1 < |c| {
          assert c[j + 1].prev == c[j] && c[j].next == c[j + 1];
        }
        n := n.next;
        j := j + 1;
      }
      return null;
    }

    /** ht_contains: true exactly when the table has buckets and GetNode finds the key. */
    method Contains(key: int) returns (b: bool)
      requires Valid()
      ensures b <==> numBuckets > 0 && Lookup(key) != null
    {
      if numBuckets <= 0 {
        return false;
      }
      var n := GetNode(key);
      return n != null;
    }

    /**
     * ht_remove: find the key's node in its bucket and unlink it, moving the bucket head
     * to its successor when it was the head; the node leaves the table's footprint.
     */
    method Remove(key: int) returns (removed: bool)
      requires Valid()
      modifies Repr
      ensures Valid()
      ensures numBuckets == old(numBuckets) && buckets == old(buckets)
      ensures removed <==> old(Lookup(key)) != null
      ensures Lookup(key) == null
      ensures forall k :: k != key ==> Lookup(k) == old(Lookup(k))
      ensures !removed ==> numItems == old(numItems) && chains == old(chains) && keys == old(keys) && Repr == old(Repr)
      ensures !removed ==> unchanged(Repr)
      ensures removed ==> numItems == old(numItems) - 1
      ensures removed ==>
        var h := Hash(key, numBuckets);
        var j := IndexOf(old(keys[h]), key);
        && chains == old(chains[h := Delete(chains[h], j)])
        && keys == old(keys[h := Delete(keys[h], j)])
        && Repr == old(Repr) - {old(chains[h][j])}
    {
      if numBuckets <= 0 {
        return false;
      }
      var idx := Hash(key, numBuckets);
      ghost var c := chains[idx];
      ghost var ks := keys[idx];
      assert BucketOk(c, ks, buckets[idx]);
      var n := buckets[idx];
      ghost var j := 0;
      while n != null && n.key != key
        invariant 0 <= j <= |c|
        invariant n == (if j < |c| then c[j] else null)
        invariant forall m :: 0 <= m < j ==> ks[m] != key
        decreases |c| - j
      {
        if j + 1 < |c| {
          assert c[j + 1].prev == c[j] && c[j].next == c[j + 1];
        }
        n := n.next;
        j := j + 1;
      }
      if n == null {
        IndexOfIs(ks, key, |ks|);
        return false;
      }
      IndexOfIs(ks, key, j);
      FindDelete(chains, keys, numBuckets, idx, j);
      Unlink(idx, j, n);
      removed := true;
    }

    /**
     * The unlink step of ht_remove: n is dropped from the table (freed, in the C code) and
     * the item count is decremented; UnlinkNode does the pointer surgery.
     */
    method Unlink(idx: int, ghost j: int, n: Node)
      requires Valid() && 0 <= idx < numBuckets && 0 <= j < |chains[idx]| && chains[idx][j] == n
      modifies Repr
      ensures Valid()
      ensures numBuckets == old(numBuckets) && buckets == old(buckets)
      ensures chains == old(chains[idx := Delete(chains[idx], j)])
      ensures keys == old(keys[idx := Delete(keys[idx], j)])
      ensures Repr == old(Repr) - {n}
      ensures numItems == old(numItems) - 1
    {
      ghost var c, ks := chains[idx], keys[idx];
      BucketFrame(idx);
      UnlinkNode(idx, c, ks, j, n);
      Forget(idx, c, ks, j);
    }

    /**
     * The release and count decrement that end ht_remove, after the unlink: the node at
     * position j of bucket idx is released (it leaves the footprint and the picture of the
     * table, whose chain is already relinked without it) and the count drops by one.
     */
    method Forget(idx: int, ghost c: seq<Node>, ghost ks: seq<int>, ghost j: int)
      requires this in Repr && buckets in Repr && numBuckets == buckets.Length
      requires Coherent(chains, keys, numBuckets, numItems, Repr)
      requires 0 <= idx < numBuckets && chains[idx] == c && keys[idx] == ks && 0 <= j < |c|
      requires forall i, m, m' ::
        (0 <= i < numBuckets && 0 <= m < |chains[i]| && 0 <= m' < |c| && chains[i][m] == c[m']) ==>
        i == idx && m == m'
      requires BucketOk(Delete(c, j), Delete(ks, j), buckets[idx])
      requires forall i :: 0 <= i < numBuckets && i != idx ==> BucketOk(chains[i], keys[i], buckets[i])
      modifies this
      ensures Valid()
      ensures numBuckets == old(numBuckets) && buckets == old(buckets)
      ensures chains == old(chains[idx := Delete(c, j)]) && keys == old(keys[idx := Delete(ks, j)])
      ensures Repr == old(Repr) - {c[j]} && numItems == old(numItems) - 1
    {
      CoherentDelete(chains, keys, numBuckets, numItems, Repr, idx, j);
      chains, keys, Repr := chains[idx := Delete(c, j)], keys[idx := Delete(ks, j)], Repr - {c[j]};
      numItems := numItems - 1;
    }

    /**
     * The unlink step of ht_remove: the predecessor of n, or the bucket slot when n is the
     * head, takes n's successor, and that successor points back at n's predecessor, so the
     * bucket becomes the chain without n.
     */
    method UnlinkNode(idx: int, ghost c: seq<Node>, ghost ks: seq<int>, ghost j: int, n: Node)
      requires 0 <= idx < buckets.Length && BucketOk(c, ks, buckets[idx]) && 0 <= j < |c| && c[j] == n
      requires |chains| == |keys| == buckets.Length
      requires forall i :: 0 <= i < buckets.Length && i != idx ==> BucketOk(chains[i], keys[i], buckets[i])
      requires forall i :: 0 <= i < buckets.Length && i != idx ==> n.prev !in chains[i] && n.next !in chains[i]
      modifies buckets, n.prev, n.next
      ensures BucketOk(Delete(c, j), Delete(ks, j), buckets[idx])
      ensures forall i :: 0 <= i < buckets.Length && i != idx ==> BucketOk(chains[i], keys[i], buckets[i])
    {
      UnlinkAt(idx, c, ks, j, n);
    }

    /** The pointer surgery of UnlinkNode, on bucket idx alone; the other slots keep their heads. */
    method UnlinkAt(idx: int, ghost c: seq<Node>, ghost ks: seq<int>, ghost j: int, n: Node)
      requires 0 <= idx < buckets.Length && BucketOk(c, ks, buckets[idx]) && 0 <= j < |c| && c[j] == n
      modifies buckets, n.prev, n.next
      ensures BucketOk(Delete(c, j), Delete(ks, j), buckets[idx])
      ensures forall i :: 0 <= i < buckets.Length && i != idx ==> buckets[i] == old(buckets[i])
    {
      NeighboursApart(c, j);
      LinksOfChain(c);
      ghost var ps, ns := Prevs(c), Nexts(c);
      if n.prev != null {
        n.prev.next := n.next;
      } else {
        buckets[idx] := n.next;
      }
      if n.next != null {
        n.next.prev := n.prev;
      }
      UnlinkSplices(c, ps, ns, j);
      DeleteKeys(c, ks, j);
      assert buckets[idx] == if |c| == 1 then null else Delete(c, j)[0];
    }

    /**
     * ht_add: with a table that has buckets and a node to store, the node takes the key and
     * loses any stale links, then Put stores it. Without buckets or without a node nothing
     * changes.
     */
    method Add(key: int, node: Node?) returns (added: bool)
      requires Valid()
      requires node != null ==> node !in Repr
      modifies Repr, node
      ensures Valid()
      ensures numBuckets == old(numBuckets) && buckets == old(buckets)
      ensures added <==> numBuckets > 0 && node != null
      ensures !added ==> Repr == old(Repr) && unchanged(Repr) && (node != null ==> unchanged(node))
      ensures !added ==> chains == old(chains) && keys == old(keys) && numItems == old(numItems)
      ensures added ==> node != null && node in Repr && node.key == key && node.IsTail()
      ensures added ==> Lookup(key) == node
      ensures added ==> forall k :: k != key ==> Lookup(k) == old(Lookup(k))
      ensures added ==> numItems == old(numItems) + (if old(Lookup(key)) == null then 1 else 0)
      ensures added ==> Repr == old(Repr) - {old(Lookup(key))} + {node}
      ensures added && old(Lookup(key)) == null ==>
        var h := Hash(key, numBuckets);
        chains == old(chains[h := chains[h] + [node]]) && keys == old(keys[h := keys[h] + [key]])
      ensures added && old(Lookup(key)) != null ==>
        var h := Hash(key, numBuckets);
        && chains == old(chains[h := Delete(chains[h], IndexOf(keys[h], key)) + [node]])
        && keys == old(keys[h := Delete(keys[h], IndexOf(keys[h], key)) + [key]])
    {
      if numBuckets <= 0 || node == null {
        return false;
      }
      node.key := key;
      node.next := null;
      node.prev := null;
      Put(key, node);
      added := true;
    }

    /**
     * ht_add of a new key followed by ht_remove of the same key: the bucket chains, the
     * map and the count are back as they were, and the node has left the table.
     */
    method AddThenRemove(key: int, node: Node)
      requires Valid() && numBuckets > 0 && node !in Repr && Lookup(key) == null
      modifies Repr, node
      ensures Valid()
      ensures chains == old(chains) && numItems == old(numItems) && Repr == old(Repr)
      ensures forall k :: Lookup(k) == old(Lookup(k))
    {
      ghost var chains0, keys0, repr0, count0 := chains, keys, Repr, numItems;
      LookupSpec(key);
      var added := Add(key, node);
      RemoveAdded(key, chains0, keys0, repr0, count0, node);
    }

    /** The ht_remove half of AddThenRemove: removing the key just appended as the last entry
        of its bucket gives back the bucket as it was before the append. */
    method RemoveAdded(key: int, ghost chains0: seq<seq<Node>>, ghost keys0: seq<seq<int>>,
                       ghost repr0: set<object>, ghost count0: int, node: Node)
      requires Valid() && numBuckets > 0 && |chains0| == |keys0| == numBuckets && node !in repr0
      requires var h := Hash(key, numBuckets);
        && key !in keys0[h]
        && chains == chains0[h := chains0[h] + [node]] && keys == keys0[h := keys0[h] + [key]]
        && Repr == repr0 + {node} && numItems == count0 + 1
      modifies Repr
      ensures Valid()
      ensures chains == chains0 && keys == keys0 && Repr == repr0 && numItems == count0
    {
      ghost var h := Hash(key, numBuckets);
      ghost var c, ks := chains0[h], keys0[h];
      IndexOfAppend(ks, key, key);
      LookupSpec(key);
      assert keys[h][|ks|] == key;
      var _ := Remove(key);
      assert Delete(c + [node], |c|) == c && Delete(ks + [key], |ks|) == ks;
      assert chains == chains0[h := c] && keys == keys0[h := ks];
    }

    /**
     * ht_add after its guard and link reset: an entry already holding the key is removed first (replace,
     * not append), and the node is then linked in as the new tail of the key's bucket. The
     * count grows only when the key was new.
     */
    method Put(key: int, node: Node)
      requires Valid() && numBuckets > 0 && node !in Repr
      requires node.key == key && node.prev == null && node.next == null
      modifies Repr, node
      ensures Valid()
      ensures numBuckets == old(numBuckets) && buckets == old(buckets)
      ensures node in Repr && node.key == key && node.IsTail()
      ensures Lookup(key) == node
      ensures forall k :: k != key ==> Lookup(k) == old(Lookup(k))
      ensures numItems == old(numItems) + (if old(Lookup(key)) == null then 1 else 0)
      ensures Repr == old(Repr) - {old(Lookup(key))} + {node}
      ensures old(Lookup(key)) == null ==>
        var h := Hash(key, numBuckets);
        chains == old(chains[h := chains[h] + [node]]) && keys == old(keys[h := keys[h] + [key]])
      ensures old(Lookup(key)) != null ==>
        var h := Hash(key, numBuckets);
        && chains == old(chains[h := Delete(chains[h], IndexOf(keys[h], key)) + [node]])
        && keys == old(keys[h := Delete(keys[h], IndexOf(keys[h], key)) + [key]])
    {
      var present := Contains(key);
      if present {
        Replace(key, node);
      } else {
        Append(key, node);
      }
    }

    /**
     * ht_add after its guard when the key is present: the old node is removed, then the new
     * one is appended to the same bucket, so the count is unchanged.
     */
    method Replace(key: int, node: Node)
      requires Valid() && numBuckets > 0 && node !in Repr
      requires node.key == key && node.prev == null && node.next == null
      requires Lookup(key) != null
      modifies Repr, node
      ensures Valid()
      ensures numBuckets == old(numBuckets) && buckets == old(buckets)
      ensures node in Repr && node.key == key && node.IsTail()
      ensures Lookup(key) == node
      ensures forall k :: k != key ==> Lookup(k) == old(Lookup(k))
      ensures numItems == old(numItems) && Repr == old(Repr) - {old(Lookup(key))} + {node}
      ensures
        var h := Hash(key, numBuckets);
        && chains == old(chains[h := Delete(chains[h], IndexOf(keys[h], key)) + [node]])
        && keys == old(keys[h := Delete(keys[h], IndexOf(keys[h], key)) + [key]])
    {
      var _ := Remove(key);
      Append(key, node);
    }

    /**
     * The append step of ht_add: the node, holding a key the table does not have, is linked
     * after the tail of its bucket (or becomes the head of an empty bucket), joins the
     * footprint, and the count grows by one.
     */
    method Append(key: int, node: Node)
      requires Valid() && numBuckets > 0 && node !in Repr
      requires node.key == key && node.prev == null && node.next == null
      requires Lookup(key) == null
      modifies Repr, node
      ensures Valid()
      ensures numBuckets == old(numBuckets) && buckets == old(buckets)
      ensures chains == old(chains[Hash(key, numBuckets) := chains[Hash(key, numBuckets)] + [node]])
      ensures keys == old(keys[Hash(key, numBuckets) := keys[Hash(key, numBuckets)] + [key]])
      ensures Repr == old(Repr) + {node}
      ensures numItems == old(numItems) + 1
      ensures node.key == key && node.next == null
      ensures Lookup(key) == node
      ensures forall k :: k != key ==> Lookup(k) == old(Lookup(k))
    {
      var idx := Hash(key, numBuckets);
      ghost var c, ks := chains[idx], keys[idx];
      LookupSpec(key);
      FindAppend(chains, keys, numBuckets, key, node);
      BucketFrame(idx);
      AppendNode(idx, c, ks, node);
      Remember(idx, c, ks, node);
    }

    /**
     * The count increment that ends ht_add, after the link: the node, already linked as the
     * tail of bucket idx, joins the footprint and the picture of the table, and the count
     * grows by one.
     */
    method Remember(idx: int, ghost c: seq<Node>, ghost ks: seq<int>, node: Node)
      requires this in Repr && buckets in Repr && numBuckets == buckets.Length
      requires Coherent(chains, keys, numBuckets, numItems, Repr) && numBuckets > 0
      requires idx == Hash(node.key, numBuckets) && chains[idx] == c && keys[idx] == ks
      requires node.key !in ks && node !in Repr
      requires BucketOk(c + [node], ks + [node.key], buckets[idx])
      requires forall i :: 0 <= i < numBuckets && i != idx ==> BucketOk(chains[i], keys[i], buckets[i])
      modifies this
      ensures Valid()
      ensures numBuckets == old(numBuckets) && buckets == old(buckets)
      ensures chains == old(chains[idx := c + [node]]) && keys == old(keys[idx := ks + [node.key]])
      ensures Repr == old(Repr) + {node} && numItems == old(numItems) + 1
    {
      CoherentAppend(chains, keys, numBuckets, numItems, Repr, node.key, node);
      chains, keys, Repr := chains[idx := c + [node]], keys[idx := ks + [node.key]], Repr + {node};
      numItems := numItems + 1;
    }

    /**
     * The pointer work of the append step of ht_add: walk from the head of bucket idx to its
     * tail and insert the node after it, or make the node the head of an empty bucket.
     */
    method AppendNode(idx: int, ghost c: seq<Node>, ghost ks: seq<int>, node: Node)
      requires 0 <= idx < buckets.Length && BucketOk(c, ks, buckets[idx])
      requires node.prev == null && node.next == null && node !in c
      requires |chains| == |keys| == buckets.Length
      requires forall i :: 0 <= i < buckets.Length && i != idx ==> BucketOk(chains[i], keys[i], buckets[i])
      requires forall i, m :: 0 <= i < buckets.Length && i != idx && 0 <= m < |chains[i]| ==>
        chains[i][m] !in c && chains[i][m] != node
      modifies buckets, node, if |c| > 0 then {c[|c| - 1]} else {}
      ensures BucketOk(c + [node], ks + [node.key], buckets[idx])
      ensures forall i :: 0 <= i < buckets.Length && i != idx ==> BucketOk(chains[i], keys[i], buckets[i])
      ensures node.key == old(node.key) && node.next == null
    {
      if buckets[idx] != null {
        var tail := Tail(c, buckets[idx]);
        LinkAfter(c, tail, node);
      } else {
        buckets[idx] := node;
      }
      assert Linked(c + [node]) && buckets[idx] == (c + [node])[0];
      AppendKeys(c, ks, node);
    }

    /** hn_insert_after on the tail of a chain: the node is appended to the chain. */
    method LinkAfter(ghost c: seq<Node>, tail: Node, node: Node)
      requires Linked(c) && |c| > 0 && tail == c[|c| - 1]
      requires node.prev == null && node.next == null && node !in c
      modifies tail, node
      ensures Linked(c + [node])
      ensures node.key == old(node.key) && tail.key == old(tail.key)
    {
      InsertAfterInChain(c, |c| - 1, tail, node);
      InsertAtEnd(c, node);
    }

    /** The tail search of ht_add: from the head, follow `next` until hn_is_tail holds. */
    method Tail(ghost c: seq<Node>, head: Node) returns (tail: Node)
      requires Linked(c) && |c| > 0 && head == c[0]
      ensures tail == c[|c| - 1]
    {
      tail := head;
      ghost var t := 0;
      while !tail.IsTail()
        invariant 0 <= t < |c| && tail == c[t]
        decreases |c| - t
      {
        HeadTailOfChain(c, t);
        tail := tail.next;
        t := t + 1;
      }
      HeadTailOfChain(c, t);
    }

    /**
     * The frame facts the unlink in Remove and the append in Add rely on: no node of another
     * bucket belongs to bucket idx, and each node of bucket idx sits in one place only.
     */
    lemma BucketFrame(idx: int)
      requires Valid() && 0 <= idx < numBuckets
      ensures forall i, m :: 0 <= i < numBuckets && i != idx && 0 <= m < |chains[i]| ==>
        chains[i][m] !in chains[idx]
      ensures forall i, m, m' ::
        (0 <= i < numBuckets && 0 <= m < |chains[i]| && 0 <= m' < |chains[idx]| && chains[i][m] == chains[idx][m']) ==>
        i == idx && m == m'
    {
      var c := chains[idx];
      forall i, m, m' | 0 <= i < numBuckets && 0 <= m < |chains[i]| && 0 <= m' < |c| && chains[i][m] == c[m']
        ensures i == idx && m == m'
      {
        NodesUnique(i, m, idx, m');
      }
    }
  }

  /**
   * ht_create: a table with `size` empty buckets. A negative size converts to an
   * unsatisfiable request for the bucket array, so no table is made.
   */
  method Create(size: int) returns (t: Table?)
    ensures size < 0 <==> t == null
    ensures t != null ==> fresh(t.Repr) && t.Valid() && t.numBuckets == size && t.numItems == 0
    ensures t != null ==> forall k :: t.Lookup(k) == null
    ensures t != null ==> forall i :: 0 <= i < t.numBuckets ==> t.buckets[i] == null
  {
    if size < 0 {
      return null;
    }
    t := new Table(size);
  }

  /**
   * ht_destroy: a missing table is ignored; otherwise the table is cleared (its nodes
   * released) and, as in the C code, null is returned for the caller to store. Releasing the
   * bucket array and the table itself is not modelled.
   */
  method Destroy(t: Table?) returns (r: Table?)
    requires t != null ==> t.Valid()
    modifies if t != null then t.Repr else {}
    ensures r == null
    ensures t != null ==> t.Valid() && t.numItems == 0 && t.Repr == {t, t.buckets}
    ensures t != null ==> forall k :: t.Lookup(k) == null
  {
    if t == null {
      return null;
    }
    var _ := t.Clear();
    return null;
  }
}
