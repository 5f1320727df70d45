/** A hash table with separate chaining, after `myHashMap<K, V>`.

    The table keeps an array of buckets; bucket `i` holds the chain of the
    entries whose key hashes to `i`. Chains are modelled as sequences of
    `HashNode` values, first node first, so that unlinking a node is a splice
    of the sequence and overwriting a value is an update at one position. The
    ghost field `Contents` is the map the table stands for. */
module HashMaps {
  import opened JavaInt
  import opened Options

  /** The bucket count of a fresh or cleared table. */
  const INITIAL_NUM_BUCKETS := 10

  /** One (key, value) entry of a chain. */
  datatype HashNode<K, V> = HashNode(key: K, value: V)

  type Chain<K, V> = seq<HashNode<K, V>>

  /** Java's `(key.hashCode() & 0x7fffffff) % numBuckets` for a key whose hash
      code is `h`. */
  function BucketIndex(h: Int32, numBuckets: int): (r: nat)
    requires numBuckets > 0
    ensures r < numBuckets
    ensures r == ((h as int) % 0x8000_0000) % numBuckets
  {
    ClearSignBit(h) % numBuckets
  }

  /** No key occurs twice in the chain. */
  ghost predicate DistinctKeys<K, V>(c: Chain<K, V>)
  {
    forall i, j :: 0 <= i < j < |c| ==> c[i].key != c[j].key
  }

  /** The chain `c` with its node at position `j` unlinked: the predecessor
      (or the bucket head) now leads to the node's successor. */
  function Unlink<K, V>(c: Chain<K, V>, j: nat): (r: Chain<K, V>)
    requires j < |c|
    ensures |r| == |c| - 1
    ensures forall i :: 0 <= i < j ==> r[i] == c[i]
    ensures forall i :: j <= i < |r| ==> r[i] == c[i + 1]
  {
    c[..j] + c[j + 1..]
  }

  /** The number of nodes in all chains together. */
  function Total<K, V>(t: seq<Chain<K, V>>): nat
  {
    if t == [] then 0 else |t[0]| + Total(t[1..])
  }

  /** The table invariant: the chains `t` hold exactly the entries of `m`,
      each in the bucket its key hashes to, and no key twice. */
  ghost predicate Represents<K, V>(hash: K -> Int32, t: seq<Chain<K, V>>, m: map<K, V>)
  {
    && |t| > 0
    && (forall i, x | 0 <= i < |t| && x in t[i] :: BucketIndex(hash(x.key), |t|) == i)
    && (forall i | 0 <= i < |t| :: DistinctKeys(t[i]))
    && (forall i, x | 0 <= i < |t| && x in t[i] :: x.key in m && m[x.key] == x.value)
    && (forall k | k in m :: HashNode(k, m[k]) in t[BucketIndex(hash(k), |t|)])
  }

  /** Key `k` of `m` has been passed by a scan that has visited the buckets
      before `i` and the first `j` nodes of bucket `i`. */
  ghost predicate Scanned<K, V>(hash: K -> Int32, t: seq<Chain<K, V>>, m: map<K, V>, k: K, i: int, j: int)
    requires |t| > 0 && k in m
  {
    var b := BucketIndex(hash(k), |t|);
    b < i || (b == i && i < |t| && 0 <= j <= |t[i]| && HashNode(k, m[k]) in t[i][..j])
  }

  // ---------------------------------------------------------------------
  // Chain counting

  lemma {:induction false} TotalUpdate<K, V>(t: seq<Chain<K, V>>, i: nat, c: Chain<K, V>)
    requires i < |t|
    ensures Total(t[i := c]) == Total(t) - |t[i]| + |c|
  {
    if i > 0 {
      TotalUpdate(t[1..], i - 1, c);
      assert t[i := c][1..] == t[1..][i - 1 := c];
    }
  }

  lemma {:induction false} TotalAllEmpty<K, V>(t: seq<Chain<K, V>>)
    requires forall i | 0 <= i < |t| :: t[i] == []
    ensures Total(t) == 0
  {
    if t != [] {
      TotalAllEmpty(t[1..]);
    }
  }

  lemma SubsetSmaller<T>(a: set<T>, b: set<T>, x: T)
    requires a <= b && x in b && x !in a
    ensures |a| < |b|
  {
    assert b == a + (b - a);
    assert x in b - a;
  }

  lemma SubsetNoLarger<T>(a: set<T>, b: set<T>)
    requires a <= b
    ensures |a| <= |b|
  {
    assert b == a + (b - a);
  }

  // ---------------------------------------------------------------------
  // The invariant under each change a table operation makes to one chain

  /** A table of empty buckets represents the empty map. */
  lemma EmptyRepresents<K, V>(hash: K -> Int32, t: seq<Chain<K, V>>)
    requires |t| > 0 && forall i | 0 <= i < |t| :: t[i] == []
    ensures Represents(hash, t, map[])
  {
  }

  /** Prepending a node for an absent key to the chain of its bucket (`put` of
      a new key) adds that key to the map. */
  lemma PrependPreserves<K, V>(hash: K -> Int32, t: seq<Chain<K, V>>, m: map<K, V>, k: K, v: V)
    requires Represents(hash, t, m) && k !in m
    ensures var b := BucketIndex(hash(k), |t|);
      Represents(hash, t[b := [HashNode(k, v)] + t[b]], m[k := v])
  {
    var b := BucketIndex(hash(k), |t|);
    var t' := t[b := [HashNode(k, v)] + t[b]];
    var m' := m[k := v];
    assert DistinctKeys(t'[b]) by {
      forall i, j | 0 <= i < j < |t'[b]| ensures t'[b][i].key != t'[b][j].key {
        if i == 0 {
          assert t'[b][j] == t[b][j - 1];
          assert t[b][j - 1] in t[b];
        } else {
          assert t'[b][i] == t[b][i - 1] && t'[b][j] == t[b][j - 1];
        }
      }
    }
    forall i, x: HashNode<K, V> | 0 <= i < |t'| && x in t'[i]
      ensures BucketIndex(hash(x.key), |t'|) == i && x.key in m' && m'[x.key] == x.value
    {
      if i == b && x != HashNode(k, v) {
        assert x in t[b];
      }
    }
  }

  /** Unlinking the node at position `j` of bucket `b` (`remove`) drops its key
      from the map and nothing else. */
  lemma UnlinkPreserves<K, V>(hash: K -> Int32, t: seq<Chain<K, V>>, m: map<K, V>, b: nat, j: nat)
    requires Represents(hash, t, m) && b < |t| && j < |t[b]|
    ensures Represents(hash, t[b := Unlink(t[b], j)], m - {t[b][j].key})
  {
    var c := t[b];
    var c' := Unlink(c, j);
    var t' := t[b := c'];
    var k := c[j].key;
    var m' := m - {k};
    forall x | x in c' ensures x in c && x.key != k {
      var p :| 0 <= p < |c'| && c'[p] == x;
      if p < j {
        assert c[p] == x;
      } else {
        assert c[p + 1] == x;
      }
    }
    assert DistinctKeys(c') by {
      forall p, q | 0 <= p < q < |c'| ensures c'[p].key != c'[q].key {
        var p', q' := if p < j then p else p + 1, if q < j then q else q + 1;
        assert c'[p] == c[p'] && c'[q] == c[q'];
      }
    }
    forall key | key in m' ensures HashNode(key, m'[key]) in t'[BucketIndex(hash(key), |t'|)] {
      var x := HashNode(key, m[key]);
      if BucketIndex(hash(key), |t|) == b {
        var p :| 0 <= p < |c| && c[p] == x;
        if p < j {
          assert c'[p] == x;
        } else {
          assert p != j;
          assert c'[p - 1] == x;
        }
      }
    }
  }

  /** Overwriting the value of the node at position `j` of bucket `b`
      (`replace`, and `put` of a present key) changes that key's value and
      nothing else. */
  lemma OverwritePreserves<K, V>(hash: K -> Int32, t: seq<Chain<K, V>>, m: map<K, V>, b: nat, j: nat, v: V)
    requires Represents(hash, t, m) && b < |t| && j < |t[b]|
    ensures Represents(hash, t[b := t[b][j := HashNode(t[b][j].key, v)]], m[t[b][j].key := v])
  {
    var c := t[b];
    var k := c[j].key;
    var c' := c[j := HashNode(k, v)];
    var t' := t[b := c'];
    var m' := m[k := v];
    assert c[j] in c;
    forall x | x in c' ensures x == HashNode(k, v) || (x in c && x.key != k) {
      var p :| 0 <= p < |c'| && c'[p] == x;
      if p != j {
        assert c[p] == x;
      }
    }
    assert DistinctKeys(c') by {
      forall p, q | 0 <= p < q < |c'| ensures c'[p].key != c'[q].key {
        assert c'[p].key == c[p].key && c'[q].key == c[q].key;
      }
    }
    forall key | key in m' ensures HashNode(key, m'[key]) in t'[BucketIndex(hash(key), |t'|)] {
      if key == k {
        assert c'[j] == HashNode(k, v);
      } else if BucketIndex(hash(key), |t|) == b {
        var p :| 0 <= p < |c| && c[p] == HashNode(key, m[key]);
        assert c'[p] == c[p];
      }
    }
  }

  /** Walking the chain of `key`'s bucket to position `j` without meeting
      `key`: a node there with the key carries the key's value, and the end of
      the chain means the key is absent. */
  lemma ChainWalk<K, V>(hash: K -> Int32, t: seq<Chain<K, V>>, m: map<K, V>, key: K, j: nat)
    requires Represents(hash, t, m)
    requires j <= |t[BucketIndex(hash(key), |t|)]|
    requires forall p | 0 <= p < j :: t[BucketIndex(hash(key), |t|)][p].key != key
    ensures var c := t[BucketIndex(hash(key), |t|)];
      && (j < |c| && c[j].key == key ==> key in m && m[key] == c[j].value)
      && (j == |c| ==> key !in m)
  {
    var c := t[BucketIndex(hash(key), |t|)];
    if j < |c| && c[j].key == key {
      assert c[j] in c;
    }
  }

  // ---------------------------------------------------------------------
  // Scanning every chain in bucket order (rehash, keySet, entrySet, containsValue)

  /** Visiting the node at position `j` of bucket `i` passes exactly its key. */
  lemma ScanStep<K, V>(hash: K -> Int32, t: seq<Chain<K, V>>, m: map<K, V>, i: nat, j: nat)
    requires Represents(hash, t, m) && i < |t| && j < |t[i]|
    ensures t[i][j].key in m && m[t[i][j].key] == t[i][j].value
    ensures !Scanned(hash, t, m, t[i][j].key, i, j)
    ensures Scanned(hash, t, m, t[i][j].key, i, j + 1)
    ensures forall k | k in m && k != t[i][j].key :: Scanned(hash, t, m, k, i, j + 1) == Scanned(hash, t, m, k, i, j)
  {
    var c := t[i];
    assert c[j] in c;
    assert c[..j + 1] == c[..j] + [c[j]];
    assert forall p | 0 <= p < j :: c[..j][p].key != c[j].key;
  }

  /** Leaving bucket `i` after its last node is entering bucket `i + 1`. */
  lemma ScanNextBucket<K, V>(hash: K -> Int32, t: seq<Chain<K, V>>, m: map<K, V>, i: nat)
    requires Represents(hash, t, m) && i < |t|
    ensures forall k | k in m :: Scanned(hash, t, m, k, i, |t[i]|) == Scanned(hash, t, m, k, i + 1, 0)
  {
    assert t[i][..|t[i]|] == t[i];
  }

  // ---------------------------------------------------------------------
  // Re-inserting the old chains during a resize

  /** During a resize: the new table's map `m` holds exactly the entries of
      the old map that a scan of the old chains `t` has passed at bucket `i`,
      node `j`. */
  ghost predicate Rehashed<K, V>(hash: K -> Int32, t: seq<Chain<K, V>>, oldContents: map<K, V>, m: map<K, V>, i: int, j: int)
    requires |t| > 0
  {
    && (forall k | k in m :: k in oldContents && Scanned(hash, t, oldContents, k, i, j))
    && (forall k | k in oldContents && Scanned(hash, t, oldContents, k, i, j) :: k in m)
    && (forall k | k in m :: m[k] == oldContents[k])
  }

  /** The next old node to put again carries a key the new table lacks, with
      its old value; putting it advances the scan by one node. */
  lemma ReinsertStep<K, V>(hash: K -> Int32, t: seq<Chain<K, V>>, oldContents: map<K, V>, m: map<K, V>, i: nat, j: nat)
    requires Represents(hash, t, oldContents) && i < |t| && j < |t[i]|
    requires Rehashed(hash, t, oldContents, m, i, j)
    ensures t[i][j].key !in m && |m| < |oldContents|
    ensures Rehashed(hash, t, oldContents, m[t[i][j].key := t[i][j].value], i, j + 1)
  {
    var x := t[i][j];
    ScanStep(hash, t, oldContents, i, j);
    SubsetSmaller(m.Keys, oldContents.Keys, x.key);
    assert |m| == |m.Keys| && |oldContents| == |oldContents.Keys|;
    var m' := m[x.key := x.value];
    forall k | k in m' ensures k in oldContents && Scanned(hash, t, oldContents, k, i, j + 1) && m'[k] == oldContents[k] {
      if k != x.key {
        assert k in m;
      }
    }
    forall k | k in oldContents && Scanned(hash, t, oldContents, k, i, j + 1) ensures k in m' {
      if k != x.key {
        assert Scanned(hash, t, oldContents, k, i, j);
      }
    }
  }

  /** Finishing old chain `i` is starting old chain `i + 1`. */
  lemma RehashNextBucket<K, V>(hash: K -> Int32, t: seq<Chain<K, V>>, oldContents: map<K, V>, m: map<K, V>, i: nat)
    requires Represents(hash, t, oldContents) && i < |t|
    requires Rehashed(hash, t, oldContents, m, i, |t[i]|)
    ensures Rehashed(hash, t, oldContents, m, i + 1, 0)
  {
    ScanNextBucket(hash, t, oldContents, i);
  }

  /** Once every old chain is scanned, the new table holds the old map. */
  lemma RehashDone<K, V>(hash: K -> Int32, t: seq<Chain<K, V>>, oldContents: map<K, V>, m: map<K, V>)
    requires Represents(hash, t, oldContents)
    requires Rehashed(hash, t, oldContents, m, |t|, 0)
    ensures m == oldContents
  {
    assert m.Keys == oldContents.Keys;
  }

  /** Mid-resize the new table never holds more entries than the old one. */
  lemma RehashedNoLarger<K, V>(hash: K -> Int32, t: seq<Chain<K, V>>, oldContents: map<K, V>, m: map<K, V>, i: int, j: int)
    requires |t| > 0 && Rehashed(hash, t, oldContents, m, i, j)
    ensures |m| <= |oldContents|
  {
    SubsetNoLarger(m.Keys, oldContents.Keys);
    assert |m| == |m.Keys| && |oldContents| == |oldContents.Keys|;
  }

  // ---------------------------------------------------------------------

  /** The table `myHashMap<K, V>`. `hash` stands for `K.hashCode()`. */
  class MyHashMap<K(==), V(==)> {
    const hash: K -> Int32
    var bucket: array<Chain<K, V>>
    var numBuckets: int
    var size: int
    ghost var Contents: map<K, V>

    /** The chain invariant, with `size` counting the nodes. */
    ghost predicate ChainsValid()
      reads this, bucket
    {
      && numBuckets == bucket.Length
      && Represents(hash, bucket[..], Contents)
      && size == Total(bucket[..])
      && size == |Contents|
    }

    /** The invariant every public operation keeps: the chain invariant, a
        bucket count that only grows from 10, and a load below 0.7. */
    ghost predicate Valid()
      reads this, bucket
    {
      && ChainsValid()
      && numBuckets >= INITIAL_NUM_BUCKETS
      && 10 * size < 7 * numBuckets
    }

    constructor (hash: K -> Int32)
      ensures Valid() && fresh(bucket)
      ensures this.hash == hash && Contents == map[]
      ensures numBuckets == INITIAL_NUM_BUCKETS && size == 0
      ensures forall i | 0 <= i < bucket.Length :: bucket[i] == []
    {
      this.hash := hash;
      numBuckets := INITIAL_NUM_BUCKETS;
      size := 0;
      Contents := map[];
      bucket := new Chain<K, V>[INITIAL_NUM_BUCKETS](_ => []);
      new;
      EmptyRepresents(hash, bucket[..]);
      TotalAllEmpty(bucket[..]);
    }

    function Size(): (r: int)
      reads this, bucket
      requires Valid()
      ensures r == |Contents|
    {
      size
    }

    function IsEmpty(): (r: bool)
      reads this, bucket
      requires Valid()
      ensures r <==> Contents == map[]
    {
      size == 0
    }

    method Clear()
      modifies this
      ensures Valid() && fresh(bucket)
      ensures Contents == map[] && size == 0 && numBuckets == INITIAL_NUM_BUCKETS
      ensures forall i | 0 <= i < bucket.Length :: bucket[i] == []
    {
      size := 0;
      numBuckets := INITIAL_NUM_BUCKETS;
      bucket := EmptyBuckets(numBuckets);
      Contents := map[];
    }

    /** A new bucket array of `n` empty chains. */
    method EmptyBuckets(n: nat) returns (a: array<Chain<K, V>>)
      requires n > 0
      ensures fresh(a) && a.Length == n
      ensures forall i | 0 <= i < n :: a[i] == []
      ensures Represents(hash, a[..], map[]) && Total(a[..]) == 0
    {
      a := new Chain<K, V>[n](_ => []);
      EmptyRepresents(hash, a[..]);
      TotalAllEmpty(a[..]);
    }

    /** The bucket of `key` in the current table: its hash code with the sign
        bit cleared, modulo the bucket count. */
    function GetBucketIndex(key: K): (r: nat)
      reads this
      requires numBuckets > 0
      ensures r < numBuckets && r == ((hash(key) as int) % 0x8000_0000) % numBuckets
    {
      BucketIndex(hash(key), numBuckets)
    }

    method Get(key: K) returns (r: Option<V>)
      requires ChainsValid()
      ensures r == if key in Contents then Some(Contents[key]) else None
    {
      var index := GetBucketIndex(key);
      var head := bucket[index];
      assert head == bucket[..][index];
      var j := 0;
      while j < |head|
        invariant j <= |head|
        invariant forall p :: 0 <= p < j ==> head[p].key != key
      {
        if head[j].key == key {
          assert head[j] in bucket[..][index];
          return Some(head[j].value);
        }
        j := j + 1;
      }
      return None;
    }

    /** Unlinking the node at position `j` of chain `index`: its predecessor,
        or the bucket head when it is first, now leads to its successor, and
        the count drops by one. */
    method UnlinkNode(index: nat, j: nat)
      requires ChainsValid() && index < bucket.Length && j < |bucket[index]|
      modifies this, bucket
      ensures ChainsValid() && bucket == old(bucket) && numBuckets == old(numBuckets)
      ensures bucket[..] == old(bucket[..])[index := Unlink(old(bucket[index]), j)]
      ensures Contents == old(Contents) - {old(bucket[index][j].key)}
      ensures size == old(size) - 1
    {
      ghost var t := bucket[..];
      var head := bucket[index];
      assert head == t[index];
      UnlinkPreserves(hash, t, Contents, index, j);
      ghost var unlinked := Unlink(head, j);
      TotalUpdate(t, index, unlinked);
      if j > 0 {
        bucket[index] := head[..j] + head[j + 1..];
      } else {
        assert head[1..] == unlinked;
        bucket[index] := head[1..];
      }
      assert bucket[..] == t[index := unlinked];
      size := size - 1;
      Contents := Contents - {head[j].key};
    }

    /** Overwriting the value of the node at position `j` of chain `index`. */
    method SetValue(index: nat, j: nat, val: V)
      requires ChainsValid() && index < bucket.Length && j < |bucket[index]|
      modifies this, bucket
      ensures ChainsValid() && bucket == old(bucket) && numBuckets == old(numBuckets) && size == old(size)
      ensures bucket[..] == old(bucket[..])[index := old(bucket[index])[j := HashNode(old(bucket[index][j].key), val)]]
      ensures Contents == old(Contents)[old(bucket[index][j].key) := val]
    {
      ghost var t := bucket[..];
      var head := bucket[index];
      assert head == t[index];
      OverwritePreserves(hash, t, Contents, index, j, val);
      TotalUpdate(t, index, head[j := HashNode(head[j].key, val)]);
      bucket[index] := head[j := HashNode(head[j].key, val)];
      assert bucket[..] == t[index := head[j := HashNode(head[j].key, val)]];
      Contents := Contents[head[j].key := val];
    }

    method Remove(key: K) returns (r: Option<V>)
      requires Valid()
      modifies this, bucket
      ensures Valid() && bucket == old(bucket) && numBuckets == old(numBuckets)
      ensures r == if key in old(Contents) then Some(old(Contents)[key]) else None
      ensures Contents == old(Contents) - {key}
      ensures size == if key in old(Contents) then old(size) - 1 else old(size)
    {
      var index := GetBucketIndex(key);
      var head := bucket[index];
      assert head == bucket[..][index];
      ghost var t := bucket[..];
      var j := 0;
      while j < |head|
        invariant j <= |head| && head == bucket[index] && t == bucket[..]
        invariant forall p :: 0 <= p < j ==> head[p].key != key
      {
        if head[j].key == key {
          ChainWalk(hash, t, Contents, key, j);
          UnlinkNode(index, j);
          return Some(head[j].value);
        }
        j := j + 1;
      }
      ChainWalk(hash, t, Contents, key, j);
      return None;
    }

    method RemoveIfMapped(key: K, val: V) returns (removed: bool)
      requires Valid()
      modifies this, bucket
      ensures Valid() && bucket == old(bucket) && numBuckets == old(numBuckets)
      ensures removed == (key in old(Contents) && old(Contents)[key] == val)
      ensures Contents == if removed then old(Contents) - {key} else old(Contents)
      ensures size == if removed then old(size) - 1 else old(size)
    {
      var originalValue := Get(key);
      if originalValue.None? || originalValue.value != val {
        return false;
      }
      var _ := Remove(key);
      return true;
    }

    method Replace(key: K, val: V) returns (r: Option<V>)
      requires Valid()
      modifies this, bucket
      ensures Valid() && bucket == old(bucket) && numBuckets == old(numBuckets) && size == old(size)
      ensures r == if key in old(Contents) then Some(old(Contents)[key]) else None
      ensures Contents == if key in old(Contents) then old(Contents)[key := val] else old(Contents)
    {
      var index := GetBucketIndex(key);
      var head := bucket[index];
      assert head == bucket[..][index];
      ghost var t := bucket[..];
      var j := 0;
      while j < |head|
        invariant j <= |head| && head == bucket[index] && t == bucket[..]
        invariant forall p :: 0 <= p < j ==> head[p].key != key
      {
        if head[j].key == key {
          var oldValue := head[j].value;
          ChainWalk(hash, t, Contents, key, j);
          SetValue(index, j, val);
          return Some(oldValue);
        }
        j := j + 1;
      }
      ChainWalk(hash, t, Contents, key, j);
      return None;
    }

    method ReplaceIfMapped(key: K, oldVal: V, newVal: V) returns (replaced: bool)
      requires Valid()
      modifies this, bucket
      ensures Valid() && bucket == old(bucket) && numBuckets == old(numBuckets) && size == old(size)
      ensures replaced == (key in old(Contents) && old(Contents)[key] == oldVal)
      ensures Contents == if replaced then old(Contents)[key := newVal] else old(Contents)
    {
      var index := GetBucketIndex(key);
      var head := bucket[index];
      assert head == bucket[..][index];
      var j := 0;
      while j < |head|
        invariant j <= |head| && head == bucket[index]
        invariant forall p :: 0 <= p < j ==> head[p] != HashNode(key, oldVal)
      {
        if head[j].key == key && head[j].value == oldVal {
          assert head[j] in bucket[..][index];
          SetValue(index, j, newVal);
          return true;
        }
        j := j + 1;
      }
      return false;
    }

    /** Lines 240-263 of `put` for a key the table does not hold: a new node
        at the head of its bucket's chain, and one more entry. */
    method AddNode(key: K, value: V)
      requires ChainsValid() && key !in Contents
      modifies this, bucket
      ensures ChainsValid() && bucket == old(bucket) && numBuckets == old(numBuckets)
      ensures var b := BucketIndex(hash(key), numBuckets);
        bucket[..] == old(bucket[..])[b := [HashNode(key, value)] + old(bucket[b])]
      ensures Contents == old(Contents)[key := value] && size == old(size) + 1
    {
      var index := GetBucketIndex(key);
      ghost var t := bucket[..];
      PrependPreserves(hash, t, Contents, key, value);
      TotalUpdate(t, index, [HashNode(key, value)] + t[index]);
      bucket[index] := [HashNode(key, value)] + bucket[index];
      assert bucket[..] == t[index := [HashNode(key, value)] + t[index]];
      size := size + 1;
      Contents := Contents[key := value];
    }

    /** One nested `put` of the resize: the node at position `j` of the old
        chain `i`, whose key the new table does not hold yet. */
    method ReinsertNode(ghost t: seq<Chain<K, V>>, ghost oldContents: map<K, V>, i: nat, j: nat, node: HashNode<K, V>)
      requires Represents(hash, t, oldContents) && i < |t| && j < |t[i]| && node == t[i][j]
      requires ChainsValid() && Rehashed(hash, t, oldContents, Contents, i, j)
      modifies this, bucket
      ensures ChainsValid() && bucket == old(bucket) && numBuckets == old(numBuckets)
      ensures size == old(size) + 1 && size <= |oldContents|
      ensures Rehashed(hash, t, oldContents, Contents, i, j + 1)
    {
      ReinsertStep(hash, t, oldContents, Contents, i, j);
      AddNode(node.key, node.value);
    }

    /** The inner loop of the resize: every node of the old chain `i`, head to
        tail, is put again. None of these puts finds its key present, and the
        load check that ends each of them never fires. */
    method ReinsertChain(ghost t: seq<Chain<K, V>>, ghost oldContents: map<K, V>, i: nat, chain: Chain<K, V>)
      requires Represents(hash, t, oldContents) && i < |t| && chain == t[i]
      requires |t| >= INITIAL_NUM_BUCKETS && 10 * (|oldContents| - 1) < 7 * |t|
      requires Reinserted(t, oldContents, i)
      modifies this, bucket
      ensures bucket == old(bucket) && Reinserted(t, oldContents, i + 1)
    {
      RehashedNoLarger(hash, t, oldContents, Contents, i, 0);
      var j := 0;
      while j < |chain|
        invariant j <= |chain|
        invariant ChainsValid() && bucket == old(bucket) && numBuckets == old(numBuckets)
        invariant size <= |oldContents| && 10 * size < 7 * numBuckets
        invariant Rehashed(hash, t, oldContents, Contents, i, j)
      {
        ReinsertNode(t, oldContents, i, j, chain[j]);
        j := j + 1;
      }
      RehashNextBucket(hash, t, oldContents, Contents, i);
    }

    /** Mid-resize: the new table is sound, below the load limit, and holds
        exactly the old entries met before bucket `i` of the old chains. */
    ghost predicate Reinserted(tmp: seq<Chain<K, V>>, oldContents: map<K, V>, i: int)
      reads this, bucket
      requires |tmp| > 0
    {
      && ChainsValid() && numBuckets == 2 * |tmp| && 10 * size < 7 * numBuckets
      && Rehashed(hash, tmp, oldContents, Contents, i, 0)
    }

    /** The outer loop of the resize: every old chain, in bucket order, is put
        again into the fresh, empty table. */
    method ReinsertAll(tmp: seq<Chain<K, V>>, ghost oldContents: map<K, V>)
      requires Represents(hash, tmp, oldContents)
      requires |tmp| >= INITIAL_NUM_BUCKETS && 10 * (|oldContents| - 1) < 7 * |tmp|
      requires ChainsValid() && numBuckets == 2 * |tmp| && Contents == map[]
      modifies this, bucket
      ensures ChainsValid() && bucket == old(bucket) && numBuckets == old(numBuckets)
      ensures Contents == oldContents
    {
      for i := 0 to |tmp|
        invariant bucket == old(bucket) && Reinserted(tmp, oldContents, i)
      {
        ReinsertChain(tmp, oldContents, i, tmp[i]);
      }
      RehashDone(hash, tmp, oldContents, Contents);
    }

    /** The resize at the end of `put`: twice the buckets, and every entry of
        the old chains put again, bucket by bucket. The old chains are read as
        the value they hold when the resize starts; nothing changes them after. */
    method Rehash()
      requires ChainsValid() && numBuckets >= INITIAL_NUM_BUCKETS
      requires 10 * (size - 1) < 7 * numBuckets
      modifies this
      ensures Valid() && fresh(bucket)
      ensures Contents == old(Contents) && size == old(size) && numBuckets == 2 * old(numBuckets)
    {
      var tmp := bucket[..];
      ghost var oldContents := Contents;
      assert Represents(hash, tmp, oldContents) && size == |oldContents| && numBuckets == |tmp|;
      bucket := EmptyBuckets(2 * numBuckets);
      numBuckets := 2 * numBuckets;
      size := 0;
      Contents := map[];
      ReinsertAll(tmp, oldContents);
    }

    method Put(key: K, value: V) returns (r: Option<V>)
      requires Valid()
      modifies this, bucket
      ensures Valid() && (bucket == old(bucket) || fresh(bucket))
      ensures r == if key in old(Contents) then Some(old(Contents)[key]) else None
      ensures Contents == old(Contents)[key := value]
      ensures size == |Contents|
      ensures numBuckets ==
        if key !in old(Contents) && 10 * (old(size) + 1) >= 7 * old(numBuckets)
        then 2 * old(numBuckets) else old(numBuckets)
    {
      var oldValue := Get(key);
      if oldValue.Some? {
        var _ := Replace(key, value);
        return oldValue;
      }
      AddNode(key, value);
      // `(1.0 * size) / numBuckets > 0.7f`
      if 10 * size >= 7 * numBuckets {
        Rehash();
      }
      return None;
    }

    method PutIfAbsent(key: K, value: V) returns (r: Option<V>)
      requires Valid()
      modifies this, bucket
      ensures Valid() && (bucket == old(bucket) || fresh(bucket))
      ensures r == if key in old(Contents) then Some(old(Contents)[key]) else None
      ensures Contents == if key in old(Contents) then old(Contents) else old(Contents)[key := value]
      ensures key in old(Contents) ==>
        bucket == old(bucket) && bucket[..] == old(bucket[..]) && numBuckets == old(numBuckets) && size == old(size)
      ensures numBuckets ==
        if key !in old(Contents) && 10 * (old(size) + 1) >= 7 * old(numBuckets)
        then 2 * old(numBuckets) else old(numBuckets)
    {
      var originalValue := Get(key);
      if originalValue.None? {
        var _ := Put(key, value);
        return None;
      }
      return originalValue;
    }

    method ContainsValue(val: V) returns (found: bool)
      requires Valid()
      ensures found <==> exists k :: k in Contents && Contents[k] == val
    {
      ghost var t := bucket[..];
      for i := 0 to bucket.Length
        invariant forall k | k in Contents && Scanned(hash, t, Contents, k, i, 0) :: Contents[k] != val
      {
        var headNode := bucket[i];
        var j := 0;
        while j < |headNode|
          invariant j <= |headNode| && headNode == t[i]
          invariant forall k | k in Contents && Scanned(hash, t, Contents, k, i, j) :: Contents[k] != val
        {
          ScanStep(hash, t, Contents, i, j);
          if headNode[j].value == val {
            return true;
          }
          j := j + 1;
        }
        ScanNextBucket(hash, t, Contents, i);
      }
      return false;
    }

    method ContainsKey(key: K) returns (b: bool)
      requires Valid()
      ensures b <==> key in Contents
    {
      var v := Get(key);
      return v.Some?;
    }

    method EntrySet() returns (entries: set<(K, V)>)
      requires Valid()
      ensures forall k, v :: (k, v) in entries <==> k in Contents && Contents[k] == v
    {
      ghost var t := bucket[..];
      entries := {};
      for i := 0 to bucket.Length
        invariant forall k, v :: (k, v) in entries <==> k in Contents && Contents[k] == v && Scanned(hash, t, Contents, k, i, 0)
      {
        var headNode := bucket[i];
        var j := 0;
        while j < |headNode|
          invariant j <= |headNode| && headNode == t[i]
          invariant forall k, v :: (k, v) in entries <==> k in Contents && Contents[k] == v && Scanned(hash, t, Contents, k, i, j)
        {
          ScanStep(hash, t, Contents, i, j);
          entries := entries + {(headNode[j].key, headNode[j].value)};
          j := j + 1;
        }
        ScanNextBucket(hash, t, Contents, i);
      }
    }

    method KeySet() returns (keys: set<K>)
      requires Valid()
      ensures keys == Contents.Keys
    {
      ghost var t := bucket[..];
      keys := {};
      for i := 0 to bucket.Length
        invariant forall k :: k in keys <==> k in Contents && Scanned(hash, t, Contents, k, i, 0)
      {
        var headNode := bucket[i];
        var j := 0;
        while j < |headNode|
          invariant j <= |headNode| && headNode == t[i]
          invariant forall k :: k in keys <==> k in Contents && Scanned(hash, t, Contents, k, i, j)
        {
          ScanStep(hash, t, Contents, i, j);
          keys := keys + {headNode[j].key};
          j := j + 1;
        }
        ScanNextBucket(hash, t, Contents, i);
      }
    }
  }

  /** The table after putting `k -> 10 * k` for every `k` from 1 below `i`,
      with no resize yet. */
  ghost predicate FilledBelow(m: MyHashMap<Int32, Int32>, i: int)
    reads m, m.bucket
  {
    && m.Valid() && m.size == i - 1 && m.numBuckets == 10
    && (forall k: Int32 | k in m.Contents :: k as int < i)
    && (i > 1 ==> 1 in m.Contents && m.Contents[1] == 10)
  }

  /** One put of the example: key `i` with value `10 * i`, below the load limit. */
  method PutBelowLimit(m: MyHashMap<Int32, Int32>, i: Int32)
    requires 1 <= i < 7 && FilledBelow(m, i as int)
    modifies m, m.bucket
    ensures FilledBelow(m, i as int + 1) && (m.bucket == old(m.bucket) || fresh(m.bucket))
  {
    var _ := m.Put(i, 10 * i);
  }

  /** A fresh table of `Integer` keys (whose hash code is the value itself):
      the seventh insertion brings the load to exactly 7/10, above `0.7f`, and
      doubles the bucket count. */
  method SeventhPutResizes() returns (n: int, first: Option<Int32>)
    ensures n == 20 && first == Some(10)
  {
    var m := new MyHashMap<Int32, Int32>(k => k);
    for i: Int32 := 1 to 7
      invariant fresh(m) && fresh(m.bucket) && FilledBelow(m, i as int)
    {
      PutBelowLimit(m, i);
    }
    var _ := m.Put(7, 70);
    n := m.numBuckets;
    first := m.Get(1);
  }
}
