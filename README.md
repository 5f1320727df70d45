# Separate-chaining hash map and three hashing exercises, in Dafny

This project models two Java classes.

`myHashMap<K, V>` is a hash table with separate chaining. It keeps a list of
buckets, 10 at first. Each bucket holds a singly linked chain of `HashNode`s.
A key goes to bucket `(hashCode & 0x7fffffff) % numBuckets`. `put` adds a new
key at the head of its chain. When the load `size / numBuckets` exceeds
`0.7f`, `put` doubles the bucket count and puts every old entry again.

In the model (`hash_map.dfy`, module `HashMaps`):
- `MyHashMap` is a class whose fields `bucket`, `numBuckets` and `size` are
  updated in place, like the Java fields.
- Each chain is a sequence of `HashNode` values, first node first.
- The ghost field `Contents` is the map the table stands for.
- The predicate `Represents` ties the chains to `Contents`:
  - every node sits in the bucket its key hashes to;
  - no chain holds a key twice;
  - every node is an entry of the map;
  - every entry of the map is a node.
- `Valid` adds `size` (the node count), at least 10 buckets, and a load below
  0.7.
- Every public method is proved against `Contents`: what it returns and what
  the map is afterwards.

`HashingProblems` holds three exercises: `twoSums`, `odd` and `getAverage`.
They are modelled in `hashing_problems.dfy` as loops over Dafny `set`, `map`
and `seq`, with the same branches as the Java loops.

`java_int.dfy` holds the Java `int` arithmetic these need:
- the sign-bit mask, written bit by bit;
- the truncating remainder `%`;
- 32-bit wrap-around of `+` and `-`.

The code resizes on the seventh insertion into a fresh table: 7/10 is above
the `float` `0.7f` (about 0.69999999). `SeventhPutResizes` proves it.

## Model

| member | source | states |
|---|---|---|
| JavaInt.ClearSignBit | myHashMap.java:140 | `h & 0x7fffffff`, computed bit by bit on the two's-complement bits of `h`, is `h` mod 2^31 (so it is below 2^31 and non-negative) |
| JavaInt.BitAndLowMask | myHashMap.java:140 | AND with a mask of the `p` low bits keeps exactly the value mod 2^p |
| JavaInt.UnsignedMod | myHashMap.java:140 | reading the 32 bits as unsigned does not change the value mod 2^31 |
| JavaInt.JavaRem | HashingProblems.java:77 | Java's `%`: `a == b*q + r` with `r` smaller in magnitude than `b` and the sign of `r` following the dividend |
| JavaInt.JavaRemTwoOdd | HashingProblems.java:77 | `key % 2 != 0` holds exactly for odd keys, negative ones included (for them Java's remainder is -1) |
| JavaInt.Wrap | HashingProblems.java:127-131 | Java `int` `+`/`-` wrap into 32 bits; a result that fits is unchanged |
| JavaInt.WrapCongruent | HashingProblems.java:127-131 | the wrapped result agrees with the exact one mod 2^32 |
| HashMaps.BucketIndex | myHashMap.java:139-141 | the bucket index is below `numBuckets` and equals `(h mod 2^31) mod numBuckets` |
| HashMaps.MyHashMap.GetBucketIndex | myHashMap.java:139-141 | the key's bucket in the current table is below `numBuckets` and is its hash code mod 2^31 mod `numBuckets` |
| HashMaps.MyHashMap.constructor | myHashMap.java:116-120 | a new table is valid and empty, with 10 empty buckets |
| HashMaps.MyHashMap.Size | myHashMap.java:122-124 | the returned count is the number of entries of the map |
| HashMaps.MyHashMap.IsEmpty | myHashMap.java:126-128 | true exactly when the map is empty |
| HashMaps.MyHashMap.Clear | myHashMap.java:130-137 | afterwards the table is valid and empty, with a new array of 10 empty buckets |
| HashMaps.MyHashMap.EmptyBuckets | myHashMap.java:133-136 | a new bucket array of `n` empty chains, standing for the empty map |
| HashMaps.MyHashMap.Get | myHashMap.java:143-153 | the key's value if the map holds the key, none otherwise |
| HashMaps.ChainWalk | myHashMap.java:146-152 | walking the key's chain: a node with the key carries the key's value; reaching the end means the key is absent |
| HashMaps.MyHashMap.Remove | myHashMap.java:159-178 | removes the key's entry and returns its old value; `size` drops by one exactly when the key was present; an absent key changes nothing |
| HashMaps.MyHashMap.UnlinkNode | myHashMap.java:165-171 | the chain becomes the old chain with node `j` spliced out (relinking its predecessor, or the bucket head when it is first); the map loses exactly that key; `size` drops by one; the invariant is kept |
| HashMaps.UnlinkPreserves | myHashMap.java:165-171 | splicing a node out of its chain represents the map without that node's key |
| HashMaps.MyHashMap.RemoveIfMapped | myHashMap.java:185-192 | removes the entry and returns true exactly when the key is mapped to the given value; otherwise nothing changes |
| HashMaps.MyHashMap.Replace | myHashMap.java:199-212 | a present key gets the new value and its old value is returned; an absent key changes nothing and gives none; size and buckets are kept |
| HashMaps.MyHashMap.SetValue | myHashMap.java:204-206 | the chain changes only at node `j`, whose value is overwritten; the map changes that key's value and nothing else |
| HashMaps.OverwritePreserves | myHashMap.java:204-206 | a chain with one node's value overwritten represents the map with that key's value updated |
| HashMaps.MyHashMap.ReplaceIfMapped | myHashMap.java:219-231 | replaces and returns true exactly when the key is mapped to the old value; otherwise nothing changes |
| HashMaps.MyHashMap.AddNode | myHashMap.java:240-263 | a key the map lacks becomes a new node at the head of its bucket's chain, and no other chain changes; the map gains that entry and `size` grows by one |
| HashMaps.PrependPreserves | myHashMap.java:258-262 | prepending a node with a fresh key represents the map extended by that entry |
| HashMaps.MyHashMap.Put | myHashMap.java:233-285 | returns the old value if any; the map maps the key to the new value; the table stays valid; the bucket count doubles exactly when a new key brings the load to 0.7 or more |
| HashMaps.MyHashMap.Rehash | myHashMap.java:266-282 | twice the buckets, the same map, the same size, and a load below 0.7 |
| HashMaps.MyHashMap.ReinsertAll | myHashMap.java:276-281 | putting every old chain again, bucket by bucket, into the empty new table rebuilds exactly the old map |
| HashMaps.MyHashMap.ReinsertChain | myHashMap.java:277-280 | putting one old chain again keeps the new table sound and below the load limit, so no nested resize happens |
| HashMaps.MyHashMap.ReinsertNode | myHashMap.java:278 | the nested `put` of one old node adds a key the new table lacks |
| HashMaps.ReinsertStep | myHashMap.java:276-281 | the next old node's key is not yet in the new table, and putting it advances the scan by one node |
| HashMaps.RehashNextBucket | myHashMap.java:276-281 | finishing an old chain is the same as starting the next bucket |
| HashMaps.RehashDone | myHashMap.java:276-281 | once every old chain is scanned, the new table holds exactly the old map |
| HashMaps.RehashedNoLarger | myHashMap.java:276-281 | mid-resize the new table never holds more entries than the old one |
| HashMaps.MyHashMap.PutIfAbsent | myHashMap.java:287-294 | an absent key is added and none is returned, and the bucket count doubles exactly when that brings the load to 0.7 or more; a present key keeps its value, which is returned, and the bucket array, its chains, the bucket count and `size` are untouched; the table stays valid |
| HashMaps.MyHashMap.ContainsValue | myHashMap.java:296-306 | true exactly when some key is mapped to the value |
| HashMaps.MyHashMap.ContainsKey | myHashMap.java:308-310 | true exactly when the map holds the key |
| HashMaps.MyHashMap.EntrySet | myHashMap.java:312-321 | the returned pairs are exactly the entries of the map |
| HashMaps.MyHashMap.KeySet | myHashMap.java:323-332 | the returned set is exactly the key set of the map |
| HashMaps.ScanStep | myHashMap.java:297-303 | visiting a node passes exactly its key, and that node is the key's entry |
| HashMaps.ScanNextBucket | myHashMap.java:297-304 | the end of a chain is the start of the next bucket |
| HashMaps.TotalUpdate | myHashMap.java:171 | replacing one chain changes the node count by the difference in that chain's length |
| HashMaps.TotalAllEmpty | myHashMap.java:117-119 | all-empty buckets hold no nodes |
| HashMaps.EmptyRepresents | myHashMap.java:117-119 | all-empty buckets stand for the empty map |
| HashMaps.SeventhPutResizes | myHashMap.java:266 | putting keys 1 to 7 into a fresh table of `Integer` keys leaves 20 buckets and key 1 still mapped to its value |
| HashingProblems.TwoSums | HashingProblems.java:120-139 | the count is what the one pass with the two probes adds up, between 0 and twice the length |
| HashingProblems.TwoSumsCountAppend | HashingProblems.java:124-136 | each element adds one per probe found among the elements before it |
| HashingProblems.TwoSumsCountBound | HashingProblems.java:124-138 | each element adds at most two |
| HashingProblems.TwoSumsCountsPairs | HashingProblems.java:91-102 | for distinct elements, nonzero `k` and in-range probes, the count is the number of index pairs whose difference is the absolute value of `k` |
| HashingProblems.LastElementPairs | HashingProblems.java:126-132 | the two probes of an element find exactly the earlier elements at distance the absolute value of `k` |
| HashingProblems.PairsWithProbes | HashingProblems.java:126-132 | among distinct elements, those at distance `d > 0` from `x` are `x - d` and `x + d`, each at most once |
| HashingProblems.ProbeFound | HashingProblems.java:127-131 | an in-range probe is found in the set exactly when its integer value occurs |
| HashingProblems.TwoSumsExample | HashingProblems.java:91-102 | `[1,4,5,7,8,9]` with `k = 4` gives 3 |
| HashingProblems.TwoSumsDocExample | HashingProblems.java:91-102 | the count of the example sequence is 3 |
| HashingProblems.TwoSumsDocPrefix | HashingProblems.java:97-99 | the first four elements of the example hold one pair |
| HashingProblems.TwoSumsDocStart | HashingProblems.java:91-99 | the first two elements of the example hold none |
| HashingProblems.WrappedProbeCountsFarPair | HashingProblems.java:127-131 | without the range condition, the 32-bit probe `2147483647 + 1` meets `-2147483648`, so a pair that differs by 2^32 - 1 is counted |
| HashingProblems.Odd | HashingProblems.java:68-82 | one value per odd key, negative odd keys included, in some order of the keys; each value occurs as often as the odd keys that carry it |
| HashingProblems.ValuesCount | HashingProblems.java:75-80 | listing each key once, each value occurs as often as the listed keys that carry it |
| HashingProblems.GetAverage | HashingProblems.java:40-58 | undefined exactly when no array key is in the map; otherwise the Java `int` sum (wrapped after each addition) and the count over the positions whose key is in the map |
| HashingProblems.KeyedCountPositions | HashingProblems.java:44-50 | the count is the number of array positions whose key is in the map, repeats included |
| HashingProblems.KeyedCountZero | HashingProblems.java:52-54 | the count is zero exactly when no array key is in the map |
| HashingProblems.JavaKeyedSumCongruent | HashingProblems.java:47 | Java's running `int` sum always equals the exact sum mod 2^32 |
| HashingProblems.JavaKeyedSumExact | HashingProblems.java:47 | when every summed value lies within `b` of zero and the array length times `b` fits in an `int`, Java's sum does not wrap and equals the exact sum |
| HashingProblems.JavaKeyedSumWraps | HashingProblems.java:47 | without that bound it wraps: two keys mapped to 2^31 - 1 give -2, not 2^32 - 2 |
| JavaInt.AddCongruent | HashingProblems.java:47 | adding the same value keeps two integers congruent mod 2^32 |
| HashingProblems.GetAverageExample | HashingProblems.java:29-37 | keys 1, 2, 7 and 8 against `{1: 10, 2: 20}` give the sum 30 over 2 keys, that is 15 |
| HashingProblems.GetAverageDocExample | HashingProblems.java:29-37 | the example's count is 2, and its sum is 30 both exactly and as a Java `int` |

## Left out

- The load check `(1.0 * size) / numBuckets > 0.7f` is modelled as `10 * size >= 7 * numBuckets`, with no floating point. The two agree while `numBuckets` is below about 8,000,000. Up to that size no ratio other than 7/10 itself falls between `0.7f` and 0.7.
- `getAverage`'s `(double) sum / count` and its `0.0 / 0.0` (NaN) are not modelled: floating point. `GetAverage` returns the integer sum and count, or `Undefined` where Java returns NaN.
- `hashCode` is the constant function `hash` given to the constructor, and `equals` is Dafny equality. User-defined `hashCode`/`equals` that disagree with each other are outside the model.
- Null keys and null values are not modelled: Dafny values are never null. The Java code treats "mapped to null" as absent in `get`, `containsKey`, `put`, `putIfAbsent` and `remove(K, V)`. Two code paths are reachable only with null values and are not modelled:
  - the match branch of `put`'s chain walk at myHashMap.java:251-254, which overwrites a null-valued node and still increments `size` without adding a node. With non-null values the walk at lines 250-257 finds no match and has no effect, which is how `AddNode` models it;
  - the null dereference `head.value.equals` at myHashMap.java:224 (and at line 299 in `containsValue`).
- The resize's nested `put` is modelled by `AddNode`. The `get` at its start always finds nothing, and the proved invariant `10 * size < 7 * numBuckets` shows its load check never fires.
- The list `tmp` of the old chains is read as the value it holds when the resize starts. Nothing writes to it afterwards.
- Chains are sequences of node values, not linked `HashNode` objects, so node identity and aliasing are not modelled. Relinking `prev.next` or the bucket head is a splice of the sequence. Overwriting `head.value` is an update at one position.
- The bucket `ArrayList` filled with `null` heads is an array of empty chains.
- Iteration order is not modelled. `entrySet` and `keySet` return sets. `odd` states its order only as some traversal of the key set.
- 32-bit overflow is not modelled for `size`, for `numBuckets` when doubled, for `twoSums`' `count` or for `getAverage`'s `count`: these are unbounded integers. The probes `num - k` and `num + k` of `twoSums` and `getAverage`'s `sum` do wrap.
- TwoSumsCountsPairs: holds only for distinct elements, a nonzero `k` and probes within 32 bits. `numSet` keeps a repeated value once, and a probe that overflows can meet a far element (`WrappedProbeCountsFarPair`).
- The header comment at myHashMap.java:47-54 describes `remove(K)` as a conditional removal and swaps the return types of the two `replace` overloads. The model follows the code at lines 159, 199 and 219.
