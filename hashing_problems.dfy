/** The three exercises of `HashingProblems`: each is one pass over its input
    that probes a `java.util` set or map, here a Dafny `set` or `map`. */
module HashingProblems {
  import opened JavaInt

  // ---------------------------------------------------------------------
  // twoSums: count the pairs whose difference is k
  // ---------------------------------------------------------------------

  /** What the one pass of `twoSums` adds up: for each element, one for the
      probe `num - k` and one for the probe `num + k` (both in 32-bit
      arithmetic) found among the elements before it. */
  function TwoSumsCount(s: seq<Int32>, k: Int32): nat
  {
    if s == [] then 0 else TwoSumsCount(s[..|s| - 1], k) + Probes(s[..|s| - 1], s[|s| - 1], k)
  }

  /** What the element `num` adds when the elements before it are `p`. */
  function Probes(p: seq<Int32>, num: Int32, k: Int32): (r: nat)
    ensures r <= 2
  {
    (if Wrap(num as int - k as int) in p then 1 else 0) + (if Wrap(num as int + k as int) in p then 1 else 0)
  }

  lemma TwoSumsCountAppend(p: seq<Int32>, num: Int32, k: Int32)
    ensures TwoSumsCount(p + [num], k) == TwoSumsCount(p, k) + Probes(p, num, k)
  {
    assert (p + [num])[..|p|] == p;
  }

  /** How many elements of `p` lie at distance exactly `d` from `x`. */
  function PairsWith(p: seq<Int32>, x: Int32, d: int): (r: nat)
    ensures r <= |p|
  {
    if p == [] then 0
    else PairsWith(p[..|p| - 1], x, d) + (if Abs(x as int - p[|p| - 1] as int) == d then 1 else 0)
  }

  /** The number of index pairs `j < i` with `|s[i] - s[j]| == d`: the count the
      exercise asks for. */
  function PairCount(s: seq<Int32>, d: int): nat
  {
    if s == [] then 0
    else PairCount(s[..|s| - 1], d) + PairsWith(s[..|s| - 1], s[|s| - 1], d)
  }

  predicate Distinct(s: seq<Int32>)
  {
    forall i, j | 0 <= i < j < |s| :: s[i] != s[j]
  }

  /** Neither probe of `x` leaves the 32-bit range. */
  predicate ProbesFit(x: Int32, k: Int32)
  {
    -0x8000_0000 <= x as int - k as int < 0x8000_0000 && -0x8000_0000 <= x as int + k as int < 0x8000_0000
  }

  predicate ProbesInRange(s: seq<Int32>, k: Int32)
  {
    forall i | 0 <= i < |s| :: ProbesFit(s[i], k)
  }

  method TwoSums(numbers: array<Int32>, k: Int32) returns (count: int)
    ensures count == TwoSumsCount(numbers[..], k)
    ensures 0 <= count <= 2 * numbers.Length
  {
    var numSet: set<Int32> := {};
    count := 0;
    for i := 0 to numbers.Length
      invariant forall x :: x in numSet <==> x in numbers[..i]
      invariant count == TwoSumsCount(numbers[..i], k)
    {
      var num := numbers[i];
      ghost var before := count;
      if Wrap(num as int - k as int) in numSet {
        count := count + 1;
      }
      if Wrap(num as int + k as int) in numSet {
        count := count + 1;
      }
      assert count == before + Probes(numbers[..i], num, k);
      TwoSumsCountAppend(numbers[..i], num, k);
      assert numbers[..i + 1] == numbers[..i] + [num];
      numSet := numSet + {num};
    }
    assert numbers[..] == numbers[..numbers.Length];
    TwoSumsCountBound(numbers[..], k);
  }

  /** Each element adds at most two. */
  lemma {:induction false} TwoSumsCountBound(s: seq<Int32>, k: Int32)
    ensures TwoSumsCount(s, k) <= 2 * |s|
  {
    if s != [] {
      TwoSumsCountBound(s[..|s| - 1], k);
    }
  }

  /** In distinct elements a value occurs at most once, so the elements at
      distance `d` from `x` are the probe `x - d` if present and the probe
      `x + d` if present. */
  lemma {:induction false} PairsWithProbes(p: seq<Int32>, x: Int32, d: int)
    requires Distinct(p) && d > 0
    ensures PairsWith(p, x, d) ==
      (if x as int - d in IntsOf(p) then 1 else 0) + (if x as int + d in IntsOf(p) then 1 else 0)
  {
    if p != [] {
      var q, y := p[..|p| - 1], p[|p| - 1];
      assert Distinct(q);
      PairsWithProbes(q, x, d);
      assert IntsOf(p) == IntsOf(q) + {y as int};
      forall j | 0 <= j < |q|
        ensures q[j] as int != y as int
      {
        assert q[j] == p[j];
      }
    }
  }

  /** The elements of `s` as mathematical integers. */
  function IntsOf(s: seq<Int32>): (r: set<int>)
    ensures forall j | 0 <= j < |s| :: s[j] as int in r
    ensures forall v | v in r :: exists j :: 0 <= j < |s| && s[j] as int == v
  {
    set j | 0 <= j < |s| :: s[j] as int
  }

  /** For distinct elements, a nonzero `k` and probes that stay in range,
      `twoSums` counts exactly the index pairs whose difference is `|k|`. */
  lemma {:induction false} TwoSumsCountsPairs(s: seq<Int32>, k: Int32)
    requires Distinct(s) && k != 0 && ProbesInRange(s, k)
    ensures TwoSumsCount(s, k) == PairCount(s, Abs(k as int))
  {
    if s != [] {
      var p, num := s[..|s| - 1], s[|s| - 1];
      assert Distinct(p) && ProbesInRange(p, k);
      TwoSumsCountsPairs(p, k);
      LastElementPairs(p, num, k);
    }
  }

  /** The two probes of the last element find exactly the earlier elements at
      distance `|k|` from it. */
  lemma LastElementPairs(p: seq<Int32>, num: Int32, k: Int32)
    requires Distinct(p) && k != 0 && ProbesFit(num, k)
    ensures Probes(p, num, k) == PairsWith(p, num, Abs(k as int))
  {
    PairsWithProbes(p, num, Abs(k as int));
    ProbeFound(p, num as int - k as int);
    ProbeFound(p, num as int + k as int);
  }

  /** Looking an in-range value up among the elements, as an `Int32` or as an
      integer, gives the same answer. */
  lemma ProbeFound(p: seq<Int32>, v: int)
    requires -0x8000_0000 <= v < 0x8000_0000
    ensures Wrap(v) in p <==> v in IntsOf(p)
  {
    if v in IntsOf(p) {
      var j :| 0 <= j < |p| && p[j] as int == v;
      assert p[j] == Wrap(v);
    }
  }

  /** The doc comment's example: in [1, 4, 5, 7, 8, 9] the difference 4
      occurs three times (5-1, 8-4, 9-5). */
  method TwoSumsExample() returns (count: int)
    ensures count == 3
  {
    var numbers := new Int32[6] [1, 4, 5, 7, 8, 9];
    count := TwoSums(numbers, 4);
    assert numbers[..] == [1, 4, 5, 7, 8, 9];
    TwoSumsDocExample();
  }

  lemma TwoSumsDocExample()
    ensures TwoSumsCount([1, 4, 5, 7, 8, 9], 4) == 3
  {
    TwoSumsDocPrefix();
    assert Wrap(4) == 4 && Wrap(12) == 12 && Probes([1, 4, 5, 7], 8, 4) == 1;
    TwoSumsCountAppend([1, 4, 5, 7], 8, 4);
    assert [1, 4, 5, 7] + [8 as Int32] == [1, 4, 5, 7, 8];
    assert Wrap(5) == 5 && Wrap(13) == 13 && Probes([1, 4, 5, 7, 8], 9, 4) == 1;
    TwoSumsCountAppend([1, 4, 5, 7, 8], 9, 4);
    assert [1, 4, 5, 7, 8] + [9 as Int32] == [1, 4, 5, 7, 8, 9];
  }

  /** The first four elements of the example hold one pair (5-1). */
  lemma TwoSumsDocPrefix()
    ensures TwoSumsCount([1, 4, 5, 7], 4) == 1
  {
    TwoSumsDocStart();
    assert Wrap(1) == 1 && Wrap(9) == 9 && Probes([1, 4], 5, 4) == 1;
    TwoSumsCountAppend([1, 4], 5, 4);
    assert [1, 4] + [5 as Int32] == [1, 4, 5];
    assert Wrap(3) == 3 && Wrap(11) == 11 && Probes([1, 4, 5], 7, 4) == 0;
    TwoSumsCountAppend([1, 4, 5], 7, 4);
    assert [1, 4, 5] + [7 as Int32] == [1, 4, 5, 7];
  }

  lemma TwoSumsDocStart()
    ensures TwoSumsCount([1, 4], 4) == 0
  {
    assert [1] == [] + [1 as Int32];
    TwoSumsCountAppend([], 1, 4);
    assert Wrap(0) == 0 && Wrap(8) == 8 && Probes([1], 4, 4) == 0;
    TwoSumsCountAppend([1], 4, 4);
    assert [1] + [4 as Int32] == [1, 4];
  }

  /** Without the range condition the 32-bit probes can meet a far element:
      `2147483647 + 1` wraps to `-2147483648`, so the pair below is counted
      although its elements differ by 2^32 - 1. */
  lemma WrappedProbeCountsFarPair()
    ensures TwoSumsCount([-0x8000_0000, 0x7fff_ffff], 1) == 1
    ensures PairCount([-0x8000_0000, 0x7fff_ffff], 1) == 0
  {
    var s: seq<Int32> := [-0x8000_0000, 0x7fff_ffff];
    assert s[..1] == [-0x8000_0000] && s[..1][..0] == [];
    assert Wrap(0x7fff_ffff + 1) == -0x8000_0000;
  }

  // ---------------------------------------------------------------------
  // odd: the values of the odd keys
  // ---------------------------------------------------------------------

  /** Java's `key % 2 != 0`. */
  predicate IsOddKey(key: Int32)
  {
    JavaRem(key as int, 2) != 0
  }

  /** The odd keys of `m` that carry the value `v`. */
  ghost function OddKeysWith(m: map<Int32, string>, v: string): set<Int32>
  {
    set k | k in m && IsOddKey(k) && m[k] == v
  }

  /** `order` is the sequence in which the key set happened to be traversed
      and the odd keys met; `java.util.HashMap` fixes no such order. */
  method Odd(m: map<Int32, string>) returns (result: seq<string>, ghost order: seq<Int32>)
    ensures |result| == |order|
    ensures forall i | 0 <= i < |order| :: order[i] in m && result[i] == m[order[i]]
    ensures forall i, j | 0 <= i < j < |order| :: order[i] != order[j]
    ensures forall k :: k in order <==> k in m && k % 2 == 1
    ensures forall v :: multiset(result)[v] == |OddKeysWith(m, v)|
  {
    var keys := m.Keys;
    result := [];
    order := [];
    while keys != {}
      invariant keys <= m.Keys
      invariant forall k :: k in order <==> k in m && k !in keys && IsOddKey(k)
      invariant forall i, j | 0 <= i < j < |order| :: order[i] != order[j]
      invariant |result| == |order|
      invariant forall i | 0 <= i < |order| :: order[i] in m && result[i] == m[order[i]]
      decreases |keys|
    {
      var key :| key in keys;
      if JavaRem(key as int, 2) != 0 {
        result := result + [m[key]];
        order := order + [key];
      }
      keys := keys - {key};
    }
    forall k
      ensures k in order <==> k in m && k % 2 == 1
    {
      JavaRemTwoOdd(k as int);
    }
    forall v
      ensures multiset(result)[v] == |OddKeysWith(m, v)|
    {
      ValuesCount(m, order, result, v);
      assert KeysWith(m, order, v) == OddKeysWith(m, v);
    }
  }

  /** The keys listed in `order` whose value in `m` is `v`. */
  ghost function KeysWith(m: map<Int32, string>, order: seq<Int32>, v: string): set<Int32>
  {
    set k | k in order && k in m && m[k] == v
  }

  /** Listing each key once, the values of the listed keys occur as often as
      the keys that carry them. */
  lemma {:induction false} ValuesCount(m: map<Int32, string>, order: seq<Int32>, result: seq<string>, v: string)
    requires |result| == |order|
    requires forall i | 0 <= i < |order| :: order[i] in m && result[i] == m[order[i]]
    requires forall i, j | 0 <= i < j < |order| :: order[i] != order[j]
    ensures multiset(result)[v] == |KeysWith(m, order, v)|
  {
    if order != [] {
      var n := |order| - 1;
      var o, r := order[..n], result[..n];
      ValuesCount(m, o, r, v);
      assert result == r + [result[n]];
      assert order[n] !in o;
      if result[n] == v {
        assert KeysWith(m, order, v) == KeysWith(m, o, v) + {order[n]};
      } else {
        assert KeysWith(m, order, v) == KeysWith(m, o, v);
      }
    }
  }

  // ---------------------------------------------------------------------
  // getAverage: the integer part, a sum and a count
  // ---------------------------------------------------------------------

  /** The outcome of `getAverage` before its final division: no common key
      (where Java returns NaN), or the Java `int` sum and the count to divide. */
  datatype Average = Undefined | Ratio(sum: Int32, count: nat)

  /** The number of positions of `s` whose key is in `m`, repeats included. */
  function KeyedCount(s: seq<Int32>, m: map<Int32, Int32>): nat
  {
    if s == [] then 0 else KeyedCount(s[..|s| - 1], m) + (if s[|s| - 1] in m then 1 else 0)
  }

  /** The exact sum of `m[s[i]]` over the positions of `s` whose key is in `m`. */
  function KeyedSum(s: seq<Int32>, m: map<Int32, Int32>): int
  {
    if s == [] then 0 else KeyedSum(s[..|s| - 1], m) + (if s[|s| - 1] in m then m[s[|s| - 1]] as int else 0)
  }

  /** The same sum as Java's `int sum += ...` accumulates it: wrapped into 32
      bits after every addition. */
  function JavaKeyedSum(s: seq<Int32>, m: map<Int32, Int32>): Int32
  {
    if s == [] then 0
    else if s[|s| - 1] in m then Wrap(JavaKeyedSum(s[..|s| - 1], m) as int + m[s[|s| - 1]] as int)
    else JavaKeyedSum(s[..|s| - 1], m)
  }

  method GetAverage(m: map<Int32, Int32>, a: array<Int32>) returns (r: Average)
    ensures r == if KeyedCount(a[..], m) == 0 then Undefined else Ratio(JavaKeyedSum(a[..], m), KeyedCount(a[..], m))
    ensures r.Undefined? <==> forall i | 0 <= i < a.Length :: a[i] !in m
  {
    var sum: Int32 := 0;
    var count := 0;
    for i := 0 to a.Length
      invariant sum == JavaKeyedSum(a[..i], m) && count == KeyedCount(a[..i], m)
    {
      var key := a[i];
      assert a[..i + 1][..i] == a[..i];
      if key in m {
        sum := Wrap(sum as int + m[key] as int);
        count := count + 1;
      }
    }
    assert a[..] == a[..a.Length];
    KeyedCountZero(a[..], m);
    if count == 0 {
      return Undefined;
    } else {
      return Ratio(sum, count);
    }
  }

  /** Java's running sum always agrees with the exact sum modulo 2^32. */
  lemma {:induction false} JavaKeyedSumCongruent(s: seq<Int32>, m: map<Int32, Int32>)
    ensures (JavaKeyedSum(s, m) as int) % 0x1_0000_0000 == KeyedSum(s, m) % 0x1_0000_0000
  {
    if s != [] {
      var p, key := s[..|s| - 1], s[|s| - 1];
      JavaKeyedSumCongruent(p, m);
      if key in m {
        var x := JavaKeyedSum(p, m) as int + m[key] as int;
        WrapCongruent(x);
        AddCongruent(JavaKeyedSum(p, m) as int, KeyedSum(p, m), m[key] as int);
      }
    }
  }

  /** Java's sum does not wrap when every summed value lies within `b` of zero
      and `|s| * b` fits in a Java `int`: then it is the exact sum. */
  lemma {:induction false} JavaKeyedSumExact(s: seq<Int32>, m: map<Int32, Int32>, b: nat)
    requires |s| * b < 0x8000_0000
    requires forall i | 0 <= i < |s| && s[i] in m :: -(b as int) <= m[s[i]] as int <= b
    ensures JavaKeyedSum(s, m) as int == KeyedSum(s, m)
    ensures -(|s| * b) <= KeyedSum(s, m) <= |s| * b
  {
    if s != [] {
      var n := |s| - 1;
      assert n * b == |s| * b - b;
      assert forall i | 0 <= i < n :: s[..n][i] == s[i];
      JavaKeyedSumExact(s[..n], m, b);
    }
  }

  /** Without that bound the Java sum wraps: two keys mapped to 2^31 - 1 sum
      to -2 instead of 2^32 - 2. */
  lemma JavaKeyedSumWraps()
    ensures JavaKeyedSum([1, 1], map[1 := 0x7fff_ffff]) == -2
    ensures KeyedSum([1, 1], map[1 := 0x7fff_ffff]) == 0xffff_fffe
  {
    var m: map<Int32, Int32> := map[1 := 0x7fff_ffff];
    var s: seq<Int32> := [1, 1];
    assert s[..1] == [1] && s[..1][..0] == [];
    assert JavaKeyedSum([1], m) == 0x7fff_ffff;
    WrapFacts(0xffff_fffe);
  }

  /** The count is the number of positions whose key the map holds. */
  lemma {:induction false} KeyedCountPositions(s: seq<Int32>, m: map<Int32, Int32>)
    ensures KeyedCount(s, m) == |set i | 0 <= i < |s| && s[i] in m|
  {
    if s != [] {
      var n := |s| - 1;
      KeyedCountPositions(s[..n], m);
      var before := set i | 0 <= i < n && s[..n][i] in m;
      var after := set i | 0 <= i < |s| && s[i] in m;
      if s[n] in m {
        assert after == before + {n};
      } else {
        assert after == before;
      }
    }
  }

  /** No common key exactly when the count is zero. */
  lemma {:induction false} KeyedCountZero(s: seq<Int32>, m: map<Int32, Int32>)
    ensures KeyedCount(s, m) == 0 <==> forall i | 0 <= i < |s| :: s[i] !in m
  {
    if s != [] {
      var n := |s| - 1;
      KeyedCountZero(s[..n], m);
      assert forall i | 0 <= i < n :: s[..n][i] == s[i];
    }
  }

  /** The doc comment's example: keys 1, 2, 7 and 8 against {1: 10, 2: 20}
      give (10 + 20) / 2 = 15. */
  method GetAverageExample() returns (r: Average)
    ensures r == Ratio(30, 2) && r.sum as int / r.count == 15
  {
    var a := new Int32[4] [1, 2, 7, 8];
    r := GetAverage(map[1 := 10, 2 := 20], a);
    assert a[..] == [1, 2, 7, 8];
    GetAverageDocExample();
  }

  lemma GetAverageDocExample()
    ensures KeyedCount([1, 2, 7, 8], map[1 := 10, 2 := 20]) == 2
    ensures KeyedSum([1, 2, 7, 8], map[1 := 10, 2 := 20]) == 30
    ensures JavaKeyedSum([1, 2, 7, 8], map[1 := 10, 2 := 20]) == 30
  {
    var m: map<Int32, Int32> := map[1 := 10, 2 := 20];
    var s: seq<Int32> := [1, 2, 7, 8];
    assert s[..3] == [1, 2, 7] && s[..3][..2] == [1, 2];
    assert s[..3][..2][..1] == [1] && s[..3][..2][..1][..0] == [];
    assert KeyedCount([1], m) == 1 && KeyedSum([1], m) == 10;
    assert KeyedCount([1, 2], m) == 2 && KeyedSum([1, 2], m) == 30;
    assert KeyedCount([1, 2, 7], m) == 2 && KeyedSum([1, 2, 7], m) == 30;
    JavaKeyedSumExact(s, m, 20);
  }
}
