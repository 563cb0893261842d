/** The array and object helpers of src/utils/helpers.js: `chunk`, `unique`,
    `groupBy`, `isObject` and `deepMerge` (`deepClone` is
    `JsonTree.DeepClone`). */
module Helpers {
  import opened JsonTree

  // ---------------------------------------------------------------------------
  // chunk
  // ---------------------------------------------------------------------------

  /** The chunks laid end to end. */
  function Flatten<T>(chunks: seq<seq<T>>): seq<T> {
    if |chunks| == 0 then [] else chunks[0] + Flatten(chunks[1..])
  }

  /** Every chunk has `size` elements except the last, which has 1 to `size`. */
  predicate WellChunked<T>(chunks: seq<seq<T>>, size: nat) {
    (forall i :: 0 <= i < |chunks| - 1 ==> |chunks[i]| == size)
    && (|chunks| > 0 ==> 1 <= |chunks[|chunks| - 1]| <= size)
  }

  /** `chunk(array, size)`: `array.slice(i, i + size)` for `i = 0, size, 2*size,
      ...` below the length. The loop only ends for `size >= 1`. */
  function Chunk<T>(xs: seq<T>, size: nat): (chunks: seq<seq<T>>)
    requires size >= 1
    ensures WellChunked(chunks, size)
    ensures |xs| == 0 <==> |chunks| == 0
    decreases |xs|
  {
    if |xs| == 0 then []
    else if |xs| <= size then [xs]
    else
      var rest := Chunk(xs[size..], size);
      [xs[..size]] + rest
  }

  /** Concatenating the chunks gives back the array. */
  lemma {:induction false} ChunkFlatten<T>(xs: seq<T>, size: nat)
    requires size >= 1
    ensures Flatten(Chunk(xs, size)) == xs
    decreases |xs|
  {
    if |xs| > size {
      ChunkFlatten(xs[size..], size);
      assert xs == xs[..size] + xs[size..];
    } else if |xs| > 0 {
      assert Flatten([xs]) == xs + Flatten<T>([]);
    }
  }

  /** The number of chunks is the length divided by `size`, rounded up:
      the smallest count whose chunks can hold every element. */
  lemma {:induction false} ChunkCount<T>(xs: seq<T>, size: nat)
    requires size >= 1
    ensures |Chunk(xs, size)| * size >= |xs|
    ensures |xs| > 0 ==> (|Chunk(xs, size)| - 1) * size < |xs|
    decreases |xs|
  {
    if |xs| > size {
      var rest := Chunk(xs[size..], size);
      ChunkCount(xs[size..], size);
      var c := |rest|;
      assert |Chunk(xs, size)| == c + 1;
      MulStep(c, size);
    }
  }

  lemma MulStep(c: int, size: int)
    ensures (c + 1) * size == c * size + size
    ensures (c + 1 - 1) * size == c * size
  {
  }

  /** `chunk([1,2,3,4,5], 2)` is `[[1,2],[3,4],[5]]`. */
  lemma ChunkExample(xs: seq<int>)
    requires xs == [1, 2, 3, 4, 5]
    ensures Chunk(xs, 2) == [[1, 2], [3, 4], [5]]
  {
    assert xs[2..][2..] == [5];
    assert Chunk(xs[2..][2..], 2) == [[5]];
    assert xs[2..][..2] == [3, 4];
    assert Chunk(xs[2..], 2) == [[3, 4], [5]];
    assert xs[..2] == [1, 2];
  }

  // ---------------------------------------------------------------------------
  // unique
  // ---------------------------------------------------------------------------

  predicate Distinct<T(==)>(s: seq<T>) {
    forall i, j :: 0 <= i < j < |s| ==> s[i] != s[j]
  }

  /** Adding an element that is not there yet, at either end, keeps a
      sequence free of duplicates; so does dropping its first element. */
  lemma DistinctCons<T>(x: T, s: seq<T>)
    requires Distinct(s) && x !in s
    ensures Distinct([x] + s) && Distinct(s + [x])
  {
    assert forall i :: 0 <= i < |s| ==> ([x] + s)[i + 1] == s[i] && (s + [x])[i] == s[i];
  }

  lemma DistinctTail<T>(s: seq<T>)
    requires Distinct(s) && |s| > 0
    ensures Distinct(s[1..]) && s[0] !in s[1..]
  {
    assert forall j :: 0 <= j < |s| - 1 ==> s[1..][j] == s[j + 1];
  }

  /** The index of the first occurrence of `x`. */
  function FirstAt<T(==)>(s: seq<T>, x: T): (k: nat)
    requires x in s
    ensures k < |s| && s[k] == x && x !in s[..k]
  {
    if s[0] == x then 0 else 1 + FirstAt(s[1..], x)
  }

  /** `[...new Set(array)]`: each value once, at its first occurrence. */
  function Unique<T(==, !new)>(xs: seq<T>): (r: seq<T>)
    ensures Distinct(r)
    ensures forall x :: x in r <==> x in xs
    decreases |xs|
  {
    if |xs| == 0 then []
    else
      var n := |xs| - 1;
      var prior := Unique(xs[..n]);
      if xs[n] in xs[..n] then prior else prior + [xs[n]]
  }

  /** The values come out in the order of their first occurrences. */
  lemma {:induction false} UniqueKeepsFirstOrder<T(!new)>(xs: seq<T>)
    ensures forall i, j :: 0 <= i < j < |Unique(xs)| ==>
              FirstAt(xs, Unique(xs)[i]) < FirstAt(xs, Unique(xs)[j])
    decreases |xs|
  {
    if |xs| > 0 {
      var n := |xs| - 1;
      var init := xs[..n];
      UniqueKeepsFirstOrder(init);
      var r := Unique(xs);
      var prior := Unique(init);
      forall x | x in init
        ensures FirstAt(xs, x) == FirstAt(init, x)
      {
        FirstAtPrefix(xs, n, x);
      }
      if xs[n] !in init {
        assert FirstAt(xs, xs[n]) == n by {
          FirstAtLast(xs);
        }
      }
    }
  }

  lemma {:induction false} FirstAtPrefix<T>(s: seq<T>, n: nat, x: T)
    requires n <= |s| && x in s[..n]
    ensures FirstAt(s, x) == FirstAt(s[..n], x)
  {
    var k := FirstAt(s[..n], x);
    assert s[..n][..k] == s[..k];
  }

  lemma FirstAtLast<T>(s: seq<T>)
    requires |s| > 0 && s[|s| - 1] !in s[..|s| - 1]
    ensures FirstAt(s, s[|s| - 1]) == |s| - 1
  {
  }

  /** An array without duplicates is returned unchanged, so `unique` is
      idempotent. */
  lemma {:induction false} UniqueOfDistinct<T(!new)>(xs: seq<T>)
    requires Distinct(xs)
    ensures Unique(xs) == xs
    decreases |xs|
  {
    if |xs| > 0 {
      var n := |xs| - 1;
      UniqueOfDistinct(xs[..n]);
      assert xs[n] !in xs[..n];
      assert xs[..n] + [xs[n]] == xs;
    }
  }

  // ---------------------------------------------------------------------------
  // groupBy
  // ---------------------------------------------------------------------------

  /** The items whose key is `k`, in input order. */
  function WithKey<T(!new)>(xs: seq<T>, key: T -> string, k: string): (r: seq<T>)
    ensures forall x :: x in r ==> x in xs && key(x) == k
    decreases |xs|
  {
    if |xs| == 0 then []
    else
      var n := |xs| - 1;
      WithKey(xs[..n], key, k) + (if key(xs[n]) == k then [xs[n]] else [])
  }

  /** `groupBy(array, key)`: for each item, in order, push it onto the group
      of its key. The key is a function of the item; a property name is the
      function that reads that property. */
  function GroupBy<T(!new)>(xs: seq<T>, key: T -> string): (groups: map<string, seq<T>>)
    ensures forall k :: k in groups <==> KeyOccurs(xs, key, k)
    ensures forall k :: k in groups ==> groups[k] == WithKey(xs, key, k)
    decreases |xs|
  {
    if |xs| == 0 then map[]
    else
      var n := |xs| - 1;
      var prior := GroupBy(xs[..n], key);
      var k := key(xs[n]);
      assert xs == xs[..n] + [xs[n]];
      GroupByStep(xs[..n], xs[n], key);
      var group := if k in prior then prior[k] else [];
      prior[k := group + [xs[n]]]
  }

  /** Some item has key `k`. */
  predicate KeyOccurs<T>(xs: seq<T>, key: T -> string, k: string) {
    exists i :: 0 <= i < |xs| && key(xs[i]) == k
  }

  /** What one more item changes: its key now occurs, and a key that did not
      occur before had no items. */
  lemma GroupByStep<T(!new)>(init: seq<T>, last: T, key: T -> string)
    ensures forall k :: KeyOccurs(init + [last], key, k) <==> KeyOccurs(init, key, k) || key(last) == k
    ensures forall k :: !KeyOccurs(init, key, k) ==> WithKey(init, key, k) == []
  {
    var xs := init + [last];
    forall k | KeyOccurs(xs, key, k) && key(last) != k
      ensures KeyOccurs(init, key, k)
    {
      var i :| 0 <= i < |xs| && key(xs[i]) == k;
      assert xs[i] == init[i];
    }
    forall k | KeyOccurs(init, key, k)
      ensures KeyOccurs(xs, key, k)
    {
      var i :| 0 <= i < |init| && key(init[i]) == k;
      assert xs[i] == init[i];
    }
    assert xs[|init|] == last;
    forall k ensures !KeyOccurs(init, key, k) ==> WithKey(init, key, k) == [] {
      WithKeyOccurs(init, key, k);
    }
  }

  lemma WithKeyOccurs<T(!new)>(xs: seq<T>, key: T -> string, k: string)
    ensures WithKey(xs, key, k) != [] ==> KeyOccurs(xs, key, k)
  {
    if WithKey(xs, key, k) != [] {
      var x := WithKey(xs, key, k)[0];
      assert x in WithKey(xs, key, k);
      assert x in xs && key(x) == k;
      var i :| 0 <= i < |xs| && xs[i] == x;
    }
  }

  /** Every item sits in the group of its key, as often as it occurs, and in
      no other group. */
  lemma {:induction false} GroupByPartition<T(!new)>(xs: seq<T>, key: T -> string, x: T)
    requires x in xs
    ensures key(x) in GroupBy(xs, key)
    ensures multiset(GroupBy(xs, key)[key(x)])[x] == multiset(xs)[x]
    ensures forall k :: k in GroupBy(xs, key) && k != key(x) ==> x !in GroupBy(xs, key)[k]
  {
    var i :| 0 <= i < |xs| && xs[i] == x;
    WithKeyCount(xs, key, x);
  }

  /** Items come in strictly increasing rank. */
  predicate Ranked<T>(xs: seq<T>, rank: T -> int) {
    forall a, b :: 0 <= a < b < |xs| ==> rank(xs[a]) < rank(xs[b])
  }

  /** Each group keeps input order: any ranking the input follows, the group
      follows too. */
  lemma {:induction false} WithKeyOrdered<T(!new)>(xs: seq<T>, key: T -> string, k: string, rank: T -> int)
    requires Ranked(xs, rank)
    ensures Ranked(WithKey(xs, key, k), rank)
    decreases |xs|
  {
    if |xs| > 0 {
      var n := |xs| - 1;
      WithKeyOrdered(xs[..n], key, k, rank);
      var prior := WithKey(xs[..n], key, k);
      forall a | 0 <= a < |prior| ensures rank(prior[a]) < rank(xs[n]) {
        assert prior[a] in xs[..n];
        var j :| 0 <= j < n && xs[..n][j] == prior[a];
        assert xs[j] == prior[a];
      }
      var g := WithKey(xs, key, k);
      assert g == prior + (if key(xs[n]) == k then [xs[n]] else []);
      forall a, b | 0 <= a < b < |g| ensures rank(g[a]) < rank(g[b]) {
        if b < |prior| {
          assert g[a] == prior[a] && g[b] == prior[b];
          assert Ranked(prior, rank);
        } else {
          assert g[a] == prior[a] && g[b] == xs[n];
        }
      }
    }
  }

  lemma {:induction false} WithKeyCount<T(!new)>(xs: seq<T>, key: T -> string, x: T)
    ensures multiset(WithKey(xs, key, key(x)))[x] == multiset(xs)[x]
    decreases |xs|
  {
    if |xs| > 0 {
      var n := |xs| - 1;
      WithKeyCount(xs[..n], key, x);
      assert xs[..n] + [xs[n]] == xs;
    }
  }

  /** A record with a name and a numeric `type`, as in the documented
      example. */
  datatype Tagged = Tagged(name: string, kind: int)

  /** `groupBy([{name:'A', type:1}, {name:'B', type:1}], 'type')` is
      `{'1': [both]}`. */
  lemma GroupByExample(xs: seq<Tagged>, key: Tagged -> string)
    requires xs == [Tagged("A", 1), Tagged("B", 1)]
    requires forall t :: key(t) == (if t.kind == 1 then "1" else "other")
    ensures GroupBy(xs, key) == map["1" := xs]
  {
    var first := GroupBy(xs[..1], key);
    assert key(xs[0]) == "1" && key(xs[1]) == "1";
    assert xs[..1][..0] == [];
    assert |xs[..1]| == 1 && xs[..1][0] == xs[0];
    assert first == map["1" := [xs[0]]];
    assert [xs[0]] + [xs[1]] == xs;
  }

  // ---------------------------------------------------------------------------
  // isObject and deepMerge
  // ---------------------------------------------------------------------------

  /** `isObject(item)`: truthy, `typeof 'object'` and not an array. */
  predicate IsObject(item: Json)
    ensures IsObject(item) <==> item.JObj?
  {
    Truthy(item) && TypeOf(item) == "object" && !item.JArr?
  }

  /** The merge of one source into one target. Only object into object does
      anything; then each source key is handled by `MergeField` and the other
      target keys stay as they are. */
  function MergeInto(target: Json, source: Json): (r: Json)
    ensures !(IsObject(target) && IsObject(source)) ==> r == target
    ensures IsObject(target) && IsObject(source) ==>
              r.JObj? && r.fields.Keys == target.fields.Keys + source.fields.Keys
              && (forall k :: k in target.fields && k !in source.fields ==> r.fields[k] == target.fields[k])
              && (forall k :: k in source.fields && !IsObject(source.fields[k]) ==> r.fields[k] == source.fields[k])
    decreases source, 0
  {
    if IsObject(target) && IsObject(source) then
      JObj(map k | k in target.fields.Keys + source.fields.Keys ::
             if k in source.fields then MergeField(target.fields, k, source.fields[k])
             else target.fields[k])
    else target
  }

  /** One key of `deepMerge`'s loop: an object value merges into the target's
      value, which becomes `{}` first when it is falsy; any other value
      overwrites. */
  function MergeField(fields: map<string, Json>, k: string, value: Json): (r: Json)
    ensures !IsObject(value) ==> r == value
    ensures IsObject(value) && k in fields && Truthy(fields[k]) && !IsObject(fields[k]) ==> r == fields[k]
    ensures IsObject(value) ==> Truthy(r)
    decreases value, 1
  {
    if IsObject(value) then
      var current := if k in fields && Truthy(fields[k]) then fields[k] else JObj(map[]);
      MergeInto(current, value)
    else value
  }

  /** `deepMerge(target, ...sources)`: the sources merged in from left to
      right. */
  function DeepMerge(target: Json, sources: seq<Json>): (r: Json)
    ensures |sources| == 0 ==> r == target
    ensures !IsObject(target) ==> r == target
    decreases |sources|
  {
    if |sources| == 0 then target
    else DeepMerge(MergeInto(target, sources[0]), sources[1..])
  }

  /** Merging a list of sources is merging its parts one after another. */
  lemma {:induction false} DeepMergeSplit(target: Json, a: seq<Json>, b: seq<Json>)
    ensures DeepMerge(target, a + b) == DeepMerge(DeepMerge(target, a), b)
    decreases |a|
  {
    if |a| > 0 {
      assert (a + b)[1..] == a[1..] + b;
      DeepMergeSplit(MergeInto(target, a[0]), a[1..], b);
    } else {
      assert a + b == b;
    }
  }

  /** Merging the same source twice is merging it once. */
  lemma {:induction false} MergeIdempotent(target: Json, source: Json)
    ensures MergeInto(MergeInto(target, source), source) == MergeInto(target, source)
    decreases source
  {
    if IsObject(target) && IsObject(source) {
      var once := MergeInto(target, source);
      var twice := MergeInto(once, source);
      forall k | k in source.fields
        ensures twice.fields[k] == once.fields[k]
      {
        var v := source.fields[k];
        assert once.fields[k] == MergeField(target.fields, k, v);
        assert twice.fields[k] == MergeField(once.fields, k, v);
        if IsObject(v) {
          var current := if k in target.fields && Truthy(target.fields[k]) then target.fields[k] else JObj(map[]);
          assert once.fields[k] == MergeInto(current, v);
          assert Truthy(once.fields[k]);
          assert twice.fields[k] == MergeInto(once.fields[k], v);
          MergeIdempotent(current, v);
        }
      }
      assert twice.fields == once.fields;
    }
  }

  /** Merging an object into `{}` rebuilds it exactly. */
  lemma {:induction false} MergeIntoEmpty(source: Json)
    requires IsObject(source)
    ensures MergeInto(JObj(map[]), source) == source
    decreases source
  {
    var r := MergeInto(JObj(map[]), source);
    forall k | k in source.fields
      ensures r.fields[k] == source.fields[k]
    {
      var v := source.fields[k];
      assert r.fields[k] == MergeField(map[], k, v);
      if IsObject(v) {
        assert r.fields[k] == MergeInto(JObj(map[]), v);
        MergeIntoEmpty(v);
      }
    }
    assert r.fields == source.fields;
  }
}
