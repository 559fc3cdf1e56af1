/** The collection idioms the builders are written with: `forEach` that stops
    at the first exception, `HashMap` insertion where a later key wins,
    `getOrPut(key).add(x)` grouping, the stable `sortedBy`, and
    `toList().sorted()` of a set. */
module Collections {
  import opened Results

  /** Applying `f` to every element in order, stopping at the first failure. */
  function MapAll<A, B>(xs: seq<A>, f: A -> Result<B>): (r: Result<seq<B>>)
    ensures r.Ok? <==> forall i :: 0 <= i < |xs| ==> f(xs[i]).Ok?
    ensures r.Ok? ==> |r.value| == |xs| && forall i :: 0 <= i < |xs| ==> r.value[i] == f(xs[i]).value
    ensures r.Err? ==> exists i :: 0 <= i < |xs| && f(xs[i]) == Err(r.error) && forall j :: 0 <= j < i ==> f(xs[j]).Ok?
  {
    if |xs| == 0 then Ok([])
    else
      var head :- f(xs[0]);
      var tail := MapAll(xs[1..], f);
      if tail.Err? then
        assert exists i :: 0 <= i < |xs| && f(xs[i]) == Err(tail.error) && forall j :: 0 <= j < i ==> f(xs[j]).Ok? by {
          var i :| 0 <= i < |xs[1..]| && f(xs[1..][i]) == Err(tail.error) && forall j :: 0 <= j < i ==> f(xs[1..][j]).Ok?;
          assert f(xs[i + 1]) == Err(tail.error);
          assert forall j :: 0 <= j < i + 1 ==> f(xs[j]).Ok? by {
            forall j | 0 <= j < i + 1
              ensures f(xs[j]).Ok?
            {
              if j > 0 {
                assert xs[j] == xs[1..][j - 1];
              }
            }
          }
        }
        Err(tail.error)
      else
        assert forall i :: 0 <= i < |xs| ==> f(xs[i]).Ok? by {
          forall i | 0 <= i < |xs|
            ensures f(xs[i]).Ok?
          {
            if i > 0 {
              assert xs[i] == xs[1..][i - 1];
            }
          }
        }
        Ok([head] + tail.value)
  }

  /** No element after position `i` shares its key. */
  predicate IsLastWithKey<K(==), T>(xs: seq<T>, key: T -> K, i: int)
    requires 0 <= i < |xs|
  {
    forall j :: i < j < |xs| ==> key(xs[j]) != key(xs[i])
  }

  /** `m[key(x)] = x` for each `x` of `xs` in order: a later element replaces an earlier one with the same key. */
  function IndexBy<K(!new), T>(xs: seq<T>, key: T -> K): (m: map<K, T>)
    ensures forall k :: k in m <==> exists i :: 0 <= i < |xs| && key(xs[i]) == k
    ensures forall k :: k in m ==> key(m[k]) == k && m[k] in xs
    ensures forall i :: 0 <= i < |xs| && IsLastWithKey(xs, key, i) ==> m[key(xs[i])] == xs[i]
  {
    if |xs| == 0 then map[]
    else
      var init := xs[..|xs| - 1];
      var x := xs[|xs| - 1];
      assert xs == init + [x];
      IndexBy(init, key)[key(x) := x]
  }

  /** The builders' common shape: decode every entry with `f`, stopping at the first
      failure, then store each result under its key, a later one replacing an earlier one. */
  function BuildIndex<A, T>(xs: seq<A>, f: A -> Result<T>, key: T -> int): (r: Result<map<int, T>>)
    ensures r.Ok? <==> forall i :: 0 <= i < |xs| ==> f(xs[i]).Ok?
    ensures r.Ok? ==> forall k :: k in r.value <==> exists i :: 0 <= i < |xs| && key(f(xs[i]).value) == k
    ensures r.Ok? ==> forall k :: k in r.value ==> key(r.value[k]) == k
    ensures r.Ok? ==> forall k :: k in r.value ==> exists i :: 0 <= i < |xs| && f(xs[i]).value == r.value[k]
    ensures r.Ok? ==> forall i :: 0 <= i < |xs| && LastDecoded(xs, f, key, i) ==> r.value[key(f(xs[i]).value)] == f(xs[i]).value
    ensures r.Err? ==> exists i :: 0 <= i < |xs| && f(xs[i]) == Err(r.error) && forall j :: 0 <= j < i ==> f(xs[j]).Ok?
  {
    var decoded :- MapAll(xs, f);
    var m := IndexBy(decoded, key);
    assert forall k :: k in m ==> exists i :: 0 <= i < |xs| && f(xs[i]).value == m[k] by {
      forall k | k in m
        ensures exists i :: 0 <= i < |xs| && f(xs[i]).value == m[k]
      {
        var i :| 0 <= i < |decoded| && decoded[i] == m[k];
      }
    }
    assert forall i :: 0 <= i < |xs| && LastDecoded(xs, f, key, i) ==> IsLastWithKey(decoded, key, i);
    Ok(m)
  }

  /** No entry after `i` decodes to the same key as entry `i`. */
  predicate LastDecoded<A, T>(xs: seq<A>, f: A -> Result<T>, key: T -> int, i: int)
    requires 0 <= i < |xs| && forall j :: 0 <= j < |xs| ==> f(xs[j]).Ok?
  {
    forall j :: i < j < |xs| ==> key(f(xs[j]).value) != key(f(xs[i]).value)
  }

  /** The elements of `xs` whose key is `k`, in their order in `xs`. */
  function Bucket<T>(xs: seq<T>, key: T -> int, k: int): seq<T>
  {
    if |xs| == 0 then []
    else (if key(xs[0]) == k then [xs[0]] else []) + Bucket(xs[1..], key, k)
  }

  lemma {:induction false} BucketSnoc<T>(xs: seq<T>, x: T, key: T -> int, k: int)
    ensures Bucket(xs + [x], key, k) == Bucket(xs, key, k) + (if key(x) == k then [x] else [])
    decreases |xs|
  {
    if |xs| == 0 {
      assert ([] + [x])[1..] == [];
    } else {
      var h := if key(xs[0]) == k then [xs[0]] else [];
      var e := if key(x) == k then [x] else [];
      assert (xs + [x])[0] == xs[0] && (xs + [x])[1..] == xs[1..] + [x];
      assert Bucket(xs + [x], key, k) == h + Bucket(xs[1..] + [x], key, k);
      BucketSnoc(xs[1..], x, key, k);
      assert Bucket(xs, key, k) == h + Bucket(xs[1..], key, k);
      assert h + (Bucket(xs[1..], key, k) + e) == (h + Bucket(xs[1..], key, k)) + e;
    }
  }

  lemma {:induction false} BucketMembers<T>(xs: seq<T>, key: T -> int, k: int)
    ensures forall x :: x in Bucket(xs, key, k) <==> x in xs && key(x) == k
    decreases |xs|
  {
    if |xs| > 0 {
      BucketMembers(xs[1..], key, k);
      assert xs == [xs[0]] + xs[1..];
    }
  }

  lemma {:induction false} BucketEmpty<T>(xs: seq<T>, key: T -> int, k: int)
    requires forall i :: 0 <= i < |xs| ==> key(xs[i]) != k
    ensures Bucket(xs, key, k) == []
    decreases |xs|
  {
    if |xs| > 0 {
      BucketEmpty(xs[1..], key, k);
    }
  }

  /** Bucket of a sequence written as head and tail. */
  lemma BucketCons<T>(h: T, t: seq<T>, key: T -> int, k: int)
    ensures Bucket([h] + t, key, k) == (if key(h) == k then [h] else []) + Bucket(t, key, k)
  {
    assert ([h] + t)[1..] == t;
  }

  /** `getOrPut(key(x)) { mutableListOf() }.add(x)` for each `x` of `xs` in order. */
  function GroupBy<T>(xs: seq<T>, key: T -> int): (m: map<int, seq<T>>)
    ensures forall k :: k in m <==> exists i :: 0 <= i < |xs| && key(xs[i]) == k
    ensures forall k :: k in m ==> m[k] == Bucket(xs, key, k)
  {
    if |xs| == 0 then map[]
    else
      var init := xs[..|xs| - 1];
      var x := xs[|xs| - 1];
      var g := GroupBy(init, key);
      assert xs == init + [x];
      assert forall i :: 0 <= i < |init| ==> init[i] == xs[i];
      GroupByKeysStep(init, x, key, g);
      GroupByValuesStep(init, x, key, g);
      g[key(x) := (if key(x) in g then g[key(x)] else []) + [x]]
  }

  /** Adding one element to a grouping adds its key. */
  lemma GroupByKeysStep<T>(init: seq<T>, x: T, key: T -> int, g: map<int, seq<T>>)
    requires forall k :: k in g <==> exists i :: 0 <= i < |init| && key(init[i]) == k
    ensures var xs, m := init + [x], g[key(x) := (if key(x) in g then g[key(x)] else []) + [x]];
      forall k :: k in m <==> exists i :: 0 <= i < |xs| && key(xs[i]) == k
  {
    var xs := init + [x];
    forall k | exists i :: 0 <= i < |xs| && key(xs[i]) == k
      ensures k == key(x) || k in g
    {
      var i :| 0 <= i < |xs| && key(xs[i]) == k;
      if i < |init| {
        assert init[i] == xs[i];
      }
    }
    forall k | k in g
      ensures exists i :: 0 <= i < |xs| && key(xs[i]) == k
    {
      var i :| 0 <= i < |init| && key(init[i]) == k;
      assert xs[i] == init[i];
    }
    assert xs[|init|] == x;
  }

  /** Adding one element to a grouping appends it to its key's bucket. */
  lemma GroupByValuesStep<T>(init: seq<T>, x: T, key: T -> int, g: map<int, seq<T>>)
    requires forall k :: k in g <==> exists i :: 0 <= i < |init| && key(init[i]) == k
    requires forall k :: k in g ==> g[k] == Bucket(init, key, k)
    ensures var m := g[key(x) := (if key(x) in g then g[key(x)] else []) + [x]];
      forall k :: k in m ==> m[k] == Bucket(init + [x], key, k)
  {
    forall k | k in g[key(x) := (if key(x) in g then g[key(x)] else []) + [x]]
      ensures Bucket(init + [x], key, k) == Bucket(init, key, k) + (if key(x) == k then [x] else [])
    {
      BucketSnoc(init, x, key, k);
    }
    if key(x) !in g {
      BucketEmpty(init, key, key(x));
    }
  }

  /** `a` is `b` with some elements left out, the rest kept in order (matched greedily). */
  predicate IsSubsequence<T(==)>(a: seq<T>, b: seq<T>)
    decreases |b|
  {
    |a| <= |b| &&
    (|a| == 0 || (if a[0] == b[0] then IsSubsequence(a[1..], b[1..]) else IsSubsequence(a, b[1..])))
  }

  /** A bucket holds each element of key `k` as often as `xs` does, and nothing else. */
  lemma {:induction false} BucketMultiset<T>(xs: seq<T>, key: T -> int, k: int)
    ensures forall x :: multiset(Bucket(xs, key, k))[x] == if key(x) == k then multiset(xs)[x] else 0
    decreases |xs|
  {
    if |xs| > 0 {
      BucketMultiset(xs[1..], key, k);
      assert xs == [xs[0]] + xs[1..];
    }
  }

  /** Sequences with the same multiset have the same buckets' multisets. */
  lemma SameBucketMultisets<T>(xs: seq<T>, ys: seq<T>, key: T -> int, k: int)
    requires multiset(xs) == multiset(ys)
    ensures multiset(Bucket(xs, key, k)) == multiset(Bucket(ys, key, k))
  {
    BucketMultiset(xs, key, k);
    BucketMultiset(ys, key, k);
    MultisetsEqual(multiset(Bucket(xs, key, k)), multiset(Bucket(ys, key, k)));
  }

  lemma MultisetsEqual<T>(a: multiset<T>, b: multiset<T>)
    requires forall x :: a[x] == b[x]
    ensures a == b
  {
  }

  /** A sequence of at most one element is fixed by its multiset. */
  lemma AtMostOneDetermined<T>(a: seq<T>, b: seq<T>)
    requires |a| <= 1 && multiset(a) == multiset(b)
    ensures a == b
  {
    assert |b| == |multiset(b)| == |multiset(a)| == |a|;
    if |a| == 1 {
      assert a[0] in multiset(b);
      assert b == [b[0]];
    }
  }

  /** Keys never decrease along `xs`. */
  predicate SortedBy<T>(xs: seq<T>, key: T -> int) {
    forall i, j :: 0 <= i < j < |xs| ==> key(xs[i]) <= key(xs[j])
  }

  /** Inserts `x` before the first element whose key is not smaller. */
  function InsertBy<T>(x: T, xs: seq<T>, key: T -> int): (r: seq<T>)
    requires SortedBy(xs, key)
    ensures SortedBy(r, key)
    ensures multiset(r) == multiset(xs) + multiset{x}
    ensures forall k :: Bucket(r, key, k) == (if key(x) == k then [x] else []) + Bucket(xs, key, k)
  {
    if |xs| == 0 || key(x) <= key(xs[0]) then
      assert forall k :: Bucket([x] + xs, key, k) == (if key(x) == k then [x] else []) + Bucket(xs, key, k) by {
        forall k | true
          ensures Bucket([x] + xs, key, k) == (if key(x) == k then [x] else []) + Bucket(xs, key, k)
        {
          BucketCons(x, xs, key, k);
        }
      }
      assert SortedBy([x] + xs, key) by {
        forall i, j | 0 <= i < j < |[x] + xs|
          ensures key(([x] + xs)[i]) <= key(([x] + xs)[j])
        {
          if i == 0 && j > 0 {
            assert key(xs[0]) <= key(xs[j - 1]);
          }
        }
      }
      [x] + xs
    else
      var h, t := xs[0], xs[1..];
      assert xs == [h] + t;
      var rest := InsertBy(x, t, key);
      InsertStep(h, t, x, rest, key);
      [h] + rest
  }

  /** The step of InsertBy that puts the smaller head back in front. */
  lemma InsertStep<T>(h: T, t: seq<T>, x: T, rest: seq<T>, key: T -> int)
    requires SortedBy([h] + t, key) && key(h) < key(x)
    requires SortedBy(rest, key)
    requires multiset(rest) == multiset(t) + multiset{x}
    requires forall k :: Bucket(rest, key, k) == (if key(x) == k then [x] else []) + Bucket(t, key, k)
    ensures SortedBy([h] + rest, key)
    ensures multiset([h] + rest) == multiset([h] + t) + multiset{x}
    ensures forall k :: Bucket([h] + rest, key, k) == (if key(x) == k then [x] else []) + Bucket([h] + t, key, k)
  {
    InsertStepBuckets(h, t, x, rest, key);
    InsertStepSorted(h, t, x, rest, key);
  }

  lemma InsertStepBuckets<T>(h: T, t: seq<T>, x: T, rest: seq<T>, key: T -> int)
    requires key(h) < key(x)
    requires forall k :: Bucket(rest, key, k) == (if key(x) == k then [x] else []) + Bucket(t, key, k)
    ensures forall k :: Bucket([h] + rest, key, k) == (if key(x) == k then [x] else []) + Bucket([h] + t, key, k)
  {
    forall k | true
      ensures Bucket([h] + rest, key, k) == (if key(x) == k then [x] else []) + Bucket([h] + t, key, k)
    {
      InsertStepBucket(h, t, x, rest, key, k);
    }
  }

  lemma InsertStepBucket<T>(h: T, t: seq<T>, x: T, rest: seq<T>, key: T -> int, k: int)
    requires key(h) < key(x)
    requires Bucket(rest, key, k) == (if key(x) == k then [x] else []) + Bucket(t, key, k)
    ensures Bucket([h] + rest, key, k) == (if key(x) == k then [x] else []) + Bucket([h] + t, key, k)
  {
    BucketCons(h, rest, key, k);
    BucketCons(h, t, key, k);
    var bt := Bucket(t, key, k);
    if key(h) == k {
      assert Bucket([h] + rest, key, k) == [h] + bt;
      assert Bucket([h] + t, key, k) == [h] + bt;
    } else if key(x) == k {
      assert Bucket([h] + rest, key, k) == [x] + bt;
      assert Bucket([h] + t, key, k) == bt;
    } else {
      assert Bucket([h] + rest, key, k) == bt;
      assert Bucket([h] + t, key, k) == bt;
    }
  }

  lemma InsertStepSorted<T>(h: T, t: seq<T>, x: T, rest: seq<T>, key: T -> int)
    requires SortedBy([h] + t, key) && key(h) < key(x)
    requires SortedBy(rest, key)
    requires multiset(rest) == multiset(t) + multiset{x}
    ensures SortedBy([h] + rest, key)
  {
    assert forall y :: y in t ==> key(h) <= key(y) by {
      forall y | y in t
        ensures key(h) <= key(y)
      {
        var m :| 0 <= m < |t| && t[m] == y;
        assert ([h] + t)[0] == h && ([h] + t)[m + 1] == y;
      }
    }
    assert forall y :: y in rest ==> key(h) <= key(y) by {
      forall y | y in rest
        ensures key(h) <= key(y)
      {
        assert y in multiset(rest);
        assert y == x || y in multiset(t);
      }
    }
    var r := [h] + rest;
    forall i, j | 0 <= i < j < |r|
      ensures key(r[i]) <= key(r[j])
    {
      if i == 0 {
        assert r[j] == rest[j - 1];
        assert rest[j - 1] in rest;
      } else {
        assert r[i] == rest[i - 1] && r[j] == rest[j - 1];
      }
    }
  }

  /** List.sortedBy(key): sorted by key, a permutation, and stable (each key's elements keep their order). */
  function SortBy<T>(xs: seq<T>, key: T -> int): (r: seq<T>)
    ensures SortedBy(r, key)
    ensures multiset(r) == multiset(xs)
    ensures forall k :: Bucket(r, key, k) == Bucket(xs, key, k)
  {
    if |xs| == 0 then []
    else
      assert xs == [xs[0]] + xs[1..];
      InsertBy(xs[0], SortBy(xs[1..], key), key)
  }

  /** Two sorted sequences with the same buckets start with the same element. */
  lemma SortedHeadsAgree<T>(a: seq<T>, b: seq<T>, key: T -> int)
    requires SortedBy(a, key) && SortedBy(b, key) && |a| > 0 && |b| > 0
    requires forall k :: Bucket(a, key, k) == Bucket(b, key, k)
    ensures a[0] == b[0]
  {
    var ka, kb := key(a[0]), key(b[0]);
    BucketCons(a[0], a[1..], key, ka);
    BucketCons(b[0], b[1..], key, kb);
    assert a == [a[0]] + a[1..] && b == [b[0]] + b[1..];
    BucketMembers(a, key, kb);
    BucketMembers(b, key, ka);
    assert a[0] in Bucket(b, key, ka);
    assert b[0] in Bucket(a, key, kb);
    var i :| 0 <= i < |b| && b[i] == a[0];
    var j :| 0 <= j < |a| && a[j] == b[0];
    assert kb <= key(b[i]) && ka <= key(a[j]);
    assert Bucket(a, key, ka)[0] == a[0];
  }

  /** A sorted sequence is fixed by its buckets: so any stable sort of `xs` equals SortBy(xs). */
  lemma {:induction false} SortedBucketsDetermine<T>(a: seq<T>, b: seq<T>, key: T -> int)
    requires SortedBy(a, key) && SortedBy(b, key)
    requires forall k :: Bucket(a, key, k) == Bucket(b, key, k)
    ensures a == b
    decreases |a| + |b|
  {
    if |a| > 0 {
      BucketCons(a[0], a[1..], key, key(a[0]));
      assert a == [a[0]] + a[1..];
    }
    if |b| > 0 {
      BucketCons(b[0], b[1..], key, key(b[0]));
      assert b == [b[0]] + b[1..];
    }
    if |a| > 0 && |b| > 0 {
      SortedHeadsAgree(a, b, key);
      forall k | true
        ensures Bucket(a[1..], key, k) == Bucket(b[1..], key, k)
      {
        BucketCons(a[0], a[1..], key, k);
        BucketCons(b[0], b[1..], key, k);
        var p := if key(a[0]) == k then [a[0]] else [];
        assert Bucket(a[1..], key, k) == Bucket(a, key, k)[|p|..];
        assert Bucket(b[1..], key, k) == Bucket(b, key, k)[|p|..];
      }
      SortedBucketsDetermine(a[1..], b[1..], key);
    }
  }

  /** The second components of the pairs whose first component is `k`, in order. */
  function Select<T(!new)>(ps: seq<(int, T)>, k: int): (r: seq<T>)
    ensures forall x :: x in r <==> exists i :: 0 <= i < |ps| && ps[i] == (k, x)
    ensures |r| <= |ps|
    decreases |ps|
  {
    if |ps| == 0 then []
    else
      var init, last := ps[..|ps| - 1], ps[|ps| - 1];
      assert forall i :: 0 <= i < |init| ==> init[i] == ps[i];
      Select(init, k) + (if last.0 == k then [last.1] else [])
  }

  /** Select keeps input order: the pairs of a longer sequence contribute
      after those of a shorter prefix, and one pair contributes its value
      exactly when its key is `k`. */
  lemma {:induction false} SelectInOrder<T(!new)>(a: seq<(int, T)>, b: seq<(int, T)>, k: int)
    ensures Select(a + b, k) == Select(a, k) + Select(b, k)
    ensures |b| == 1 ==> Select(b, k) == (if b[0].0 == k then [b[0].1] else [])
    decreases |b|
  {
    if |b| == 0 {
      assert a + b == a;
    } else {
      var init, last := b[..|b| - 1], b[|b| - 1];
      var ab := a + b;
      var lastPart := if last.0 == k then [last.1] else [];
      assert ab[..|ab| - 1] == a + init && ab[|ab| - 1] == last;
      assert Select(ab, k) == Select(a + init, k) + lastPart;
      assert Select(b, k) == Select(init, k) + lastPart;
      SelectInOrder(a, init, k);
      assert Select(a, k) + Select(init, k) + lastPart == Select(a, k) + (Select(init, k) + lastPart);
      if |b| == 1 {
        assert init == [];
      }
    }
  }

  lemma {:induction false} SelectNone<T(!new)>(ps: seq<(int, T)>, k: int)
    requires forall i :: 0 <= i < |ps| ==> ps[i].0 != k
    ensures Select(ps, k) == []
    decreases |ps|
  {
    if |ps| > 0 {
      SelectNone(ps[..|ps| - 1], k);
    }
  }

  /** `getOrPut(k) { mutableListOf() }.add(x)` for every pair `(k, x)` in order. */
  function GroupPairs<T(!new)>(ps: seq<(int, T)>): (m: map<int, seq<T>>)
    ensures forall k :: k in m <==> exists i :: 0 <= i < |ps| && ps[i].0 == k
    ensures forall k :: k in m ==> m[k] == Select(ps, k)
    decreases |ps|
  {
    if |ps| == 0 then map[]
    else
      var init, last := ps[..|ps| - 1], ps[|ps| - 1];
      var m := GroupPairs(init);
      assert forall i :: 0 <= i < |init| ==> init[i] == ps[i];
      assert ps == init + [last];
      GroupKeysStep(init, last, m);
      GroupValuesStep(init, last, m);
      m[last.0 := (if last.0 in m then m[last.0] else []) + [last.1]]
  }

  /** Adding one pair to a grouping adds its key. */
  lemma GroupKeysStep<T(!new)>(init: seq<(int, T)>, last: (int, T), m: map<int, seq<T>>)
    requires forall k :: k in m <==> exists i :: 0 <= i < |init| && init[i].0 == k
    ensures var ps, m' := init + [last], m[last.0 := (if last.0 in m then m[last.0] else []) + [last.1]];
      forall k :: k in m' <==> exists i :: 0 <= i < |ps| && ps[i].0 == k
  {
    var ps := init + [last];
    forall k | exists i :: 0 <= i < |ps| && ps[i].0 == k
      ensures k == last.0 || k in m
    {
      var i :| 0 <= i < |ps| && ps[i].0 == k;
      if i < |init| {
        assert init[i] == ps[i];
      }
    }
    forall k | k in m
      ensures exists i :: 0 <= i < |ps| && ps[i].0 == k
    {
      var i :| 0 <= i < |init| && init[i].0 == k;
      assert ps[i] == init[i];
    }
    assert ps[|init|] == last;
  }

  /** Adding one pair to a grouping appends its value to its key's list. */
  lemma GroupValuesStep<T(!new)>(init: seq<(int, T)>, last: (int, T), m: map<int, seq<T>>)
    requires forall k :: k in m <==> exists i :: 0 <= i < |init| && init[i].0 == k
    requires forall k :: k in m ==> m[k] == Select(init, k)
    ensures var m' := m[last.0 := (if last.0 in m then m[last.0] else []) + [last.1]];
      forall k :: k in m' ==> m'[k] == Select(init + [last], k)
  {
    var ps := init + [last];
    assert ps[..|ps| - 1] == init && ps[|ps| - 1] == last;
    if last.0 !in m {
      SelectNone(init, last.0);
    }
  }

  /** Every element decoded into a key and a value, first failure wins; then
      the values grouped by key in order. */
  function GroupDecoded<A, T(!new)>(xs: seq<A>, f: A -> Result<(int, T)>): (r: Result<map<int, seq<T>>>)
    ensures r.Ok? <==> forall i :: 0 <= i < |xs| ==> f(xs[i]).Ok?
    ensures r.Err? ==> exists i :: 0 <= i < |xs| && f(xs[i]) == Err(r.error) && forall j :: 0 <= j < i ==> f(xs[j]).Ok?
    ensures r.Ok? ==> forall k :: k in r.value <==> exists i :: 0 <= i < |xs| && f(xs[i]).value.0 == k
    ensures r.Ok? ==> forall k, x :: k in r.value ==> (x in r.value[k] <==> exists i :: 0 <= i < |xs| && f(xs[i]).value == (k, x))
    ensures r.Ok? ==> forall k :: k in r.value ==> r.value[k] == Select(MapAll(xs, f).value, k)
  {
    var ps :- MapAll(xs, f);
    Ok(GroupPairs(ps))
  }

  /** mapNotNull: the values `f` gives, in order, elements it gives nothing
      for skipped. */
  function MapPresent<A, B(!new)>(xs: seq<A>, f: A -> Option<B>): (r: seq<B>)
    ensures forall y :: y in r <==> exists i :: 0 <= i < |xs| && f(xs[i]) == Some(y)
    ensures |r| <= |xs|
    decreases |xs|
  {
    if |xs| == 0 then []
    else
      var rest := MapPresent(xs[1..], f);
      assert forall i :: 0 <= i < |xs[1..]| ==> xs[1..][i] == xs[i + 1];
      (if f(xs[0]).Some? then [f(xs[0]).value] else []) + rest
  }

  /** The present values, in order. */
  function Somes<T(!new)>(xs: seq<Option<T>>): (r: seq<T>)
    ensures forall x :: x in r <==> exists i :: 0 <= i < |xs| && xs[i] == Some(x)
    ensures |r| <= |xs|
  {
    MapPresent(xs, o => o)
  }

  /** When `f` gives a value for every element, mapNotNull keeps them all. */
  lemma {:induction false} MapPresentAll<A, B(!new)>(xs: seq<A>, ys: seq<B>, f: A -> Option<B>)
    requires |xs| == |ys| && forall j :: 0 <= j < |xs| ==> f(xs[j]) == Some(ys[j])
    ensures MapPresent(xs, f) == ys
    decreases |xs|
  {
    if |xs| > 0 {
      assert forall j :: 0 <= j < |xs[1..]| ==> f(xs[1..][j]) == Some(ys[1..][j]) by {
        forall j | 0 <= j < |xs[1..]|
          ensures f(xs[1..][j]) == Some(ys[1..][j])
        {
          assert xs[1..][j] == xs[j + 1] && ys[1..][j] == ys[j + 1];
        }
      }
      MapPresentAll(xs[1..], ys[1..], f);
      assert f(xs[0]) == Some(ys[0]);
      assert ys == [ys[0]] + ys[1..];
    }
  }

  /** Every element decoded into nothing or a key and a value, first failure
      wins; then the values that are present grouped by key in order. */
  function GroupDecodedPresent<A, T(!new)>(xs: seq<A>, f: A -> Result<Option<(int, T)>>): (r: Result<map<int, seq<T>>>)
    ensures r.Ok? <==> forall i :: 0 <= i < |xs| ==> f(xs[i]).Ok?
    ensures r.Err? ==> exists i :: 0 <= i < |xs| && f(xs[i]) == Err(r.error) && forall j :: 0 <= j < i ==> f(xs[j]).Ok?
    ensures r.Ok? ==> forall k :: k in r.value <==>
      exists i :: 0 <= i < |xs| && f(xs[i]).value.Some? && f(xs[i]).value.value.0 == k
    ensures r.Ok? ==> forall k, x :: k in r.value ==>
      (x in r.value[k] <==> exists i :: 0 <= i < |xs| && f(xs[i]).value == Some((k, x)))
    ensures r.Ok? ==> forall k :: k in r.value ==> r.value[k] == Select(Somes(MapAll(xs, f).value), k)
  {
    var os :- MapAll(xs, f);
    PresentGroups(os);
    Ok(GroupPairs(Somes(os)))
  }

  lemma PresentGroups<T(!new)>(os: seq<Option<(int, T)>>)
    ensures var m := GroupPairs(Somes(os));
      && (forall k :: k in m <==> exists i :: 0 <= i < |os| && os[i].Some? && os[i].value.0 == k)
      && (forall k, x :: k in m ==> (x in m[k] <==> exists i :: 0 <= i < |os| && os[i] == Some((k, x))))
  {
    forall k
      ensures k in GroupPairs(Somes(os)) <==> exists i :: 0 <= i < |os| && os[i].Some? && os[i].value.0 == k
    {
      PresentKey(os, k);
    }
    forall k, x | k in GroupPairs(Somes(os))
      ensures x in GroupPairs(Somes(os))[k] <==> exists i :: 0 <= i < |os| && os[i] == Some((k, x))
    {
      PresentMember(os, k, x);
    }
  }

  lemma PresentKey<T(!new)>(os: seq<Option<(int, T)>>, k: int)
    ensures k in GroupPairs(Somes(os)) <==> exists i :: 0 <= i < |os| && os[i].Some? && os[i].value.0 == k
  {
    KeyHasPresent(os, k);
    if exists i :: 0 <= i < |os| && os[i].Some? && os[i].value.0 == k {
      var i :| 0 <= i < |os| && os[i].Some? && os[i].value.0 == k;
      PresentHasKey(os, i);
    }
  }

  lemma KeyHasPresent<T(!new)>(os: seq<Option<(int, T)>>, k: int)
    ensures k in GroupPairs(Somes(os)) ==> exists i :: 0 <= i < |os| && os[i].Some? && os[i].value.0 == k
  {
    var ps := Somes(os);
    if k in GroupPairs(ps) {
      var j :| 0 <= j < |ps| && ps[j].0 == k;
      assert ps[j] in ps;
      var i :| 0 <= i < |os| && os[i] == Some(ps[j]);
    }
  }

  lemma PresentHasKey<T(!new)>(os: seq<Option<(int, T)>>, i: int)
    requires 0 <= i < |os| && os[i].Some?
    ensures os[i].value.0 in GroupPairs(Somes(os))
  {
    var ps := Somes(os);
    assert os[i] == Some(os[i].value);
    assert os[i].value in ps;
    var j :| 0 <= j < |ps| && ps[j] == os[i].value;
  }

  lemma PresentMember<T(!new)>(os: seq<Option<(int, T)>>, k: int, x: T)
    ensures k in GroupPairs(Somes(os)) ==>
      (x in GroupPairs(Somes(os))[k] <==> exists i :: 0 <= i < |os| && os[i] == Some((k, x)))
  {
    SelectMember(Somes(os), k, x);
  }

  lemma SelectMember<T(!new)>(ps: seq<(int, T)>, k: int, x: T)
    ensures x in Select(ps, k) <==> (k, x) in ps
  {
  }

  /** The summed lengths of the selections for a list of keys. */
  function SelectSizes<T(!new)>(ps: seq<(int, T)>, keys: seq<int>): int {
    if |keys| == 0 then 0 else |Select(ps, keys[0])| + SelectSizes(ps, keys[1..])
  }

  predicate Distinct(keys: seq<int>) {
    forall i, j :: 0 <= i < j < |keys| ==> keys[i] != keys[j]
  }

  lemma {:induction false} SelectSizesSnoc<T(!new)>(ps: seq<(int, T)>, p: (int, T), keys: seq<int>)
    requires Distinct(keys)
    ensures SelectSizes(ps + [p], keys) == SelectSizes(ps, keys) + (if p.0 in keys then 1 else 0)
    decreases |keys|
  {
    if |keys| > 0 {
      assert (ps + [p])[..|ps + [p]| - 1] == ps;
      assert Distinct(keys[1..]) by {
        forall i, j | 0 <= i < j < |keys[1..]|
          ensures keys[1..][i] != keys[1..][j]
        {
          assert keys[1..][i] == keys[i + 1] && keys[1..][j] == keys[j + 1];
        }
      }
      SelectSizesSnoc(ps, p, keys[1..]);
      if p.0 == keys[0] {
        assert p.0 !in keys[1..] by {
          forall j | 0 <= j < |keys[1..]|
            ensures keys[1..][j] != p.0
          {
            assert keys[1..][j] == keys[j + 1];
          }
        }
      } else {
        assert p.0 in keys <==> p.0 in keys[1..];
      }
    }
  }

  /** Every pair lands in exactly one selection: over a duplicate-free list of
      keys covering every pair, the selections' lengths add up to the number
      of pairs. */
  lemma {:induction false} SelectTotal<T(!new)>(ps: seq<(int, T)>, keys: seq<int>)
    requires Distinct(keys)
    requires forall i :: 0 <= i < |ps| ==> ps[i].0 in keys
    ensures SelectSizes(ps, keys) == |ps|
    decreases |ps|
  {
    if |ps| == 0 {
      SelectSizesEmpty(ps, keys);
    } else {
      var init := ps[..|ps| - 1];
      assert ps == init + [ps[|ps| - 1]];
      SelectTotal(init, keys);
      SelectSizesSnoc(init, ps[|ps| - 1], keys);
    }
  }

  lemma {:induction false} SelectSizesEmpty<T(!new)>(ps: seq<(int, T)>, keys: seq<int>)
    requires |ps| == 0
    ensures SelectSizes(ps, keys) == 0
    decreases |keys|
  {
    if |keys| > 0 {
      SelectSizesEmpty(ps, keys[1..]);
    }
  }

  /** The summed lengths of the lists a map holds under a list of keys. */
  function SumSizes<T>(m: map<int, seq<T>>, keys: seq<int>): int
    requires forall k :: k in keys ==> k in m
  {
    if |keys| == 0 then 0
    else
      var k := keys[0];
      assert k in keys;
      assert k in m;
      |m[k]| + SumSizes(m, keys[1..])
  }

  lemma {:induction false} SumSizesOfSelect<T(!new)>(m: map<int, seq<T>>, ps: seq<(int, T)>, keys: seq<int>)
    requires forall k :: k in keys ==> k in m && m[k] == Select(ps, k)
    ensures SumSizes(m, keys) == SelectSizes(ps, keys)
    decreases |keys|
  {
    if |keys| > 0 {
      SumSizesOfSelect(m, ps, keys[1..]);
    }
  }

  /** Grouping loses and duplicates nothing: over a duplicate-free list of
      the keys, the groups' lengths add up to the number of elements. */
  lemma GroupSizesTotal<A, T(!new)>(xs: seq<A>, f: A -> Result<(int, T)>, keys: seq<int>)
    requires GroupDecoded(xs, f).Ok?
    requires Distinct(keys)
    requires forall k :: k in keys <==> k in GroupDecoded(xs, f).value
    ensures SumSizes(GroupDecoded(xs, f).value, keys) == |xs|
  {
    var m := GroupDecoded(xs, f).value;
    var ps := MapAll(xs, f).value;
    forall i | 0 <= i < |ps|
      ensures ps[i].0 in keys
    {
      assert f(xs[i]).value.0 in m;
    }
    SelectTotal(ps, keys);
    SumSizesOfSelect(m, ps, keys);
  }

  /** Map extensionality, spelled out. */
  lemma MapsEqual<K, V>(a: map<K, V>, b: map<K, V>)
    requires forall k :: k in a <==> k in b
    requires forall k :: k in a ==> a[k] == b[k]
    ensures a == b
  {
  }

  /** Sorting a bucket keeps exactly the bucket's elements. */
  lemma SortedBucketMembers<T>(xs: seq<T>, key: T -> int, k: int, order: T -> int, x: T)
    ensures x in SortBy(Bucket(xs, key, k), order) <==> x in xs && key(x) == k
  {
    var b := Bucket(xs, key, k);
    BucketMembers(xs, key, k);
    assert x in SortBy(b, order) <==> x in multiset(SortBy(b, order));
    assert x in b <==> x in multiset(b);
  }

  /** Strictly increasing, hence free of duplicates. */
  predicate StrictlyAscending(xs: seq<int>) {
    forall i, j :: 0 <= i < j < |xs| ==> xs[i] < xs[j]
  }

  /** Adds `x` to an ascending list unless it is already there. */
  function InsertUnique(x: int, xs: seq<int>): (r: seq<int>)
    requires StrictlyAscending(xs)
    ensures StrictlyAscending(r)
    ensures forall y :: y in r <==> y == x || y in xs
  {
    if |xs| == 0 || x < xs[0] then [x] + xs
    else if x == xs[0] then xs
    else
      var rest := InsertUnique(x, xs[1..]);
      AscendingHead(xs);
      assert xs == [xs[0]] + xs[1..];
      assert StrictlyAscending([xs[0]] + rest) by {
        forall i, j | 0 <= i < j < |[xs[0]] + rest|
          ensures ([xs[0]] + rest)[i] < ([xs[0]] + rest)[j]
        {
          if i == 0 {
            assert rest[j - 1] in rest;
          }
        }
      }
      [xs[0]] + rest
  }

  /** The head of an ascending list is below everything after it. */
  lemma AscendingHead(xs: seq<int>)
    requires StrictlyAscending(xs) && |xs| > 0
    ensures StrictlyAscending(xs[1..])
    ensures forall y :: y in xs[1..] ==> xs[0] < y
  {
  }

  /** A HashSet's `toList().sorted()`: the distinct elements of `xs`, ascending. */
  function SortedDistinct(xs: seq<int>): (r: seq<int>)
    ensures StrictlyAscending(r)
    ensures forall y :: y in r <==> y in xs
  {
    if |xs| == 0 then []
    else
      assert xs == [xs[0]] + xs[1..];
      InsertUnique(xs[0], SortedDistinct(xs[1..]))
  }

  /** Two strictly ascending sequences with the same elements are equal: SortedDistinct is the only such listing. */
  lemma {:induction false} AscendingUnique(a: seq<int>, b: seq<int>)
    requires StrictlyAscending(a) && StrictlyAscending(b)
    requires forall x :: x in a <==> x in b
    ensures a == b
    decreases |a|
  {
    if |a| > 0 {
      assert a[0] in a;
    }
    if |b| > 0 {
      assert b[0] in b;
    }
    if |a| > 0 && |b| > 0 {
      AscendingHead(a);
      AscendingHead(b);
      assert a[0] == b[0] by {
        assert a == [a[0]] + a[1..] && b == [b[0]] + b[1..];
        assert a[0] in b && b[0] in a;
      }
      assert forall x :: x in a[1..] <==> x in b[1..] by {
        assert a == [a[0]] + a[1..] && b == [b[0]] + b[1..];
        forall x
          ensures x in a[1..] <==> x in b[1..]
        {
          assert x in a[1..] ==> x in a && x != a[0];
          assert x in b[1..] ==> x in b && x != b[0];
        }
      }
      AscendingUnique(a[1..], b[1..]);
      assert a == [a[0]] + a[1..] && b == [b[0]] + b[1..];
    }
  }
}
