/** Python's insertion-ordered `dict`: a key is stored once, keys keep the order in which they were
  * first stored, and storing an existing key replaces its value in place. */
module Dicts {
  import opened Wrappers

  type Dict<K, V> = seq<(K, V)>

  function Keys<K, V>(d: Dict<K, V>): (r: seq<K>)
    ensures |r| == |d| && forall i :: 0 <= i < |d| ==> r[i] == d[i].0
  {
    seq(|d|, i requires 0 <= i < |d| => d[i].0)
  }

  predicate DistinctKeys<K(==,!new), V(!new)>(d: Dict<K, V>) {
    forall i, j :: 0 <= i < j < |d| ==> d[i].0 != d[j].0
  }

  /** `d.get(k)`. */
  function Get<K(==,!new), V(!new)>(d: Dict<K, V>, k: K): (r: Option<V>)
    ensures r.Some? <==> k in Keys(d)
  {
    if |d| == 0 then None
    else if d[0].0 == k then Some(d[0].1)
    else
      var r := Get(d[1..], k);
      assert forall i :: 1 <= i < |d| ==> d[i] == d[1..][i - 1];
      r
  }

  /** With distinct keys, `d.get(k)` is `v` exactly when the pair `(k, v)` is stored. */
  lemma {:induction false} GetMembers<K(!new), V(!new)>(d: Dict<K, V>, k: K)
    requires DistinctKeys(d)
    ensures forall v :: Get(d, k) == Some(v) <==> (k, v) in d
    decreases |d|
  {
    if |d| > 0 {
      assert forall i :: 1 <= i < |d| ==> d[i] == d[1..][i - 1];
      assert forall p :: p in d <==> p == d[0] || p in d[1..];
      GetMembers(d[1..], k);
    }
  }

  /** `d[k] = v`: an existing key keeps its place and takes the new value; a new key goes last. */
  function Put<K(==,!new), V(!new)>(d: Dict<K, V>, k: K, v: V): (r: Dict<K, V>)
    ensures Keys(r) == if k in Keys(d) then Keys(d) else Keys(d) + [k]
    ensures DistinctKeys(d) ==> DistinctKeys(r)
  {
    if k in Keys(d) then
      seq(|d|, i requires 0 <= i < |d| => if d[i].0 == k then (k, v) else d[i])
    else
      d + [(k, v)]
  }

  /** After `d[k] = v` the stored pairs are `(k, v)` and the pairs of the other keys. */
  lemma PutMembers<K(!new), V(!new)>(d: Dict<K, V>, k: K, v: V)
    requires DistinctKeys(d)
    ensures forall k', v' :: (k', v') in Put(d, k, v) <==> (k' == k && v' == v) || (k' != k && (k', v') in d)
  {
  }

  /** `{p[0]: p[1] for p in ps}`, or the equivalent assignment loop. */
  function FromPairs<K(==,!new), V(!new)>(ps: seq<(K, V)>): Dict<K, V> {
    if |ps| == 0 then []
    else Put(FromPairs(ps[..|ps| - 1]), ps[|ps| - 1].0, ps[|ps| - 1].1)
  }

  /** One more pair is one more store. */
  lemma FromPairsSnoc<K(!new), V(!new)>(ps: seq<(K, V)>, p: (K, V))
    ensures FromPairs(ps + [p]) == Put(FromPairs(ps), p.0, p.1)
  {
    assert (ps + [p])[..|ps|] == ps;
  }

  /** Building a dict from pairs stores each key once, and exactly the keys of the pairs. */
  lemma {:induction false} FromPairsKeys<K(!new), V(!new)>(ps: seq<(K, V)>)
    ensures DistinctKeys(FromPairs(ps))
    ensures forall k :: k in Keys(FromPairs(ps)) <==> exists i :: 0 <= i < |ps| && ps[i].0 == k
    decreases |ps|
  {
    if |ps| > 0 {
      var n := |ps| - 1;
      var pre := ps[..n];
      FromPairsKeys(pre);
      var r := FromPairs(ps);
      assert forall i :: 0 <= i < n ==> pre[i] == ps[i];
      forall k | k in Keys(r) ensures exists i :: 0 <= i < |ps| && ps[i].0 == k {
        if k != ps[n].0 {
          var i :| 0 <= i < n && pre[i].0 == k;
          assert ps[i].0 == k;
        }
      }
      forall k | exists i :: 0 <= i < |ps| && ps[i].0 == k ensures k in Keys(r) {
        var i :| 0 <= i < |ps| && ps[i].0 == k;
        if i < n {
          assert pre[i].0 == k;
        }
      }
    }
  }

  lemma FromPairsDistinct<K(!new), V(!new)>(ps: seq<(K, V)>)
    ensures DistinctKeys(FromPairs(ps))
  {
    FromPairsKeys(ps);
  }

  lemma FromPairsHasKey<K(!new), V(!new)>(ps: seq<(K, V)>, k: K)
    ensures k in Keys(FromPairs(ps)) <==> exists i :: 0 <= i < |ps| && ps[i].0 == k
  {
    FromPairsKeys(ps);
  }

  /** Each key of a dict built from pairs holds the value of the last pair with that key. */
  lemma {:induction false} FromPairsLastWins<K(!new), V(!new)>(ps: seq<(K, V)>)
    ensures forall k, v :: (k, v) in FromPairs(ps) ==>
      exists i :: 0 <= i < |ps| && ps[i] == (k, v) && forall j :: i < j < |ps| ==> ps[j].0 != k
    decreases |ps|
  {
    if |ps| > 0 {
      var n := |ps| - 1;
      var pre := ps[..n];
      FromPairsKeys(pre);
      FromPairsLastWins(pre);
      var p := FromPairs(pre);
      var r := FromPairs(ps);
      assert r == Put(p, ps[n].0, ps[n].1);
      PutMembers(p, ps[n].0, ps[n].1);
      forall k, v | (k, v) in r
        ensures exists i :: 0 <= i < |ps| && ps[i] == (k, v) && forall j :: i < j < |ps| ==> ps[j].0 != k
      {
        if k == ps[n].0 {
          assert ps[n] == (k, v);
        } else {
          assert (k, v) in p;
          LastPairGrows(ps, k, v);
        }
      }
    }
  }

  /** A last pair of the prefix stays the last pair for its key when the new pair has another key. */
  lemma LastPairGrows<K(!new), V(!new)>(ps: seq<(K, V)>, k: K, v: V)
    requires |ps| > 0 && ps[|ps| - 1].0 != k
    requires var pre := ps[..|ps| - 1];
      exists i :: 0 <= i < |pre| && pre[i] == (k, v) && forall j :: i < j < |pre| ==> pre[j].0 != k
    ensures exists i :: 0 <= i < |ps| && ps[i] == (k, v) && forall j :: i < j < |ps| ==> ps[j].0 != k
  {
    var n := |ps| - 1;
    var pre := ps[..n];
    var i :| 0 <= i < n && pre[i] == (k, v) && forall j :: i < j < n ==> pre[j].0 != k;
    assert ps[i] == (k, v);
    forall j | i < j < |ps| ensures ps[j].0 != k {
      if j < n {
        assert ps[j] == pre[j];
      }
    }
  }

  /** A key carried by exactly one pair reads back that pair's value. */
  lemma FromPairsUniqueKey<K(!new), V(!new)>(ps: seq<(K, V)>, i: nat)
    requires i < |ps| && forall j :: 0 <= j < |ps| && ps[j].0 == ps[i].0 ==> j == i
    ensures Get(FromPairs(ps), ps[i].0) == Some(ps[i].1)
  {
    var d := FromPairs(ps);
    var k := ps[i].0;
    FromPairsKeys(ps);
    FromPairsLastWins(ps);
    GetMembers(d, k);
    assert k in Keys(d);
    var x := Get(d, k).value;
    assert (k, x) in d;
  }

  /** Appending under the only key of a one-entry dict extends that entry. */
  lemma AppendToSingle<K(!new), V(!new)>(k: K, vs: seq<V>, x: V)
    ensures AppendTo([(k, vs)], k, x) == [(k, vs + [x])]
  {
    var d := [(k, vs)];
    assert Keys(d) == [k];
    assert Get(d, k) == Some(vs);
  }

  /** Some pair with key `x` comes before every pair with key `y`. */
  ghost predicate KeyBefore<K(!new), V>(ps: seq<(K, V)>, x: K, y: K) {
    exists i :: 0 <= i < |ps| && ps[i].0 == x && forall j :: 0 <= j <= i ==> ps[j].0 != y
  }

  lemma KeyBeforeExtend<K(!new), V>(ps: seq<(K, V)>, n: nat, x: K, y: K)
    requires n <= |ps| && KeyBefore(ps[..n], x, y)
    ensures KeyBefore(ps, x, y)
  {
    var i :| 0 <= i < n && ps[..n][i].0 == x && forall j :: 0 <= j <= i ==> ps[..n][j].0 != y;
    assert forall j :: 0 <= j <= i ==> ps[j] == ps[..n][j];
  }

  lemma KeyBeforeNew<K(!new), V>(ps: seq<(K, V)>, n: nat, x: K, y: K)
    requires n <= |ps| && x in Keys(ps[..n]) && y !in Keys(ps[..n])
    ensures KeyBefore(ps, x, y)
  {
    var pre := ps[..n];
    var i :| 0 <= i < n && Keys(pre)[i] == x;
    forall j | 0 <= j <= i ensures ps[j].0 != y {
      assert ps[j].0 == Keys(pre)[j];
    }
  }

  /** One step of `FromPairsOrder`: the pair order of the dict after the last pair. */
  lemma OrderStep<K(!new), V(!new)>(ps: seq<(K, V)>, pre: seq<(K, V)>, a: nat, b: nat)
    requires |ps| > 0 && pre == ps[..|ps| - 1]
    requires forall a', b' :: 0 <= a' < b' < |FromPairs(pre)| ==> KeyBefore(pre, FromPairs(pre)[a'].0, FromPairs(pre)[b'].0)
    requires a < b < |FromPairs(ps)|
    ensures KeyBefore(ps, FromPairs(ps)[a].0, FromPairs(ps)[b].0)
  {
    var n := |ps| - 1;
    var p := FromPairs(pre);
    var k := ps[n].0;
    var r := FromPairs(ps);
    assert r == Put(p, k, ps[n].1);
    assert r[a].0 == Keys(r)[a] == Keys(p)[a] == p[a].0;
    if b < |p| {
      assert r[b].0 == Keys(r)[b] == Keys(p)[b] == p[b].0;
      KeyBeforeExtend(ps, n, p[a].0, p[b].0);
    } else {
      FromPairsKeys(pre);
      assert r[b].0 == k && k !in Keys(p);
      assert p[a].0 in Keys(p);
      var i :| 0 <= i < n && pre[i].0 == p[a].0;
      assert Keys(pre)[i] == p[a].0;
      forall kk | kk in Keys(pre) ensures kk in Keys(p) {
        var j :| 0 <= j < n && Keys(pre)[j] == kk;
        assert pre[j].0 == kk;
      }
      KeyBeforeNew(ps, n, p[a].0, k);
    }
  }

  /** The keys of a dict built from pairs are in first-occurrence order: some pair with an earlier key
    * comes before every pair with a later key. */
  lemma {:induction false} FromPairsOrder<K(!new), V(!new)>(ps: seq<(K, V)>)
    ensures forall a, b :: 0 <= a < b < |FromPairs(ps)| ==> KeyBefore(ps, FromPairs(ps)[a].0, FromPairs(ps)[b].0)
    decreases |ps|
  {
    if |ps| > 0 {
      FromPairsOrder(ps[..|ps| - 1]);
      forall a, b | 0 <= a < b < |FromPairs(ps)| ensures KeyBefore(ps, FromPairs(ps)[a].0, FromPairs(ps)[b].0) {
        OrderStep(ps, ps[..|ps| - 1], a, b);
      }
    }
  }

  /** With distinct keys the dict is the pair sequence itself. */
  lemma {:induction false} FromDistinctPairs<K(!new), V(!new)>(ps: seq<(K, V)>)
    requires forall i, j :: 0 <= i < j < |ps| ==> ps[i].0 != ps[j].0
    ensures FromPairs(ps) == ps
    decreases |ps|
  {
    if |ps| > 0 {
      var n := |ps| - 1;
      FromDistinctPairs(ps[..n]);
      assert ps[n].0 !in Keys(ps[..n]);
      assert ps[..n] + [ps[n]] == ps;
    }
  }

  /** Reading back after `d[k] = v`: `k` gives `v`, every other key what it gave before. */
  lemma PutGet<K(!new), V(!new)>(d: Dict<K, V>, k: K, v: V)
    requires DistinctKeys(d)
    ensures Get(Put(d, k, v), k) == Some(v)
    ensures forall k' :: k' != k ==> Get(Put(d, k, v), k') == Get(d, k')
  {
    var r := Put(d, k, v);
    PutMembers(d, k, v);
    GetMembers(r, k);
    assert (k, v) in r;
    forall k' | k' != k ensures Get(r, k') == Get(d, k') {
      GetMembers(r, k');
      GetMembers(d, k');
      if Get(d, k').Some? {
        assert (k', Get(d, k').value) in r;
      }
    }
  }

  /** `d[k].append(x)` on a `defaultdict(list)`. */
  function AppendTo<K(==,!new), V(!new)>(d: Dict<K, seq<V>>, k: K, x: V): (r: Dict<K, seq<V>>)
    ensures Keys(r) == if k in Keys(d) then Keys(d) else Keys(d) + [k]
    ensures DistinctKeys(d) ==> DistinctKeys(r)
  {
    Put(d, k, Get(d, k).GetOr([]) + [x])
  }

  /** After `d[k].append(x)`, `k` holds its earlier values followed by `x`; other keys are unchanged. */
  lemma AppendToGet<K(!new), V(!new)>(d: Dict<K, seq<V>>, k: K, x: V)
    requires DistinctKeys(d)
    ensures Get(AppendTo(d, k, x), k) == Some(Get(d, k).GetOr([]) + [x])
    ensures forall k' :: k' != k ==> Get(AppendTo(d, k, x), k') == Get(d, k')
  {
    PutGet(d, k, Get(d, k).GetOr([]) + [x]);
  }

  /** Appending to an empty dict makes a one-entry dict. */
  lemma AppendToEmpty<K(!new), V(!new)>(k: K, x: V)
    ensures AppendTo([], k, x) == [(k, [x])]
  {
    var e: Dict<K, seq<V>> := [];
    assert Keys(e) == [] && Get(e, k) == None;
    assert Get(e, k).GetOr([]) + [x] == [x];
    assert Put(e, k, [x]) == e + [(k, [x])] == [(k, [x])];
  }

  /** `for x in xs: d[k].append(x)`. */
  function AppendAll<K(==,!new), V(!new)>(d: Dict<K, seq<V>>, k: K, xs: seq<V>): Dict<K, seq<V>>
    decreases |xs|
  {
    if |xs| == 0 then d else AppendAll(AppendTo(d, k, xs[0]), k, xs[1..])
  }

  /** Appending a run of values keeps the keys distinct and leaves the other keys alone. */
  lemma {:induction false} AppendAllKeeps<K(!new), V(!new)>(d: Dict<K, seq<V>>, k: K, xs: seq<V>)
    requires DistinctKeys(d)
    ensures DistinctKeys(AppendAll(d, k, xs))
    ensures forall k' :: k' != k ==> Get(AppendAll(d, k, xs), k') == Get(d, k')
    decreases |xs|
  {
    if |xs| > 0 {
      AppendToGet(d, k, xs[0]);
      AppendAllKeeps(AppendTo(d, k, xs[0]), k, xs[1..]);
    }
  }

  /** Storing a key twice is storing it once with the second value. */
  lemma PutPut<K(!new), V(!new)>(d: Dict<K, V>, k: K, a: V, b: V)
    ensures Put(Put(d, k, a), k, b) == Put(d, k, b)
  {
    var p := Put(d, k, a);
    assert k in Keys(p);
    if k !in Keys(d) {
      assert |p| == |d| + 1 && forall i :: 0 <= i < |d| ==> p[i] == d[i];
    }
  }

  lemma SplitFirst<V>(prior: seq<V>, xs: seq<V>)
    requires |xs| > 0
    ensures prior + xs == (prior + [xs[0]]) + xs[1..]
  {
    assert xs == [xs[0]] + xs[1..];
  }

  /** Storing a key right after appending to it overrides the append. */
  lemma AppendThenPut<K(!new), V(!new)>(d: Dict<K, seq<V>>, k: K, x: V, v: seq<V>)
    ensures Put(AppendTo(d, k, x), k, v) == Put(d, k, v)
  {
    PutPut(d, k, Get(d, k).GetOr([]) + [x], v);
  }

  /** Appending a run of values stores the key's earlier values followed by the run. */
  lemma {:induction false} AppendAllIsPut<K(!new), V(!new)>(d: Dict<K, seq<V>>, k: K, xs: seq<V>)
    requires DistinctKeys(d) && |xs| > 0
    ensures AppendAll(d, k, xs) == Put(d, k, Get(d, k).GetOr([]) + xs)
    decreases |xs|
  {
    var prior := Get(d, k).GetOr([]);
    var step := prior + [xs[0]];
    var d1 := AppendTo(d, k, xs[0]);
    assert AppendAll(d, k, xs) == AppendAll(d1, k, xs[1..]);
    if |xs| > 1 {
      assert AppendAll(d1, k, xs[1..]) == Put(d1, k, step + xs[1..]) by {
        AppendToGet(d, k, xs[0]);
        assert DistinctKeys(d1) && Get(d1, k) == Some(step);
        AppendAllIsPut(d1, k, xs[1..]);
      }
      SplitFirst(prior, xs);
      AppendThenPut(d, k, xs[0], step + xs[1..]);
    } else {
      assert xs == [xs[0]];
    }
  }

  /** Appending a run of values puts them after the key's earlier values, in order. */
  lemma AppendAllGet<K(!new), V(!new)>(d: Dict<K, seq<V>>, k: K, xs: seq<V>)
    requires DistinctKeys(d) && |xs| > 0
    ensures Get(AppendAll(d, k, xs), k) == Some(Get(d, k).GetOr([]) + xs)
  {
    AppendAllIsPut(d, k, xs);
    PutGet(d, k, Get(d, k).GetOr([]) + xs);
  }
}
