/**
 Python's `dict` as an association list. Keys keep their insertion order;
 assigning to a key that is already present updates its value in place,
 and a new key is appended at the end.
 */
module OrderedMap {
  import opened Wrappers

  /** No key occurs twice, as in a real `dict`. */
  predicate DistinctKeys<K(==), V>(m: seq<(K, V)>) {
    forall i, j :: 0 <= i < j < |m| ==> m[i].0 != m[j].0
  }

  /** Python's `m.get(k)`: the value stored under `k`, if any. */
  function Get<K(==), V>(m: seq<(K, V)>, k: K): (r: Option<V>)
    ensures r.None? <==> forall i :: 0 <= i < |m| ==> m[i].0 != k
    ensures r.Some? ==> exists i :: 0 <= i < |m| && m[i] == (k, r.value)
  {
    if |m| == 0 then None
    else if m[0].0 == k then Some(m[0].1)
    else
      var r := Get(m[1..], k);
      assert forall i :: 1 <= i < |m| ==> m[i] == m[1..][i - 1];
      r
  }

  lemma GetCons<K, V>(x: (K, V), m: seq<(K, V)>, k: K)
    ensures Get([x] + m, k) == if x.0 == k then Some(x.1) else Get(m, k)
  {
    assert ([x] + m)[1..] == m;
  }

  /** Python's `m[k] = v`: an existing key keeps its position, a new key goes last. */
  function Put<K(==), V>(m: seq<(K, V)>, k: K, v: V): (r: seq<(K, V)>)
    ensures |m| <= |r| <= |m| + 1
    ensures forall i :: 0 <= i < |m| ==> r[i].0 == m[i].0
    ensures forall i :: |m| <= i < |r| ==> r[i] == (k, v)
    decreases |m|
  {
    if |m| == 0 then [(k, v)]
    else if m[0].0 == k then [(k, v)] + m[1..]
    else [m[0]] + Put(m[1..], k, v)
  }

  /** After `m[k] = v`, `k` maps to `v`, every other key keeps its value, and the
      dict grows by one exactly when `k` was new. */
  lemma {:induction false} PutGet<K, V>(m: seq<(K, V)>, k: K, v: V)
    ensures Get(Put(m, k, v), k) == Some(v)
    ensures forall k' :: k' != k ==> Get(Put(m, k, v), k') == Get(m, k')
    ensures |Put(m, k, v)| == if Get(m, k).Some? then |m| else |m| + 1
    decreases |m|
  {
    if |m| == 0 {
      assert Put(m, k, v) == [(k, v)];
    } else {
      assert m == [m[0]] + m[1..];
      var t := if m[0].0 == k then m[1..] else Put(m[1..], k, v);
      var x := if m[0].0 == k then (k, v) else m[0];
      assert Put(m, k, v) == [x] + t;
      if m[0].0 != k {
        PutGet(m[1..], k, v);
      }
      forall k'
        ensures Get([x] + t, k') == if x.0 == k' then Some(x.1) else Get(t, k')
        ensures Get(m, k') == if m[0].0 == k' then Some(m[0].1) else Get(m[1..], k')
      {
        GetCons(x, t, k');
        GetCons(m[0], m[1..], k');
      }
    }
  }

  /** `m[k] = v` keeps the keys distinct. */
  lemma PutDistinct<K, V>(m: seq<(K, V)>, k: K, v: V)
    requires DistinctKeys(m)
    ensures DistinctKeys(Put(m, k, v))
  {
    PutGet(m, k, v);
  }

  /** `entry` turns item `x` into an entry with key `k`. */
  predicate Yields<T, K(==), V>(entry: T -> Option<(K, V)>, x: T, k: K) {
    entry(x).Some? && entry(x).value.0 == k
  }

  /**
   The dict built by a loop that runs `if entry(x) is (k, v): m[k] = v` over `items`:
   one entry per line of a mapping file, later lines overwriting earlier ones.
   */
  function Collect<T, K(==), V>(items: seq<T>, entry: T -> Option<(K, V)>): (m: seq<(K, V)>)
    ensures DistinctKeys(m)
    decreases |items|
  {
    if |items| == 0 then []
    else
      var m0 := Collect(items[..|items| - 1], entry);
      match entry(items[|items| - 1])
      case None => m0
      case Some(kv) =>
        PutDistinct(m0, kv.0, kv.1);
        Put(m0, kv.0, kv.1)
  }

  /** The position of the last item that yields key `k`. */
  function LastYield<T, K(==), V>(items: seq<T>, entry: T -> Option<(K, V)>, k: K): (r: Option<nat>)
    ensures r.None? <==> forall i :: 0 <= i < |items| ==> !Yields(entry, items[i], k)
    ensures r.Some? ==> r.value < |items| && Yields(entry, items[r.value], k)
    ensures r.Some? ==> forall j :: r.value < j < |items| ==> !Yields(entry, items[j], k)
    decreases |items|
  {
    if |items| == 0 then None
    else if Yields(entry, items[|items| - 1], k) then Some(|items| - 1)
    else
      var r := LastYield(items[..|items| - 1], entry, k);
      assert forall i :: 0 <= i < |items| - 1 ==> items[i] == items[..|items| - 1][i];
      r
  }

  /** The position of the first item that yields key `k`. */
  function FirstYield<T, K(==), V>(items: seq<T>, entry: T -> Option<(K, V)>, k: K): (r: Option<nat>)
    ensures r.None? <==> forall i :: 0 <= i < |items| ==> !Yields(entry, items[i], k)
    ensures r.Some? ==> r.value < |items| && Yields(entry, items[r.value], k)
    ensures r.Some? ==> forall j :: 0 <= j < r.value ==> !Yields(entry, items[j], k)
    decreases |items|
  {
    if |items| == 0 then None
    else
      var init := items[..|items| - 1];
      assert forall i :: 0 <= i < |items| - 1 ==> items[i] == init[i];
      match FirstYield(init, entry, k)
      case Some(r) => Some(r)
      case None => if Yields(entry, items[|items| - 1], k) then Some(|items| - 1) else None
  }

  /** Every key of `m` is yielded by some item, and the keys come in the order of their first items. */
  predicate InFirstYieldOrder<T, K(==), V>(items: seq<T>, entry: T -> Option<(K, V)>, m: seq<(K, V)>) {
    && (forall i :: 0 <= i < |m| ==> FirstYield(items, entry, m[i].0).Some?)
    && (forall i, j :: 0 <= i < j < |m| ==>
          FirstYield(items, entry, m[i].0).value < FirstYield(items, entry, m[j].0).value)
  }

  /**
   A key enters the dict when its first item is read and keeps that place when later
   items overwrite its value: the keys are in the order of their first items.
   */
  lemma {:induction false} CollectInFirstYieldOrder<T, K, V>(items: seq<T>, entry: T -> Option<(K, V)>)
    ensures InFirstYieldOrder(items, entry, Collect(items, entry))
    decreases |items|
  {
    if |items| > 0 {
      var init := items[..|items| - 1];
      var m0 := Collect(init, entry);
      CollectInFirstYieldOrder(init, entry);
      match entry(items[|items| - 1])
      case None =>
        OrderKept(items, entry, m0, m0);
      case Some(kv) =>
        var m := Put(m0, kv.0, kv.1);
        PutGet(m0, kv.0, kv.1);
        if Get(m0, kv.0).Some? {
          OrderKept(items, entry, m0, m);
        } else {
          CollectLastWins(init, entry, kv.0);
          OrderAppended(items, entry, m0, m, kv.0);
        }
    }
  }

  /** One more item moves no key's first item. */
  lemma FirstYieldOfInit<T, K, V>(items: seq<T>, entry: T -> Option<(K, V)>, k: K)
    requires |items| > 0 && FirstYield(items[..|items| - 1], entry, k).Some?
    ensures FirstYield(items, entry, k) == FirstYield(items[..|items| - 1], entry, k)
  {
  }

  /** Keys already in order over the first items stay in order when one more item is read. */
  lemma OrderKept<T, K, V>(items: seq<T>, entry: T -> Option<(K, V)>, m0: seq<(K, V)>, m: seq<(K, V)>)
    requires |items| > 0 && InFirstYieldOrder(items[..|items| - 1], entry, m0)
    requires |m| == |m0| && forall i :: 0 <= i < |m| ==> m[i].0 == m0[i].0
    ensures InFirstYieldOrder(items, entry, m)
  {
    forall i | 0 <= i < |m| ensures FirstYield(items, entry, m[i].0) == FirstYield(items[..|items| - 1], entry, m0[i].0) {
      FirstYieldOfInit(items, entry, m0[i].0);
    }
  }

  /** A key first yielded by the last item goes after every key yielded earlier. */
  lemma OrderAppended<T, K, V>(items: seq<T>, entry: T -> Option<(K, V)>, m0: seq<(K, V)>, m: seq<(K, V)>, k: K)
    requires |items| > 0 && InFirstYieldOrder(items[..|items| - 1], entry, m0)
    requires LastYield(items[..|items| - 1], entry, k).None? && Yields(entry, items[|items| - 1], k)
    requires |m| == |m0| + 1 && m[|m0|].0 == k
    requires forall i :: 0 <= i < |m0| ==> m[i].0 == m0[i].0
    ensures InFirstYieldOrder(items, entry, m)
  {
    var init := items[..|items| - 1];
    assert FirstYield(init, entry, k).None?;
    assert FirstYield(items, entry, k) == Some(|init|);
    forall i | 0 <= i < |m0| ensures FirstYield(items, entry, m[i].0) == FirstYield(init, entry, m0[i].0) {
      FirstYieldOfInit(items, entry, m0[i].0);
    }
    forall i, j | 0 <= i < j < |m|
      ensures FirstYield(items, entry, m[i].0).value < FirstYield(items, entry, m[j].0).value
    {
      if j == |m0| {
        assert FirstYield(init, entry, m0[i].0).value < |init|;
      }
    }
  }

  /**
   Later items overwrite earlier ones: the value stored under `k` is the one
   yielded by the last item with key `k`, and `k` is absent when no item yields it.
   */
  lemma {:induction false} CollectLastWins<T, K, V>(items: seq<T>, entry: T -> Option<(K, V)>, k: K)
    ensures LastYield(items, entry, k).None? ==> Get(Collect(items, entry), k).None?
    ensures LastYield(items, entry, k).Some? ==>
      Get(Collect(items, entry), k) == Some(entry(items[LastYield(items, entry, k).value]).value.1)
    decreases |items|
  {
    if |items| > 0 {
      var init := items[..|items| - 1];
      CollectLastWins(init, entry, k);
      assert forall i :: 0 <= i < |items| - 1 ==> items[i] == init[i];
      match entry(items[|items| - 1])
      case None =>
      case Some(kv) => PutGet(Collect(init, entry), kv.0, kv.1);
    }
  }

  /** Every pair of the loaded dict is the entry of some item: the loop stores nothing else. */
  lemma CollectEntries<T, K, V>(items: seq<T>, entry: T -> Option<(K, V)>)
    ensures forall i :: 0 <= i < |Collect(items, entry)| ==>
      exists j :: 0 <= j < |items| && entry(items[j]) == Some(Collect(items, entry)[i])
  {
    var m := Collect(items, entry);
    forall i | 0 <= i < |m| ensures exists j :: 0 <= j < |items| && entry(items[j]) == Some(m[i]) {
      var k := m[i].0;
      CollectLastWins(items, entry, k);
      var r := Get(m, k);
      assert r.Some?;
      var i' :| 0 <= i' < |m| && m[i'] == (k, r.value);
      assert i' == i;
      var j := LastYield(items, entry, k).value;
      assert entry(items[j]) == Some(m[i]);
    }
  }
}
