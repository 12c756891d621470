/** The bounded cache of the indexing engine: an ordered dictionary whose front is the least recently used entry. */
module LruCache {
  import opened RawImage

  /** The ordered dictionary: entries from least to most recently used, one per key. */
  type Entries<V> = seq<(string, V)>

  ghost predicate Distinct<V>(s: Entries<V>)
  {
    forall i, j :: 0 <= i < j < |s| ==> s[i].0 != s[j].0
  }

  ghost function Keys<V>(s: Entries<V>): set<string> { set e | e in s :: e.0 }

  /** The entries whose key is not in `ks`, in order. */
  function Without<V>(s: Entries<V>, ks: set<string>): Entries<V>
  {
    if s == [] then []
    else
      var rest := Without(s[..|s| - 1], ks);
      if s[|s| - 1].0 in ks then rest else rest + [s[|s| - 1]]
  }

  function Find<V>(s: Entries<V>, k: string): Option<V>
  {
    if s == [] then None
    else if s[|s| - 1].0 == k then Some(s[|s| - 1].1)
    else Find(s[..|s| - 1], k)
  }

  /** `d[k] = v; d.move_to_end(k)`. */
  function Put<V>(s: Entries<V>, k: string, v: V): Entries<V> { Without(s, {k}) + [(k, v)] }

  function Touch<V>(s: Entries<V>, k: string): Entries<V>
  {
    if Find(s, k).Some? then Put(s, k, Find(s, k).value) else s
  }

  function Evict<V>(s: Entries<V>, n: nat): Entries<V> { if |s| > n then s[|s| - n..] else s }

  function PutAll<V>(s: Entries<V>, items: Entries<V>): Entries<V>
  {
    if items == [] then s
    else Put(PutAll(s, items[..|items| - 1]), items[|items| - 1].0, items[|items| - 1].1)
  }

  lemma DistinctSnoc<V>(s: Entries<V>, e: (string, V))
    ensures Distinct(s + [e]) <==> Distinct(s) && forall x :: x in s ==> x.0 != e.0
  {
    var t := s + [e];
    if Distinct(t) {
      forall i | 0 <= i < |s| ensures s[i].0 != e.0 { assert t[i].0 != t[|s|].0; }
      forall i, j | 0 <= i < j < |s| ensures s[i].0 != s[j].0 { assert t[i].0 != t[j].0; }
    }
  }

  // ---- removing and finding ----

  lemma WithoutSnoc<V>(s: Entries<V>, e: (string, V), ks: set<string>)
    ensures Without(s + [e], ks) == if e.0 in ks then Without(s, ks) else Without(s, ks) + [e]
  {
    assert (s + [e])[..|s|] == s;
  }

  lemma {:induction false} WithoutConcat<V>(a: Entries<V>, b: Entries<V>, ks: set<string>)
    ensures Without(a + b, ks) == Without(a, ks) + Without(b, ks)
    decreases |b|
  {
    if b == [] {
      assert a + b == a;
    } else {
      var init, last := b[..|b| - 1], b[|b| - 1];
      assert a + b == (a + init) + [last] && b == init + [last];
      WithoutConcat(a, init, ks);
      hide Without;
      WithoutSnoc(a + init, last, ks);
      WithoutSnoc(init, last, ks);
    }
  }

  lemma {:induction false} WithoutTwice<V>(s: Entries<V>, a: set<string>, b: set<string>)
    ensures Without(Without(s, a), b) == Without(s, a + b)
  {
    if s == [] {
    } else {
      var init, last := s[..|s| - 1], s[|s| - 1];
      assert s == init + [last];
      WithoutTwice(init, a, b);
      hide Without;
      WithoutSnoc(init, last, a);
      WithoutSnoc(init, last, a + b);
      WithoutSnoc(Without(init, a), last, b);
    }
  }

  lemma {:induction false} WithoutMembers<V>(s: Entries<V>, ks: set<string>)
    ensures forall e :: e in Without(s, ks) <==> e in s && e.0 !in ks
    ensures |Without(s, ks)| <= |s|
  {
    if s == [] {
    } else {
      WithoutMembers(s[..|s| - 1], ks);
      assert s == s[..|s| - 1] + [s[|s| - 1]];
    }
  }

  lemma {:induction false} WithoutNone<V>(s: Entries<V>, ks: set<string>)
    requires forall e :: e in s ==> e.0 !in ks
    ensures Without(s, ks) == s
  {
    if s == [] {
    } else {
      var init, last := s[..|s| - 1], s[|s| - 1];
      assert s == init + [last];
      WithoutNone(init, ks);
    }
  }

  lemma {:induction false} WithoutAll<V>(s: Entries<V>, ks: set<string>)
    requires forall e :: e in s ==> e.0 in ks
    ensures Without(s, ks) == []
  {
    if s == [] {
    } else {
      var init, last := s[..|s| - 1], s[|s| - 1];
      assert s == init + [last];
      WithoutAll(init, ks);
    }
  }

  lemma {:induction false} WithoutDistinct<V>(s: Entries<V>, ks: set<string>)
    requires Distinct(s)
    ensures Distinct(Without(s, ks))
  {
    if s == [] {
    } else {
      var init, last := s[..|s| - 1], s[|s| - 1];
      assert s == init + [last];
      DistinctSnoc(init, last);
      WithoutDistinct(init, ks);
      WithoutMembers(init, ks);
      DistinctSnoc(Without(init, ks), last);
      assert last.0 !in ks ==> Distinct(Without(init, ks) + [last]);
    }
  }

  lemma {:induction false} FindMembers<V>(s: Entries<V>, k: string)
    ensures Find(s, k).None? <==> forall e :: e in s ==> e.0 != k
    ensures Find(s, k).Some? ==> (k, Find(s, k).value) in s
  {
    if s == [] {
    } else {
      FindMembers(s[..|s| - 1], k);
      assert s == s[..|s| - 1] + [s[|s| - 1]];
    }
  }

  lemma FindSnoc<V>(s: Entries<V>, e: (string, V), k: string)
    ensures Find(s + [e], k) == if e.0 == k then Some(e.1) else Find(s, k)
  {
    assert (s + [e])[..|s|] == s;
  }

  lemma {:induction false} FindWithout<V>(s: Entries<V>, ks: set<string>, k: string)
    ensures Find(Without(s, ks), k) == if k in ks then None else Find(s, k)
  {
    if s == [] {
    } else {
      var init, last := s[..|s| - 1], s[|s| - 1];
      FindWithout(init, ks, k);
      FindSnoc(Without(init, ks), last, k);
    }
  }

  /** In a dictionary at most one entry goes. */
  lemma {:induction false} WithoutOneSize<V>(s: Entries<V>, k: string)
    requires Distinct(s)
    ensures |Without(s, {k})| == |s| - if Find(s, k).Some? then 1 else 0
  {
    if s == [] {
    } else {
      var init, last := s[..|s| - 1], s[|s| - 1];
      WithoutOneSize(init, k);
      FindMembers(init, k);
    }
  }

  lemma PutDistinct<V>(s: Entries<V>, k: string, v: V)
    requires Distinct(s)
    ensures Distinct(Put(s, k, v))
    ensures |Put(s, k, v)| == |s| + if Find(s, k).Some? then 0 else 1
  {
    WithoutDistinct(s, {k});
    WithoutMembers(s, {k});
    WithoutOneSize(s, k);
    DistinctSnoc(Without(s, {k}), (k, v));
    assert Distinct(Without(s, {k}));
    assert forall e :: e in Without(s, {k}) ==> e.0 != k;
    assert Distinct(Without(s, {k}) + [(k, v)]);
  }

  /** What setting a key leaves: the key stands last with its value, and of the others exactly those stay behind which
      fewer than `n - 1` other entries stand. */
  lemma SetKeeps<V>(s: Entries<V>, k: string, v: V, n: nat, i: nat)
    requires Distinct(s) && n > 0 && i < |s| && s[i].0 != k
    ensures var r := Evict(Put(s, k, v), n);
      && 0 < |r| <= n && r[|r| - 1] == (k, v)
      && (s[i] in r <==> |Without(s[i + 1..], {k})| + 1 < n)
  {
    var a, b := s[..i], s[i + 1..];
    assert s == a + [s[i]] + b;
    WithoutConcat(a + [s[i]], b, {k});
    WithoutSnoc(a, s[i], {k});
    PutDistinct(s, k, v);
    var p, at := Put(s, k, v), |Without(a, {k})|;
    assert p == Without(a, {k}) + [s[i]] + Without(b, {k}) + [(k, v)];
    assert p[at] == s[i];
    hide Without, Put;
    SuffixHolds(p, at, if |p| > n then |p| - n else 0);
  }

  lemma SuffixHolds<V>(s: Entries<V>, at: nat, from: nat)
    requires Distinct(s) && at < |s| && from <= |s|
    ensures s[at] in s[from..] <==> from <= at
  {
    if from <= at { assert s[from..][at - from] == s[at]; }
  }

  // ---- one batch is its items one by one ----

  /** Evicting before a put makes no difference to evicting after it. */
  lemma EvictPut<V>(s: Entries<V>, k: string, v: V, n: nat)
    requires Distinct(s)
    ensures Evict(Put(Evict(s, n), k, v), n) == Evict(Put(s, k, v), n)
  {
    if |s| > n {
      var p, t := s[..|s| - n], s[|s| - n..];
      assert s == p + t;
      WithoutConcat(p, t, {k});
      PutDistinct(t, k, v);
      hide Without, Find;
      ConcatAssoc(Without(p, {k}), Without(t, {k}), [(k, v)]);
      EvictPrefix(Without(p, {k}), Put(t, k, v), n);
    }
  }

  lemma EvictPrefix<V>(a: Entries<V>, b: Entries<V>, n: nat)
    requires |b| >= n
    ensures Evict(a + b, n) == Evict(b, n)
  {}

  function OneByOne<V>(s: Entries<V>, items: Entries<V>, n: nat): Entries<V>
  {
    if items == [] then s
    else Evict(Put(OneByOne(s, items[..|items| - 1], n), items[|items| - 1].0, items[|items| - 1].1), n)
  }

  lemma {:induction false} PutAllDistinct<V>(s: Entries<V>, items: Entries<V>)
    requires Distinct(s)
    ensures Distinct(PutAll(s, items))
  {
    if items == [] {
    } else {
      var init, last := items[..|items| - 1], items[|items| - 1];
      PutAllDistinct(s, init);
      PutDistinct(PutAll(s, init), last.0, last.1);
    }
  }

  /** `set_many` leaves what setting its items one by one, with an eviction after each, would leave. */
  lemma {:induction false} BatchIsOneByOne<V>(s: Entries<V>, items: Entries<V>, n: nat)
    requires Distinct(s) && |s| <= n
    ensures Evict(PutAll(s, items), n) == OneByOne(s, items, n)
  {
    if items == [] {
    } else {
      var init, last := items[..|items| - 1], items[|items| - 1];
      BatchIsOneByOne(s, init, n);
      PutAllDistinct(s, init);
      EvictPut(PutAll(s, init), last.0, last.1, n);
    }
  }

  // ---- update in place, then move to the end ----

  /** `d[k] = v` alone: in place for a known key, at the end for a new one. */
  function Assign<V>(s: Entries<V>, k: string, v: V): Entries<V>
  {
    if s == [] then [(k, v)]
    else
      var init, last := s[..|s| - 1], s[|s| - 1];
      if last.0 == k then init + [(k, v)]
      else if Find(init, k).Some? then Assign(init, k, v) + [last]
      else s + [(k, v)]
  }

  function AssignAll<V>(s: Entries<V>, items: Entries<V>): Entries<V>
  {
    if items == [] then s
    else Assign(AssignAll(s, items[..|items| - 1]), items[|items| - 1].0, items[|items| - 1].1)
  }

  function TouchAll<V>(s: Entries<V>, items: Entries<V>): Entries<V>
  {
    if items == [] then s else Touch(TouchAll(s, items[..|items| - 1]), items[|items| - 1].0)
  }

  lemma {:induction false} AssignFinds<V>(s: Entries<V>, k: string, v: V, j: string)
    requires Distinct(s)
    ensures Find(Assign(s, k, v), j) == if j == k then Some(v) else Find(s, j)
  {
    if s == [] {
    } else {
      var init, last := s[..|s| - 1], s[|s| - 1];
      FindSnoc(init, (k, v), j);
      FindSnoc(s, (k, v), j);
      if last.0 != k && Find(init, k).Some? {
        AssignFinds(init, k, v, j);
        FindSnoc(Assign(init, k, v), last, j);
      }
    }
  }

  lemma {:induction false} AssignElsewhere<V>(s: Entries<V>, k: string, v: V, ks: set<string>)
    requires k in ks
    ensures Without(Assign(s, k, v), ks) == Without(s, ks)
  {
    if s == [] {
      assert Assign(s, k, v) == [] + [(k, v)];
      WithoutSnoc([], (k, v), ks);
    } else {
      var init, last := s[..|s| - 1], s[|s| - 1];
      if last.0 == k {
        WithoutSnoc(init, (k, v), ks);
      } else if Find(init, k).Some? {
        AssignElsewhere(init, k, v, ks);
        WithoutSnoc(Assign(init, k, v), last, ks);
      } else {
        WithoutSnoc(s, (k, v), ks);
      }
    }
  }

  lemma {:induction false} AssignKeys<V>(s: Entries<V>, k: string, v: V)
    requires Distinct(s)
    ensures Distinct(Assign(s, k, v))
    ensures forall e :: e in Assign(s, k, v) ==> e == (k, v) || e in s
  {
    if s == [] {
    } else {
      var init, last := s[..|s| - 1], s[|s| - 1];
      assert s == init + [last];
      DistinctSnoc(init, last);
      FindMembers(init, k);
      if last.0 == k {
        DistinctSnoc(init, (k, v));
      } else if Find(init, k).Some? {
        AssignKeys(init, k, v);
        DistinctSnoc(Assign(init, k, v), last);
      } else {
        DistinctSnoc(s, (k, v));
      }
    }
  }

  lemma {:induction false} AssignAllProperties<V>(s: Entries<V>, items: Entries<V>, j: string)
    requires Distinct(s) && Distinct(items)
    ensures Distinct(AssignAll(s, items))
    ensures Find(AssignAll(s, items), j) == if Find(items, j).Some? then Find(items, j) else Find(s, j)
    ensures Without(AssignAll(s, items), Keys(items)) == Without(s, Keys(items))
  {
    if items == [] {
      assert Keys(items) == {};
    } else {
      var init, last := items[..|items| - 1], items[|items| - 1];
      assert items == init + [last];
      DistinctSnoc(init, last);
      hide Distinct, Without, Assign, Keys;
      AssignAllProperties(s, init, j);
      AssignKeys(AssignAll(s, init), last.0, last.1);
      AssignFinds(AssignAll(s, init), last.0, last.1, j);
      KeysSnoc(init, last);
      AssignElsewhere(AssignAll(s, init), last.0, last.1, Keys(items));
      WithoutTwice(AssignAll(s, init), Keys(init), {last.0});
      WithoutTwice(s, Keys(init), {last.0});
    }
  }

  lemma KeysSnoc<V>(s: Entries<V>, e: (string, V))
    ensures Keys(s + [e]) == Keys(s) + {e.0}
  {
    assert e in s + [e];
    forall x | x in s ensures x in s + [e] {}
  }

  /** Putting distinct items moves them, in their order, to the end. */
  lemma {:induction false} PutAllIs<V>(s: Entries<V>, items: Entries<V>)
    requires Distinct(items)
    ensures PutAll(s, items) == Without(s, Keys(items)) + items
  {
    if items == [] {
      WithoutNone(s, Keys(items));
    } else {
      var init, last := items[..|items| - 1], items[|items| - 1];
      assert items == init + [last];
      PutAllIs(s, init);
      MoveLast(s, init, last);
    }
  }

  lemma MoveLast<V>(s: Entries<V>, init: Entries<V>, last: (string, V))
    requires Distinct(init + [last])
    ensures Without(Without(s, Keys(init)) + init, {last.0}) + [last]
      == Without(s, Keys(init + [last])) + (init + [last])
  {
    assert forall e :: e in init ==> e.0 !in {last.0} by {
      forall i | 0 <= i < |init| ensures init[i].0 != last.0 {
        assert (init + [last])[i] == init[i] && (init + [last])[|init|] == last;
      }
    }
    hide Without, Keys, Distinct;
    WithoutConcat(Without(s, Keys(init)), init, {last.0});
    WithoutNone(init, {last.0});
    WithoutTwice(s, Keys(init), {last.0});
    KeysSnoc(init, last);
    ConcatAssoc(Without(s, Keys(init + [last])), init, [last]);
  }

  lemma {:induction false} TouchAllIs<V>(s: Entries<V>, items: Entries<V>)
    requires Distinct(items) && forall i :: 0 <= i < |items| ==> Find(s, items[i].0) == Some(items[i].1)
    ensures TouchAll(s, items) == Without(s, Keys(items)) + items
  {
    if items == [] {
      WithoutNone(s, Keys(items));
    } else {
      var init, last := items[..|items| - 1], items[|items| - 1];
      assert items == init + [last];
      TouchAllIs(s, init);
      MoveLast(s, init, last);
      FindLast(s, init, last);
    }
  }

  lemma FindLast<V>(s: Entries<V>, init: Entries<V>, last: (string, V))
    requires Distinct(init + [last]) && Find(s, last.0) == Some(last.1)
    ensures Find(Without(s, Keys(init)) + init, last.0) == Some(last.1)
  {
    assert forall e :: e in init ==> e.0 != last.0 by {
      forall i | 0 <= i < |init| ensures init[i].0 != last.0 {
        assert (init + [last])[i] == init[i] && (init + [last])[|init|] == last;
      }
    }
    FindWithout(s, Keys(init), last.0);
    FindConcat(Without(s, Keys(init)), init, last.0);
  }

  lemma {:induction false} FindConcat<V>(a: Entries<V>, b: Entries<V>, k: string)
    requires forall e :: e in b ==> e.0 != k
    ensures Find(a + b, k) == Find(a, k)
    decreases |b|
  {
    if b == [] {
      assert a + b == a;
    } else {
      var init, last := b[..|b| - 1], b[|b| - 1];
      assert a + b == (a + init) + [last];
      FindConcat(a, init, k);
      FindSnoc(a + init, last, k);
    }
  }

  lemma {:induction false} FindOwn<V>(items: Entries<V>, i: nat)
    requires Distinct(items) && i < |items|
    ensures Find(items, items[i].0) == Some(items[i].1)
  {
    var init := items[..|items| - 1];
    if i >= |init| {
    } else {
      FindOwn(init, i);
    }
  }

  /** Updating all values first and moving all keys to the end afterwards is putting the items in order. */
  lemma UpdateThenMove<V>(s: Entries<V>, items: Entries<V>)
    requires Distinct(s) && Distinct(items)
    ensures TouchAll(AssignAll(s, items), items) == PutAll(s, items)
  {
    forall i | 0 <= i < |items|
      ensures Find(AssignAll(s, items), items[i].0) == Some(items[i].1)
    {
      AssignAllProperties(s, items, items[i].0);
      FindOwn(items, i);
    }
    AssignAllProperties(s, items, "");
    TouchAllIs(AssignAll(s, items), items);
    PutAllIs(s, items);
  }

  // ---- the cache ----

  class BoundedCache<V> {
    const maxSize: nat
    var cache: Entries<V>

    ghost predicate Valid()
      reads this
    {
      Distinct(cache) && |cache| <= maxSize
    }

    constructor (maxSize: nat)
      ensures Valid() && this.maxSize == maxSize && cache == []
    {
      this.maxSize := maxSize;
      cache := [];
    }

    method Get(key: string) returns (r: Option<V>)
      requires Valid()
      modifies this`cache
      ensures Valid() && cache == Touch(old(cache), key) && r == Find(old(cache), key)
    {
      r := Find(cache, key);
      if r.Some? {
        TouchKeeps(cache, key);
        cache := Touch(cache, key);
      }
    }

    method Set(key: string, value: V)
      requires Valid()
      modifies this`cache
      ensures Valid() && cache == Evict(Put(old(cache), key, value), maxSize)
    {
      PutDistinct(cache, key, value);
      AssignThenMove(cache, key, value);
      cache := Assign(cache, key, value);
      cache := Touch(cache, key);
      EvictLoop();
    }

    /** One batch: all values are updated, then all keys moved to the end, then one eviction. */
    method SetMany(items: Entries<V>)
      requires Valid() && Distinct(items)
      modifies this`cache
      ensures Valid() && cache == Evict(PutAll(old(cache), items), maxSize)
      ensures cache == OneByOne(old(cache), items, maxSize)
    {
      hide Evict, PutAll, OneByOne, Assign, Touch, Distinct;
      ghost var before := cache;
      BatchIsOneByOne(before, items, maxSize);
      UpdateThenMove(before, items);
      PutAllDistinct(before, items);
      UpdateAll(items);
      MoveAllToEnd(items);
      EvictLoop();
    }

    method UpdateAll(items: Entries<V>)
      modifies this`cache
      ensures cache == AssignAll(old(cache), items)
    {
      for i := 0 to |items|
        invariant cache == AssignAll(old(cache), items[..i])
      {
        assert items[..i + 1][..i] == items[..i] && items[..i + 1][i] == items[i];
        cache := Assign(cache, items[i].0, items[i].1);
      }
      assert items[..|items|] == items;
    }

    method MoveAllToEnd(items: Entries<V>)
      modifies this`cache
      ensures cache == TouchAll(old(cache), items)
    {
      for i := 0 to |items|
        invariant cache == TouchAll(old(cache), items[..i])
      {
        assert items[..i + 1][..i] == items[..i] && items[..i + 1][i] == items[i];
        cache := Touch(cache, items[i].0);
      }
      assert items[..|items|] == items;
    }

    method Delete(key: string)
      requires Valid()
      modifies this`cache
      ensures Valid() && cache == Without(old(cache), {key})
    {
      WithoutDistinct(cache, {key});
      WithoutMembers(cache, {key});
      cache := Without(cache, {key});
    }

    method Clear()
      modifies this`cache
      ensures Valid() && cache == []
    {
      cache := [];
    }

    /** The oldest entries are dropped one at a time until the rest fits. */
    method EvictLoop()
      requires Distinct(cache)
      modifies this`cache
      ensures Valid() && cache == Evict(old(cache), maxSize)
    {
      hide Distinct;
      ghost var before := cache;
      while |cache| > maxSize
        invariant cache == before[|before| - |cache|..] && |cache| <= |before|
        invariant |cache| >= Min(maxSize, |before|)
        decreases |cache|
      {
        DropTwice(before, |before| - |cache|);
        cache := cache[1..];
      }
      SuffixDistinct(before, |before| - |cache|);
    }
  }

  lemma DropTwice<V>(s: Entries<V>, n: nat)
    requires n < |s|
    ensures s[n..][1..] == s[n + 1..]
  {}

  lemma SuffixDistinct<V>(s: Entries<V>, n: nat)
    requires Distinct(s) && n <= |s|
    ensures Distinct(s[n..])
  {
    var t := s[n..];
    forall i, j | 0 <= i < j < |t| ensures t[i].0 != t[j].0 {
      assert s[n + i] == t[i] && s[n + j] == t[j];
    }
  }

  lemma TouchKeeps<V>(s: Entries<V>, k: string)
    requires Distinct(s)
    ensures Distinct(Touch(s, k)) && |Touch(s, k)| == |s|
  {
    if Find(s, k).Some? { PutDistinct(s, k, Find(s, k).value); }
  }

  lemma AssignThenMove<V>(s: Entries<V>, k: string, v: V)
    requires Distinct(s)
    ensures Touch(Assign(s, k, v), k) == Put(s, k, v)
  {
    AssignFinds(s, k, v, k);
    AssignElsewhere(s, k, v, {k});
  }
}
