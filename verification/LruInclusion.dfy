/** A smaller cache holds a part of what a larger one holds, over every trace of operations. */
module LruInclusion {
  import opened RawImage
  import opened LruCache

  datatype Op<V> =
    | Get(key: string)
    | Set(key: string, value: V)
    | SetMany(items: Entries<V>)
    | Delete(key: string)
    | Clear

  /** What one operation makes of the entries of a cache of size `n`. */
  function Apply<V>(s: Entries<V>, op: Op<V>, n: nat): Entries<V>
  {
    match op
    case Get(k) => Touch(s, k)
    case Set(k, v) => Evict(Put(s, k, v), n)
    case SetMany(items) => Evict(PutAll(s, items), n)
    case Delete(k) => Without(s, {k})
    case Clear => []
  }

  function Run<V>(ops: seq<Op<V>>, n: nat): Entries<V>
  {
    if ops == [] then [] else Apply(Run(ops[..|ops| - 1], n), ops[|ops| - 1], n)
  }

  /** `small` is `big` with the entries of some keys left out: the same values in the same relative recency.
      `n` and `m` are the sizes; what the larger cache holds beyond the smaller never exceeds their difference. */
  ghost predicate IncludedBy<V>(small: Entries<V>, big: Entries<V>, gone: set<string>, n: nat, m: nat)
  {
    && small == Without(big, gone) && Distinct(big)
    && |small| <= n && |big| <= m && n <= m && |big| - |small| <= m - n
  }

  ghost predicate Included<V>(small: Entries<V>, big: Entries<V>, n: nat, m: nat)
  {
    exists gone :: IncludedBy(small, big, gone, n, m)
  }

  lemma DropFront<V>(s: Entries<V>, n: nat)
    requires Distinct(s) && n <= |s|
    ensures s[|s| - n..] == Without(s, Keys(s[..|s| - n]))
  {
    var p, t := s[..|s| - n], s[|s| - n..];
    assert s == p + t;
    hide Distinct, Without, Keys;
    HalvesDisjoint(p, t);
    WithoutConcat(p, t, Keys(p));
    WithoutAll(p, Keys(p));
    WithoutNone(t, Keys(p));
  }

  lemma HalvesDisjoint<V>(p: Entries<V>, t: Entries<V>)
    requires Distinct(p + t)
    ensures forall e :: e in t ==> e.0 !in Keys(p)
    ensures forall e :: e in p ==> e.0 in Keys(p)
  {
    forall e | e in t
      ensures e.0 !in Keys(p)
    {
      var j :| 0 <= j < |t| && t[j] == e;
      forall i | 0 <= i < |p| ensures p[i].0 != e.0 { assert (p + t)[i] == p[i] && (p + t)[|p| + j] == e; }
    }
  }

  lemma EvictIncluded<V>(small: Entries<V>, big: Entries<V>, gone: set<string>, n: nat, m: nat)
    requires small == Without(big, gone) && Distinct(big) && n <= m && |big| - |small| <= m - n
    ensures Included(Evict(small, n), Evict(big, m), n, m)
  {
    var kept := Evict(big, m);
    var p := big[..|big| - |kept|];
    assert big == p + kept;
    SuffixDistinct(big, |p|);
    WithoutConcat(p, kept, gone);
    WithoutMembers(p, gone);
    WithoutMembers(kept, gone);
    var gone' := EvictKept(Without(p, gone), kept, gone, n);
    assert IncludedBy(Evict(small, n), Evict(big, m), gone', n, m);
  }

  /** What the smaller cache keeps, after dropping a front that includes `p`, is part of what the larger kept. */
  lemma EvictKept<V>(p: Entries<V>, kept: Entries<V>, gone: set<string>, n: nat) returns (gone': set<string>)
    requires Distinct(kept) && (|p| > 0 ==> |Without(kept, gone)| >= n)
    ensures Evict(p + Without(kept, gone), n) == Without(kept, gone')
  {
    var rest := Without(kept, gone);
    WithoutDistinct(kept, gone);
    hide Without, Distinct;
    if |p + rest| > n && |rest| >= n {
      EvictPrefix(p, rest, n);
      DropFront(rest, n);
      WithoutTwice(kept, gone, Keys(rest[..|rest| - n]));
      gone' := gone + Keys(rest[..|rest| - n]);
      assert Evict(rest, n) == rest[|rest| - n..];
    } else {
      assert p + rest == rest;
      gone' := gone;
    }
  }

  lemma PutIncluded<V>(small: Entries<V>, big: Entries<V>, n: nat, m: nat, k: string, v: V)
    requires Included(small, big, n, m)
    ensures Included(Evict(Put(small, k, v), n), Evict(Put(big, k, v), m), n, m)
  {
    var gone :| IncludedBy(small, big, gone, n, m);
    PutDistinct(big, k, v);
    WithoutDistinct(big, gone);
    PutDistinct(small, k, v);
    FindWithout(big, gone, k);
    WithoutTwice(big, gone, {k});
    WithoutTwice(big, {k}, gone - {k});
    assert gone + {k} == {k} + (gone - {k});
    WithoutSnoc(Without(big, {k}), (k, v), gone - {k});
    EvictIncluded(Put(small, k, v), Put(big, k, v), gone - {k}, n, m);
  }

  /** Touching a key commutes with leaving keys out. */
  lemma TouchWithout<V>(s: Entries<V>, gone: set<string>, k: string)
    ensures Touch(Without(s, gone), k) == Without(Touch(s, k), gone)
  {
    hide Without, Find;
    FindWithout(s, gone, k);
    if Find(s, k).Some? {
      var e := (k, Find(s, k).value);
      WithoutSnoc(Without(s, {k}), e, gone);
      WithoutTwice(s, gone, {k});
      WithoutTwice(s, {k}, gone);
      assert gone + {k} == {k} + gone;
      if k in gone { assert gone + {k} == gone; }
    }
  }

  lemma TouchIncluded<V>(small: Entries<V>, big: Entries<V>, n: nat, m: nat, k: string)
    requires Included(small, big, n, m)
    ensures Included(Touch(small, k), Touch(big, k), n, m)
  {
    hide Touch, Without, Distinct;
    var gone :| IncludedBy(small, big, gone, n, m);
    TouchKeeps(big, k);
    WithoutDistinct(big, gone);
    TouchKeeps(small, k);
    TouchWithout(big, gone, k);
    assert IncludedBy(Touch(small, k), Touch(big, k), gone, n, m);
  }

  lemma DeleteIncluded<V>(small: Entries<V>, big: Entries<V>, n: nat, m: nat, k: string)
    requires Included(small, big, n, m)
    ensures Included(Without(small, {k}), Without(big, {k}), n, m)
  {
    var gone :| IncludedBy(small, big, gone, n, m);
    WithoutDistinct(big, {k});
    WithoutDistinct(big, gone);
    WithoutOneSize(big, k);
    WithoutOneSize(small, k);
    FindWithout(big, gone, k);
    WithoutTwice(big, gone, {k});
    WithoutTwice(big, {k}, gone);
    assert gone + {k} == {k} + gone;
    assert IncludedBy(Without(small, {k}), Without(big, {k}), gone, n, m);
  }

  lemma EmptyIncluded<V>(n: nat, m: nat)
    requires n <= m
    ensures Included<V>([], [], n, m)
  {
    assert IncludedBy<V>([], [], {}, n, m);
  }

  lemma {:induction false} OneByOneIncluded<V>(small: Entries<V>, big: Entries<V>, n: nat, m: nat, items: Entries<V>)
    requires Included(small, big, n, m)
    ensures Included(OneByOne(small, items, n), OneByOne(big, items, m), n, m)
  {
    hide Included;
    if items == [] {
    } else {
      var init, last := items[..|items| - 1], items[|items| - 1];
      OneByOneIncluded(small, big, n, m, init);
      PutIncluded(OneByOne(small, init, n), OneByOne(big, init, m), n, m, last.0, last.1);
    }
  }

  /** Both caches are dictionaries within their sizes. */
  lemma IncludedAreValid<V>(small: Entries<V>, big: Entries<V>, n: nat, m: nat)
    requires Included(small, big, n, m)
    ensures Distinct(small) && Distinct(big) && |small| <= n <= m && |big| <= m
  {
    var gone :| IncludedBy(small, big, gone, n, m);
    WithoutDistinct(big, gone);
  }

  lemma ApplyIncluded<V>(small: Entries<V>, big: Entries<V>, n: nat, m: nat, op: Op<V>)
    requires Included(small, big, n, m)
    ensures Included(Apply(small, op, n), Apply(big, op, m), n, m)
  {
    hide Included, Distinct;
    IncludedAreValid(small, big, n, m);
    match op
    case Get(k) => TouchIncluded(small, big, n, m, k);
    case Set(k, v) => PutIncluded(small, big, n, m, k, v);
    case SetMany(items) =>
      BatchIsOneByOne(small, items, n);
      BatchIsOneByOne(big, items, m);
      OneByOneIncluded(small, big, n, m, items);
    case Delete(k) => DeleteIncluded(small, big, n, m, k);
    case Clear => EmptyIncluded<V>(n, m);
  }

  /** Over every trace of operations the smaller cache holds a part of what the larger one holds. */
  lemma {:induction false} LruInclusion<V>(ops: seq<Op<V>>, n: nat, m: nat)
    requires n <= m
    ensures Included(Run(ops, n), Run(ops, m), n, m)
  {
    hide Included;
    if ops == [] {
      EmptyIncluded<V>(n, m);
    } else {
      LruInclusion(ops[..|ops| - 1], n, m);
      ApplyIncluded(Run(ops[..|ops| - 1], n), Run(ops[..|ops| - 1], m), n, m, ops[|ops| - 1]);
    }
  }

  /** So a hit in the smaller cache is a hit, with the same value, in the larger. */
  lemma HitsIncluded<V>(ops: seq<Op<V>>, n: nat, m: nat, k: string)
    requires n <= m && Find(Run(ops, n), k).Some?
    ensures Find(Run(ops, m), k) == Find(Run(ops, n), k)
  {
    LruInclusion(ops, n, m);
    var gone :| IncludedBy(Run(ops, n), Run(ops, m), gone, n, m);
    FindWithout(Run(ops, m), gone, k);
  }
}
