/** The forensic timeline: events are appended, and sorted and deduplicated only when somebody reads them. */
module Timeline {
  import opened RawImage
  import StableSorting

  /** The last microsecond of the year 9999, counted from the start of the year 1. */
  const DATETIME_MAX: nat := 315_537_897_599_999_999

  /** Microseconds from the start of the year 1. */
  type Timestamp = t: nat | t <= DATETIME_MAX

  /** `details` stands for the fields sorting and deduplication do not look at. */
  datatype Event = Event(timestamp: Option<Timestamp>, eventType: string, source: string, filename: string,
                         mftReference: int, details: string)

  function SortTime(e: Event): int { if e.timestamp.Some? then e.timestamp.value else DATETIME_MAX }

  /** `a` may stand before `b`: comparison by time, then by MFT reference. */
  predicate KeyLe(a: Event, b: Event)
  {
    SortTime(a) < SortTime(b) || (SortTime(a) == SortTime(b) && a.mftReference <= b.mftReference)
  }

  predicate SameSortKey(a: Event, b: Event) { KeyLe(a, b) && KeyLe(b, a) }

  datatype Key = Key(timestamp: Option<Timestamp>, eventType: string, mftReference: int, filename: string,
    source: string)

  function KeyOf(e: Event): Key { Key(e.timestamp, e.eventType, e.mftReference, e.filename, e.source) }

  // ---- stable sorting ----

  function Insert(s: seq<Event>, x: Event): (r: seq<Event>)
    ensures |r| == |s| + 1
  {
    StableSorting.Insert(s, x, KeyLe)
  }

  function StableSort(s: seq<Event>): seq<Event> { StableSorting.StableSort(s, KeyLe) }

  ghost predicate AtMost(s: seq<Event>, x: Event) { forall e :: e in s ==> KeyLe(e, x) }

  ghost predicate Sorted(s: seq<Event>)
  {
    if s == [] then true else AtMost(s[..|s| - 1], s[|s| - 1]) && Sorted(s[..|s| - 1])
  }

  /** How `Insert` places an event. */
  lemma InsertIs(s: seq<Event>, x: Event)
    ensures Insert(s, x)
         == if s == [] then [x]
            else if KeyLe(s[|s| - 1], x) then s + [x]
            else Insert(s[..|s| - 1], x) + [s[|s| - 1]]
  {}

  lemma {:induction false} InsertMembers(s: seq<Event>, x: Event)
    ensures forall e :: e in Insert(s, x) <==> e in s || e == x
  {
    hide Insert, KeyLe;
    InsertIs(s, x);
    if s == [] {
    } else {
      InsertMembers(s[..|s| - 1], x);
      assert s == s[..|s| - 1] + [s[|s| - 1]];
    }
  }

  lemma {:induction false} InsertSorted(s: seq<Event>, x: Event)
    requires Sorted(s)
    ensures Sorted(Insert(s, x))
  {
    if s == [] {
    } else {
      var init, last := s[..|s| - 1], s[|s| - 1];
      if KeyLe(last, x) {
        assert (s + [x])[..|s|] == s;
        assert s == init + [last];
      } else {
        InsertSorted(init, x);
        InsertMembers(init, x);
        assert (Insert(init, x) + [last])[..|s|] == Insert(init, x);
      }
    }
  }

  lemma {:induction false} SortSorted(s: seq<Event>)
    ensures Sorted(StableSort(s))
  {
    if s == [] {
    } else {
      SortSorted(s[..|s| - 1]);
      InsertSorted(StableSort(s[..|s| - 1]), s[|s| - 1]);
    }
  }

  /** The events `p` picks out, in order. */
  function Filter(s: seq<Event>, p: Event -> bool): seq<Event>
  {
    if s == [] then []
    else
      var rest := Filter(s[..|s| - 1], p);
      if p(s[|s| - 1]) then rest + [s[|s| - 1]] else rest
  }

  lemma FilterSnoc(s: seq<Event>, x: Event, p: Event -> bool)
    ensures Filter(s + [x], p) == if p(x) then Filter(s, p) + [x] else Filter(s, p)
  {
    assert (s + [x])[..|s|] == s;
  }

  /** `p` picks events of one sort key only. */
  ghost predicate OneSortKey(p: Event -> bool) { forall a, b :: p(a) && p(b) ==> SameSortKey(a, b) }

  lemma {:induction false} InsertFilter(s: seq<Event>, x: Event, p: Event -> bool)
    requires OneSortKey(p)
    ensures Filter(Insert(s, x), p) == Filter(s + [x], p)
  {
    if s == [] {
      assert s + [x] == [x];
    } else {
      var init, last := s[..|s| - 1], s[|s| - 1];
      if !KeyLe(last, x) {
        assert Insert(s, x) == Insert(init, x) + [last] && s == init + [last];
        InsertFilter(init, x, p);
        hide Filter, Insert, KeyLe;
        FilterSnoc(init, last, p);
        FilterSnoc(init, x, p);
        FilterSnoc(Insert(init, x), last, p);
        FilterSnoc(s, x, p);
        NotBoth(last, x, p);
      }
    }
  }

  lemma NotBoth(a: Event, b: Event, p: Event -> bool)
    requires OneSortKey(p)
    ensures !KeyLe(a, b) ==> !(p(a) && p(b))
  {}

  /** Sorting is stable: events of one sort key keep the order they came in. */
  lemma {:induction false} SortStable(s: seq<Event>, p: Event -> bool)
    requires OneSortKey(p)
    ensures Filter(StableSort(s), p) == Filter(s, p)
  {
    if s == [] {
    } else {
      var init, last := s[..|s| - 1], s[|s| - 1];
      SortStable(init, p);
      InsertFilter(StableSort(init), last, p);
      FilterSnoc(StableSort(init), last, p);
    }
  }

  function WithSortKey(x: Event): Event -> bool { e => SameSortKey(e, x) }

  ghost predicate SameByKey(s: seq<Event>, t: seq<Event>)
  {
    forall x :: Filter(s, WithSortKey(x)) == Filter(t, WithSortKey(x))
  }

  lemma {:induction false} FilterMembers(s: seq<Event>, p: Event -> bool)
    ensures forall e :: e in Filter(s, p) <==> e in s && p(e)
  {
    if s == [] {
    } else {
      FilterMembers(s[..|s| - 1], p);
      assert s == s[..|s| - 1] + [s[|s| - 1]];
    }
  }

  lemma SortedLast(s: seq<Event>, e: Event)
    requires Sorted(s) && e in s
    ensures KeyLe(e, s[|s| - 1])
  {
    var init, last := s[..|s| - 1], s[|s| - 1];
    assert s == init + [last];
    assert AtMost(init, last);
    hide Sorted;
  }

  /** Two sorted lists that agree key by key agree, so a stable sort has one answer. */
  lemma {:induction false} SortedUnique(s: seq<Event>, t: seq<Event>)
    requires Sorted(s) && Sorted(t) && SameByKey(s, t)
    ensures s == t
    decreases |s|
  {
    hide SameByKey, Sorted;
    SameEmpty(s, t);
    if s == [] {
    } else {
      SortedInit(s);
      SortedInit(t);
      SameLast(s, t);
      var s', t', x := s[..|s| - 1], t[..|t| - 1], s[|s| - 1];
      assert s == s' + [x] && t == t' + [x];
      InitsAgree(s', t', x);
      SortedUnique(s', t');
    }
  }

  lemma InitsAgree(s: seq<Event>, t: seq<Event>, x: Event)
    requires SameByKey(s + [x], t + [x])
    ensures SameByKey(s, t)
  {
    forall z ensures Filter(s, WithSortKey(z)) == Filter(t, WithSortKey(z)) {
      assert Filter(s + [x], WithSortKey(z)) == Filter(t + [x], WithSortKey(z));
      CancelLast(s, t, x, WithSortKey(z));
    }
  }

  lemma CancelLast(s: seq<Event>, t: seq<Event>, x: Event, p: Event -> bool)
    requires Filter(s + [x], p) == Filter(t + [x], p)
    ensures Filter(s, p) == Filter(t, p)
  {
    FilterSnoc(s, x, p);
    FilterSnoc(t, x, p);
    hide Filter;
    var f, g := Filter(s, p), Filter(t, p);
    if p(x) {
      assert f == (f + [x])[..|f + [x]| - 1] && g == (g + [x])[..|g + [x]| - 1];
    }
  }

  lemma MembersAgree(s: seq<Event>, t: seq<Event>, e: Event)
    requires SameByKey(s, t) && e in s
    ensures e in t
  {
    FilterMembers(s, WithSortKey(e));
    FilterMembers(t, WithSortKey(e));
    assert Filter(s, WithSortKey(e)) == Filter(t, WithSortKey(e));
  }

  lemma SortedInit(s: seq<Event>)
    ensures Sorted(s) && s != [] ==> Sorted(s[..|s| - 1])
  {}

  lemma SameEmpty(s: seq<Event>, t: seq<Event>)
    requires SameByKey(s, t)
    ensures s == [] <==> t == []
  {
    if s != [] { MembersAgree(s, t, s[0]); }
    if t != [] { MembersAgree(t, s, t[0]); }
  }

  lemma SameLast(s: seq<Event>, t: seq<Event>)
    requires Sorted(s) && Sorted(t) && SameByKey(s, t) && s != [] && t != []
    ensures s[|s| - 1] == t[|t| - 1]
  {
    var x, y := s[|s| - 1], t[|t| - 1];
    FilterMembers(s, WithSortKey(x));
    FilterMembers(t, WithSortKey(x));
    FilterMembers(s, WithSortKey(y));
    FilterMembers(t, WithSortKey(y));
    assert x in Filter(t, WithSortKey(x)) && y in Filter(s, WithSortKey(y));
    SortedLast(t, x);
    SortedLast(s, y);
    assert SameSortKey(y, x);
  }

  /** Any sorted rearrangement that keeps events of equal key in their order is the one the timeline computes. */
  lemma StableSortIsUnique(s: seq<Event>, t: seq<Event>)
    requires Sorted(t) && SameByKey(t, s)
    ensures t == StableSort(s)
  {
    SortSorted(s);
    forall x ensures Filter(StableSort(s), WithSortKey(x)) == Filter(t, WithSortKey(x)) {
      SortStable(s, WithSortKey(x));
      assert Filter(t, WithSortKey(x)) == Filter(s, WithSortKey(x));
    }
    SortedUnique(t, StableSort(s));
  }

  // ---- deduplication ----

  ghost predicate HasKey(s: seq<Event>, k: Key) { exists i :: 0 <= i < |s| && KeyOf(s[i]) == k }

  /** The first event of every key. */
  ghost function Dedup(s: seq<Event>): seq<Event>
  {
    if s == [] then []
    else
      var init, last := s[..|s| - 1], s[|s| - 1];
      if HasKey(init, KeyOf(last)) then Dedup(init) else Dedup(init) + [last]
  }

  method Deduplicate(events: seq<Event>) returns (result: seq<Event>)
    ensures result == Dedup(events)
  {
    var seen: set<Key> := {};
    result := [];
    for i := 0 to |events|
      invariant result == Dedup(events[..i])
      invariant forall k :: k in seen <==> HasKey(events[..i], k)
    {
      DedupSnoc(events[..i], events[i]);
      assert events[..i + 1] == events[..i] + [events[i]];
      HasKeySnoc(events[..i], events[i]);
      var key := Key(events[i].timestamp, events[i].eventType, events[i].mftReference, events[i].filename,
        events[i].source);
      if key !in seen {
        seen := seen + {key};
        result := result + [events[i]];
      }
    }
    assert events[..|events|] == events;
  }

  lemma HasKeySnoc(s: seq<Event>, x: Event)
    ensures forall k :: HasKey(s + [x], k) <==> HasKey(s, k) || k == KeyOf(x)
  {
    forall k ensures HasKey(s + [x], k) <==> HasKey(s, k) || k == KeyOf(x) {
      if HasKey(s, k) {
        var i :| 0 <= i < |s| && KeyOf(s[i]) == k;
        assert KeyOf((s + [x])[i]) == k;
      }
      assert KeyOf((s + [x])[|s|]) == KeyOf(x);
    }
  }

  lemma DedupSnoc(s: seq<Event>, x: Event)
    ensures Dedup(s + [x]) == if HasKey(s, KeyOf(x)) then Dedup(s) else Dedup(s) + [x]
  {
    assert (s + [x])[..|s|] == s;
  }

  lemma {:induction false} DedupKeys(s: seq<Event>)
    ensures forall k :: HasKey(Dedup(s), k) <==> HasKey(s, k)
    ensures forall e :: e in Dedup(s) ==> e in s
  {
    if s == [] {
    } else {
      var init, last := s[..|s| - 1], s[|s| - 1];
      assert s == init + [last];
      DedupKeys(init);
      hide Dedup, HasKey;
      DedupSnoc(init, last);
      HasKeySnoc(init, last);
      HasKeySnoc(Dedup(init), last);
    }
  }

  lemma {:induction false} DedupIdempotent(s: seq<Event>)
    ensures Dedup(Dedup(s)) == Dedup(s)
  {
    if s == [] {
    } else {
      var init, last := s[..|s| - 1], s[|s| - 1];
      DedupIdempotent(init);
      DedupKeys(init);
      DedupSnoc(Dedup(init), last);
    }
  }

  lemma {:induction false} DedupSorted(s: seq<Event>)
    requires Sorted(s)
    ensures Sorted(Dedup(s))
  {
    if s == [] {
    } else {
      var init, last := s[..|s| - 1], s[|s| - 1];
      DedupSorted(init);
      DedupKeys(init);
      assert (Dedup(init) + [last])[..|Dedup(init)|] == Dedup(init);
    }
  }

  // ---- inserting and deduplicating commute ----

  lemma {:induction false} InsertKeys(s: seq<Event>, x: Event)
    ensures forall k :: HasKey(Insert(s, x), k) <==> HasKey(s, k) || k == KeyOf(x)
  {
    if s == [] {
      HasKeySnoc([], x);
      assert Insert([], x) == [] + [x];
    } else {
      var init, last := s[..|s| - 1], s[|s| - 1];
      assert s == init + [last];
      HasKeySnoc(init, last);
      if KeyLe(last, x) {
        HasKeySnoc(s, x);
      } else {
        InsertKeys(init, x);
        HasKeySnoc(Insert(init, x), last);
      }
    }
  }

  lemma InsertAtEnd(s: seq<Event>, x: Event)
    requires AtMost(s, x)
    ensures Insert(s, x) == s + [x]
  {}

  lemma InsertBeforeLast(s: seq<Event>, last: Event, x: Event)
    requires !KeyLe(last, x)
    ensures Insert(s + [last], x) == Insert(s, x) + [last]
  {
    assert (s + [last])[..|s|] == s;
  }

  lemma SortedBelow(s: seq<Event>, x: Event)
    requires Sorted(s) && s != [] && KeyLe(s[|s| - 1], x)
    ensures AtMost(s, x)
  {
    hide Sorted;
    forall e | e in s ensures KeyLe(e, x) { SortedLast(s, e); }
  }

  /** In a sorted list a new event is dropped by deduplication when its key is there, and else inserted in place. */
  lemma {:induction false} DedupInsert(s: seq<Event>, x: Event)
    requires Sorted(s)
    ensures Dedup(Insert(s, x)) == if HasKey(s, KeyOf(x)) then Dedup(s) else Insert(Dedup(s), x)
  {
    if s == [] {
      assert Insert([], x) == [] + [x];
      DedupSnoc([], x);
    } else {
      var init, last := s[..|s| - 1], s[|s| - 1];
      assert s == init + [last];
      if KeyLe(last, x) {
        SortedBelow(s, x);
        DedupKeys(s);
        InsertAtEnd(Dedup(s), x);
        DedupSnoc(s, x);
      } else {
        DedupInsert(init, x);
        DedupInsertBefore(init, last, x);
      }
    }
  }

  lemma DedupInsertBefore(init: seq<Event>, last: Event, x: Event)
    requires !KeyLe(last, x)
    requires Dedup(Insert(init, x)) == if HasKey(init, KeyOf(x)) then Dedup(init) else Insert(Dedup(init), x)
    ensures Dedup(Insert(init + [last], x))
         == if HasKey(init + [last], KeyOf(x)) then Dedup(init + [last]) else Insert(Dedup(init + [last]), x)
  {
    DifferentKeys(last, x);
    hide Dedup, HasKey, Insert, KeyLe, KeyOf;
    InsertBeforeLast(init, last, x);
    InsertBeforeLast(Dedup(init), last, x);
    InsertKeys(init, x);
    HasKeySnoc(init, last);
    DedupSnoc(init, last);
    DedupSnoc(Insert(init, x), last);
  }

  lemma DifferentKeys(a: Event, b: Event)
    ensures !KeyLe(a, b) ==> KeyOf(a) != KeyOf(b)
  {}

  // ---- building early changes nothing ----

  /** What a reader gets once everything in `s` has been added. */
  ghost function Final(s: seq<Event>): seq<Event> { Dedup(StableSort(s)) }

  ghost function FinalAdd(d: seq<Event>, x: Event): seq<Event> { if HasKey(d, KeyOf(x)) then d else Insert(d, x) }

  lemma FinalSnoc(s: seq<Event>, x: Event)
    ensures Final(s + [x]) == FinalAdd(Final(s), x)
  {
    assert (s + [x])[..|s|] == s;
    SortSorted(s);
    DedupInsert(StableSort(s), x);
    DedupKeys(StableSort(s));
  }

  lemma {:induction false} SortOfSorted(s: seq<Event>)
    requires Sorted(s)
    ensures StableSort(s) == s
  {
    if s == [] {
    } else {
      var init, last := s[..|s| - 1], s[|s| - 1];
      SortOfSorted(init);
      InsertAtEnd(init, last);
      assert s == init + [last];
    }
  }

  lemma FinalOfFinal(s: seq<Event>)
    ensures Final(Final(s)) == Final(s)
  {
    SortSorted(s);
    DedupSorted(StableSort(s));
    SortOfSorted(Final(s));
    DedupIdempotent(StableSort(s));
  }

  /** Building the timeline before more events come makes no difference to what is built in the end. */
  lemma {:induction false} BuildEarly(a: seq<Event>, b: seq<Event>)
    ensures Final(Final(a) + b) == Final(a + b)
    decreases |b|
  {
    if b == [] {
      assert Final(a) + b == Final(a) && a + b == a;
      FinalOfFinal(a);
    } else {
      var init, last := b[..|b| - 1], b[|b| - 1];
      assert a + b == (a + init) + [last] && Final(a) + b == (Final(a) + init) + [last];
      BuildEarly(a, init);
      FinalSnoc(a + init, last);
      FinalSnoc(Final(a) + init, last);
    }
  }

  class Timeline {
    var events: seq<Event>
    var built: bool
    /** Every event ever added, in the order of adding. */
    ghost var history: seq<Event>

    ghost predicate Valid()
      reads this
    {
      Final(events) == Final(history) && (built ==> events == Final(history))
    }

    constructor ()
      ensures Valid() && history == []
    {
      events, built, history := [], false, [];
    }

    method AddEvent(event: Event)
      requires Valid()
      modifies this
      ensures Valid() && history == old(history) + [event]
    {
      FinalSnoc(events, event);
      FinalSnoc(history, event);
      events := events + [event];
      built := false;
      history := history + [event];
    }

    method AddEvents(more: seq<Event>)
      requires Valid()
      modifies this
      ensures Valid() && history == old(history) + more
    {
      BuildEarly(events, more);
      BuildEarly(history, more);
      events := events + more;
      built := false;
      history := history + more;
    }

    /** The `events` property.  Whenever and however often it was read before, the answer is one stable sort and one
        deduplication of everything ever added. */
    method Events() returns (r: seq<Event>)
      requires Valid()
      modifies this`events, this`built
      ensures Valid() && r == Final(history)
    {
      if !built {
        Build();
      }
      return events;
    }

    method Build()
      requires Valid()
      modifies this`events, this`built
      ensures Valid() && built
    {
      FinalOfFinal(history);
      events := StableSort(events);
      events := Deduplicate(events);
      built := true;
    }
  }

  // ---- what a reader sees ----

  function WithKey(k: Key): Event -> bool { e => KeyOf(e) == k }

  /** Of the events with one key, the timeline shows exactly one: the first that was added. */
  lemma FirstAddedSurvives(s: seq<Event>, k: Key)
    ensures Filter(Final(s), WithKey(k)) == Take(Filter(s, WithKey(k)), 1)
  {
    SortStable(s, WithKey(k));
    DedupFilter(StableSort(s), k);
  }

  lemma {:induction false} DedupFilter(s: seq<Event>, k: Key)
    ensures Filter(Dedup(s), WithKey(k)) == Take(Filter(s, WithKey(k)), 1)
  {
    if s == [] {
    } else {
      var init, last := s[..|s| - 1], s[|s| - 1];
      assert s == init + [last];
      DedupFilter(init, k);
      KeyIffFiltered(init, KeyOf(last));
      hide Filter, HasKey, Dedup;
      DedupSnoc(init, last);
      FilterSnoc(init, last, WithKey(k));
      FilterSnoc(Dedup(init), last, WithKey(k));
      TakeOneMore(Filter(init, WithKey(k)), last);
    }
  }

  lemma TakeOneMore(s: seq<Event>, x: Event)
    ensures Take(s + [x], 1) == if s == [] then [x] else Take(s, 1)
  {}

  lemma KeyIffFiltered(s: seq<Event>, k: Key)
    ensures HasKey(s, k) <==> Filter(s, WithKey(k)) != []
  {
    FilterMembers(s, WithKey(k));
    if HasKey(s, k) {
      var i :| 0 <= i < |s| && KeyOf(s[i]) == k;
      assert s[i] in Filter(s, WithKey(k));
    }
    if Filter(s, WithKey(k)) != [] {
      assert Filter(s, WithKey(k))[0] in Filter(s, WithKey(k));
    }
  }

  lemma FinalIsSorted(s: seq<Event>)
    ensures Sorted(Final(s))
  {
    SortSorted(s);
    DedupSorted(StableSort(s));
  }

  lemma {:induction false} SortedPair(s: seq<Event>, i: nat, j: nat)
    requires Sorted(s) && i < j < |s|
    ensures KeyLe(s[i], s[j])
    decreases |s|
  {
    var init, last := s[..|s| - 1], s[|s| - 1];
    if j == |s| - 1 {
      SortedLast(s, s[i]);
    } else {
      SortedInit(s);
      SortedPair(init, i, j);
    }
  }

  /** Behind an event without a time stand only others, and events of the very last microsecond. */
  lemma UntimedComeLast(s: seq<Event>, i: nat, j: nat)
    requires i < j < |Final(s)| && Final(s)[i].timestamp.None?
    ensures Final(s)[j].timestamp.None? || Final(s)[j].timestamp == Some(DATETIME_MAX)
  {
    hide Final, Sorted;
    FinalIsSorted(s);
    SortedPair(Final(s), i, j);
  }

  // ---- the same in the fields of the events ----

  /** Shown events stand in the order of their times, those without one as if at the last microsecond there is, and at
      equal times in the order of their MFT references. */
  lemma ShownInOrder(s: seq<Event>, i: nat, j: nat)
    requires i < j < |Final(s)|
    ensures var a, b := Final(s)[i], Final(s)[j];
      var t := if a.timestamp.Some? then a.timestamp.value else 315_537_897_599_999_999;
      var u := if b.timestamp.Some? then b.timestamp.value else 315_537_897_599_999_999;
      t < u || (t == u && a.mftReference <= b.mftReference)
  {
    hide Final, Sorted;
    FinalIsSorted(s);
    SortedPair(Final(s), i, j);
  }

  lemma {:induction false} FilterFirst(s: seq<Event>, p: Event -> bool, e: Event)
    requires p(e)
    ensures Filter(s, p) != [] && Filter(s, p)[0] == e
       <==> exists i :: 0 <= i < |s| && s[i] == e && forall j :: 0 <= j < i ==> !p(s[j])
  {
    if s == [] {
    } else {
      var init, last := s[..|s| - 1], s[|s| - 1];
      assert s == init + [last];
      FilterFirst(init, p, e);
      FilterMembers(init, p);
      if Filter(init, p) == [] {
        forall j | 0 <= j < |init| ensures !p(s[j]) { assert init[j] in init; }
      } else {
        var f := Filter(init, p)[0];
        assert f in init && p(f);
      }
    }
  }

  /** An event is shown exactly when it was added before every other event of the same time, type, MFT reference, file
      name and source. */
  lemma ShownIffFirst(s: seq<Event>, e: Event)
    ensures e in Final(s) <==>
      exists i :: 0 <= i < |s| && s[i] == e && forall j :: 0 <= j < i ==>
        !(s[j].timestamp == e.timestamp && s[j].eventType == e.eventType && s[j].mftReference == e.mftReference
          && s[j].filename == e.filename && s[j].source == e.source)
  {
    var p := WithKey(KeyOf(e));
    FirstAddedSurvives(s, KeyOf(e));
    FilterMembers(Final(s), p);
    FilterFirst(s, p, e);
    hide Final, Filter;
    assert forall f :: p(f) <==>
      f.timestamp == e.timestamp && f.eventType == e.eventType && f.mftReference == e.mftReference
      && f.filename == e.filename && f.source == e.source;
  }

  /** And no two shown events agree in all five. */
  lemma ShownOnce(s: seq<Event>, i: nat, j: nat)
    requires i < j < |Final(s)|
    ensures var a, b := Final(s)[i], Final(s)[j];
      !(a.timestamp == b.timestamp && a.eventType == b.eventType && a.mftReference == b.mftReference
        && a.filename == b.filename && a.source == b.source)
  {
    var p := WithKey(KeyOf(Final(s)[i]));
    FirstAddedSurvives(s, KeyOf(Final(s)[i]));
    hide Final;
    if p(Final(s)[j]) { FilterTwo(Final(s), p, i, j); }
  }

  lemma {:induction false} FilterTwo(s: seq<Event>, p: Event -> bool, i: nat, j: nat)
    requires i < j < |s| && p(s[i]) && p(s[j])
    ensures |Filter(s, p)| >= 2
    decreases |s|
  {
    var init := s[..|s| - 1];
    if j == |s| - 1 {
      FilterMembers(init, p);
      assert init[i] in init;
    } else {
      FilterTwo(init, p, i, j);
    }
  }
}
