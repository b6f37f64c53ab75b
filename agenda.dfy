/** The agenda views: which appointments are listed, grouped by day, and the days of the week strip. */
module Agenda {
  import opened TimeUtils
  import opened Records
  import opened Sorting

  /** `dia` or `semana`. */
  datatype AgendaMode = DayMode | WeekMode

  /**
    * agendaFiltrada: the appointments of one day. In week mode that day is the
    * week's focus day, not the whole week.
    */
  function FilteredAgenda(all: seq<Appointment>, mode: AgendaMode, selectedDate: DayKey, weekFocusDate: DayKey): (r: seq<Appointment>)
    ensures forall a :: a in r ==> a.day == (if mode == WeekMode then weekFocusDate else selectedDate)
    ensures forall a :: a in all && a.day == (if mode == WeekMode then weekFocusDate else selectedDate) ==> a in r
  {
    OnDay(all, if mode == WeekMode then weekFocusDate else selectedDate)
  }

  /** weekDays: the seven days of the week strip, Monday first. */
  function WeekDays(selectedDate: DayKey): (days: seq<DayKey>)
    ensures |days| == 7 && days[0] == StartOfWeek(selectedDate) && days[6] == EndOfWeek(selectedDate)
    ensures forall i :: 0 < i < 7 ==> days[i] == days[i - 1] + 1
    ensures selectedDate in days
  {
    var days := seq(7, i => StartOfWeek(selectedDate) + i);
    assert days[selectedDate - StartOfWeek(selectedDate)] == selectedDate;
    days
  }

  lemma {:induction false} OnDayAppend(a: seq<Appointment>, b: seq<Appointment>, day: DayKey)
    ensures OnDay(a + b, day) == OnDay(a, day) + OnDay(b, day)
  {
    if a != [] {
      assert (a + b)[1..] == a[1..] + b;
      OnDayAppend(a[1..], b, day);
    } else {
      assert a + b == b;
    }
  }

  function DayOf(group: (DayKey, seq<Appointment>)): int {
    group.0
  }

  /** Appending one appointment extends the list of its own day and no other. */
  lemma OnDaySnoc(items: seq<Appointment>, item: Appointment, d: DayKey)
    ensures OnDay(items + [item], d) == OnDay(items, d) + (if item.day == d then [item] else [])
  {
    OnDayAppend(items, [item], d);
    assert OnDay([item], d) == (if item.day == d then [item] else []) + OnDay([], d);
  }

  /** A day none of the appointments falls on has an empty list. */
  lemma OnDayEmpty(items: seq<Appointment>, d: DayKey)
    requires forall j :: 0 <= j < |items| ==> items[j].day != d
    ensures OnDay(items, d) == []
  {
  }

  lemma PrefixSnoc(items: seq<Appointment>, i: int)
    requires 0 <= i < |items|
    ensures items[..i + 1] == items[..i] + [items[i]]
  {
  }

  /** The days of `items` in the order they are first seen, each once: the key order of a Map filled by `set`. */
  function FirstSeenDays(items: seq<Appointment>): (days: seq<DayKey>)
    ensures forall d :: d in days <==> exists j :: 0 <= j < |items| && items[j].day == d
  {
    if items == [] then []
    else
      var earlier := FirstSeenDays(items[..|items| - 1]);
      var d := items[|items| - 1].day;
      assert forall j :: 0 <= j < |items| - 1 ==> items[..|items| - 1][j] == items[j];
      if d in earlier then earlier else earlier + [d]
  }

  /** Seeing one more appointment adds its day at the end, unless the day was already seen. */
  lemma FirstSeenSnoc(items: seq<Appointment>, item: Appointment)
    ensures FirstSeenDays(items + [item]) ==
      if item.day in FirstSeenDays(items) then FirstSeenDays(items) else FirstSeenDays(items) + [item.day]
  {
    assert (items + [item])[..|items|] == items;
  }

  /** The Map built so far holds, for every day seen in `prefix`, exactly that day's appointments; `order` lists those days once each. */
  ghost predicate DayLists(prefix: seq<Appointment>, order: seq<DayKey>, m: map<DayKey, seq<Appointment>>)
  {
    && (forall d :: d in m <==> d in order)
    && (forall k :: 0 <= k < |order| ==> order[k] in m)
    && (forall p, q :: 0 <= p < q < |order| ==> order[p] != order[q])
    && (forall d :: d in m ==> m[d] == OnDay(prefix, d) && m[d] != [])
    && (forall j :: 0 <= j < |prefix| ==> prefix[j].day in m)
  }

  /** The Map grouping `prefix` by day, with its keys in first-seen order. */
  ghost predicate Grouped(prefix: seq<Appointment>, order: seq<DayKey>, m: map<DayKey, seq<Appointment>>)
  {
    DayLists(prefix, order, m) && order == FirstSeenDays(prefix)
  }

  /** One iteration of the grouping loop keeps the Map in step with the longer prefix, keys still in first-seen order. */
  lemma GroupStep(prefix: seq<Appointment>, item: Appointment, order: seq<DayKey>, m: map<DayKey, seq<Appointment>>,
                  order': seq<DayKey>, m': map<DayKey, seq<Appointment>>)
    requires Grouped(prefix, order, m)
    requires item.day in m ==> order' == order && m' == m[item.day := m[item.day] + [item]]
    requires item.day !in m ==> order' == order + [item.day] && m' == m[item.day := [item]]
    ensures Grouped(prefix + [item], order', m')
  {
    DayListsStep(prefix, item, order, m, order', m');
    FirstSeenSnoc(prefix, item);
  }

  lemma DayListsStep(prefix: seq<Appointment>, item: Appointment, order: seq<DayKey>, m: map<DayKey, seq<Appointment>>,
                     order': seq<DayKey>, m': map<DayKey, seq<Appointment>>)
    requires DayLists(prefix, order, m)
    requires item.day in m ==> order' == order && m' == m[item.day := m[item.day] + [item]]
    requires item.day !in m ==> order' == order + [item.day] && m' == m[item.day := [item]]
    ensures DayLists(prefix + [item], order', m')
  {
    var prefix' := prefix + [item];
    if item.day !in m {
      OnDayEmpty(prefix, item.day);
      forall k | 0 <= k < |order'|
        ensures order'[k] in m'
      {
        if k < |order| {
          assert order'[k] == order[k];
        }
      }
      forall p, q | 0 <= p < q < |order'|
        ensures order'[p] != order'[q]
      {
        if q == |order| {
          assert order'[p] == order[p] && order[p] in order;
        } else {
          assert order'[p] == order[p] && order'[q] == order[q];
        }
      }
    }
    forall d | d in m'
      ensures m'[d] == OnDay(prefix', d)
    {
      OnDaySnoc(prefix, item, d);
    }
    forall j | 0 <= j < |prefix'|
      ensures prefix'[j].day in m'
    {
      if j < |prefix| {
        assert prefix'[j] == prefix[j];
      }
    }
  }

  /** `Array.from(map.entries())`: the Map's entries in insertion order. */
  function MapEntries(order: seq<DayKey>, m: map<DayKey, seq<Appointment>>): (entries: seq<(DayKey, seq<Appointment>)>)
    requires forall k :: 0 <= k < |order| ==> order[k] in m
    ensures |entries| == |order|
    ensures forall k :: 0 <= k < |order| ==> entries[k] == (order[k], m[order[k]])
  {
    if order == [] then []
    else [(order[0], m[order[0]])] + MapEntries(order[1..], m)
  }

  /** Sorting the entries by day leaves each day at most once, so days come out strictly ascending. */
  lemma SortedEntriesAscending(items: seq<Appointment>, order: seq<DayKey>, m: map<DayKey, seq<Appointment>>, i: int, j: int)
    requires Grouped(items, order, m)
    requires 0 <= i < j < |SortBy(MapEntries(order, m), DayOf)|
    ensures SortBy(MapEntries(order, m), DayOf)[i].0 < SortBy(MapEntries(order, m), DayOf)[j].0
  {
    var entries := MapEntries(order, m);
    var groups := SortBy(entries, DayOf);
    SortBySorted(entries, DayOf);
    assert DayOf(groups[i]) <= DayOf(groups[j]);
    if groups[i].0 == groups[j].0 {
      var v := groups[i].0;
      WithKeyTwo(groups, DayOf, v, i, j);
      SortByStable(entries, DayOf, v);
      WithKeyAtMostOne(entries, DayOf, v);
    }
  }

  /** Each sorted entry is still the Map's entry for its day. */
  lemma SortedEntriesContent(items: seq<Appointment>, order: seq<DayKey>, m: map<DayKey, seq<Appointment>>, i: int)
    requires Grouped(items, order, m)
    requires 0 <= i < |SortBy(MapEntries(order, m), DayOf)|
    ensures SortBy(MapEntries(order, m), DayOf)[i].1 == OnDay(items, SortBy(MapEntries(order, m), DayOf)[i].0)
    ensures SortBy(MapEntries(order, m), DayOf)[i].1 != []
  {
    var entries := MapEntries(order, m);
    var groups := SortBy(entries, DayOf);
    SortByPermutes(entries, DayOf);
    assert groups[i] in multiset(groups);
    assert groups[i] in entries;
  }

  /** Every appointment's day appears among the sorted entries. */
  lemma SortedEntriesCover(items: seq<Appointment>, order: seq<DayKey>, m: map<DayKey, seq<Appointment>>, a: Appointment)
    requires Grouped(items, order, m)
    requires a in items
    ensures exists i :: 0 <= i < |SortBy(MapEntries(order, m), DayOf)| && SortBy(MapEntries(order, m), DayOf)[i].0 == a.day
  {
    var entries := MapEntries(order, m);
    var groups := SortBy(entries, DayOf);
    SortByPermutes(entries, DayOf);
    var j :| 0 <= j < |items| && items[j] == a;
    assert a.day in order;
    var k :| 0 <= k < |order| && order[k] == a.day;
    assert entries[k] in multiset(groups);
    assert entries[k] in groups;
  }

  /**
    * The sorted entries of a Map that groups `items` by day: days strictly
    * ascending, each list exactly that day's appointments, every day present.
    */
  lemma SortedGroups(items: seq<Appointment>, order: seq<DayKey>, m: map<DayKey, seq<Appointment>>)
    requires Grouped(items, order, m)
    ensures var groups := SortBy(MapEntries(order, m), DayOf);
      && (forall i, j :: 0 <= i < j < |groups| ==> groups[i].0 < groups[j].0)
      && (forall i :: 0 <= i < |groups| ==> groups[i].1 == OnDay(items, groups[i].0) && groups[i].1 != [])
      && (forall a :: a in items ==> exists i :: 0 <= i < |groups| && groups[i].0 == a.day)
  {
    var groups := SortBy(MapEntries(order, m), DayOf);
    forall i, j | 0 <= i < j < |groups|
      ensures groups[i].0 < groups[j].0
    {
      SortedEntriesAscending(items, order, m, i, j);
    }
    forall i | 0 <= i < |groups|
      ensures groups[i].1 == OnDay(items, groups[i].0) && groups[i].1 != []
    {
      SortedEntriesContent(items, order, m, i);
    }
    forall a | a in items
      ensures exists i :: 0 <= i < |groups| && groups[i].0 == a.day
    {
      SortedEntriesCover(items, order, m, a);
    }
  }

  /**
    * agendaAgrupada: the appointments collected into a Map keyed by day (in
    * first-seen order), then the entries sorted by day. Days come out strictly
    * ascending, each day's list is exactly that day's appointments in their
    * original order, and every appointment's day has a group.
    */
  method GroupByDay(items: seq<Appointment>) returns (groups: seq<(DayKey, seq<Appointment>)>)
    ensures forall i, j :: 0 <= i < j < |groups| ==> groups[i].0 < groups[j].0
    ensures forall i :: 0 <= i < |groups| ==> groups[i].1 == OnDay(items, groups[i].0) && groups[i].1 != []
    ensures forall a :: a in items ==> exists i :: 0 <= i < |groups| && groups[i].0 == a.day
  {
    var m: map<DayKey, seq<Appointment>> := map[];
    var order: seq<DayKey> := [];
    var i := 0;
    while i < |items|
      invariant 0 <= i <= |items|
      invariant Grouped(items[..i], order, m)
    {
      var item := items[i];
      var dayKey := item.day;
      ghost var m0, order0 := m, order;
      if dayKey !in m {
        m := m[dayKey := [item]];
        order := order + [dayKey];
      } else {
        m := m[dayKey := m[dayKey] + [item]];
      }
      GroupStep(items[..i], item, order0, m0, order, m);
      PrefixSnoc(items, i);
      i := i + 1;
    }
    assert items[..i] == items;
    SortedGroups(items, order, m);
    groups := SortBy(MapEntries(order, m), DayOf);
  }
}
