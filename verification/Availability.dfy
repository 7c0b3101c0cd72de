/** Reading free/busy schedules: the busy intervals of the slot search and the conflicts of one slot. */
module Availability {
  import opened Basics

  /** Start and end are None when the text of the item is missing or not a date. */
  datatype Item = Item(status: Option<string>, start: Option<int>, end: Option<int>)

  datatype Schedule = Schedule(id: string, items: seq<Item>)

  datatype Conflict = Conflict(email: string, item: Item)

  /** Half-open intervals; touching ones do not overlap. */
  predicate Overlaps(s1: int, e1: int, s2: int, e2: int) {
    s1 < e2 && s2 < e1
  }

  predicate Dated(item: Item) {
    item.start.Some? && item.end.Some?
  }

  predicate Meets(item: Item, start: int, end: int) {
    Dated(item) && Overlaps(start, end, item.start.value, item.end.value)
  }

  /** The slot search counts every status but "free" as busy, and a missing one too. */
  predicate CountsAsBusy(item: Item) {
    item.status.GetOr("busy") != "free"
  }

  /** The availability check counts only these three. */
  predicate CountsAsConflict(item: Item) {
    item.status.Some? && item.status.value in ["busy", "tentative", "oof"]
  }

  // ---------------------------------------------------------------- what the two readers keep

  function BusyOf(items: seq<Item>): seq<(int, int)> {
    if items == [] then [] else
      var last := items[|items| - 1];
      BusyOf(items[..|items| - 1])
      + if CountsAsBusy(last) && Dated(last) then [(last.start.value, last.end.value)] else []
  }

  function AllBusy(schedules: seq<Schedule>): seq<(int, int)> {
    if schedules == [] then [] else AllBusy(schedules[..|schedules| - 1]) + BusyOf(schedules[|schedules| - 1].items)
  }

  function ConflictsOf(id: string, items: seq<Item>, start: int, end: int): seq<Conflict> {
    if items == [] then [] else
      var last := items[|items| - 1];
      ConflictsOf(id, items[..|items| - 1], start, end)
      + if CountsAsConflict(last) && Meets(last, start, end) then [Conflict(id, last)] else []
  }

  function AllConflicts(schedules: seq<Schedule>, start: int, end: int): seq<Conflict> {
    if schedules == [] then [] else
      var last := schedules[|schedules| - 1];
      AllConflicts(schedules[..|schedules| - 1], start, end) + ConflictsOf(last.id, last.items, start, end)
  }

  /** Collects the busy intervals of all schedules, in order. */
  method CollectBusy(schedules: seq<Schedule>) returns (busy: seq<(int, int)>)
    ensures busy == AllBusy(schedules)
  {
    busy := [];
    for i := 0 to |schedules|
      invariant busy == AllBusy(schedules[..i])
    {
      var items := schedules[i].items;
      for j := 0 to |items|
        invariant busy == AllBusy(schedules[..i]) + BusyOf(items[..j])
      {
        assert items[..j + 1][..j] == items[..j];
        if CountsAsBusy(items[j]) && Dated(items[j]) {
          busy := busy + [(items[j].start.value, items[j].end.value)];
        }
      }
      assert schedules[..i + 1][..i] == schedules[..i] && items[..|items|] == items;
    }
    assert schedules[..|schedules|] == schedules;
  }

  /** A slot is available when no schedule has a conflicting item; a user without calendars is always free. */
  method CheckSlot(schedules: seq<Schedule>, start: int, end: int, hasCalendars: bool)
    returns (available: bool, conflicts: seq<Conflict>)
    ensures conflicts == if hasCalendars then AllConflicts(schedules, start, end) else []
    ensures available <==> conflicts == []
  {
    conflicts := [];
    if !hasCalendars {
      return true, [];
    }
    for i := 0 to |schedules|
      invariant conflicts == AllConflicts(schedules[..i], start, end)
    {
      var items := schedules[i].items;
      for j := 0 to |items|
        invariant conflicts == AllConflicts(schedules[..i], start, end) + ConflictsOf(schedules[i].id, items[..j], start, end)
      {
        assert items[..j + 1][..j] == items[..j];
        if CountsAsConflict(items[j]) && Meets(items[j], start, end) {
          conflicts := conflicts + [Conflict(schedules[i].id, items[j])];
        }
      }
      assert schedules[..i + 1][..i] == schedules[..i] && items[..|items|] == items;
    }
    assert schedules[..|schedules|] == schedules;
    available := |conflicts| == 0;
  }

  // ---------------------------------------------------------------- membership

  /** Item k of schedule i. */
  predicate Holds(schedules: seq<Schedule>, i: nat, k: nat) {
    i < |schedules| && k < |schedules[i].items|
  }

  /** No busy interval meets the slot. */
  predicate FreeOf(busy: seq<(int, int)>, start: int, end: int) {
    forall b | 0 <= b < |busy| :: !Overlaps(start, end, busy[b].0, busy[b].1)
  }

  lemma {:induction false} FreeOfItems(items: seq<Item>, start: int, end: int)
    ensures FreeOf(BusyOf(items), start, end)
            <==> forall k | 0 <= k < |items| :: !(CountsAsBusy(items[k]) && Meets(items[k], start, end))
  {
    if items != [] {
      var before, last := items[..|items| - 1], items[|items| - 1];
      var tail := if CountsAsBusy(last) && Dated(last) then [(last.start.value, last.end.value)] else [];
      FreeOfItems(before, start, end);
      FreeOfBoth(BusyOf(before), tail, start, end);
      assert FreeOf(tail, start, end) <==> !(CountsAsBusy(last) && Meets(last, start, end)) by {
        assert tail != [] ==> tail[0] == (last.start.value, last.end.value);
      }
      assert forall k | 0 <= k < |before| :: items[k] == before[k];
      assert items == before + [last];
    }
  }

  lemma FreeOfBoth(a: seq<(int, int)>, b: seq<(int, int)>, start: int, end: int)
    ensures FreeOf(a + b, start, end) <==> FreeOf(a, start, end) && FreeOf(b, start, end)
  {
    if FreeOf(a + b, start, end) {
      assert forall i | 0 <= i < |b| :: b[i] == (a + b)[|a| + i];
      assert forall i | 0 <= i < |a| :: a[i] == (a + b)[i];
    }
  }

  lemma {:induction false} FreeOfSchedules(schedules: seq<Schedule>, start: int, end: int)
    ensures FreeOf(AllBusy(schedules), start, end)
            <==> forall i: nat, k: nat | Holds(schedules, i, k) ::
                   !(CountsAsBusy(schedules[i].items[k]) && Meets(schedules[i].items[k], start, end))
  {
    if schedules != [] {
      var before, last := schedules[..|schedules| - 1], schedules[|schedules| - 1];
      FreeOfSchedules(before, start, end);
      FreeOfItems(last.items, start, end);
      FreeOfBoth(AllBusy(before), BusyOf(last.items), start, end);
      assert forall i: nat, k: nat | Holds(schedules, i, k) :: i == |before| || Holds(before, i, k);
      assert forall i: nat, k: nat | Holds(before, i, k) :: Holds(schedules, i, k);
      assert forall k: nat | k < |last.items| :: Holds(schedules, |before|, k);
    }
  }

  lemma {:induction false} NoConflictItems(id: string, items: seq<Item>, start: int, end: int)
    ensures ConflictsOf(id, items, start, end) == []
            <==> forall k | 0 <= k < |items| :: !(CountsAsConflict(items[k]) && Meets(items[k], start, end))
  {
    if items != [] {
      NoConflictItems(id, items[..|items| - 1], start, end);
    }
  }

  lemma {:induction false} NoConflictSchedules(schedules: seq<Schedule>, start: int, end: int)
    ensures AllConflicts(schedules, start, end) == []
            <==> forall i: nat, k: nat | Holds(schedules, i, k) ::
                   !(CountsAsConflict(schedules[i].items[k]) && Meets(schedules[i].items[k], start, end))
  {
    if schedules != [] {
      var before, last := schedules[..|schedules| - 1], schedules[|schedules| - 1];
      NoConflictSchedules(before, start, end);
      NoConflictItems(last.id, last.items, start, end);
      assert forall i: nat, k: nat | Holds(schedules, i, k) :: i == |before| || Holds(before, i, k);
      assert forall i: nat, k: nat | Holds(before, i, k) :: Holds(schedules, i, k);
      assert forall k: nat | k < |last.items| :: Holds(schedules, |before|, k);
    }
  }

  lemma {:induction false} ConflictItemsAre(id: string, items: seq<Item>, start: int, end: int, c: Conflict)
    ensures c in ConflictsOf(id, items, start, end)
            <==> c.email == id && c.item in items && CountsAsConflict(c.item) && Meets(c.item, start, end)
  {
    if items != [] {
      ConflictItemsAre(id, items[..|items| - 1], start, end, c);
    }
  }

  /**
   A conflict is reported exactly for every busy, tentative or out-of-office item of a schedule whose dates are known
   and that shares more than an end point with the slot, under that schedule's id.
   */
  lemma {:induction false} ConflictsAre(schedules: seq<Schedule>, start: int, end: int, c: Conflict)
    ensures c in AllConflicts(schedules, start, end)
            <==> && (c.item.status == Some("busy") || c.item.status == Some("tentative") || c.item.status == Some("oof"))
                 && c.item.start != None && c.item.end != None && start < c.item.end.value && c.item.start.value < end
                 && exists i :: 0 <= i < |schedules| && schedules[i].id == c.email && c.item in schedules[i].items
  {
    ConflictMeans(c.item, start, end);
    if schedules != [] {
      var before, last := schedules[..|schedules| - 1], schedules[|schedules| - 1];
      ConflictsAre(before, start, end, c);
      ConflictItemsAre(last.id, last.items, start, end, c);
      hide Meets, CountsAsConflict, ConflictsOf;
      assert forall i | 0 <= i < |before| :: before[i] == schedules[i];
      assert schedules == before + [last];
    }
  }

  lemma ConflictMeans(item: Item, start: int, end: int)
    ensures CountsAsConflict(item) && Meets(item, start, end)
            <==> && (item.status == Some("busy") || item.status == Some("tentative") || item.status == Some("oof"))
                 && item.start != None && item.end != None && start < item.end.value && item.start.value < end
  {
  }

  /** An item the slot search counts as busy and the availability check overlooks. */
  predicate Overlooked(item: Item) {
    CountsAsBusy(item) && !CountsAsConflict(item)
  }

  /**
   On the same schedules a slot is free for the slot search exactly if the availability check finds
   no conflict and no overlooked item meets it; so every offered slot passes the check.
   */
  lemma SearchAgreesWithCheck(schedules: seq<Schedule>, start: int, end: int)
    ensures FreeOf(AllBusy(schedules), start, end)
            <==> AllConflicts(schedules, start, end) == []
                 && forall i: nat, k: nat | Holds(schedules, i, k) ::
                      !(Overlooked(schedules[i].items[k]) && Meets(schedules[i].items[k], start, end))
  {
    FreeOfSchedules(schedules, start, end);
    NoConflictSchedules(schedules, start, end);
    assert forall item :: CountsAsBusy(item) <==> CountsAsConflict(item) || Overlooked(item);
  }

  /** With the four usual statuses only, the two agree completely. */
  lemma UsualStatusesAgree(schedules: seq<Schedule>, start: int, end: int)
    requires forall i: nat, k: nat | Holds(schedules, i, k) ::
               schedules[i].items[k].status.Some? && schedules[i].items[k].status.value in ["free", "busy", "tentative", "oof"]
    ensures FreeOf(AllBusy(schedules), start, end) <==> AllConflicts(schedules, start, end) == []
  {
    SearchAgreesWithCheck(schedules, start, end);
  }

  // ---------------------------------------------------------------- what is collected, item by item

  /** The lists of the two readers follow the listing: part by part, and one item gives one entry or none. */
  lemma ListedInOrder(a: seq<Schedule>, b: seq<Schedule>, id: string, x: seq<Item>, y: seq<Item>, item: Item, start: int, end: int)
    ensures AllConflicts(a + b, start, end) == AllConflicts(a, start, end) + AllConflicts(b, start, end)
    ensures AllConflicts([Schedule(id, x + y)], start, end)
         == AllConflicts([Schedule(id, x)], start, end) + AllConflicts([Schedule(id, y)], start, end)
    ensures AllConflicts([Schedule(id, [item])], start, end)
         == if (item.status == Some("busy") || item.status == Some("tentative") || item.status == Some("oof"))
               && item.start != None && item.end != None && start < item.end.value && item.start.value < end
            then [Conflict(id, item)] else []
    ensures AllBusy(a + b) == AllBusy(a) + AllBusy(b)
    ensures AllBusy([Schedule(id, x + y)]) == AllBusy([Schedule(id, x)]) + AllBusy([Schedule(id, y)])
    ensures AllBusy([Schedule(id, [item])])
         == if item.status != Some("free") && item.start != None && item.end != None then [(item.start.value, item.end.value)] else []
  {
    ConflictsConcat(a, b, start, end);
    BusyConcat(a, b);
    OneSchedule(Schedule(id, x + y), start, end);
    OneSchedule(Schedule(id, x), start, end);
    OneSchedule(Schedule(id, y), start, end);
    OneSchedule(Schedule(id, [item]), start, end);
    ItemsConcat(id, x, y, start, end);
    OneItem(id, item, start, end);
    hide AllConflicts, AllBusy, ConflictsOf, BusyOf, Meets, CountsAsConflict, CountsAsBusy;
  }

  lemma OneSchedule(s: Schedule, start: int, end: int)
    ensures AllConflicts([s], start, end) == ConflictsOf(s.id, s.items, start, end) && AllBusy([s]) == BusyOf(s.items)
  {
    assert [s][..0] == [] && AllConflicts([], start, end) == [] && AllBusy([]) == [];
    hide ConflictsOf, BusyOf;
  }

  lemma OneItem(id: string, item: Item, start: int, end: int)
    ensures ConflictsOf(id, [item], start, end)
         == if (item.status == Some("busy") || item.status == Some("tentative") || item.status == Some("oof"))
               && item.start != None && item.end != None && start < item.end.value && item.start.value < end
            then [Conflict(id, item)] else []
    ensures BusyOf([item])
         == if item.status != Some("free") && item.start != None && item.end != None then [(item.start.value, item.end.value)] else []
  {
    ConflictMeans(item, start, end);
    assert [item][..0] == [] && ConflictsOf(id, [], start, end) == [] && BusyOf([]) == [];
    hide Meets, CountsAsConflict;
  }

  lemma {:induction false} ItemsConcat(id: string, x: seq<Item>, y: seq<Item>, start: int, end: int)
    ensures ConflictsOf(id, x + y, start, end) == ConflictsOf(id, x, start, end) + ConflictsOf(id, y, start, end)
    ensures BusyOf(x + y) == BusyOf(x) + BusyOf(y)
  {
    hide ConflictsOf, BusyOf;
    if y == [] {
      NoItems(id, start, end);
      assert x + y == x;
    } else {
      var before, last := y[..|y| - 1], y[|y| - 1];
      ItemsConcat(id, x, before, start, end);
      assert y == before + [last] && x + y == x + before + [last];
      ItemNext(id, before, last, start, end);
      ItemNext(id, x + before, last, start, end);
    }
  }

  lemma NoItems(id: string, start: int, end: int)
    ensures ConflictsOf(id, [], start, end) == [] && BusyOf([]) == []
  {
  }

  lemma ItemNext(id: string, before: seq<Item>, last: Item, start: int, end: int)
    ensures ConflictsOf(id, before + [last], start, end) == ConflictsOf(id, before, start, end) + ConflictsOf(id, [last], start, end)
    ensures BusyOf(before + [last]) == BusyOf(before) + BusyOf([last])
  {
    hide Meets, CountsAsConflict, CountsAsBusy;
    assert (before + [last])[..|before|] == before && [last][..0] == [];
  }

  lemma {:induction false} ConflictsConcat(a: seq<Schedule>, b: seq<Schedule>, start: int, end: int)
    ensures AllConflicts(a + b, start, end) == AllConflicts(a, start, end) + AllConflicts(b, start, end)
  {
    hide AllConflicts, ConflictsOf;
    if b == [] {
      NoSchedules(start, end);
      assert a + b == a;
    } else {
      var before, last := b[..|b| - 1], b[|b| - 1];
      ConflictsConcat(a, before, start, end);
      assert b == before + [last] && a + b == a + before + [last];
      ScheduleNext(before, last, start, end);
      ScheduleNext(a + before, last, start, end);
    }
  }

  lemma {:induction false} BusyConcat(a: seq<Schedule>, b: seq<Schedule>)
    ensures AllBusy(a + b) == AllBusy(a) + AllBusy(b)
  {
    hide AllBusy, BusyOf;
    if b == [] {
      NoSchedules(0, 0);
      assert a + b == a;
    } else {
      var before, last := b[..|b| - 1], b[|b| - 1];
      BusyConcat(a, before);
      assert b == before + [last] && a + b == a + before + [last];
      ScheduleNext(before, last, 0, 0);
      ScheduleNext(a + before, last, 0, 0);
    }
  }

  lemma NoSchedules(start: int, end: int)
    ensures AllConflicts([], start, end) == [] && AllBusy([]) == []
  {
  }

  lemma ScheduleNext(before: seq<Schedule>, last: Schedule, start: int, end: int)
    ensures AllConflicts(before + [last], start, end) == AllConflicts(before, start, end) + ConflictsOf(last.id, last.items, start, end)
    ensures AllBusy(before + [last]) == AllBusy(before) + BusyOf(last.items)
  {
    hide ConflictsOf, BusyOf;
    assert (before + [last])[..|before|] == before;
  }
}
