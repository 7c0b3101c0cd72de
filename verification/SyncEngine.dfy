/**
 The sync-group services as methods over mutable tables, each proved to perform exactly the
 transaction of SyncModel.
 */
module SyncEngine {
  import opened Basics
  import opened SyncModel

  // ---------------------------------------------------------------- steps of the sync loop

  lemma SyncedItemsGrow(st: State, p: nat, faults: set<ItemId>, k: nat)
    requires p < |st.rows| && k < |st.rows| && DistinctItems(st)
    ensures st.rows[k].item !in SyncedItems(st, p, faults, k)
    ensures SyncedItems(st, p, faults, k + 1)
            == SyncedItems(st, p, faults, k) + if IsSynced(st, p, faults, k) then {st.rows[k].item} else {}
  {
  }

  lemma SaveOneMore(exchange: map<ItemId, Item>, items: set<ItemId>, x: ItemId, body: Content)
    requires x in exchange && x !in items
    ensures SavedExchange(exchange, items + {x}, body)
            == SavedExchange(exchange, items, body)[x := Saved(exchange[x], body)]
  {
  }

  /** What the loop reads from its source row when it reaches row i. */
  lemma SourceDuringSync(st: State, p: nat, faults: set<ItemId>, now: Time, i: nat, source: Row)
    requires p < |st.rows| && i < |st.rows|
    requires source == if p < i then SyncedRow(st, p, faults, now, p) else st.rows[p]
    ensures source.title == SourceTitle(st, p, faults, i)
    ensures source.start == st.rows[p].start && source.end == st.rows[p].end
  {
  }

  /** s is what the sync loop has made of st after its first k rows. */
  ghost predicate SyncedUpTo(st: State, s: State, p: nat, faults: set<ItemId>, now: Time, k: nat)
    requires Wf(st) && p < |st.rows| && k <= |st.rows|
  {
    && |s.rows| == |st.rows|
    && (forall j | 0 <= j < |st.rows| ::
          s.rows[j] == if j < k then SyncedRow(st, p, faults, now, j) else st.rows[j])
    && s == st.(rows := s.rows, exchange := SavedExchange(st.exchange, SyncedItems(st, p, faults, k), BodyOf(st, p)))
  }

  lemma SyncedNone(st: State, p: nat, faults: set<ItemId>, now: Time)
    requires Wf(st) && p < |st.rows|
    ensures SyncedUpTo(st, st, p, faults, now, 0)
  {
    assert SyncedItems(st, p, faults, 0) == {};
    assert SavedExchange(st.exchange, {}, BodyOf(st, p)) == st.exchange;
  }

  /** One iteration of the sync loop, as a state. */
  function SyncOne(s: State, p: nat, body: Content, faults: set<ItemId>, now: Time, i: nat): State
    requires p < |s.rows| && i < |s.rows|
  {
    if IsSynced(s, p, faults, i) then
      s.(rows := s.rows[i := s.rows[i].(title := BUSY + s.rows[p].title, start := s.rows[p].start,
                                        end := s.rows[p].end, updated := now)],
         exchange := s.exchange[s.rows[i].item := Saved(s.exchange[s.rows[i].item], body)])
    else s
  }

  lemma SyncOneMore(st: State, s: State, p: nat, faults: set<ItemId>, now: Time, i: nat)
    requires Wf(st) && DistinctItems(st) && p < |st.rows| && i < |st.rows|
    requires SyncedUpTo(st, s, p, faults, now, i)
    ensures |s.rows| == |st.rows| && s.rows[i] == st.rows[i] && s.rows[p].group == st.rows[p].group
    ensures SyncedUpTo(st, SyncOne(s, p, BodyOf(st, p), faults, now, i), p, faults, now, i + 1)
    ensures IsTarget(s, p, i) == IsTarget(st, p, i) && Reachable(s, faults, i) == Reachable(st, faults, i)
  {
    SyncedItemsGrow(st, p, faults, i);
    SourceDuringSync(st, p, faults, now, i, s.rows[p]);
    if IsSynced(st, p, faults, i) {
      SaveOneMore(st.exchange, SyncedItems(st, p, faults, i), st.rows[i].item, BodyOf(st, p));
    }
  }

  lemma SyncedAll(st: State, s: State, p: nat, faults: set<ItemId>, now: Time)
    requires Wf(st) && DistinctItems(st) && p < |st.rows|
    requires SyncedUpTo(st, s, p, faults, now, |st.rows|)
    ensures |s.rows| == |st.rows| && s.rows[p].group == st.rows[p].group < |s.groups|
    ensures var t := SyncTx(st, p, faults, now); s.rows == t.rows && s.exchange == t.exchange
    ensures Wf(SyncTx(st, p, faults, now)) && DistinctItems(SyncTx(st, p, faults, now))
  {
    assert s.rows == SyncedRows(st, p, faults, now);
  }

  // ---------------------------------------------------------------- steps of the delete loop

  /** s is what deletion of e has made of st after e itself and its mirrors among the first k rows. */
  ghost predicate DeletedUpTo(st: State, s: State, e: nat, faults: set<ItemId>, now: Time, k: nat)
    requires e < |st.rows| && k <= |st.rows|
  {
    && |s.rows| == |st.rows|
    && (forall j | 0 <= j < |st.rows| ::
          s.rows[j] == if j == e || j < k then DeletedRow(st, e, now, j) else st.rows[j])
    && s == st.(rows := s.rows, exchange := st.exchange - DeletedItems(st, e, faults, k))
  }

  function DeleteOne(s: State, e: nat, faults: set<ItemId>, now: Time, i: nat): State
    requires e < |s.rows| && i < |s.rows|
  {
    if i == e || IsTarget(s, e, i) then
      s.(rows := s.rows[i := s.rows[i].(deleted := Some(now))],
         exchange := if Reachable(s, faults, i) then s.exchange - {s.rows[i].item} else s.exchange)
    else s
  }

  lemma DeleteFirst(st: State, e: nat, faults: set<ItemId>, now: Time)
    requires e < |st.rows|
    ensures DeletedUpTo(st, DeleteOne(st, e, faults, now, e), e, faults, now, 0)
  {
    assert DeletedItems(st, e, faults, 0) == if Reachable(st, faults, e) then {st.rows[e].item} else {};
  }

  lemma DeleteOneMore(st: State, s: State, e: nat, faults: set<ItemId>, now: Time, i: nat)
    requires DistinctItems(st) && e < |st.rows| && i < |st.rows|
    requires DeletedUpTo(st, s, e, faults, now, i)
    ensures IsTarget(s, e, i) <==> i != e && IsTarget(st, e, i)
    ensures s.rows[i].item == st.rows[i].item && s.rows[i].group == st.rows[i].group
    ensures DeletedUpTo(st, if i == e then s else DeleteOne(s, e, faults, now, i), e, faults, now, i + 1)
  {
    var item := st.rows[i].item;
    if i != e && IsTarget(st, e, i) {
      assert item !in DeletedItems(st, e, faults, i);
      assert DeletedItems(st, e, faults, i + 1)
          == DeletedItems(st, e, faults, i) + if Reachable(st, faults, i) then {item} else {};
    } else {
      assert DeletedItems(st, e, faults, i + 1) == DeletedItems(st, e, faults, i);
    }
  }

  lemma DeletedAll(st: State, s: State, e: nat, faults: set<ItemId>, now: Time)
    requires e < |st.rows|
    requires DeletedUpTo(st, s, e, faults, now, |st.rows|)
    ensures s == st.(rows := DeletedRows(st, e, now), exchange := st.exchange - DeletedItems(st, e, faults, |st.rows|))
  {
  }

  lemma DeleteKeepsItems(st: State, user: nat, e: nat, all: bool, faults: set<ItemId>, now: Time)
    requires Wf(st) && DistinctItems(st)
    ensures var t := DeleteTx(st, user, e, all, faults, now); Wf(t) && DistinctItems(t)
  {
  }

  lemma RowsInRange(st: State, e: nat)
    requires Wf(st) && e < |st.rows|
    ensures st.rows[e].group < |st.groups| && st.rows[e].calendar < |st.calendars|
  {
  }

  lemma PatchKeepsReferences(st: State, e: nat, patch: Patch, now: Time)
    requires Wf(st) && DistinctItems(st) && e < |st.rows|
    requires Sends(patch) ==> st.rows[e].item in st.exchange
    ensures Wf(PatchTx(st, e, patch, now)) && DistinctItems(PatchTx(st, e, patch, now))
  {
  }

  // ---------------------------------------------------------------- steps of the create loop

  /** References while copies are being added: their group is the one about to be stored. */
  ghost predicate ReferencesDuringCreate(s: State) {
    && (forall i | 0 <= i < |s.rows| ::
          s.rows[i].calendar < |s.calendars| && s.rows[i].group <= |s.groups| && s.rows[i].item < s.nextItem)
    && (forall x | x in s.exchange :: x < s.nextItem && s.exchange[x].calendar < |s.calendars|)
    && DistinctItems(s)
  }

  lemma {:induction false} CopiesKeepReferences(st: State, primary: Row, item: Item, body: Content, cs: seq<nat>)
    requires Wf(st) && DistinctItems(st)
    requires primary.item == st.nextItem && primary.group == |st.groups|
    requires primary.calendar < |st.calendars| && item.calendar < |st.calendars|
    requires forall i | 0 <= i < |cs| :: cs[i] < |st.calendars|
    ensures var s := AddCopies(st, primary, item, body, cs);
            ReferencesDuringCreate(s) && |s.rows| > |st.rows| && s.groups == st.groups && s.calendars == st.calendars
  {
    if cs != [] {
      CopiesKeepReferences(st, primary, item, body, cs[..|cs| - 1]);
    }
  }

  lemma StoreGroup(s: State, group: Group)
    requires ReferencesDuringCreate(s) && group.primary < |s.rows|
    requires forall g | 0 <= g < |s.groups| :: s.groups[g].primary < |s.rows|
    ensures Wf(s.(groups := s.groups + [group])) && DistinctItems(s.(groups := s.groups + [group]))
  {
  }

  lemma CreateKeepsReferences(st: State, user: nat, cal: nat, draft: Draft, failPrimary: bool, failCals: set<nat>, now: Time)
    requires Wf(st) && DistinctItems(st)
    ensures var s := CreateTx(st, user, cal, draft, failPrimary, failCals, now).0;
            Wf(s) && DistinctItems(s)
  {
    if CreateTx(st, user, cal, draft, failPrimary, failCals, now).1 !in {CalendarMissing, CreateFailed} {
      var primary := PrimaryRow(user, cal, st.nextItem, |st.groups|, draft, now);
      var cs := MirrorCalendars(st.calendars, user, cal, failCals, false, |st.calendars|);
      MirrorCalendarsAre(st.calendars, user, cal, failCals, false, |st.calendars|);
      var body := MirrorBody(primary, st.calendars[cal].name);
      CopiesKeepReferences(st, primary, PrimaryItem(cal, draft), body, cs);
      var group := CreateTx(st, user, cal, draft, failPrimary, failCals, now).0.groups[|st.groups|];
      hide AddCopies, MirrorCalendars, Eligible, MirrorBody, ReferencesDuringCreate, DistinctItems;
      StoreGroup(AddCopies(st, primary, PrimaryItem(cal, draft), body, cs), group);
    }
  }

  class Engine {
    var calendars: seq<Calendar>
    var groups: seq<Group>
    var rows: seq<Row>
    var exchange: map<ItemId, Item>
    var nextItem: nat

    ghost predicate Valid()
      reads this
    {
      Wf(Current()) && DistinctItems(Current())
    }

    function Current(): State
      reads this
    {
      State(calendars, groups, rows, exchange, nextItem)
    }

    constructor (calendars: seq<Calendar>)
      ensures Valid() && Current() == State(calendars, [], [], map[], 0)
    {
      this.calendars := calendars;
      groups, rows, exchange, nextItem := [], [], map[], 0;
    }

    // ------------------------------------------------------------ Exchange calls

    method ExchangeCreate(item: Item, fails: bool) returns (id: Option<ItemId>)
      modifies this`exchange, this`nextItem
      ensures fails ==> id == None && exchange == old(exchange) && nextItem == old(nextItem)
      ensures !fails ==> id == Some(old(nextItem)) && exchange == old(exchange)[old(nextItem) := item]
                         && nextItem == old(nextItem) + 1
    {
      if fails {
        return None;
      }
      id := Some(nextItem);
      exchange := exchange[nextItem := item];
      nextItem := nextItem + 1;
    }

    method ExchangeSave(x: ItemId, body: Content, fails: bool) returns (ok: bool)
      modifies this`exchange
      ensures ok == (x in old(exchange) && !fails)
      ensures exchange == if ok then old(exchange)[x := Saved(old(exchange)[x], body)] else old(exchange)
    {
      ok := x in exchange && !fails;
      if ok {
        exchange := exchange[x := Saved(exchange[x], body)];
      }
    }

    method ExchangeDelete(x: ItemId, fails: bool) returns (ok: bool)
      modifies this`exchange
      ensures ok == (x in old(exchange) && !fails)
      ensures exchange == if ok then old(exchange) - {x} else old(exchange)
    {
      ok := x in exchange && !fails;
      if ok {
        exchange := exchange - {x};
      }
    }

    // ------------------------------------------------------------ services

    /** Rewrites every live mirror of row p's group from row p; reports the calendars that failed. */
    method SyncMirrorToPrimary(p: nat, faults: set<ItemId>, now: Time) returns (failed: seq<nat>)
      requires Valid()
      modifies this`rows, this`exchange, this`groups
      ensures Valid()
      ensures Current() == SyncTx(old(Current()), p, faults, now)
      ensures failed == Failures(old(Current()), p, faults)
    {
      failed := [];
      if p >= |rows| {
        return;
      }
      ghost var st := Current();
      failed := SyncMirrors(p, faults, now);
      SyncedAll(st, Current(), p, faults, now);
      hide SyncedUpTo, MirrorBody, Wf;
      if failed != [] {
        var g := rows[p].group;
        groups := groups[g := groups[g].(state := Degraded, updated := now)];
      }
    }

    /** The mirror loop of SyncMirrorToPrimary. */
    method SyncMirrors(p: nat, faults: set<ItemId>, now: Time) returns (failed: seq<nat>)
      requires Valid() && p < |rows|
      modifies this`rows, this`exchange
      ensures SyncedUpTo(old(Current()), Current(), p, faults, now, |old(rows)|)
      ensures failed == StaleCalendars(old(Current()), p, faults, |old(rows)|)
    {
      ghost var st := Current();
      var body := MirrorBody(rows[p], calendars[rows[p].calendar].name);
      failed := [];
      SyncedNone(st, p, faults, now);
      hide SyncedUpTo, MirrorBody, Wf, DistinctItems, AttendeeText;
      for i := 0 to |rows|
        invariant |rows| == |st.rows| && SyncedUpTo(st, Current(), p, faults, now, i)
        invariant failed == StaleCalendars(st, p, faults, i)
      {
        SyncOneMore(st, Current(), p, faults, now, i);
        ghost var s := Current();
        var mirror := rows[i];
        if mirror.group == rows[p].group && LiveMirror(mirror) {
          var ok := ExchangeSave(mirror.item, body, mirror.item in faults);
          if ok {
            rows := rows[i := mirror.(title := BUSY + rows[p].title, start := rows[p].start, end := rows[p].end,
                                      updated := now)];
          } else {
            failed := failed + [mirror.calendar];
          }
        }
        assert Current() == SyncOne(s, p, body, faults, now, i);
      }
    }

    /** Deletes event e and every live mirror of its group, whatever Exchange deletions fail. */
    method DeleteEvent(user: nat, e: nat, all: bool, faults: set<ItemId>, now: Time) returns (found: bool)
      requires Valid()
      modifies this`rows, this`exchange, this`groups
      ensures Valid()
      ensures Current() == DeleteTx(old(Current()), user, e, all, faults, now)
      ensures found == EventFound(old(Current()), user, e)
    {
      found := e < |rows| && rows[e].user == user;
      if !found || (rows[e].master && !all) {
        return;
      }
      ghost var st := Current();
      DeleteKeepsItems(st, user, e, all, faults, now);
      var g := rows[e].group;
      var _ := ExchangeDelete(rows[e].item, rows[e].item in faults);
      rows := rows[e := rows[e].(deleted := Some(now))];
      assert Current() == DeleteOne(st, e, faults, now, e);
      DeleteFirst(st, e, faults, now);
      DeleteMirrors(st, e, faults, now);
      groups := groups[g := groups[g].(state := Deleted, updated := now)];
    }

    /** The mirror loop of DeleteEvent, run after e itself has been handled. */
    method DeleteMirrors(ghost st: State, e: nat, faults: set<ItemId>, now: Time)
      requires DistinctItems(st) && e < |st.rows|
      requires |rows| == |st.rows| && DeletedUpTo(st, Current(), e, faults, now, 0)
      modifies this`rows, this`exchange
      ensures Current() == st.(rows := DeletedRows(st, e, now),
                               exchange := st.exchange - DeletedItems(st, e, faults, |st.rows|))
    {
      for i := 0 to |rows|
        invariant |rows| == |st.rows| && DeletedUpTo(st, Current(), e, faults, now, i)
      {
        DeleteOneMore(st, Current(), e, faults, now, i);
        ghost var s := Current();
        var mirror := rows[i];
        if mirror.group == rows[e].group && LiveMirror(mirror) {
          var _ := ExchangeDelete(mirror.item, mirror.item in faults);
          rows := rows[i := mirror.(deleted := Some(now))];
        }
        assert Current() == if i == e then s else DeleteOne(s, e, faults, now, i);
      }
      DeletedAll(st, Current(), e, faults, now);
    }

    /** Patches event e in Exchange and in the database, then syncs the mirrors of its group from it. */
    method UpdateEvent(user: nat, e: nat, patch: Patch, failPrimary: bool, faults: set<ItemId>, now: Time)
      returns (result: UpdateResult)
      requires Valid()
      modifies this`rows, this`exchange, this`groups
      ensures Valid()
      ensures (Current(), result) == UpdateTx(old(Current()), user, e, patch, failPrimary, faults, now)
    {
      hide Wf, DistinctItems, SyncTx, PatchedContent;
      if !(e < |rows| && rows[e].user == user) || rows[e].deleted.Some? {
        return EventMissing;
      }
      ghost var st := Current();
      RowsInRange(st, e);
      var row := PatchedRow(rows[e], patch);
      if Sends(patch) {
        if failPrimary || row.item !in exchange {
          return UpdateFailed;
        }
        var _ := ExchangeSave(row.item, PatchedContent(exchange[row.item].content, patch), false);
      }
      rows := rows[e := row.(updated := now)];
      assert Current() == PatchTx(st, e, patch, now);
      PatchKeepsReferences(st, e, patch, now);
      var failed := SyncMirrorToPrimary(e, faults, now);
      result := if failed == [] then Updated else MirrorsStale(failed);
    }

    /** Creates the primary event, its group and a mirror in every other eligible calendar. */
    method CreateEvent(user: nat, cal: nat, draft: Draft, failPrimary: bool, failCals: set<nat>, now: Time)
      returns (result: CreateResult)
      requires Valid()
      modifies this`rows, this`exchange, this`groups, this`nextItem
      ensures Valid()
      ensures (Current(), result) == CreateTx(old(Current()), user, cal, draft, failPrimary, failCals, now)
    {
      if cal >= |calendars| || calendars[cal].user != user || !calendars[cal].active {
        return CalendarMissing;
      }
      ghost var st := Current();
      var item := PrimaryItem(cal, draft);
      var id := ExchangeCreate(item, failPrimary);
      if id.None? {
        return CreateFailed;
      }
      var p := |rows|;
      var primary := PrimaryRow(user, cal, id.value, |groups|, draft, now);
      rows := rows + [primary];
      var failed := CreateMirrors(st, primary, item, failCals);
      groups := groups + [Group(user, p, if failed == [] then Active else Degraded, now)];
      CreateKeepsReferences(st, user, cal, draft, failPrimary, failCals, now);
      result := if failed == [] then Created(p) else MirrorsMissing(failed);
    }

    /** The mirror loop of CreateEvent: one Exchange create per eligible calendar, failures collected. */
    method CreateMirrors(ghost st: State, primary: Row, item: Item, failCals: set<nat>) returns (failed: seq<nat>)
      requires primary.item == st.nextItem && primary.calendar < |st.calendars|
      requires Current() == AddCopies(st, primary, item, MirrorBody(primary, st.calendars[primary.calendar].name), [])
      modifies this`rows, this`exchange, this`nextItem
      ensures Current() == AddCopies(st, primary, item, MirrorBody(primary, st.calendars[primary.calendar].name),
                                     MirrorCalendars(st.calendars, primary.user, primary.calendar, failCals, false, |st.calendars|))
      ensures failed == MirrorCalendars(st.calendars, primary.user, primary.calendar, failCals, true, |st.calendars|)
    {
      var body := MirrorBody(primary, calendars[primary.calendar].name);
      failed := [];
      ghost var mirrored: seq<nat> := [];
      for c := 0 to |calendars|
        invariant mirrored == MirrorCalendars(calendars, primary.user, primary.calendar, failCals, false, c)
        invariant failed == MirrorCalendars(calendars, primary.user, primary.calendar, failCals, true, c)
        invariant Current() == AddCopies(st, primary, item, body, mirrored)
      {
        if Eligible(calendars, primary.user, primary.calendar, c) {
          var id := ExchangeCreate(MirrorItem(c, body, primary.master), c in failCals);
          if id.Some? {
            assert (mirrored + [c])[..|mirrored|] == mirrored;
            rows := rows + [MirrorRow(primary, c, id.value, body)];
            mirrored := mirrored + [c];
          } else {
            failed := failed + [c];
          }
        }
      }
    }

    /** Restores the mirrors of group g from its live primary, if there is one. */
    method RepairSyncGroup(g: nat, faults: set<ItemId>, now: Time) returns (failed: seq<nat>)
      requires Valid()
      modifies this`rows, this`exchange, this`groups
      ensures Valid()
      ensures Current() == RepairTx(old(Current()), g, faults, now)
      ensures failed == RepairFailures(old(Current()), g, faults)
    {
      var p := LivePrimary(rows, g);
      failed := [];
      if p.Some? {
        failed := SyncMirrorToPrimary(p.value, faults, now);
      }
    }

    method HandleExternalDelete(x: ItemId, faults: set<ItemId>, now: Time)
      requires Valid()
      modifies this`rows, this`exchange, this`groups
      ensures Valid()
      ensures Current() == ExternalDeleteTx(old(Current()), x, faults, now)
    {
      var e := RowOfItem(rows, x, None, true);
      if e.None? {
        return;
      }
      if rows[e.value].role.Primary? {
        var _ := DeleteEvent(rows[e.value].user, e.value, true, faults, now);
      } else {
        var _ := RepairSyncGroup(rows[e.value].group, faults, now);
      }
    }

    /** Deletes by Exchange id: through the database row when there is one, else directly in Exchange. */
    method DeleteByExchangeIds(user: nat, ids: seq<ItemId>, accounts: seq<nat>, blocked: set<(nat, ItemId)>,
                               faults: set<ItemId>, now: Time) returns (deleted: nat, errors: seq<ItemId>)
      requires Valid()
      modifies this`rows, this`exchange, this`groups
      ensures Valid()
      ensures (Current(), deleted, errors) == DeleteIdsTx(old(Current()), user, ids, accounts, blocked, faults, now)
    {
      hide Wf, DistinctItems, DeleteTx;
      ghost var st := Current();
      deleted, errors := 0, [];
      for k := 0 to |ids|
        invariant Valid()
        invariant (Current(), deleted, errors) == DeleteIdsTx(st, user, ids[..k], accounts, blocked, faults, now)
      {
        assert ids[..k + 1][..k] == ids[..k];
        ghost var s := Current();
        var x := ids[k];
        var e := RowOfItem(rows, x, Some(user), false);
        if e.Some? {
          var _ := DeleteEvent(user, e.value, false, faults, now);
          deleted := deleted + 1;
        } else {
          var ok := DeleteDirectly(x, accounts, blocked);
          if ok {
            deleted := deleted + 1;
          } else {
            errors := errors + [x];
          }
        }
      }
      assert ids[..|ids|] == ids;
    }

    /** Tries every account in turn until one of them deletes item x. */
    method DeleteDirectly(x: ItemId, accounts: seq<nat>, blocked: set<(nat, ItemId)>) returns (ok: bool)
      requires Valid()
      modifies this`exchange
      ensures Valid()
      ensures ok == DirectlyDeletable(old(Current()), x, accounts, blocked)
      ensures exchange == if ok then old(exchange) - {x} else old(exchange)
    {
      ok := false;
      for i := 0 to |accounts|
        invariant exchange == old(exchange)
        invariant x in exchange ==> forall j | 0 <= j < i :: (accounts[j], x) in blocked
      {
        ok := ExchangeDelete(x, (accounts[i], x) in blocked);
        if ok {
          return;
        }
      }
    }
  }
}
