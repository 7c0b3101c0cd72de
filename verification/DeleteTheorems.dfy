/** What a delete-by-ids request leaves behind, whatever Exchange deletions fail. */
module DeleteTheorems {
  import opened Basics
  import opened SyncModel
  import opened SyncInvariants
  import opened SyncRuns

  /** Some row of group g holds one of the ids. */
  ghost predicate Named(st: State, g: nat, ids: seq<ItemId>) {
    exists k :: 0 <= k < |st.rows| && st.rows[k].group == g && st.rows[k].item in ids
  }

  /** Row i is deleted by the request: it is named itself, or it mirrors a group that is named. */
  ghost predicate Condemned(st: State, i: nat, ids: seq<ItemId>)
    requires i < |st.rows|
  {
    st.rows[i].item in ids || (st.rows[i].role.Mirror? && Named(st, st.rows[i].group, ids))
  }

  /** Exactly the condemned rows of group g join the deleted ones, and a named group is DELETED. */
  ghost predicate Emptied(st: State, s: State, g: nat, ids: seq<ItemId>)
    requires g < |st.groups|
  {
    && SameShape(st, s)
    && (forall i | 0 <= i < |st.rows| && st.rows[i].group == g ::
          s.rows[i].deleted.Some? <==> st.rows[i].deleted.Some? || Condemned(st, i, ids))
    && (s.groups[g].state.Deleted? <==> st.groups[g].state.Deleted? || Named(st, g, ids))
  }

  lemma DeleteEmpties(s: State, user: nat, e: nat, faults: set<ItemId>, now: Time, g: nat)
    requires Good(s) && EventFound(s, user, e) && g < |s.groups|
    ensures var t := DeleteTx(s, user, e, false, faults, now);
            var hit := s.rows[e].group == g && !s.rows[e].master;
            && SameShape(s, t) && Good(t)
            && (forall i | 0 <= i < |s.rows| && s.rows[i].group == g ::
                  t.rows[i].deleted.Some? <==> s.rows[i].deleted.Some? || (hit && (i == e || s.rows[i].role.Mirror?)))
            && (t.groups[g].state.Deleted? <==> s.groups[g].state.Deleted? || hit)
  {
    DeleteKeepsStructure(s, user, e, false, faults, now);
  }

  lemma NamedNext(st: State, g: nat, before: seq<ItemId>, x: ItemId, e: nat)
    requires DistinctItems(st) && e < |st.rows| && st.rows[e].item == x
    ensures Named(st, g, before + [x]) <==> Named(st, g, before) || st.rows[e].group == g
  {
    if st.rows[e].group == g {
      assert st.rows[e].item in before + [x];
    }
  }

  lemma CondemnedNext(st: State, i: nat, before: seq<ItemId>, x: ItemId, e: nat)
    requires DistinctItems(st) && e < |st.rows| && st.rows[e].item == x && i < |st.rows|
    ensures Condemned(st, i, before + [x])
            <==> Condemned(st, i, before) || i == e || (st.rows[i].role.Mirror? && st.rows[i].group == st.rows[e].group)
  {
    NamedNext(st, st.rows[i].group, before, x, e);
  }

  /** An id no row holds changes nothing about which rows are condemned. */
  lemma ForeignNext(st: State, g: nat, before: seq<ItemId>, x: ItemId)
    requires forall i | 0 <= i < |st.rows| && st.rows[i].group == g :: st.rows[i].item != x
    ensures Named(st, g, before + [x]) <==> Named(st, g, before)
    ensures forall i | 0 <= i < |st.rows| && st.rows[i].group == g ::
              Condemned(st, i, before + [x]) <==> Condemned(st, i, before)
  {
  }

  /** The row an id is found under is the one row that holds it. */
  lemma FoundRow(st: State, s: State, x: ItemId, user: nat)
    requires Good(st) && SameShape(st, s)
    ensures var e := RowOfItem(s.rows, x, Some(user), false);
            && (e.Some? ==> e.value < |st.rows| && st.rows[e.value].item == x && st.rows[e.value].user == user)
            && (e.None? ==> forall i | 0 <= i < |st.rows| && st.rows[i].user == user :: st.rows[i].item != x)
  {
    if RowOfItem(s.rows, x, Some(user), false).None? {
      assert forall i | 0 <= i < |s.rows| :: !Matches(s.rows[i], x, Some(user), false);
    }
  }

  /**
   For the user's own non-recurring group: after the request a row is deleted exactly if it was
   already, or is named, or mirrors a named group; the group is DELETED exactly if it was or is named.
   */
  lemma {:induction false} DeleteByIdsIsExact(st: State, user: nat, ids: seq<ItemId>, accounts: seq<nat>, blocked: set<(nat, ItemId)>,
                                              faults: set<ItemId>, now: Time, g: nat)
    requires Good(st) && g < |st.groups| && st.groups[g].user == user && !st.rows[st.groups[g].primary].master
    ensures Emptied(st, DeleteIdsTx(st, user, ids, accounts, blocked, faults, now).0, g, ids)
  {
    hide Emptied, SameShape, DeleteTx, RowsAgree, ItemsAgree, Forward, OwnIds, DirectlyDeletable, Wf, OnePrimary,
         OneCopyPerCalendar, OneOwner, DistinctItems, DeletionComplete;
    if ids == [] {
      NothingNamed(st, g);
    } else {
      var before, x := ids[..|ids| - 1], ids[|ids| - 1];
      assert ids == before + [x];
      var s := DeleteIdsTx(st, user, before, accounts, blocked, faults, now).0;
      DeleteByIdsIsExact(st, user, before, accounts, blocked, faults, now, g);
      DeleteIdsKeeps(st, user, before, accounts, blocked, faults, now);
      OwnRows(st, user, g);
      FoundRow(st, s, x, user);
      var e := RowOfItem(s.rows, x, Some(user), false);
      if e.Some? {
        FoundStep(st, s, user, before, x, e.value, faults, now, g);
      } else {
        ForeignStep(st, s, user, before, x, g);
      }
    }
  }

  lemma NothingNamed(st: State, g: nat)
    requires g < |st.groups|
    ensures Emptied(st, st, g, [])
  {
  }

  lemma OwnRows(st: State, user: nat, g: nat)
    requires Good(st) && g < |st.groups| && st.groups[g].user == user
    ensures forall i | 0 <= i < |st.rows| && st.rows[i].group == g :: st.rows[i].user == user
  {
  }

  lemma ForeignStep(st: State, s: State, user: nat, before: seq<ItemId>, x: ItemId, g: nat)
    requires g < |st.groups| && Emptied(st, s, g, before)
    requires forall i | 0 <= i < |st.rows| && st.rows[i].group == g :: st.rows[i].item != x
    ensures Emptied(st, s, g, before + [x]) && Emptied(st, s.(exchange := s.exchange - {x}), g, before + [x])
  {
    ForeignNext(st, g, before, x);
  }

  lemma FoundStep(st: State, s: State, user: nat, before: seq<ItemId>, x: ItemId, e: nat, faults: set<ItemId>, now: Time, g: nat)
    requires Good(st) && Good(s) && g < |st.groups| && Emptied(st, s, g, before)
    requires !st.rows[st.groups[g].primary].master
    requires e < |st.rows| && st.rows[e].item == x && st.rows[e].user == user
    ensures Emptied(st, DeleteTx(s, user, e, false, faults, now), g, before + [x])
  {
    var t := DeleteTx(s, user, e, false, faults, now);
    DeleteEmpties(s, user, e, faults, now, g);
    ShapeTransitive(st, s, t);
    NamedNext(st, g, before, x, e);
    assert st.rows[e].group == g ==> st.rows[e].master == st.rows[PrimaryOf(st, e)].master;
    forall i | 0 <= i < |st.rows| && st.rows[i].group == g
      ensures t.rows[i].deleted.Some? <==> st.rows[i].deleted.Some? || Condemned(st, i, before + [x])
    {
      CondemnedNext(st, i, before, x, e);
    }
  }

  /** A list holding every id of a non-recurring group, in any order and with repeats, empties it. */
  lemma FullListEmptiesGroup(st: State, user: nat, ids: seq<ItemId>, accounts: seq<nat>, blocked: set<(nat, ItemId)>,
                             faults: set<ItemId>, now: Time, g: nat)
    requires Good(st) && g < |st.groups| && st.groups[g].user == user && !st.rows[st.groups[g].primary].master
    requires forall i | 0 <= i < |st.rows| && st.rows[i].group == g :: st.rows[i].item in ids
    ensures var s := DeleteIdsTx(st, user, ids, accounts, blocked, faults, now).0;
            && |s.rows| == |st.rows| && |s.groups| == |st.groups| && s.groups[g].state.Deleted?
            && (forall i | 0 <= i < |st.rows| && st.rows[i].group == g :: s.rows[i].deleted.Some?)
  {
    DeleteByIdsIsExact(st, user, ids, accounts, blocked, faults, now, g);
    assert st.rows[st.groups[g].primary].item in ids;
    assert Named(st, g, ids);
  }

  /** A recurring group's rows and state are left untouched by any list of anybody's. */
  lemma {:induction false} RecurringGroupSurvives(st: State, user: nat, ids: seq<ItemId>, accounts: seq<nat>, blocked: set<(nat, ItemId)>,
                                                  faults: set<ItemId>, now: Time, g: nat)
    requires Good(st) && g < |st.groups| && st.rows[st.groups[g].primary].master
    ensures Survives(st, DeleteIdsTx(st, user, ids, accounts, blocked, faults, now).0, g)
  {
    if ids == [] {
      Untouched(st, g);
    } else {
      var before, x := ids[..|ids| - 1], ids[|ids| - 1];
      var s := DeleteIdsTx(st, user, before, accounts, blocked, faults, now).0;
      RecurringGroupSurvives(st, user, before, accounts, blocked, faults, now, g);
      DeleteIdsKeeps(st, user, before, accounts, blocked, faults, now);
      hide Survives, Good, SameShape, DeleteTx, RowsAgree, ItemsAgree, Forward, OwnIds;
      var e := RowOfItem(s.rows, x, Some(user), false);
      if e.Some? {
        SurvivesDelete(st, s, user, e.value, faults, now, g);
      } else {
        SurvivesRemoval(st, s, x, g);
      }
    }
  }

  /** Group g, its rows and the placement of everything are as in st. */
  ghost predicate Survives(st: State, s: State, g: nat)
    requires g < |st.groups|
  {
    && SameShape(st, s) && s.groups[g] == st.groups[g]
    && (forall i | 0 <= i < |st.rows| && st.rows[i].group == g :: s.rows[i] == st.rows[i])
  }

  lemma Untouched(st: State, g: nat)
    requires g < |st.groups|
    ensures Survives(st, st, g)
  {
  }

  lemma SurvivesDelete(st: State, s: State, user: nat, e: nat, faults: set<ItemId>, now: Time, g: nat)
    requires Good(st) && Good(s) && g < |st.groups| && st.rows[st.groups[g].primary].master
    requires Survives(st, s, g) && e < |s.rows|
    ensures Survives(st, DeleteTx(s, user, e, false, faults, now), g)
  {
    var t := DeleteTx(s, user, e, false, faults, now);
    DeleteKeepsStructure(s, user, e, false, faults, now);
    ShapeTransitive(st, s, t);
    MasterOf(st, s, e, g);
    hide Good, SameShape, DeletedItems;
  }

  lemma MasterOf(st: State, s: State, e: nat, g: nat)
    requires Good(st) && SameShape(st, s) && e < |s.rows| && g < |st.groups| && st.rows[st.groups[g].primary].master
    ensures s.rows[e].group == g ==> s.rows[e].master
  {
    if st.rows[e].group == g {
      assert st.rows[e].master == st.rows[PrimaryOf(st, e)].master;
    }
  }

  lemma SurvivesRemoval(st: State, s: State, x: ItemId, g: nat)
    requires g < |st.groups| && Survives(st, s, g)
    ensures Survives(st, s.(exchange := s.exchange - {x}), g)
  {
  }

  /** An id of the user's own recurring event is counted as deleted, and nothing is deleted at all. */
  lemma RecurringIdIsCounted(st: State, user: nat, e: nat, accounts: seq<nat>, blocked: set<(nat, ItemId)>, faults: set<ItemId>, now: Time)
    requires Good(st) && EventFound(st, user, e) && st.rows[e].master
    ensures DeleteIdsTx(st, user, [st.rows[e].item], accounts, blocked, faults, now) == (st, 1, [])
  {
    var x := st.rows[e].item;
    var found := RowOfItem(st.rows, x, Some(user), false);
    assert Matches(st.rows[e], x, Some(user), false);
    assert found.Some? && found.value == e;
    assert [x][..0] == [];
    assert DeleteIdsTx(st, user, [], accounts, blocked, faults, now) == (st, 0, []);
    hide Good;
  }

  /** The Exchange items of group g are as in st. */
  ghost predicate ItemsSurvive(st: State, s: State, g: nat) {
    forall i | 0 <= i < |st.rows| && st.rows[i].group == g ::
      && (st.rows[i].item in s.exchange <==> st.rows[i].item in st.exchange)
      && (st.rows[i].item in st.exchange ==> s.exchange[st.rows[i].item] == st.exchange[st.rows[i].item])
  }

  lemma DeleteSparesItems(s: State, user: nat, e: nat, faults: set<ItemId>, now: Time, g: nat)
    requires Good(s) && e < |s.rows| && (s.rows[e].group == g ==> s.rows[e].master)
    ensures ItemsSurvive(s, DeleteTx(s, user, e, false, faults, now), g)
  {
  }

  lemma ItemsSurviveTransitive(a: State, b: State, c: State, g: nat)
    requires ItemsSurvive(a, b, g) && ItemsSurvive(b, c, g) && SameShape(a, b)
    ensures ItemsSurvive(a, c, g)
  {
  }

  /** Their owner's requests leave the Exchange items of a recurring group alone as well. */
  lemma {:induction false} RecurringItemsSurvive(st: State, user: nat, ids: seq<ItemId>, accounts: seq<nat>, blocked: set<(nat, ItemId)>,
                                                 faults: set<ItemId>, now: Time, g: nat)
    requires Good(st) && g < |st.groups| && st.groups[g].user == user && st.rows[st.groups[g].primary].master
    ensures ItemsSurvive(st, DeleteIdsTx(st, user, ids, accounts, blocked, faults, now).0, g)
  {
    hide SameShape, DeleteTx, RowsAgree, ItemsAgree, Forward, OwnIds, Wf, OnePrimary, OneCopyPerCalendar, OneOwner,
         DistinctItems, DeletionComplete;
    if ids == [] {
      ItemsSurviveStart(st, g);
    } else {
      hide ItemsSurvive;
      var before, x := ids[..|ids| - 1], ids[|ids| - 1];
      var s := DeleteIdsTx(st, user, before, accounts, blocked, faults, now).0;
      RecurringItemsSurvive(st, user, before, accounts, blocked, faults, now, g);
      DeleteIdsKeeps(st, user, before, accounts, blocked, faults, now);
      OwnRows(st, user, g);
      FoundRow(st, s, x, user);
      var e := RowOfItem(s.rows, x, Some(user), false);
      if e.Some? {
        MasterOf(st, s, e.value, g);
        DeleteSparesItems(s, user, e.value, faults, now, g);
        ItemsSurviveTransitive(st, s, DeleteTx(s, user, e.value, false, faults, now), g);
      } else {
        RemovalSparesItems(st, s, x, g);
      }
    }
  }

  lemma ItemsSurviveStart(st: State, g: nat)
    ensures ItemsSurvive(st, st, g)
  {
  }

  lemma RemovalSparesItems(st: State, s: State, x: ItemId, g: nat)
    requires ItemsSurvive(st, s, g) && forall i | 0 <= i < |st.rows| && st.rows[i].group == g :: st.rows[i].item != x
    ensures ItemsSurvive(st, s.(exchange := s.exchange - {x}), g)
  {
  }

  /** Every id is either counted as deleted or reported as an error. */
  lemma {:induction false} EveryIdAccounted(st: State, user: nat, ids: seq<ItemId>, accounts: seq<nat>, blocked: set<(nat, ItemId)>,
                                            faults: set<ItemId>, now: Time)
    requires Wf(st)
    ensures var (_, deleted, errors) := DeleteIdsTx(st, user, ids, accounts, blocked, faults, now);
            deleted + |errors| == |ids| && forall k | 0 <= k < |errors| :: errors[k] in ids
  {
    hide DeleteTx, DirectlyDeletable, RowOfItem, Wf;
    if ids != [] {
      var before, x := ids[..|ids| - 1], ids[|ids| - 1];
      EveryIdAccounted(st, user, before, accounts, blocked, faults, now);
      assert ids == before + [x];
      ErrorsGrow(DeleteIdsTx(st, user, before, accounts, blocked, faults, now).2, before, x);
    }
  }

  lemma ErrorsGrow(errors: seq<ItemId>, before: seq<ItemId>, x: ItemId)
    requires forall k | 0 <= k < |errors| :: errors[k] in before
    ensures forall k | 0 <= k < |errors| :: errors[k] in before + [x]
    ensures forall k | 0 <= k < |errors + [x]| :: (errors + [x])[k] in before + [x]
  {
  }

  // ---------------------------------------------------------------- what a deletion leaves in Exchange

  /** The items a deletion of e tries to remove: its own and those of its group's live mirrors. */
  function DoomedItems(st: State, e: nat): set<ItemId>
    requires e < |st.rows|
  {
    set j | 0 <= j < |st.rows| && Doomed(st, e, j) :: st.rows[j].item
  }

  /**
   A deletion removes from Exchange exactly the items of the event and its live mirrors whose call did
   not fail, and marks exactly those rows deleted; every other item and row stays as it is.
   */
  lemma DeleteLeavesOnlyFailures(st: State, user: nat, e: nat, all: bool, faults: set<ItemId>, now: Time)
    requires Good(st) && EventFound(st, user, e) && (all || !st.rows[e].master)
    ensures var s := DeleteTx(st, user, e, all, faults, now);
            && s.exchange.Keys == st.exchange.Keys - (DoomedItems(st, e) - faults)
            && (forall x | x in s.exchange :: s.exchange[x] == st.exchange[x])
            && |s.rows| == |st.rows|
            && (forall j | 0 <= j < |st.rows| ::
                  s.rows[j] == if j == e || IsTarget(st, e, j) then st.rows[j].(deleted := Some(now)) else st.rows[j])
            && s.groups[st.rows[e].group].state.Deleted?
  {
    var gone := DeletedItems(st, e, faults, |st.rows|);
    forall x | x in st.exchange
      ensures x in gone <==> x in DoomedItems(st, e) && x !in faults
    {
      if x in DoomedItems(st, e) && x !in faults {
        var j :| 0 <= j < |st.rows| && Doomed(st, e, j) && st.rows[j].item == x;
        assert Reachable(st, faults, j);
      }
    }
    hide Good, DeletedItems, Doomed, DoomedItems;
  }

  /** An item missing from Exchange: a live primary takes its whole group down, a live mirror causes a repair. */
  lemma ExternalDeleteIs(st: State, e: nat, faults: set<ItemId>, now: Time)
    requires Good(st) && e < |st.rows| && st.rows[e].deleted.None?
    ensures ExternalDeleteTx(st, st.rows[e].item, faults, now)
         == if st.rows[e].role.Primary? then DeleteTx(st, st.rows[e].user, e, true, faults, now)
            else RepairTx(st, st.rows[e].group, faults, now)
  {
    var found := RowOfItem(st.rows, st.rows[e].item, None, true);
    assert Matches(st.rows[e], st.rows[e].item, None, true);
    assert found.Some? && found.value == e;
    hide Good, DeleteTx, RepairTx;
  }

  /** An item no live row holds, be it unknown or of a deleted event, causes nothing. */
  lemma UnknownItemIsIgnored(st: State, x: ItemId, faults: set<ItemId>, now: Time)
    requires Wf(st) && forall i | 0 <= i < |st.rows| && st.rows[i].deleted == None :: st.rows[i].item != x
    ensures ExternalDeleteTx(st, x, faults, now) == st
  {
    hide Wf, DeleteTx, RepairTx;
    assert RowOfItem(st.rows, x, None, true).None?;
  }
}
