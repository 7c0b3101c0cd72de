/**
 What every transaction of the sync engine keeps: where copies are placed, what deletion
 completes, and the agreement of mirrors with their primary.
 */
module SyncInvariants {
  import opened Basics
  import opened SyncModel

  // ---------------------------------------------------------------- placement

  /** The row group g names as its primary. */
  function PrimaryOf(st: State, i: nat): nat
    requires Wf(st) && i < |st.rows|
  {
    st.groups[st.rows[i].group].primary
  }

  ghost predicate OnePrimary(st: State)
    requires Wf(st)
  {
    && (forall g | 0 <= g < |st.groups| ::
          st.rows[st.groups[g].primary].role.Primary? && st.rows[st.groups[g].primary].group == g)
    && (forall i | 0 <= i < |st.rows| && st.rows[i].role.Primary? :: PrimaryOf(st, i) == i)
  }

  ghost predicate OneCopyPerCalendar(st: State)
    requires Wf(st)
  {
    forall i, j | 0 <= i < j < |st.rows| && st.rows[i].group == st.rows[j].group ::
      st.rows[i].calendar != st.rows[j].calendar
  }

  ghost predicate OneOwner(st: State)
    requires Wf(st)
  {
    forall i | 0 <= i < |st.rows| ::
      && st.rows[i].user == st.groups[st.rows[i].group].user
      && st.rows[i].master == st.rows[PrimaryOf(st, i)].master
  }

  /** A deleted group has no live mirror, and only a deleted group has a deleted primary. */
  ghost predicate DeletionComplete(st: State)
    requires Wf(st)
  {
    && (forall i | 0 <= i < |st.rows| && LiveMirror(st.rows[i]) :: st.groups[st.rows[i].group].state != Deleted)
    && (forall g | 0 <= g < |st.groups| && st.rows[st.groups[g].primary].deleted.Some? :: st.groups[g].state == Deleted)
  }

  ghost predicate Good(st: State) {
    Wf(st) && DistinctItems(st) && OnePrimary(st) && OneCopyPerCalendar(st) && OneOwner(st) && DeletionComplete(st)
  }

  // ---------------------------------------------------------------- agreement

  /** Row i is a live mirror of a group still ACTIVE. */
  predicate Tracked(st: State, i: nat)
    requires Wf(st) && i < |st.rows|
  {
    LiveMirror(st.rows[i]) && st.groups[st.rows[i].group].state.Active?
  }

  predicate RowAgrees(st: State, i: nat)
    requires Wf(st) && i < |st.rows|
  {
    var p := st.rows[PrimaryOf(st, i)];
    st.rows[i].title == BUSY + p.title && st.rows[i].start == p.start && st.rows[i].end == p.end
  }

  predicate ItemAgrees(st: State, i: nat)
    requires Wf(st) && i < |st.rows|
  {
    st.rows[i].item in st.exchange && st.exchange[st.rows[i].item].content == BodyOf(st, PrimaryOf(st, i))
  }

  /** Row i's Exchange item, if it exists, invites nobody. */
  predicate InvitesNobody(st: State, i: nat)
    requires i < |st.rows|
  {
    st.rows[i].item in st.exchange ==> st.exchange[st.rows[i].item].attendees == []
  }

  /** Every tracked mirror row agrees with its primary, leaving out the groups in `but`. */
  ghost predicate RowsAgree(st: State, but: set<nat>)
    requires Wf(st)
  {
    forall i | 0 <= i < |st.rows| && Tracked(st, i) && st.rows[i].group !in but :: RowAgrees(st, i)
  }

  ghost predicate ItemsAgree(st: State, but: set<nat>)
    requires Wf(st)
  {
    forall i | 0 <= i < |st.rows| && Tracked(st, i) ::
      InvitesNobody(st, i) && (st.rows[i].group !in but ==> ItemAgrees(st, i))
  }

  // ---------------------------------------------------------------- progress

  function Rank(s: GroupState): nat {
    match s case Active => 0 case Degraded => 1 case Deleted => 2
  }

  ghost predicate Forward(st: State, s: State) {
    |st.groups| <= |s.groups| && forall g | 0 <= g < |st.groups| :: Rank(st.groups[g].state) <= Rank(s.groups[g].state)
  }

  /** What one transaction promises: structure kept, group states only forward, agreement kept. */
  ghost predicate Progress(st: State, s: State)
    requires Wf(st)
  {
    && Good(s) && Forward(st, s)
    && (RowsAgree(st, {}) ==> RowsAgree(s, {}))
    && (ItemsAgree(st, {}) ==> ItemsAgree(s, {}))
  }

  /** Columns no transaction ever rewrites. */
  ghost predicate SameShape(st: State, s: State) {
    && s.calendars == st.calendars && s.nextItem == st.nextItem
    && |s.rows| == |st.rows| && |s.groups| == |st.groups|
    && (forall i | 0 <= i < |st.rows| ::
          var a := st.rows[i]; var b := s.rows[i];
          a.user == b.user && a.calendar == b.calendar && a.item == b.item && a.group == b.group
          && a.role == b.role && a.master == b.master && a.attendees == b.attendees)
    && (forall g | 0 <= g < |st.groups| ::
          st.groups[g].primary == s.groups[g].primary && st.groups[g].user == s.groups[g].user)
    && s.exchange.Keys <= st.exchange.Keys
    && (forall x | x in s.exchange ::
          s.exchange[x].calendar == st.exchange[x].calendar && s.exchange[x].attendees == st.exchange[x].attendees)
  }

  lemma ShapeKeepsPlacement(st: State, s: State)
    requires Good(st) && SameShape(st, s)
    ensures Wf(s) && DistinctItems(s) && OnePrimary(s) && OneCopyPerCalendar(s) && OneOwner(s)
  {
    forall i | 0 <= i < |s.rows|
      ensures s.rows[i].user == s.groups[s.rows[i].group].user && s.rows[i].master == s.rows[PrimaryOf(s, i)].master
    {
      assert st.rows[i].master == st.rows[PrimaryOf(st, i)].master;
    }
  }

  // ---------------------------------------------------------------- sync

  lemma SyncShape(st: State, p: nat, faults: set<ItemId>, now: Time)
    requires Wf(st)
    ensures SameShape(st, SyncTx(st, p, faults, now))
  {
    hide BodyOf, SourceTitle, IsSynced, SyncedItems, Failures;
  }

  /** A failed mirror is a live mirror of the source's group. */
  lemma {:induction false} StaleMeansTarget(st: State, p: nat, faults: set<ItemId>, k: nat)
    requires p < |st.rows| && k <= |st.rows|
    ensures StaleCalendars(st, p, faults, k) == []
            <==> forall j | 0 <= j < k && IsTarget(st, p, j) :: Reachable(st, faults, j)
  {
    if k > 0 {
      StaleMeansTarget(st, p, faults, k - 1);
    }
  }

  /** Only a group with a live mirror, hence not a DELETED one, is ever degraded. */
  lemma SyncStates(st: State, p: nat, faults: set<ItemId>, now: Time)
    requires Wf(st) && DeletionComplete(st)
    ensures var s := SyncTx(st, p, faults, now);
            && |s.groups| == |st.groups|
            && forall g | 0 <= g < |st.groups| ::
                 s.groups[g].primary == st.groups[g].primary
                 && (s.groups[g].state == st.groups[g].state || (s.groups[g].state == Degraded && st.groups[g].state != Deleted))
  {
    if p < |st.rows| && Failures(st, p, faults) != [] {
      StaleMeansTarget(st, p, faults, |st.rows|);
      var j :| 0 <= j < |st.rows| && IsTarget(st, p, j) && !Reachable(st, faults, j);
      assert LiveMirror(st.rows[j]);
    }
    hide SyncedRows, SyncedItems, SavedExchange, Failures, IsTarget, Reachable, Wf;
  }

  lemma SyncKeepsDeletion(st: State, p: nat, faults: set<ItemId>, now: Time)
    requires Wf(st) && DeletionComplete(st)
    ensures var s := SyncTx(st, p, faults, now); Wf(s) ==> DeletionComplete(s)
  {
    SyncStates(st, p, faults, now);
    if p < |st.rows| {
      SyncLeavesPlaces(st, p, faults, now);
    }
    hide SyncedRows, SyncedItems, SavedExchange, Failures;
  }

  lemma SyncGoesForward(st: State, p: nat, faults: set<ItemId>, now: Time)
    requires Wf(st) && DeletionComplete(st)
    ensures Forward(st, SyncTx(st, p, faults, now))
  {
    SyncStates(st, p, faults, now);
    hide SyncTx, DeletionComplete, Wf;
  }

  lemma SyncLeavesPlaces(st: State, p: nat, faults: set<ItemId>, now: Time)
    requires p < |st.rows|
    ensures |SyncedRows(st, p, faults, now)| == |st.rows|
    ensures forall i | 0 <= i < |st.rows| ::
              var r := SyncedRows(st, p, faults, now)[i];
              r.deleted == st.rows[i].deleted && r.role == st.rows[i].role && r.group == st.rows[i].group
  {
    hide IsSynced, SourceTitle;
  }

  lemma SyncKeepsStructure(st: State, p: nat, faults: set<ItemId>, now: Time)
    requires Good(st)
    ensures var s := SyncTx(st, p, faults, now); Good(s) && Forward(st, s)
  {
    SyncShape(st, p, faults, now);
    ShapeKeepsPlacement(st, SyncTx(st, p, faults, now));
    SyncKeepsDeletion(st, p, faults, now);
    SyncGoesForward(st, p, faults, now);
  }

  /** A saved item is the item of exactly the mirror it belongs to. */
  lemma SavedItem(st: State, p: nat, faults: set<ItemId>, now: Time, i: nat)
    requires Wf(st) && DistinctItems(st) && p < |st.rows| && i < |st.rows|
    ensures st.rows[i].item in SyncedItems(st, p, faults, |st.rows|) <==> IsSynced(st, p, faults, i)
  {
  }

  /** After a sync from a primary, a mirror still tracked was tracked before, and is in agreement if it was or was synced. */
  lemma SyncRestores(st: State, p: nat, faults: set<ItemId>, now: Time, i: nat)
    requires Good(st) && p < |st.rows| && st.rows[p].role.Primary? && i < |st.rows|
    requires var s := SyncTx(st, p, faults, now); Wf(s) && Tracked(s, i)
    ensures var s := SyncTx(st, p, faults, now);
            && Tracked(st, i) && (InvitesNobody(st, i) ==> InvitesNobody(s, i))
            && (st.rows[i].group == st.rows[p].group || RowAgrees(st, i) ==> RowAgrees(s, i))
            && (st.rows[i].group == st.rows[p].group || ItemAgrees(st, i) ==> ItemAgrees(s, i))
  {
    var s := SyncTx(st, p, faults, now);
    SyncStates(st, p, faults, now);
    StaleMeansTarget(st, p, faults, |st.rows|);
    SavedItem(st, p, faults, now, i);
    hide OneCopyPerCalendar, OneOwner, DeletionComplete, MirrorBody, StaleCalendars, DistinctItems;
    assert s.rows[PrimaryOf(st, i)] == st.rows[PrimaryOf(st, i)];
  }

  /** After a sync from a primary, its group is either no longer ACTIVE or back in agreement. */
  lemma SyncRestoresAgreement(st: State, p: nat, faults: set<ItemId>, now: Time)
    requires Good(st) && p < |st.rows| && st.rows[p].role.Primary?
    ensures var s := SyncTx(st, p, faults, now);
            && Wf(s)
            && (RowsAgree(st, {st.rows[p].group}) ==> RowsAgree(s, {}))
            && (ItemsAgree(st, {st.rows[p].group}) ==> ItemsAgree(s, {}))
  {
    var s := SyncTx(st, p, faults, now);
    SyncKeepsStructure(st, p, faults, now);
    SyncShape(st, p, faults, now);
    assert |s.rows| == |st.rows|;
    hide SyncTx, Good, Forward, SameShape, Tracked, RowAgrees, ItemAgrees, InvitesNobody;
    forall i | 0 <= i < |s.rows| && Tracked(s, i)
      ensures RowsAgree(st, {st.rows[p].group}) ==> RowAgrees(s, i)
      ensures ItemsAgree(st, {st.rows[p].group}) ==> InvitesNobody(s, i) && ItemAgrees(s, i)
    {
      SyncRestores(st, p, faults, now, i);
    }
  }

  lemma SyncFromPrimary(st: State, p: nat, faults: set<ItemId>, now: Time)
    requires Good(st) && (p < |st.rows| ==> st.rows[p].role.Primary?)
    ensures Progress(st, SyncTx(st, p, faults, now))
  {
    SyncKeepsStructure(st, p, faults, now);
    if p < |st.rows| {
      SyncRestoresAgreement(st, p, faults, now);
    }
  }

  // ---------------------------------------------------------------- delete

  lemma DeleteKeepsStructure(st: State, user: nat, e: nat, all: bool, faults: set<ItemId>, now: Time)
    requires Good(st)
    ensures var s := DeleteTx(st, user, e, all, faults, now); SameShape(st, s) && Good(s) && Forward(st, s)
  {
    DeleteShape(st, user, e, all, faults, now);
    ShapeKeepsPlacement(st, DeleteTx(st, user, e, all, faults, now));
    DeleteCompletes(st, user, e, all, faults, now);
  }

  lemma DeleteShape(st: State, user: nat, e: nat, all: bool, faults: set<ItemId>, now: Time)
    requires Wf(st)
    ensures SameShape(st, DeleteTx(st, user, e, all, faults, now))
  {
    hide DeletedItems, Doomed;
  }

  lemma DeleteCompletes(st: State, user: nat, e: nat, all: bool, faults: set<ItemId>, now: Time)
    requires Wf(st) && OnePrimary(st) && DeletionComplete(st)
    ensures var s := DeleteTx(st, user, e, all, faults, now); Wf(s) ==> DeletionComplete(s) && Forward(st, s)
  {
    hide DeletedItems;
  }

  /** A mirror still tracked after a deletion was not touched by it, nor was its primary. */
  lemma DeleteSpares(st: State, user: nat, e: nat, all: bool, faults: set<ItemId>, now: Time, i: nat)
    requires Good(st) && i < |st.rows|
    requires var s := DeleteTx(st, user, e, all, faults, now); Wf(s) && Tracked(s, i)
    ensures var s := DeleteTx(st, user, e, all, faults, now);
            && s.rows[i] == st.rows[i] && s.rows[PrimaryOf(st, i)] == st.rows[PrimaryOf(st, i)]
            && Tracked(st, i)
            && (st.rows[i].item in st.exchange ==>
                  st.rows[i].item in s.exchange && s.exchange[st.rows[i].item] == st.exchange[st.rows[i].item])
  {
    if EventFound(st, user, e) && (all || !st.rows[e].master) {
      assert st.rows[i].group != st.rows[e].group;
    }
  }

  lemma Delete(st: State, user: nat, e: nat, all: bool, faults: set<ItemId>, now: Time)
    requires Good(st)
    ensures Progress(st, DeleteTx(st, user, e, all, faults, now))
  {
    var s := DeleteTx(st, user, e, all, faults, now);
    DeleteKeepsStructure(st, user, e, all, faults, now);
    forall i | 0 <= i < |s.rows| && Tracked(s, i)
      ensures Tracked(st, i) && (RowAgrees(st, i) ==> RowAgrees(s, i)) && (ItemAgrees(st, i) ==> ItemAgrees(s, i))
    {
      DeleteSpares(st, user, e, all, faults, now, i);
    }
  }

  // ---------------------------------------------------------------- update

  lemma PatchKeepsStructure(st: State, e: nat, patch: Patch, now: Time)
    requires Good(st) && e < |st.rows|
    requires Sends(patch) ==> st.rows[e].item in st.exchange
    ensures var s := PatchTx(st, e, patch, now); SameShape(st, s) && Good(s) && Forward(st, s)
  {
    var s := PatchTx(st, e, patch, now);
    assert SameShape(st, s);
    ShapeKeepsPlacement(st, s);
    assert forall i | 0 <= i < |s.rows| :: s.rows[i].deleted == st.rows[i].deleted;
  }

  /** A mirror of another group keeps its row, its item and its primary. */
  lemma PatchSpares(st: State, e: nat, patch: Patch, now: Time, i: nat)
    requires Good(st) && e < |st.rows| && i < |st.rows| && st.rows[i].group != st.rows[e].group
    requires Sends(patch) ==> st.rows[e].item in st.exchange
    ensures var s := PatchTx(st, e, patch, now);
            && s.rows[i] == st.rows[i] && s.rows[PrimaryOf(st, i)] == st.rows[PrimaryOf(st, i)]
            && (st.rows[i].item in st.exchange ==> s.exchange[st.rows[i].item] == st.exchange[st.rows[i].item])
  {
  }

  lemma PatchBreaksOnlyItsGroup(st: State, e: nat, patch: Patch, now: Time)
    requires Good(st) && e < |st.rows|
    requires Sends(patch) ==> st.rows[e].item in st.exchange
    ensures var s := PatchTx(st, e, patch, now);
            && Wf(s)
            && (RowsAgree(st, {}) ==> RowsAgree(s, {st.rows[e].group}))
            && (ItemsAgree(st, {}) ==> ItemsAgree(s, {st.rows[e].group}))
  {
    var s := PatchTx(st, e, patch, now);
    PatchKeepsStructure(st, e, patch, now);
    forall i | 0 <= i < |s.rows| && Tracked(s, i)
      ensures Tracked(st, i) && (InvitesNobody(st, i) ==> InvitesNobody(s, i))
      ensures st.rows[i].group != st.rows[e].group ==>
                (RowAgrees(st, i) ==> RowAgrees(s, i)) && (ItemAgrees(st, i) ==> ItemAgrees(s, i))
    {
      if st.rows[i].group != st.rows[e].group {
        PatchSpares(st, e, patch, now, i);
      }
    }
  }

  lemma UpdateKeepsStructure(st: State, user: nat, e: nat, patch: Patch, failPrimary: bool, faults: set<ItemId>, now: Time)
    requires Good(st)
    ensures var s := UpdateTx(st, user, e, patch, failPrimary, faults, now).0; Good(s) && Forward(st, s)
  {
    if UpdateTx(st, user, e, patch, failPrimary, faults, now).1 !in {EventMissing, UpdateFailed} {
      PatchKeepsStructure(st, e, patch, now);
      SyncKeepsStructure(PatchTx(st, e, patch, now), e, faults, now);
    }
  }

  lemma UpdatePrimary(st: State, user: nat, e: nat, patch: Patch, failPrimary: bool, faults: set<ItemId>, now: Time)
    requires Good(st) && (e < |st.rows| ==> st.rows[e].role.Primary?)
    ensures Progress(st, UpdateTx(st, user, e, patch, failPrimary, faults, now).0)
  {
    UpdateKeepsStructure(st, user, e, patch, failPrimary, faults, now);
    if UpdateTx(st, user, e, patch, failPrimary, faults, now).1 !in {EventMissing, UpdateFailed} {
      PatchKeepsStructure(st, e, patch, now);
      PatchBreaksOnlyItsGroup(st, e, patch, now);
      SyncRestoresAgreement(PatchTx(st, e, patch, now), e, faults, now);
    }
  }

  // ---------------------------------------------------------------- create

  /** A new group with its primary and one mirror in each of the calendars cs. */
  function WithGroup(st: State, primary: Row, item: Item, cs: seq<nat>, group: Group): State
    requires primary.calendar < |st.calendars|
  {
    AddCopies(st, primary, item, MirrorBody(primary, st.calendars[primary.calendar].name), cs)
    .(groups := st.groups + [group])
  }

  ghost predicate NewGroup(st: State, primary: Row, item: Item, group: Group) {
    && primary.calendar < |st.calendars| && item.calendar < |st.calendars|
    && primary.item == st.nextItem && primary.group == |st.groups| && primary.role.Primary? && primary.deleted.None?
    && group.primary == |st.rows| && group.user == primary.user && group.state != Deleted
  }

  lemma FirstCopyRows(st: State, primary: Row, item: Item, group: Group)
    requires Wf(st) && NewGroup(st, primary, item, group)
    ensures var s := WithGroup(st, primary, item, [], group);
            && Wf(s) && s.rows == st.rows + [primary] && s.groups == st.groups + [group] && s.nextItem == st.nextItem + 1
  {
    hide MirrorBody;
  }

  lemma FirstCopyPlaced(st: State, primary: Row, item: Item, group: Group)
    requires Good(st) && NewGroup(st, primary, item, group)
    ensures var s := WithGroup(st, primary, item, [], group);
            && Wf(s) && DistinctItems(s) && OnePrimary(s) && Forward(st, s)
            && (forall i | 0 <= i < |st.rows| :: s.rows[i] == st.rows[i] && PrimaryOf(s, i) == PrimaryOf(st, i))
  {
    FirstCopyRows(st, primary, item, group);
    var s := WithGroup(st, primary, item, [], group);
    hide WithGroup, OneCopyPerCalendar, OneOwner, DeletionComplete, DistinctItems, OnePrimary;
    FirstCopyDistinct(st, s, primary);
    FirstCopyPrimary(st, s, primary, group);
  }

  lemma FirstCopyDistinct(st: State, s: State, primary: Row)
    requires Wf(st) && DistinctItems(st) && s.rows == st.rows + [primary] && primary.item == st.nextItem
    ensures DistinctItems(s)
  {
  }

  lemma FirstCopyPrimary(st: State, s: State, primary: Row, group: Group)
    requires Wf(st) && Wf(s) && OnePrimary(st) && s.rows == st.rows + [primary] && s.groups == st.groups + [group]
    requires primary.role.Primary? && primary.group == |st.groups| && group.primary == |st.rows|
    ensures OnePrimary(s)
  {
    assert forall i | 0 <= i < |st.rows| :: s.rows[i] == st.rows[i] && PrimaryOf(s, i) == PrimaryOf(st, i);
  }

  /** t is s with one row added at the end, in an existing or a new group; earlier groups are as they were. */
  ghost predicate OneRowMore(s: State, t: State, row: Row) {
    && Wf(s) && Wf(t) && |t.rows| == |s.rows| + 1 && |s.groups| <= |t.groups|
    && t.rows[|s.rows|] == row && (forall i | 0 <= i < |s.rows| :: t.rows[i] == s.rows[i])
    && (forall g | 0 <= g < |s.groups| :: t.groups[g] == s.groups[g])
  }

  lemma OneRowKeepsCalendars(s: State, t: State, row: Row)
    requires OneRowMore(s, t, row) && OneCopyPerCalendar(s)
    requires forall i | 0 <= i < |s.rows| && s.rows[i].group == row.group :: s.rows[i].calendar != row.calendar
    ensures OneCopyPerCalendar(t)
  {
    hide Wf;
  }

  lemma OneRowKeepsOwners(s: State, t: State, row: Row)
    requires OneRowMore(s, t, row) && OneOwner(s)
    requires row.user == t.groups[t.rows[|s.rows|].group].user && row.master == t.rows[PrimaryOf(t, |s.rows|)].master
    ensures OneOwner(t)
  {
    forall i | 0 <= i < |s.rows|
      ensures t.rows[i].user == t.groups[t.rows[i].group].user && t.rows[i].master == t.rows[PrimaryOf(t, i)].master
    {
      assert s.rows[i].master == s.rows[PrimaryOf(s, i)].master;
    }
  }

  lemma FirstCopyStructure(st: State, primary: Row, item: Item, group: Group)
    requires Good(st) && NewGroup(st, primary, item, group)
    ensures var s := WithGroup(st, primary, item, [], group); Good(s) && Forward(st, s)
  {
    var s := WithGroup(st, primary, item, [], group);
    FirstCopyPlaced(st, primary, item, group);
    hide MirrorBody, OnePrimary, DistinctItems, OneCopyPerCalendar, OneOwner, Forward;
    OneRowKeepsCalendars(st, s, primary);
    OneRowKeepsOwners(st, s, primary);
  }

  lemma FirstCopyProgress(st: State, primary: Row, item: Item, group: Group)
    requires Good(st) && NewGroup(st, primary, item, group)
    ensures Progress(st, WithGroup(st, primary, item, [], group))
  {
    var s := WithGroup(st, primary, item, [], group);
    FirstCopyStructure(st, primary, item, group);
    forall i | 0 <= i < |s.rows| && Tracked(s, i)
      ensures i < |st.rows| && Tracked(st, i) && (InvitesNobody(st, i) ==> InvitesNobody(s, i))
      ensures (RowAgrees(st, i) ==> RowAgrees(s, i)) && (ItemAgrees(st, i) ==> ItemAgrees(s, i))
    {
      assert s.rows[PrimaryOf(st, i)] == st.rows[PrimaryOf(st, i)];
    }
  }

  /** Row p's group may take one more mirror, in calendar c. */
  ghost predicate RoomFor(s: State, p: nat, c: nat) {
    && Good(s) && p < |s.rows| && s.rows[p].role.Primary? && c < |s.calendars|
    && s.groups[s.rows[p].group].state != Deleted
    && (forall i | 0 <= i < |s.rows| && s.rows[i].group == s.rows[p].group :: s.rows[i].calendar != c)
  }

  lemma OneMoreCopyPlaced(s: State, p: nat, c: nat)
    requires RoomFor(s, p, c)
    ensures var t := AddMirror(s, s.rows[p], BodyOf(s, p), c);
            && Wf(t) && DistinctItems(t) && OnePrimary(t) && Forward(s, t)
            && (forall i | 0 <= i < |s.rows| :: t.rows[i] == s.rows[i] && PrimaryOf(t, i) == PrimaryOf(s, i))
            && PrimaryOf(t, |s.rows|) == p
  {
    hide BodyOf, OneCopyPerCalendar, OneOwner, DeletionComplete;
  }

  lemma OneMoreCopyStructure(s: State, p: nat, c: nat)
    requires RoomFor(s, p, c)
    ensures var t := AddMirror(s, s.rows[p], BodyOf(s, p), c); Good(t) && Forward(s, t)
  {
    var t := AddMirror(s, s.rows[p], BodyOf(s, p), c);
    OneMoreCopyPlaced(s, p, c);
    OwnedByPrimary(s, p);
    hide BodyOf, OnePrimary, DistinctItems, OneCopyPerCalendar, OneOwner, Forward;
    OneRowKeepsCalendars(s, t, t.rows[|s.rows|]);
    OneRowKeepsOwners(s, t, t.rows[|s.rows|]);
  }

  lemma OwnedByPrimary(s: State, p: nat)
    requires Wf(s) && OnePrimary(s) && OneOwner(s) && p < |s.rows| && s.rows[p].role.Primary?
    ensures s.rows[p].user == s.groups[s.rows[p].group].user && s.groups[s.rows[p].group].primary == p
  {
  }

  lemma OneMoreCopyProgress(s: State, p: nat, c: nat)
    requires RoomFor(s, p, c)
    ensures Progress(s, AddMirror(s, s.rows[p], BodyOf(s, p), c))
  {
    var t := AddMirror(s, s.rows[p], BodyOf(s, p), c);
    OneMoreCopyStructure(s, p, c);
    hide OneCopyPerCalendar, OneOwner, DistinctItems, DeletionComplete, MirrorBody, Forward;
    forall i | 0 <= i < |s.rows| && Tracked(t, i)
      ensures Tracked(s, i) && (InvitesNobody(s, i) ==> InvitesNobody(t, i))
      ensures (RowAgrees(s, i) ==> RowAgrees(t, i)) && (ItemAgrees(s, i) ==> ItemAgrees(t, i))
    {
      assert t.rows[PrimaryOf(s, i)] == s.rows[PrimaryOf(s, i)];
    }
    assert PrimaryOf(t, |s.rows|) == p && t.rows[p] == s.rows[p];
  }

  lemma ProgressTransitive(a: State, b: State, c: State)
    requires Wf(a) && Progress(a, b) && Progress(b, c)
    ensures Progress(a, c)
  {
  }

  /** The rows of the group being created: its primary, and mirrors in the calendars cs only. */
  ghost predicate OnlyCopies(st: State, primary: Row, cs: seq<nat>, s: State) {
    && |st.rows| < |s.rows| && s.rows[|st.rows|] == primary
    && (forall i | 0 <= i < |s.rows| && s.rows[i].group == primary.group :: i == |st.rows| || s.rows[i].calendar in cs)
  }

  lemma {:induction false} CopiesProgress(st: State, primary: Row, item: Item, cs: seq<nat>, group: Group)
    requires Good(st) && NewGroup(st, primary, item, group)
    requires forall i | 0 <= i < |cs| :: cs[i] < |st.calendars| && cs[i] != primary.calendar
    requires forall i, j | 0 <= i < j < |cs| :: cs[i] < cs[j]
    ensures var s := WithGroup(st, primary, item, cs, group);
            && s.calendars == st.calendars && s.groups == st.groups + [group]
            && OnlyCopies(st, primary, cs, s) && Progress(st, s)
  {
    if cs == [] {
      FirstCopyProgress(st, primary, item, group);
    } else {
      CopiesProgress(st, primary, item, cs[..|cs| - 1], group);
      var s := WithGroup(st, primary, item, cs[..|cs| - 1], group);
      assert cs[|cs| - 1] !in cs[..|cs| - 1];
      RoomForLast(st, s, primary, cs);
      OneMoreCopyProgress(s, |st.rows|, cs[|cs| - 1]);
      StillOnlyCopies(st, s, primary, cs);
      var t := AddMirror(s, s.rows[|st.rows|], BodyOf(s, |st.rows|), cs[|cs| - 1]);
      ProgressTransitive(st, s, t);
      WithOneMore(st, primary, item, cs, group, s);
    }
  }

  lemma WithOneMore(st: State, primary: Row, item: Item, cs: seq<nat>, group: Group, s: State)
    requires cs != [] && primary.calendar < |st.calendars| && s == WithGroup(st, primary, item, cs[..|cs| - 1], group)
    requires |st.rows| < |s.rows| && s.rows[|st.rows|] == primary && Wf(s) && s.calendars == st.calendars
    ensures WithGroup(st, primary, item, cs, group) == AddMirror(s, primary, BodyOf(s, |st.rows|), cs[|cs| - 1])
  {
  }

  lemma RoomForLast(st: State, s: State, primary: Row, cs: seq<nat>)
    requires cs != [] && OnlyCopies(st, primary, cs[..|cs| - 1], s) && Good(s) && primary.role.Primary?
    requires s.groups[primary.group].state != Deleted
    requires cs[|cs| - 1] < |s.calendars| && cs[|cs| - 1] != primary.calendar && cs[|cs| - 1] !in cs[..|cs| - 1]
    ensures RoomFor(s, |st.rows|, cs[|cs| - 1])
  {
  }

  lemma StillOnlyCopies(st: State, s: State, primary: Row, cs: seq<nat>)
    requires cs != [] && OnlyCopies(st, primary, cs[..|cs| - 1], s)
    requires primary.calendar < |s.calendars| && Wf(s)
    ensures OnlyCopies(st, primary, cs, AddMirror(s, primary, BodyOf(s, |st.rows|), cs[|cs| - 1]))
  {
  }

  lemma Create(st: State, user: nat, cal: nat, draft: Draft, failPrimary: bool, failCals: set<nat>, now: Time)
    requires Good(st)
    ensures Progress(st, CreateTx(st, user, cal, draft, failPrimary, failCals, now).0)
  {
    var (s, result) := CreateTx(st, user, cal, draft, failPrimary, failCals, now);
    if result !in {CalendarMissing, CreateFailed} {
      MirrorCalendarsAre(st.calendars, user, cal, failCals, false, |st.calendars|);
      var primary := PrimaryRow(user, cal, st.nextItem, |st.groups|, draft, now);
      var cs := MirrorCalendars(st.calendars, user, cal, failCals, false, |st.calendars|);
      CopiesProgress(st, primary, PrimaryItem(cal, draft), cs, s.groups[|st.groups|]);
    }
  }
}
