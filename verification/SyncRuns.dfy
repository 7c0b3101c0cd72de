/**
 Runs of the engine: service calls, polls and hand edits in Outlook, in any order and with any
 choice of failing Exchange calls.
 */
module SyncRuns {
  import opened Basics
  import opened SyncModel
  import opened SyncInvariants
  import opened Polling
  import Text

  datatype Step =
    | CreateEvent(user: nat, cal: nat, draft: Draft, failPrimary: bool, failCals: set<nat>, now: Time)
    | UpdateEvent(user: nat, e: nat, patch: Patch, failPrimary: bool, faults: set<ItemId>, now: Time)
    | DeleteEvent(user: nat, e: nat, all: bool, faults: set<ItemId>, now: Time)
    | DeleteByIds(user: nat, ids: seq<ItemId>, accounts: seq<nat>, blocked: set<(nat, ItemId)>, faults: set<ItemId>, now: Time)
    | ExternalDelete(x: ItemId, faults: set<ItemId>, now: Time)
    | Repair(g: nat, faults: set<ItemId>, now: Time)
    | Poll(accounts: seq<nat>, w: Window, unlisted: set<nat>, faults: set<ItemId>, now: Time)
    | OutlookEdit(x: ItemId, content: Content, attendees: seq<string>)
    | OutlookRemove(x: ItemId)
    | OutlookAdd(item: Item)
    | ChangeCalendar(c: nat, name: string, active: bool, mirrorEnabled: bool)
    | AddCalendar(calendar: Calendar)

  function Apply(st: State, step: Step): State
    requires Wf(st)
  {
    match step
    case CreateEvent(user, cal, draft, failPrimary, failCals, now) => CreateTx(st, user, cal, draft, failPrimary, failCals, now).0
    case UpdateEvent(user, e, patch, failPrimary, faults, now) => UpdateTx(st, user, e, patch, failPrimary, faults, now).0
    case DeleteEvent(user, e, all, faults, now) => DeleteTx(st, user, e, all, faults, now)
    case DeleteByIds(user, ids, accounts, blocked, faults, now) => DeleteIdsTx(st, user, ids, accounts, blocked, faults, now).0
    case ExternalDelete(x, faults, now) => ExternalDeleteTx(st, x, faults, now)
    case Repair(g, faults, now) => RepairTx(st, g, faults, now)
    case Poll(accounts, w, unlisted, faults, now) => PollTx(st, accounts, w, unlisted, faults, now).0
    case OutlookEdit(x, content, attendees) =>
      if x in st.exchange then
        st.(exchange := st.exchange[x := st.exchange[x].(content := content, attendees := attendees,
                                                         key := st.exchange[x].key + 1)])
      else st
    case OutlookRemove(x) => st.(exchange := st.exchange - {x})
    case OutlookAdd(item) =>
      if item.calendar < |st.calendars| then
        st.(exchange := st.exchange[st.nextItem := item], nextItem := st.nextItem + 1)
      else st
    case ChangeCalendar(c, name, active, mirrorEnabled) =>
      if c < |st.calendars| then
        st.(calendars := st.calendars[c := st.calendars[c].(name := name, active := active, mirrorEnabled := mirrorEnabled)])
      else st
    case AddCalendar(calendar) => st.(calendars := st.calendars + [calendar])
  }

  // ---------------------------------------------------------------- single steps

  /** SameShape and Progress together, the pair that chains over loops. */
  ghost predicate Quiet(st: State, s: State)
    requires Wf(st)
    ensures Quiet(st, s) ==> Good(s) && s.calendars == st.calendars && |s.rows| == |st.rows|
  {
    SameShape(st, s) && Progress(st, s)
  }

  lemma ShapeTransitive(a: State, b: State, c: State)
    requires SameShape(a, b) && SameShape(b, c)
    ensures SameShape(a, c)
  {
  }

  lemma QuietTransitive(a: State, b: State, c: State)
    requires Wf(a) && Quiet(a, b) && Quiet(b, c)
    ensures Quiet(a, c)
  {
    hide SameShape, Progress;
    ShapeTransitive(a, b, c);
    ProgressTransitive(a, b, c);
  }

  lemma QuietKeepsRole(st: State, s: State, i: nat)
    requires Wf(st) && Quiet(st, s) && i < |st.rows|
    ensures s.rows[i].role == st.rows[i].role
  {
  }

  lemma QuietSync(st: State, p: nat, faults: set<ItemId>, now: Time)
    requires Good(st) && (p < |st.rows| ==> st.rows[p].role.Primary?)
    ensures Quiet(st, SyncTx(st, p, faults, now))
  {
    SyncShape(st, p, faults, now);
    SyncFromPrimary(st, p, faults, now);
  }

  lemma QuietDelete(st: State, user: nat, e: nat, all: bool, faults: set<ItemId>, now: Time)
    requires Good(st)
    ensures Quiet(st, DeleteTx(st, user, e, all, faults, now))
  {
    DeleteKeepsStructure(st, user, e, all, faults, now);
    Delete(st, user, e, all, faults, now);
  }

  lemma QuietRepair(st: State, g: nat, faults: set<ItemId>, now: Time)
    requires Good(st)
    ensures Quiet(st, RepairTx(st, g, faults, now))
  {
    var p := LivePrimary(st.rows, g);
    if p.Some? {
      QuietSync(st, p.value, faults, now);
    }
  }

  lemma QuietExternalDelete(st: State, x: ItemId, faults: set<ItemId>, now: Time)
    requires Good(st)
    ensures Quiet(st, ExternalDeleteTx(st, x, faults, now))
  {
    var e := RowOfItem(st.rows, x, None, true);
    if e.Some? {
      if st.rows[e.value].role.Primary? {
        QuietDelete(st, st.rows[e.value].user, e.value, true, faults, now);
      } else {
        QuietRepair(st, st.rows[e.value].group, faults, now);
      }
    }
  }

  lemma MarkSeenShape(st: State, i: nat, key: nat)
    requires Wf(st)
    ensures SameShape(st, MarkSeen(st, i, key))
  {
  }

  lemma MarkSeenDeletes(st: State, i: nat, key: nat)
    requires Wf(st) && OnePrimary(st) && DeletionComplete(st)
    ensures var s := MarkSeen(st, i, key); DeletionComplete(s) && Forward(st, s)
  {
    MarkSeenShape(st, i, key);
  }

  lemma MarkSeenKeepsStructure(st: State, i: nat, key: nat)
    requires Good(st)
    ensures SameShape(st, MarkSeen(st, i, key)) && Good(MarkSeen(st, i, key)) && Forward(st, MarkSeen(st, i, key))
  {
    hide OnePrimary, OneCopyPerCalendar, OneOwner, DistinctItems, SameShape, DeletionComplete, Forward, MarkSeen;
    MarkSeenShape(st, i, key);
    ShapeKeepsPlacement(st, MarkSeen(st, i, key));
    MarkSeenDeletes(st, i, key);
  }

  lemma MarkSeenSpares(st: State, i: nat, key: nat, j: nat)
    requires Wf(st) && j < |st.rows|
    ensures var s := MarkSeen(st, i, key);
            && |s.rows| == |st.rows| && Tracked(s, j) == Tracked(st, j) && InvitesNobody(s, j) == InvitesNobody(st, j)
            && RowAgrees(s, j) == RowAgrees(st, j) && ItemAgrees(s, j) == ItemAgrees(st, j)
  {
  }

  lemma QuietMarkSeen(st: State, i: nat, key: nat)
    requires Good(st)
    ensures Quiet(st, MarkSeen(st, i, key))
  {
    var s := MarkSeen(st, i, key);
    MarkSeenKeepsStructure(st, i, key);
    forall j | 0 <= j < |st.rows|
      ensures |s.rows| == |st.rows| && Tracked(s, j) == Tracked(st, j) && InvitesNobody(s, j) == InvitesNobody(st, j)
              && RowAgrees(s, j) == RowAgrees(st, j) && ItemAgrees(s, j) == ItemAgrees(st, j)
    {
      MarkSeenSpares(st, i, key, j);
    }
    hide Good, Forward, SameShape, Tracked, InvitesNobody, RowAgrees, ItemAgrees, MarkSeen;
  }

  lemma QuietPollRow(st: State, i: nat, r: Row, view: map<ItemId, nat>, faults: set<ItemId>, now: Time)
    requires Good(st) && (i < |st.rows| ==> st.rows[i].role.Primary?)
    ensures Quiet(st, PollRow(st, i, r, view, faults, now).0)
  {
    if r.item !in view {
      QuietExternalDelete(st, r.item, faults, now);
    } else if r.seenKey != Some(view[r.item]) {
      QuietSync(st, i, faults, now);
      QuietMarkSeen(SyncTx(st, i, faults, now), i, view[r.item]);
      QuietTransitive(st, SyncTx(st, i, faults, now), MarkSeen(SyncTx(st, i, faults, now), i, view[r.item]));
    }
  }

  /** One more row of a calendar's poll. */
  lemma QuietPollNext(st: State, s: State, cal: nat, w: Window, view: map<ItemId, nat>, faults: set<ItemId>, now: Time, k: nat)
    requires Good(st) && k < |st.rows| && Quiet(st, s) && Polled(st.rows[k], cal, w)
    ensures Quiet(st, PollRow(s, k, st.rows[k], view, faults, now).0)
  {
    hide PollRow;
    QuietKeepsRole(st, s, k);
    QuietPollRow(s, k, st.rows[k], view, faults, now);
    QuietTransitive(st, s, PollRow(s, k, st.rows[k], view, faults, now).0);
  }

  lemma {:induction false} QuietPollRows(st: State, cal: nat, w: Window, view: map<ItemId, nat>, faults: set<ItemId>, now: Time, k: nat)
    requires Good(st) && k <= |st.rows|
    ensures Quiet(st, PollRows(st, cal, w, view, faults, now, k).0)
  {
    hide Quiet, Wf, PollRow;
    if k == 0 {
      QuietStart(st);
    } else {
      QuietPollRows(st, cal, w, view, faults, now, k - 1);
      var (s, raised) := PollRows(st, cal, w, view, faults, now, k - 1);
      if !raised && Polled(st.rows[k - 1], cal, w) {
        QuietPollNext(st, s, cal, w, view, faults, now, k - 1);
      }
    }
  }

  lemma QuietStart(st: State)
    requires Good(st)
    ensures Quiet(st, st)
  {
  }

  lemma {:induction false} QuietPollAccount(st: State, account: nat, w: Window, unlisted: set<nat>, faults: set<ItemId>, now: Time, k: nat)
    requires Good(st) && k <= |st.calendars|
    ensures Quiet(st, PollAccount(st, account, w, unlisted, faults, now, k).0)
  {
    hide Quiet, Wf, PollRows;
    if k == 0 {
      QuietStart(st);
    } else {
      QuietPollAccount(st, account, w, unlisted, faults, now, k - 1);
      var (s, raised) := PollAccount(st, account, w, unlisted, faults, now, k - 1);
      QuietPollRows(s, k - 1, w, View(s, k - 1, w), faults, now, |s.rows|);
      QuietTransitive(st, s, PollCalendar(s, k - 1, w, faults, now).0);
    }
  }

  lemma {:induction false} QuietPoll(st: State, accounts: seq<nat>, w: Window, unlisted: set<nat>, faults: set<ItemId>, now: Time)
    requires Good(st)
    ensures Quiet(st, PollTx(st, accounts, w, unlisted, faults, now).0)
  {
    if accounts != [] {
      var s := PollTx(st, accounts[..|accounts| - 1], w, unlisted, faults, now).0;
      QuietPoll(st, accounts[..|accounts| - 1], w, unlisted, faults, now);
      QuietPollAccount(s, accounts[|accounts| - 1], w, unlisted, faults, now, |s.calendars|);
      QuietTransitive(st, s, PollTx(st, accounts, w, unlisted, faults, now).0);
    }
  }

  // ---------------------------------------------------------------- direct changes to Exchange

  /** What changes to Exchange alone keep: the tables do not move. */
  ghost predicate ExchangeOnly(st: State, s: State) {
    && s == st.(exchange := s.exchange, nextItem := s.nextItem) && st.nextItem <= s.nextItem
    && (forall x | x in s.exchange :: x < s.nextItem && s.exchange[x].calendar < |st.calendars|)
  }

  ghost predicate SameTables(st: State, s: State) {
    Wf(st) && Wf(s) && s.rows == st.rows && s.groups == st.groups
  }

  lemma SamePrimaries(st: State, s: State)
    requires SameTables(st, s) && OnePrimary(st)
    ensures OnePrimary(s)
  {
  }

  lemma SameOwners(st: State, s: State)
    requires SameTables(st, s) && OneOwner(st)
    ensures OneOwner(s)
  {
    forall i | 0 <= i < |s.rows|
      ensures s.rows[i].user == s.groups[s.rows[i].group].user && s.rows[i].master == s.rows[PrimaryOf(s, i)].master
    {
      assert st.rows[i].master == st.rows[PrimaryOf(st, i)].master;
    }
  }

  lemma SameDeletions(st: State, s: State)
    requires SameTables(st, s) && DeletionComplete(st)
    ensures DeletionComplete(s)
  {
  }

  lemma ExchangeOnlyStructure(st: State, s: State)
    requires Good(st) && ExchangeOnly(st, s)
    ensures Good(s) && Forward(st, s)
  {
    hide OnePrimary, OneOwner, DeletionComplete;
    SamePrimaries(st, s);
    SameOwners(st, s);
    SameDeletions(st, s);
  }

  lemma ExchangeOnlyKeeps(st: State, s: State)
    requires Good(st) && ExchangeOnly(st, s)
    ensures Good(s) && Forward(st, s) && (RowsAgree(st, {}) ==> RowsAgree(s, {}))
  {
    ExchangeOnlyStructure(st, s);
    hide OnePrimary, OneCopyPerCalendar, OneOwner, DistinctItems, DeletionComplete, Forward;
    forall i | 0 <= i < |s.rows| && Tracked(s, i) && RowsAgree(st, {})
      ensures RowAgrees(s, i)
    {
      assert Tracked(st, i) && RowAgrees(st, i);
    }
  }

  lemma ExchangeOnlyKeepsItems(st: State, s: State)
    requires Good(st) && ExchangeOnly(st, s)
    requires forall i | 0 <= i < |st.rows| && st.rows[i].role.Mirror? && st.rows[i].item in st.exchange ::
               st.rows[i].item in s.exchange && s.exchange[st.rows[i].item] == st.exchange[st.rows[i].item]
    ensures Wf(s) && (ItemsAgree(st, {}) ==> ItemsAgree(s, {}))
  {
    ExchangeOnlyStructure(st, s);
    hide OnePrimary, OneCopyPerCalendar, OneOwner, DistinctItems, DeletionComplete, Forward, MirrorBody;
    forall i | 0 <= i < |s.rows| && Tracked(s, i) && ItemsAgree(st, {})
      ensures InvitesNobody(s, i) && ItemAgrees(s, i)
    {
      assert Tracked(st, i) && ItemAgrees(st, i);
    }
  }

  // ---------------------------------------------------------------- delete by ids

  /** No id in the list is the item of another user's row. */
  ghost predicate OwnIds(st: State, user: nat, ids: seq<ItemId>) {
    forall i, k | 0 <= i < |st.rows| && 0 <= k < |ids| && st.rows[i].item == ids[k] :: st.rows[i].user == user
  }

  /** Everything a delete-by-ids request keeps, whatever the list holds. */
  ghost predicate Kept(st: State, s: State, clean: bool)
    requires Wf(st)
  {
    && SameShape(st, s) && Good(s) && Forward(st, s) && (RowsAgree(st, {}) ==> RowsAgree(s, {}))
    && (clean ==> (ItemsAgree(st, {}) ==> ItemsAgree(s, {})))
  }

  lemma KeptDelete(st: State, s: State, clean: bool, user: nat, e: nat, faults: set<ItemId>, now: Time)
    requires Wf(st) && Kept(st, s, clean)
    ensures Kept(st, DeleteTx(s, user, e, false, faults, now), clean)
  {
    var t := DeleteTx(s, user, e, false, faults, now);
    QuietDelete(s, user, e, false, faults, now);
    hide SameShape, Good, Forward, RowsAgree, ItemsAgree;
    ShapeTransitive(st, s, t);
    ForwardTransitive(st, s, t);
  }

  lemma ForwardTransitive(a: State, b: State, c: State)
    requires Forward(a, b) && Forward(b, c)
    ensures Forward(a, c)
  {
  }

  lemma KeptRemove(st: State, s: State, clean: bool, user: nat, x: ItemId)
    requires Wf(st) && Kept(st, s, clean)
    requires clean ==> forall i | 0 <= i < |st.rows| :: st.rows[i].item != x
    ensures Kept(st, s.(exchange := s.exchange - {x}), clean)
  {
    var t := s.(exchange := s.exchange - {x});
    RemoveIsExchangeOnly(s, x);
    hide ExchangeOnly, SameShape, Good, Forward, RowsAgree, ItemsAgree;
    ExchangeOnlyKeeps(s, t);
    if clean {
      SameItems(st, s);
      ExchangeOnlyKeepsItems(s, t);
    }
    ShapeTransitive(st, s, t);
    ForwardTransitive(st, s, t);
  }

  lemma RemoveIsExchangeOnly(s: State, x: ItemId)
    requires Wf(s)
    ensures ExchangeOnly(s, s.(exchange := s.exchange - {x})) && SameShape(s, s.(exchange := s.exchange - {x}))
  {
  }

  lemma SameItems(st: State, s: State)
    requires SameShape(st, s)
    ensures |s.rows| == |st.rows| && forall i | 0 <= i < |st.rows| :: s.rows[i].item == st.rows[i].item
  {
  }

  lemma {:induction false} DeleteIdsKeeps(st: State, user: nat, ids: seq<ItemId>, accounts: seq<nat>, blocked: set<(nat, ItemId)>,
                                          faults: set<ItemId>, now: Time)
    requires Good(st)
    ensures Kept(st, DeleteIdsTx(st, user, ids, accounts, blocked, faults, now).0, OwnIds(st, user, ids))
  {
    if ids != [] {
      var before, x := ids[..|ids| - 1], ids[|ids| - 1];
      var s := DeleteIdsTx(st, user, before, accounts, blocked, faults, now).0;
      DeleteIdsKeeps(st, user, before, accounts, blocked, faults, now);
      assert OwnIds(st, user, ids) ==> OwnIds(st, user, before);
      assert Kept(st, s, OwnIds(st, user, ids));
      var e := RowOfItem(s.rows, x, Some(user), false);
      if e.Some? {
        KeptDelete(st, s, OwnIds(st, user, ids), user, e.value, faults, now);
      } else if DirectlyDeletable(s, x, accounts, blocked) {
        assert OwnIds(st, user, ids) ==> forall i | 0 <= i < |st.rows| :: st.rows[i].item != x by {
          assert forall i | 0 <= i < |s.rows| :: !Matches(s.rows[i], x, Some(user), false);
          assert ids[|ids| - 1] == x;
        }
        KeptRemove(st, s, OwnIds(st, user, ids), user, x);
      }
    }
  }

  // ---------------------------------------------------------------- every step

  /** An update names a primary row, or no row at all. */
  predicate TargetsPrimary(st: State, step: Step) {
    step.UpdateEvent? && step.e < |st.rows| ==> st.rows[step.e].role.Primary?
  }

  /**
   The step leaves the mirrors' items and what they should say: it edits none of them behind the engine's back,
   and it renames no calendar that holds a primary, since a mirror's text names its primary's calendar.
   */
  ghost predicate LeavesMirrorItems(st: State, step: Step) {
    match step
    case OutlookEdit(x, _, _) => forall i | 0 <= i < |st.rows| && st.rows[i].role.Mirror? :: st.rows[i].item != x
    case OutlookRemove(x) => forall i | 0 <= i < |st.rows| && st.rows[i].role.Mirror? :: st.rows[i].item != x
    case DeleteByIds(user, ids, _, _, _, _) => OwnIds(st, user, ids)
    case ChangeCalendar(c, name, _, _) =>
      c < |st.calendars| && name != st.calendars[c].name ==>
        forall i | 0 <= i < |st.rows| && st.rows[i].role.Primary? :: st.rows[i].calendar != c
    case _ => true
  }

  /** Structure and forward states on every step; agreement on steps that respect its conditions. */
  ghost predicate StepKept(st: State, step: Step, s: State)
    requires Wf(st)
  {
    && Good(s) && Forward(st, s)
    && (TargetsPrimary(st, step) ==> (RowsAgree(st, {}) ==> RowsAgree(s, {})))
    && (TargetsPrimary(st, step) && LeavesMirrorItems(st, step) ==> (ItemsAgree(st, {}) ==> ItemsAgree(s, {})))
  }

  lemma OutlookIsExchangeOnly(st: State, step: Step)
    requires Wf(st) && (step.OutlookEdit? || step.OutlookRemove? || step.OutlookAdd?)
    ensures ExchangeOnly(st, Apply(st, step))
  {
  }

  lemma OutlookLeavesMirrors(st: State, step: Step)
    requires Wf(st) && (step.OutlookEdit? || step.OutlookRemove? || step.OutlookAdd?) && LeavesMirrorItems(st, step)
    ensures var s := Apply(st, step);
            forall i | 0 <= i < |st.rows| && st.rows[i].role.Mirror? && st.rows[i].item in st.exchange ::
              st.rows[i].item in s.exchange && s.exchange[st.rows[i].item] == st.exchange[st.rows[i].item]
  {
  }

  lemma OutlookStep(st: State, step: Step)
    requires Good(st) && (step.OutlookEdit? || step.OutlookRemove? || step.OutlookAdd?)
    ensures StepKept(st, step, Apply(st, step))
  {
    hide Apply, ExchangeOnly, LeavesMirrorItems, TargetsPrimary, RowsAgree, ItemsAgree, Forward, Wf, OnePrimary,
         OneCopyPerCalendar, OneOwner, DistinctItems, DeletionComplete;
    var s := Apply(st, step);
    OutlookIsExchangeOnly(st, step);
    ExchangeOnlyKeeps(st, s);
    if LeavesMirrorItems(st, step) {
      OutlookLeavesMirrors(st, step);
      ExchangeOnlyKeepsItems(st, s);
    }
  }

  // ---------------------------------------------------------------- changes to calendars

  /** Calendars may be added and changed, but keep their places; rows and groups do not move. */
  ghost predicate CalendarsOnly(st: State, s: State) {
    s == st.(calendars := s.calendars) && |st.calendars| <= |s.calendars|
  }

  lemma CalendarsOnlyKeeps(st: State, s: State)
    requires Good(st) && CalendarsOnly(st, s)
    ensures Good(s) && Forward(st, s) && (RowsAgree(st, {}) ==> RowsAgree(s, {}))
  {
    assert Wf(s);
    hide OnePrimary, OneOwner, DeletionComplete, RowAgrees, Tracked;
    SamePrimaries(st, s);
    SameOwners(st, s);
    SameDeletions(st, s);
    forall i | 0 <= i < |st.rows|
      ensures Tracked(s, i) == Tracked(st, i) && RowAgrees(s, i) == RowAgrees(st, i)
    {
      SameRow(st, s, i);
    }
  }

  lemma SameRow(st: State, s: State, i: nat)
    requires Wf(st) && CalendarsOnly(st, s) && i < |st.rows| && Wf(s)
    ensures Tracked(s, i) == Tracked(st, i) && RowAgrees(s, i) == RowAgrees(st, i) && InvitesNobody(s, i) == InvitesNobody(st, i)
    ensures PrimaryOf(s, i) == PrimaryOf(st, i)
  {
  }

  lemma CalendarsOnlyKeepsItems(st: State, s: State)
    requires Good(st) && CalendarsOnly(st, s)
    requires forall i | 0 <= i < |st.rows| && st.rows[i].role.Primary? ::
               s.calendars[st.rows[i].calendar].name == st.calendars[st.rows[i].calendar].name
    ensures Wf(s) && (ItemsAgree(st, {}) ==> ItemsAgree(s, {}))
  {
    assert Wf(s);
    hide OneCopyPerCalendar, OneOwner, DistinctItems, DeletionComplete, MirrorBody;
    forall i | 0 <= i < |s.rows| && Tracked(s, i) && ItemsAgree(st, {})
      ensures InvitesNobody(s, i) && ItemAgrees(s, i)
    {
      SameRow(st, s, i);
      assert Tracked(st, i) && ItemAgrees(st, i);
    }
  }

  lemma CalendarStep(st: State, step: Step)
    requires Good(st) && (step.ChangeCalendar? || step.AddCalendar?)
    ensures StepKept(st, step, Apply(st, step))
  {
    var s := Apply(st, step);
    CalendarsOnlyKeeps(st, s);
    if LeavesMirrorItems(st, step) {
      SameNames(st, step);
      CalendarsOnlyKeepsItems(st, s);
    }
    hide Good, RowsAgree, ItemsAgree, Forward, LeavesMirrorItems, TargetsPrimary;
  }

  lemma SameNames(st: State, step: Step)
    requires Wf(st) && (step.ChangeCalendar? || step.AddCalendar?) && LeavesMirrorItems(st, step)
    ensures var s := Apply(st, step);
            forall i | 0 <= i < |st.rows| && st.rows[i].role.Primary? ::
              st.rows[i].calendar < |s.calendars|
              && s.calendars[st.rows[i].calendar].name == st.calendars[st.rows[i].calendar].name
  {
  }

  /** A mirror's item that agreed still does after a change to a calendar exactly if its primary's calendar keeps its name. */
  lemma RenameIff(st: State, i: nat, c: nat, name: string, active: bool, mirrorEnabled: bool)
    requires Good(st) && i < |st.rows| && ItemAgrees(st, i) && c < |st.calendars|
    ensures var s := Apply(st, ChangeCalendar(c, name, active, mirrorEnabled));
            Wf(s) && (ItemAgrees(s, i) <==> st.rows[PrimaryOf(st, i)].calendar != c || name == st.calendars[c].name)
  {
    var s := Apply(st, ChangeCalendar(c, name, active, mirrorEnabled));
    assert Wf(s);
    var p := PrimaryOf(st, i);
    BodyNames(st.rows[p], st.calendars[st.rows[p].calendar].name, s.calendars[st.rows[p].calendar].name);
    hide OnePrimary, OneCopyPerCalendar, OneOwner, DistinctItems, DeletionComplete, MirrorBody;
  }

  /** The body of a mirror tells its primary's calendar. */
  lemma BodyNames(primary: Row, a: string, b: string)
    ensures MirrorBody(primary, a) == MirrorBody(primary, b) <==> a == b
  {
    var before := "Зеркальная блокировка. Основная встреча: «" + primary.title + "» в календаре «";
    var after := "». Участники: " + AttendeeText(primary.attendees) + ". Sync group: " + Text.Dec(primary.group) + ".";
    hide AttendeeText, Text.Dec;
    assert MirrorBody(primary, a).text == before + a + after;
    assert MirrorBody(primary, b).text == before + b + after;
    Between(before, a, b, after);
  }

  lemma Between(before: string, a: string, b: string, after: string)
    ensures before + a + after == before + b + after <==> a == b
  {
    var x, y := before + a + after, before + b + after;
    if x == y {
      assert |a| == |b|;
      assert a == x[|before|..|before| + |a|] && b == y[|before|..|before| + |a|];
    }
  }

  lemma OneStep(st: State, step: Step)
    requires Good(st)
    ensures StepKept(st, step, Apply(st, step))
  {
    hide RowsAgree, ItemsAgree, Forward, OnePrimary, OneCopyPerCalendar, OneOwner, DistinctItems, DeletionComplete;
    hide SyncTx, DeleteTx, UpdateTx, CreateTx, PollTx, DeleteIdsTx, RepairTx, ExternalDeleteTx;
    match step
    case CreateEvent(user, cal, draft, failPrimary, failCals, now) =>
      Create(st, user, cal, draft, failPrimary, failCals, now);
    case UpdateEvent(user, e, patch, failPrimary, faults, now) =>
      UpdateKeepsStructure(st, user, e, patch, failPrimary, faults, now);
      if TargetsPrimary(st, step) {
        UpdatePrimary(st, user, e, patch, failPrimary, faults, now);
      }
    case DeleteEvent(user, e, all, faults, now) => Delete(st, user, e, all, faults, now);
    case DeleteByIds(user, ids, accounts, blocked, faults, now) =>
      DeleteIdsKeeps(st, user, ids, accounts, blocked, faults, now);
    case ExternalDelete(x, faults, now) => QuietExternalDelete(st, x, faults, now);
    case Repair(g, faults, now) => QuietRepair(st, g, faults, now);
    case Poll(accounts, w, unlisted, faults, now) => QuietPoll(st, accounts, w, unlisted, faults, now);
    case ChangeCalendar(_, _, _, _) => CalendarStep(st, step);
    case AddCalendar(_) => CalendarStep(st, step);
    case _ => OutlookStep(st, step);
  }

  // ---------------------------------------------------------------- runs

  /** An empty database: calendars and Exchange items may exist, events do not. */
  ghost predicate Initial(st: State) {
    Wf(st) && st.rows == [] && st.groups == []
  }

  lemma InitialGood(st: State)
    requires Initial(st)
    ensures Good(st) && RowsAgree(st, {}) && ItemsAgree(st, {})
  {
  }

  /** `states` is the trace of a run of `steps` from an empty database. */
  ghost predicate IsRun(states: seq<State>, steps: seq<Step>) {
    && |states| == |steps| + 1 && Initial(states[0])
    && (forall k | 0 <= k < |steps| :: Wf(states[k]) && states[k + 1] == Apply(states[k], steps[k]))
  }

  /** In every run every state is well placed and group states only move forward. */
  lemma {:induction false} RunsKeepStructure(states: seq<State>, steps: seq<Step>, k: nat)
    requires IsRun(states, steps) && k < |states|
    ensures Good(states[k])
    ensures forall j | 0 <= j <= k :: Forward(states[j], states[k])
  {
    InitialGood(states[0]);
    if k > 0 {
      RunsKeepStructure(states, steps, k - 1);
      OneStep(states[k - 1], steps[k - 1]);
      forall j | 0 <= j < k
        ensures Forward(states[j], states[k])
      {
        ForwardTransitive(states[j], states[k - 1], states[k]);
      }
    }
  }

  /** In every run whose updates name primaries, every tracked mirror row agrees with its primary. */
  lemma {:induction false} RunsKeepRowsAgreeing(states: seq<State>, steps: seq<Step>, k: nat)
    requires IsRun(states, steps) && k < |states|
    requires forall j | 0 <= j < |steps| :: TargetsPrimary(states[j], steps[j])
    ensures Wf(states[k]) && RowsAgree(states[k], {})
  {
    RunsKeepStructure(states, steps, k);
    InitialGood(states[0]);
    if k > 0 {
      RunsKeepRowsAgreeing(states, steps, k - 1);
      RunsKeepStructure(states, steps, k - 1);
      OneStep(states[k - 1], steps[k - 1]);
    }
  }

  /** If moreover nobody edits mirror items by hand, the mirrors' Exchange items agree as well. */
  lemma {:induction false} RunsKeepItemsAgreeing(states: seq<State>, steps: seq<Step>, k: nat)
    requires IsRun(states, steps) && k < |states|
    requires forall j | 0 <= j < |steps| :: TargetsPrimary(states[j], steps[j]) && LeavesMirrorItems(states[j], steps[j])
    ensures Wf(states[k]) && ItemsAgree(states[k], {})
  {
    RunsKeepStructure(states, steps, k);
    InitialGood(states[0]);
    if k > 0 {
      RunsKeepItemsAgreeing(states, steps, k - 1);
      RunsKeepStructure(states, steps, k - 1);
      OneStep(states[k - 1], steps[k - 1]);
    }
  }

  /**
   Spelled out: in such runs every live mirror of an ACTIVE group blocks exactly its primary's slot in
   Exchange, under the prefixed title and with nobody invited, and its row says the same.
   */
  lemma RunsKeepSlotsBlocked(states: seq<State>, steps: seq<Step>, k: nat, i: nat)
    requires IsRun(states, steps) && k < |states|
    requires forall j | 0 <= j < |steps| :: TargetsPrimary(states[j], steps[j]) && LeavesMirrorItems(states[j], steps[j])
    requires Wf(states[k]) && i < |states[k].rows| && Tracked(states[k], i)
    ensures var st := states[k];
            var p, r := st.rows[PrimaryOf(st, i)], st.rows[i];
            && r.item in st.exchange && st.exchange[r.item].attendees == []
            && st.exchange[r.item].content.subject == r.title == "[Занято] " + p.title
            && st.exchange[r.item].content.start == r.start == p.start
            && st.exchange[r.item].content.end == r.end == p.end
            && p.role.Primary? && p.calendar != r.calendar
  {
    RunsKeepStructure(states, steps, k);
    RunsKeepRowsAgreeing(states, steps, k);
    RunsKeepItemsAgreeing(states, steps, k);
    var st := states[k];
    assert RowAgrees(st, i) && ItemAgrees(st, i);
    assert st.rows[PrimaryOf(st, i)].group == st.rows[i].group && PrimaryOf(st, i) != i;
  }
}
