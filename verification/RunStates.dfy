/** Runs in which Exchange does not fail: no group is ever DEGRADED, and every live mirror agrees with its primary. */
module RunStates {
  import opened Basics
  import opened SyncModel
  import opened SyncInvariants
  import opened Polling
  import opened SyncRuns
  import opened RepairTheorems
  import opened PollTheorems
  import opened PollOutcome
  import opened Outcomes

  /** Every live mirror still has its Exchange item. */
  ghost predicate NoneMissing(st: State) {
    forall j | 0 <= j < |st.rows| && LiveMirror(st.rows[j]) :: st.rows[j].item in st.exchange
  }

  /** No Exchange call that makes or updates a mirror fails in the step. */
  predicate Faultless(step: Step) {
    match step
    case CreateEvent(_, _, _, _, failCals, _) => failCals == {}
    case UpdateEvent(_, _, _, _, faults, _) => faults == {}
    case ExternalDelete(_, faults, _) => faults == {}
    case Repair(_, faults, _) => faults == {}
    case Poll(_, _, _, faults, _) => faults == {}
    case _ => true
  }

  /** No group is DEGRADED that was not before. */
  ghost predicate NoNewDegraded(st: State, s: State) {
    forall g | 0 <= g < |s.groups| && s.groups[g].state.Degraded? :: g < |st.groups| && st.groups[g].state.Degraded?
  }

  lemma NoNewTransitive(a: State, b: State, c: State)
    requires NoNewDegraded(a, b) && NoNewDegraded(b, c)
    ensures NoNewDegraded(a, c)
  {
  }

  lemma NothingFails(st: State, g: nat)
    requires NoneMissing(st)
    ensures !SomeMirrorFails(st, g, {})
  {
    if j: nat :| LiveMirrorOf(st, g, j) && !CallWorks(st, {}, j) {
      assert LiveMirror(st.rows[j]);
    }
  }

  // ---------------------------------------------------------------- single calls

  /** What a call promises when nothing fails, in the form that chains over polls. */
  ghost predicate Healthy(st: State, s: State) {
    NoNewDegraded(st, s) && NoneMissing(s)
  }

  lemma HealthySync(st: State, p: nat, now: Time)
    requires Good(st) && NoneMissing(st) && p < |st.rows|
    ensures Healthy(st, SyncTx(st, p, {}, now))
  {
    hide SyncTx, Wf, OnePrimary, OneCopyPerCalendar, OneOwner, DeletionComplete, DistinctItems, BodyOf, SomeMirrorFails;
    NothingFails(st, st.rows[p].group);
    SyncedGroupsAre(st, p, {}, now);
    SyncedRowsAre(st, p, {}, now);
    SyncedItemsAre(st, p, {}, now);
  }

  lemma HealthyRepair(st: State, g: nat, now: Time)
    requires Good(st) && NoneMissing(st)
    ensures Healthy(st, RepairTx(st, g, {}, now))
  {
    hide SyncTx, Good, NoneMissing;
    var p := LivePrimary(st.rows, g);
    if p.Some? {
      HealthySync(st, p.value, now);
    }
  }

  lemma HealthyDelete(st: State, user: nat, e: nat, all: bool, faults: set<ItemId>, now: Time)
    requires Good(st) && NoneMissing(st)
    ensures Healthy(st, DeleteTx(st, user, e, all, faults, now))
  {
    var s := DeleteTx(st, user, e, all, faults, now);
    DeletedTablesAre(st, user, e, all, faults, now);
    if Deletes(st, user, e, all) {
      forall j: nat | j < |st.rows| && LiveMirror(s.rows[j])
        ensures st.rows[j].item in s.exchange
      {
        assert j != e && !LiveMirrorOf(st, st.rows[e].group, j);
        DeletedItemsAre(st, user, e, all, faults, now, st.rows[j].item);
      }
    }
    hide DeleteTx, Wf, OnePrimary, OneCopyPerCalendar, OneOwner, DeletionComplete;
  }

  lemma HealthyExternalDelete(st: State, x: ItemId, now: Time)
    requires Good(st) && NoneMissing(st)
    ensures Healthy(st, ExternalDeleteTx(st, x, {}, now))
  {
    hide DeleteTx, RepairTx, Good, NoneMissing;
    var e := RowOfItem(st.rows, x, None, true);
    if e.Some? {
      HealthyDelete(st, st.rows[e.value].user, e.value, true, {}, now);
      HealthyRepair(st, st.rows[e.value].group, now);
    }
  }

  lemma HealthyMarkSeen(st: State, s: State, i: nat, key: nat)
    requires Healthy(st, s)
    ensures Healthy(st, MarkSeen(s, i, key))
  {
  }

  lemma HealthyPollRow(st: State, i: nat, r: Row, view: map<ItemId, nat>, now: Time)
    requires Good(st) && NoneMissing(st)
    ensures Healthy(st, PollRow(st, i, r, view, {}, now).0)
  {
    hide ExternalDeleteTx, SyncTx, Failures, MarkSeen, NoneMissing, OnePrimary, OneCopyPerCalendar, OneOwner, DeletionComplete,
         DistinctItems;
    HealthyExternalDelete(st, r.item, now);
    if i < |st.rows| && r.item in view {
      HealthySync(st, i, now);
      HealthyMarkSeen(st, SyncTx(st, i, {}, now), i, view[r.item]);
    } else if r.item in view {
      OutOfRange(st, i, now);
      HealthyMarkSeen(st, st, i, view[r.item]);
    }
  }

  lemma OutOfRange(st: State, i: nat, now: Time)
    requires Wf(st) && i >= |st.rows|
    ensures SyncTx(st, i, {}, now) == st
  {
  }

  // ---------------------------------------------------------------- polls

  lemma {:induction false} HealthyPollRows(st: State, cal: nat, w: Window, view: map<ItemId, nat>, now: Time, k: nat)
    requires Good(st) && NoneMissing(st) && k <= |st.rows|
    ensures Healthy(st, PollRows(st, cal, w, view, {}, now, k).0)
  {
    hide PollRow, NoneMissing, Quiet, Wf, OnePrimary, OneCopyPerCalendar, OneOwner, DeletionComplete, DistinctItems;
    if k > 0 {
      var (s, raised) := PollRows(st, cal, w, view, {}, now, k - 1);
      HealthyPollRows(st, cal, w, view, now, k - 1);
      if !raised && Polled(st.rows[k - 1], cal, w) {
        QuietPollRows(st, cal, w, view, {}, now, k - 1);
        HealthyPollRow(s, k - 1, st.rows[k - 1], view, now);
        NoNewTransitive(st, s, PollRow(s, k - 1, st.rows[k - 1], view, {}, now).0);
      }
    }
  }

  lemma {:induction false} HealthyAccount(st: State, account: nat, w: Window, unlisted: set<nat>, now: Time, k: nat)
    requires Good(st) && NoneMissing(st) && k <= |st.calendars|
    ensures Healthy(st, PollAccount(st, account, w, unlisted, {}, now, k).0)
  {
    hide PollRows, View, NoneMissing, Quiet, Wf, OnePrimary, OneCopyPerCalendar, OneOwner, DeletionComplete, DistinctItems;
    if k > 0 {
      var s := PollAccount(st, account, w, unlisted, {}, now, k - 1).0;
      HealthyAccount(st, account, w, unlisted, now, k - 1);
      QuietPollAccount(st, account, w, unlisted, {}, now, k - 1);
      HealthyPollRows(s, k - 1, w, View(s, k - 1, w), now, |s.rows|);
      NoNewTransitive(st, s, PollCalendar(s, k - 1, w, {}, now).0);
    }
  }

  lemma {:induction false} HealthyPoll(st: State, accounts: seq<nat>, w: Window, unlisted: set<nat>, now: Time)
    requires Good(st) && NoneMissing(st)
    ensures Healthy(st, PollTx(st, accounts, w, unlisted, {}, now).0)
  {
    hide PollAccount, NoneMissing, Quiet, Wf, OnePrimary, OneCopyPerCalendar, OneOwner, DeletionComplete, DistinctItems;
    if accounts != [] {
      var before, a := accounts[..|accounts| - 1], accounts[|accounts| - 1];
      var s := PollTx(st, before, w, unlisted, {}, now).0;
      HealthyPoll(st, before, w, unlisted, now);
      QuietPoll(st, before, w, unlisted, {}, now);
      HealthyAccount(s, a, w, unlisted, now, |s.calendars|);
      NoNewTransitive(st, s, PollAccount(s, a, w, unlisted, {}, now, |s.calendars|).0);
    }
  }

  // ---------------------------------------------------------------- requests

  lemma UpdateDegradesNone(st: State, user: nat, e: nat, patch: Patch, failPrimary: bool, now: Time)
    requires Good(st) && NoneMissing(st)
    ensures NoNewDegraded(st, UpdateTx(st, user, e, patch, failPrimary, {}, now).0)
  {
    hide UpdateTx, NoneMissing, SomeMirrorFails, FailingCalendar, Wf, OnePrimary, OneCopyPerCalendar, OneOwner, DeletionComplete,
         DistinctItems;
    UpdateResultIs(st, user, e, patch, failPrimary, {}, now);
    if LiveEvent(st, user, e) && !(Given(patch) && (failPrimary || st.rows[e].item !in st.exchange)) {
      NothingFails(st, st.rows[e].group);
      UpdatedGroupsAre(st, user, e, patch, failPrimary, {}, now);
    }
  }

  lemma CreateDegradesNone(st: State, user: nat, cal: nat, draft: Draft, failPrimary: bool, now: Time)
    requires Wf(st)
    ensures NoNewDegraded(st, CreateTx(st, user, cal, draft, failPrimary, {}, now).0)
  {
    hide AddCopies, MirrorBody, Wf, MirrorCalendars;
    NoCalendarFails(st.calendars, user, cal, |st.calendars|);
  }

  lemma {:induction false} NoCalendarFails(calendars: seq<Calendar>, user: nat, cal: nat, k: nat)
    requires k <= |calendars|
    ensures MirrorCalendars(calendars, user, cal, {}, true, k) == []
  {
    if k > 0 {
      NoCalendarFails(calendars, user, cal, k - 1);
    }
  }

  lemma {:induction false} DeleteIdsDegradesNone(st: State, user: nat, ids: seq<ItemId>, accounts: seq<nat>, blocked: set<(nat, ItemId)>,
                                                 faults: set<ItemId>, now: Time)
    requires Good(st)
    ensures NoNewDegraded(st, DeleteIdsTx(st, user, ids, accounts, blocked, faults, now).0)
  {
    hide DeleteTx, DirectlyDeletable, Wf, OnePrimary, OneCopyPerCalendar, OneOwner, DeletionComplete, DistinctItems;
    if ids != [] {
      var s := DeleteIdsTx(st, user, ids[..|ids| - 1], accounts, blocked, faults, now).0;
      DeleteIdsDegradesNone(st, user, ids[..|ids| - 1], accounts, blocked, faults, now);
      var e := RowOfItem(s.rows, ids[|ids| - 1], Some(user), false);
      if e.Some? {
        DeletedTablesAre(s, user, e.value, false, faults, now);
        NoNewTransitive(st, s, DeleteTx(s, user, e.value, false, faults, now));
      }
    }
  }

  lemma StepDegradesNone(st: State, step: Step)
    requires Good(st) && NoneMissing(st) && Faultless(step)
    ensures NoNewDegraded(st, Apply(st, step))
  {
    hide CreateTx, UpdateTx, DeleteTx, DeleteIdsTx, ExternalDeleteTx, RepairTx, PollTx, NoneMissing, Wf, OnePrimary,
         OneCopyPerCalendar, OneOwner, DeletionComplete, DistinctItems;
    match step
    case CreateEvent(user, cal, draft, failPrimary, _, now) => CreateDegradesNone(st, user, cal, draft, failPrimary, now);
    case UpdateEvent(user, e, patch, failPrimary, _, now) => UpdateDegradesNone(st, user, e, patch, failPrimary, now);
    case DeleteEvent(user, e, all, faults, now) => HealthyDelete(st, user, e, all, faults, now);
    case DeleteByIds(user, ids, accounts, blocked, faults, now) => DeleteIdsDegradesNone(st, user, ids, accounts, blocked, faults, now);
    case ExternalDelete(x, _, now) => HealthyExternalDelete(st, x, now);
    case Repair(g, _, now) => HealthyRepair(st, g, now);
    case Poll(accounts, w, unlisted, _, now) => HealthyPoll(st, accounts, w, unlisted, now);
    case _ =>
  }

  // ---------------------------------------------------------------- runs

  /**
   In a run in which no Exchange call for a mirror fails and no mirror's item is removed by hand, no group is ever
   DEGRADED: each is ACTIVE from its creation on, until it is DELETED.
   */
  lemma {:induction false} RunsDegradeNone(states: seq<State>, steps: seq<Step>, k: nat)
    requires IsRun(states, steps) && k < |states|
    requires forall j | 0 <= j < |steps| :: Faultless(steps[j]) && NoneMissing(states[j])
    ensures forall g | 0 <= g < |states[k].groups| :: states[k].groups[g].state in {Active, Deleted}
  {
    hide Good, NoneMissing, Apply, Faultless, Wf, Forward;
    if k > 0 {
      RunsDegradeNone(states, steps, k - 1);
      RunsKeepStructure(states, steps, k - 1);
      StepDegradesNone(states[k - 1], steps[k - 1]);
    }
  }

  /** In such a run, with updates sent to primaries and no hand edits or renames, every live mirror shows its primary. */
  lemma HealthyRunsAgree(states: seq<State>, steps: seq<Step>, k: nat, i: nat)
    requires IsRun(states, steps) && k < |states| && i < |states[k].rows| && LiveMirror(states[k].rows[i])
    requires forall j | 0 <= j < |steps| :: Faultless(steps[j]) && NoneMissing(states[j])
    requires forall j | 0 <= j < |steps| :: TargetsPrimary(states[j], steps[j]) && LeavesMirrorItems(states[j], steps[j])
    ensures Wf(states[k]) && RowAgrees(states[k], i) && ItemAgrees(states[k], i)
  {
    RunsKeepStructure(states, steps, k);
    RunsDegradeNone(states, steps, k);
    RunsKeepRowsAgreeing(states, steps, k);
    RunsKeepItemsAgreeing(states, steps, k);
    IsTracked(states[k], i);
    hide Good, NoneMissing, Apply, RowAgrees, ItemAgrees;
  }

  lemma IsTracked(st: State, i: nat)
    requires Good(st) && i < |st.rows| && LiveMirror(st.rows[i])
    requires forall g | 0 <= g < |st.groups| :: st.groups[g].state in {Active, Deleted}
    ensures Tracked(st, i)
  {
  }
}
