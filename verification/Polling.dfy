/**
 The polling task: for every active account and calendar it compares the primaries stored in
 the database with what Exchange lists for a time window.
 */
module Polling {
  import opened Basics
  import opened SyncModel
  import opened SyncEngine

  /** The polled window; `hidden` are items Exchange does not list under their own id. */
  datatype Window = Window(start: Time, end: Time, hidden: set<ItemId>)

  /** What Exchange lists for one calendar: the change keys of its items that overlap the window. */
  function View(st: State, cal: nat, w: Window): map<ItemId, nat> {
    map x | x in st.exchange && Listed(st.exchange[x], x, cal, w) :: st.exchange[x].key
  }

  predicate Listed(item: Item, x: ItemId, cal: nat, w: Window) {
    item.calendar == cal && x !in w.hidden && item.content.start < w.end && w.start < item.content.end
  }

  /** The primaries the poll of calendar cal looks at. */
  predicate Polled(r: Row, cal: nat, w: Window) {
    r.calendar == cal && r.role.Primary? && r.deleted.None? && w.start <= r.start
  }

  /** One polled primary, row i, read as r; true means the sync raised. */
  function PollRow(st: State, i: nat, r: Row, view: map<ItemId, nat>, faults: set<ItemId>, now: Time)
    : (next: (State, bool))
    requires Wf(st)
    ensures Wf(next.0)
  {
    SyncKeepsReferences(st, i, faults, now);
    if r.item !in view then
      (ExternalDeleteTx(st, r.item, faults, now), false)
    else if r.seenKey == Some(view[r.item]) then
      (st, false)
    else if Failures(st, i, faults) != [] then
      (SyncTx(st, i, faults, now), true)
    else
      (MarkSeen(SyncTx(st, i, faults, now), i, view[r.item]), false)
  }

  function MarkSeen(st: State, i: nat, key: nat): (s: State)
    ensures Wf(st) ==> Wf(s)
  {
    if i < |st.rows| then st.(rows := st.rows[i := st.rows[i].(seenKey := Some(key))]) else st
  }

  lemma MarkSeenKeepsItems(st: State, i: nat, key: nat)
    requires DistinctItems(st)
    ensures DistinctItems(MarkSeen(st, i, key))
  {
  }

  /** The first k rows of a calendar's poll; rows are selected and read from the state at its start. */
  function PollRows(st: State, cal: nat, w: Window, view: map<ItemId, nat>, faults: set<ItemId>, now: Time, k: nat)
    : (r: (State, bool))
    requires Wf(st) && k <= |st.rows|
    ensures Wf(r.0)
  {
    if k == 0 then (st, false) else
      var (s, raised) := PollRows(st, cal, w, view, faults, now, k - 1);
      if raised || !Polled(st.rows[k - 1], cal, w) then (s, raised)
      else PollRow(s, k - 1, st.rows[k - 1], view, faults, now)
  }

  function PollCalendar(st: State, cal: nat, w: Window, faults: set<ItemId>, now: Time): (r: (State, bool))
    requires Wf(st)
    ensures Wf(r.0)
  {
    PollRows(st, cal, w, View(st, cal, w), faults, now, |st.rows|)
  }

  /** The first k calendars of one account; true means a listing or a sync raised and the rest was skipped. */
  function PollAccount(st: State, account: nat, w: Window, unlisted: set<nat>, faults: set<ItemId>, now: Time, k: nat)
    : (r: (State, bool))
    requires Wf(st) && k <= |st.calendars|
    ensures Wf(r.0)
  {
    if k == 0 then (st, false) else
      var (s, raised) := PollAccount(st, account, w, unlisted, faults, now, k - 1);
      if raised || !(st.calendars[k - 1].account == account && st.calendars[k - 1].active) then (s, raised)
      else if (k - 1) in unlisted then (s, true)
      else PollCalendar(s, k - 1, w, faults, now)
  }

  /** A whole poll over the active accounts; the second result lists the accounts that were cut short. */
  function PollTx(st: State, accounts: seq<nat>, w: Window, unlisted: set<nat>, faults: set<ItemId>, now: Time)
    : (r: (State, seq<nat>))
    requires Wf(st)
    ensures Wf(r.0)
  {
    if accounts == [] then (st, []) else
      var (s, aborted) := PollTx(st, accounts[..|accounts| - 1], w, unlisted, faults, now);
      var a := accounts[|accounts| - 1];
      var (t, raised) := PollAccount(s, a, w, unlisted, faults, now, |s.calendars|);
      (t, if raised then aborted + [a] else aborted)
  }

  // ---------------------------------------------------------------- the task over the mutable tables

  method PollOneRow(engine: Engine, i: nat, r: Row, view: map<ItemId, nat>, faults: set<ItemId>, now: Time) returns (raised: bool)
    requires engine.Valid()
    modifies engine
    ensures engine.Valid()
    ensures (engine.Current(), raised) == PollRow(old(engine.Current()), i, r, view, faults, now)
  {
    hide Wf, DistinctItems, SyncTx, ExternalDeleteTx;
    raised := false;
    if r.item !in view {
      engine.HandleExternalDelete(r.item, faults, now);
    } else if r.seenKey != Some(view[r.item]) {
      var failed := engine.SyncMirrorToPrimary(i, faults, now);
      if failed != [] {
        return true;
      }
      MarkSeenKeepsItems(engine.Current(), i, view[r.item]);
      if i < |engine.rows| {
        engine.rows := engine.rows[i := engine.rows[i].(seenKey := Some(view[r.item]))];
      }
    }
  }

  method PollOneCalendar(engine: Engine, cal: nat, w: Window, faults: set<ItemId>, now: Time) returns (raised: bool)
    requires engine.Valid()
    modifies engine
    ensures engine.Valid()
    ensures (engine.Current(), raised) == PollCalendar(old(engine.Current()), cal, w, faults, now)
  {
    var st := engine.Current();
    var view := View(st, cal, w);
    raised := false;
    for k := 0 to |st.rows|
      invariant engine.Valid()
      invariant (engine.Current(), raised) == PollRows(st, cal, w, view, faults, now, k)
    {
      if !raised && Polled(st.rows[k], cal, w) {
        raised := PollOneRow(engine, k, st.rows[k], view, faults, now);
      }
    }
  }

  method PollOneAccount(engine: Engine, account: nat, w: Window, unlisted: set<nat>, faults: set<ItemId>, now: Time)
    returns (raised: bool)
    requires engine.Valid()
    modifies engine
    ensures engine.Valid()
    ensures (engine.Current(), raised)
            == PollAccount(old(engine.Current()), account, w, unlisted, faults, now, |old(engine.calendars)|)
  {
    ghost var st := engine.Current();
    var calendars := engine.calendars;
    raised := false;
    for k := 0 to |calendars|
      invariant engine.Valid()
      invariant (engine.Current(), raised) == PollAccount(st, account, w, unlisted, faults, now, k)
    {
      if !raised && calendars[k].account == account && calendars[k].active {
        if k in unlisted {
          raised := true;
        } else {
          raised := PollOneCalendar(engine, k, w, faults, now);
        }
      }
    }
  }

  /** Polls every account; an account that raises is cut short and the next one still runs. */
  method PollCalendarChanges(engine: Engine, accounts: seq<nat>, w: Window, unlisted: set<nat>, faults: set<ItemId>, now: Time)
    returns (aborted: seq<nat>)
    requires engine.Valid()
    modifies engine
    ensures engine.Valid()
    ensures (engine.Current(), aborted) == PollTx(old(engine.Current()), accounts, w, unlisted, faults, now)
  {
    aborted := [];
    for k := 0 to |accounts|
      invariant engine.Valid()
      invariant (engine.Current(), aborted) == PollTx(old(engine.Current()), accounts[..k], w, unlisted, faults, now)
    {
      assert accounts[..k + 1][..k] == accounts[..k];
      var raised := PollOneAccount(engine, accounts[k], w, unlisted, faults, now);
      if raised {
        aborted := aborted + [accounts[k]];
      }
    }
    assert accounts[..|accounts|] == accounts;
  }
}
