/** When a poll is cut short, judged by the state before it, and a state in which every poll is. */
module PollCuts {
  import opened Basics
  import opened SyncModel
  import opened SyncInvariants
  import opened Polling
  import opened SyncRuns
  import opened RepairTheorems
  import opened PollTheorems
  import opened PollOutcome

  // ---------------------------------------------------------------- a poll that nothing cuts short

  /** Calendar c holds a primary whose poll would raise. */
  ghost predicate CutsShort(st: State, c: nat, w: Window, faults: set<ItemId>)
    requires Wf(st)
  {
    Blocked(st, c, w, View(st, c, w), faults, |st.rows|)
  }

  /** What later calendars see of an earlier one's poll. */
  lemma OtherCalendarsSeeNoChange(st: State, s: State, c: nat, w: Window, i: nat)
    requires Good(st) && Quiet(st, s) && GroupAsWas(st, s, i)
    requires i < |st.rows| && st.rows[i].role.Primary?
    ensures |s.rows| == |st.rows| && s.rows[i] == st.rows[i]
    ensures st.rows[i].item in View(s, c, w) <==> st.rows[i].item in View(st, c, w)
    ensures st.rows[i].item in View(st, c, w) ==> View(s, c, w)[st.rows[i].item] == View(st, c, w)[st.rows[i].item]
  {
    GroupMembers(st, s, i, i);
    PrimaryIsOwn(st, i);
  }

  /** The groups of calendar c's primaries are as in st. */
  ghost predicate Unvisited(st: State, s: State, c: nat)
    requires Wf(st)
  {
    forall i: nat | i < |st.rows| && st.rows[i].role.Primary? && st.rows[i].calendar == c :: GroupAsWas(st, s, i)
  }

  lemma UnvisitedTransitive(a: State, b: State, d: State, c: nat)
    requires Good(a) && Quiet(a, b) && Unvisited(a, b, c) && Wf(b) && Unvisited(b, d, c)
    ensures Unvisited(a, d, c)
  {
    hide GroupAsWas, Quiet, Wf, OnePrimary, OneCopyPerCalendar, OneOwner, DeletionComplete, DistinctItems;
    SameKinds(a, b);
    SameGroups(a, b);
    forall i: nat | i < |a.rows| && a.rows[i].role.Primary? && a.rows[i].calendar == c
      ensures GroupAsWas(a, d, i)
    {
      assert GroupAsWas(a, b, i) && GroupAsWas(b, d, i);
      GroupAsWasTransitive(a, b, d, i);
    }
  }

  lemma CalendarSparesOthers(st: State, cal: nat, w: Window, faults: set<ItemId>, now: Time, c: nat)
    requires Good(st) && c != cal
    ensures Unvisited(st, PollCalendar(st, cal, w, faults, now).0, c)
  {
    hide PollCalendar, GroupAsWas, Wf, OnePrimary, OneCopyPerCalendar, OneOwner, DeletionComplete, DistinctItems;
    forall i: nat | i < |st.rows| && st.rows[i].role.Primary? && st.rows[i].calendar == c
      ensures GroupAsWas(st, PollCalendar(st, cal, w, faults, now).0, i)
    {
      CalendarSparesGroup(st, cal, w, faults, now, i);
    }
  }

  lemma CalendarSparesGroup(st: State, cal: nat, w: Window, faults: set<ItemId>, now: Time, i: nat)
    requires Good(st) && i < |st.rows| && st.rows[i].calendar != cal
    ensures GroupAsWas(st, PollCalendar(st, cal, w, faults, now).0, i)
  {
    hide PollRows, SameCopy, SameGroup, View, Wf, OnePrimary, OneCopyPerCalendar, OneOwner, DeletionComplete, DistinctItems;
    forall j | 0 <= j < |st.rows| && PrimaryOf(st, j) == i
      ensures Spared(st, PollCalendar(st, cal, w, faults, now).0, j)
    {
      PollRowsSpare(st, cal, w, View(st, cal, w), faults, now, |st.rows|, j);
    }
  }

  lemma RaisesInSameView(s: State, i: nat, a: map<ItemId, nat>, b: map<ItemId, nat>, faults: set<ItemId>)
    requires i < |s.rows| && (s.rows[i].item in a <==> s.rows[i].item in b)
    requires s.rows[i].item in a ==> a[s.rows[i].item] == b[s.rows[i].item]
    ensures Raises(s, i, a, faults) == Raises(s, i, b, faults)
  {
    hide Missed;
  }

  lemma CutsAsBefore(st: State, s: State, c: nat, w: Window, faults: set<ItemId>)
    requires Good(st) && Quiet(st, s) && Unvisited(st, s, c)
    ensures Wf(s) && CutsShort(s, c, w, faults) == CutsShort(st, c, w, faults)
  {
    BlockedAsBefore(st, s, c, w, faults, |st.rows|);
    hide Good, Unvisited, Blocked;
  }

  /** The same for the first k rows. */
  lemma BlockedAsBefore(st: State, s: State, c: nat, w: Window, faults: set<ItemId>, k: nat)
    requires Good(st) && Quiet(st, s) && Unvisited(st, s, c) && k <= |st.rows|
    ensures Wf(s) && |s.rows| == |st.rows|
    ensures Blocked(s, c, w, View(s, c, w), faults, k) == Blocked(st, c, w, View(st, c, w), faults, k)
  {
    SameKinds(st, s);
    SameGroups(st, s);
    forall i: nat | i < |st.rows| && st.rows[i].role.Primary? && st.rows[i].calendar == c
      ensures s.rows[i] == st.rows[i] && Raises(s, i, View(s, c, w), faults) == Raises(st, i, View(st, c, w), faults)
    {
      assert GroupAsWas(st, s, i);
      OtherCalendarsSeeNoChange(st, s, c, w, i);
      RaisesAsBefore(st, s, i, View(st, c, w), faults);
      RaisesInSameView(s, i, View(s, c, w), View(st, c, w), faults);
    }
    SameBlocks(st, s, c, w, faults, k);
  }

  lemma SameBlocks(st: State, s: State, c: nat, w: Window, faults: set<ItemId>, k: nat)
    requires |s.rows| == |st.rows| && k <= |st.rows|
    requires forall i | 0 <= i < |st.rows| :: s.rows[i].role == st.rows[i].role && s.rows[i].calendar == st.rows[i].calendar
    requires forall i: nat | i < |st.rows| && st.rows[i].role.Primary? && st.rows[i].calendar == c ::
               s.rows[i] == st.rows[i] && Raises(s, i, View(s, c, w), faults) == Raises(st, i, View(st, c, w), faults)
    ensures Blocked(s, c, w, View(s, c, w), faults, k) == Blocked(st, c, w, View(st, c, w), faults, k)
  {
    hide Raises, View;
    if Blocked(st, c, w, View(st, c, w), faults, k) {
      var i: nat :| i < k && Polled(st.rows[i], c, w) && Raises(st, i, View(st, c, w), faults);
      assert Polled(s.rows[i], c, w) && Raises(s, i, View(s, c, w), faults);
    }
    if Blocked(s, c, w, View(s, c, w), faults, k) {
      var i: nat :| i < k && Polled(s.rows[i], c, w) && Raises(s, i, View(s, c, w), faults);
      assert Polled(st.rows[i], c, w) && Raises(st, i, View(st, c, w), faults);
    }
  }

  /** Calendar c ends the poll of its account: it cannot be listed, or one of its primaries raises. */
  ghost predicate Ends(st: State, c: nat, w: Window, unlisted: set<nat>, faults: set<ItemId>)
    requires Wf(st)
  {
    c in unlisted || CutsShort(st, c, w, faults)
  }

  lemma CalendarEnds(st: State, cal: nat, w: Window, faults: set<ItemId>, now: Time)
    requires Good(st)
    ensures PollCalendar(st, cal, w, faults, now).1 <==> CutsShort(st, cal, w, faults)
  {
    CalendarRaisesIff(st, cal, w, View(st, cal, w), faults, now, |st.rows|);
    hide PollRows, Blocked, Good;
  }

  /** The first k calendars of an account touch no group whose primary lies elsewhere. */
  lemma {:induction false} AccountSparesOthers(st: State, account: nat, w: Window, unlisted: set<nat>, faults: set<ItemId>, now: Time,
                                               k: nat, c: nat)
    requires Good(st) && k <= |st.calendars| && (c >= k || !Visited(st, [account], c))
    ensures Unvisited(st, PollAccount(st, account, w, unlisted, faults, now, k).0, c)
  {
    hide Unvisited, PollCalendar, Quiet, Wf, OnePrimary, OneCopyPerCalendar, OneOwner, DeletionComplete, DistinctItems;
    if k == 0 {
      UnvisitedStart(st, c);
    } else {
      AccountSparesOthers(st, account, w, unlisted, faults, now, k - 1, c);
      QuietPollAccount(st, account, w, unlisted, faults, now, k - 1);
      var s := PollAccount(st, account, w, unlisted, faults, now, k - 1).0;
      if c != k - 1 {
        CalendarSparesOthers(s, k - 1, w, faults, now, c);
        UnvisitedTransitive(st, s, PollCalendar(s, k - 1, w, faults, now).0, c);
      }
    }
  }

  lemma UnvisitedStart(st: State, c: nat)
    requires Wf(st)
    ensures Unvisited(st, st, c)
  {
  }

  /** One of the first k calendars of the account, judged by the state before the poll, ends it. */
  ghost predicate AccountEnds(st: State, account: nat, w: Window, unlisted: set<nat>, faults: set<ItemId>, k: nat)
    requires Wf(st)
  {
    exists c: nat :: c < k && Visited(st, [account], c) && Ends(st, c, w, unlisted, faults)
  }

  lemma AccountEndsGrows(st: State, account: nat, w: Window, unlisted: set<nat>, faults: set<ItemId>, k: nat)
    requires Wf(st)
    ensures AccountEnds(st, account, w, unlisted, faults, k + 1)
            <==> AccountEnds(st, account, w, unlisted, faults, k) || (Visited(st, [account], k) && Ends(st, k, w, unlisted, faults))
  {
    hide Ends, Visited, Wf;
    if AccountEnds(st, account, w, unlisted, faults, k) {
      var c: nat :| c < k && Visited(st, [account], c) && Ends(st, c, w, unlisted, faults);
      assert c < k + 1;
    }
  }

  lemma {:induction false} AccountCutIff(st: State, account: nat, w: Window, unlisted: set<nat>, faults: set<ItemId>, now: Time, k: nat)
    requires Good(st) && k <= |st.calendars|
    ensures PollAccount(st, account, w, unlisted, faults, now, k).1 <==> AccountEnds(st, account, w, unlisted, faults, k)
  {
    hide PollCalendar, Quiet, Unvisited, CutsShort, AccountEnds, Wf, OnePrimary, OneCopyPerCalendar, OneOwner, DeletionComplete,
         DistinctItems;
    if k == 0 {
      NoCalendarEnds(st, account, w, unlisted, faults);
    } else {
      AccountCutIff(st, account, w, unlisted, faults, now, k - 1);
      AccountEndsGrows(st, account, w, unlisted, faults, k - 1);
      var s := PollAccount(st, account, w, unlisted, faults, now, k - 1).0;
      QuietPollAccount(st, account, w, unlisted, faults, now, k - 1);
      AccountSparesOthers(st, account, w, unlisted, faults, now, k - 1, k - 1);
      CutsAsBefore(st, s, k - 1, w, faults);
      CalendarEnds(s, k - 1, w, faults, now);
    }
  }

  lemma NoCalendarEnds(st: State, account: nat, w: Window, unlisted: set<nat>, faults: set<ItemId>)
    requires Wf(st)
    ensures !AccountEnds(st, account, w, unlisted, faults, 0)
  {
  }

  // ---------------------------------------------------------------- the whole poll

  lemma {:induction false} PollSparesOthers(st: State, accounts: seq<nat>, w: Window, unlisted: set<nat>, faults: set<ItemId>, now: Time,
                                            c: nat)
    requires Good(st) && !Visited(st, accounts, c)
    ensures Unvisited(st, PollTx(st, accounts, w, unlisted, faults, now).0, c)
  {
    hide Unvisited, PollAccount, Quiet, Wf, OnePrimary, OneCopyPerCalendar, OneOwner, DeletionComplete, DistinctItems;
    if accounts == [] {
      UnvisitedStart(st, c);
    } else {
      var before, a := accounts[..|accounts| - 1], accounts[|accounts| - 1];
      var s := PollTx(st, before, w, unlisted, faults, now).0;
      assert !Visited(st, before, c) && !Visited(st, [a], c);
      PollSparesOthers(st, before, w, unlisted, faults, now, c);
      QuietPoll(st, before, w, unlisted, faults, now);
      AccountSparesOthers(s, a, w, unlisted, faults, now, |s.calendars|, c);
      UnvisitedTransitive(st, s, PollAccount(s, a, w, unlisted, faults, now, |s.calendars|).0, c);
    }
  }

  /** A settled calendar cuts nothing short. */
  lemma SettledDoesNotCut(s: State, c: nat, w: Window, faults: set<ItemId>)
    requires Wf(s) && Settled(s, c, w)
    ensures !CutsShort(s, c, w, faults)
  {
  }

  /** After accounts that were not cut short, a further account's calendars end its poll as they would have at the start. */
  lemma EndsAsBefore(st: State, before: seq<nat>, w: Window, unlisted: set<nat>, faults: set<ItemId>, now: Time, c: nat)
    requires Good(st) && PollTx(st, before, w, unlisted, faults, now).1 == []
    requires Visited(st, before, c) ==> !Ends(st, c, w, unlisted, faults)
    ensures var s := PollTx(st, before, w, unlisted, faults, now).0; Wf(s) && Ends(s, c, w, unlisted, faults) == Ends(st, c, w, unlisted, faults)
  {
    hide CutsShort, Unvisited, PollTx, Settled, Wf, OnePrimary, OneCopyPerCalendar, OneOwner, DeletionComplete, DistinctItems;
    var s := PollTx(st, before, w, unlisted, faults, now).0;
    QuietPoll(st, before, w, unlisted, faults, now);
    PollSettles(st, before, w, unlisted, faults, now);
    if Visited(st, before, c) {
      SettledDoesNotCut(s, c, w, faults);
    } else {
      PollSparesOthers(st, before, w, unlisted, faults, now, c);
      CutsAsBefore(st, s, c, w, faults);
    }
  }

  /** No visited calendar ends its account's poll, judged by the state before the poll. */
  ghost predicate NothingEnds(st: State, accounts: seq<nat>, w: Window, unlisted: set<nat>, faults: set<ItemId>)
    requires Wf(st)
  {
    forall c: nat | Visited(st, accounts, c) :: !Ends(st, c, w, unlisted, faults)
  }

  lemma NothingEndsNext(st: State, s: State, before: seq<nat>, a: nat, w: Window, unlisted: set<nat>, faults: set<ItemId>)
    requires Wf(st) && Wf(s) && s.calendars == st.calendars && NothingEnds(st, before, w, unlisted, faults)
    requires forall c: nat :: Ends(s, c, w, unlisted, faults) == Ends(st, c, w, unlisted, faults)
    ensures NothingEnds(st, before + [a], w, unlisted, faults) <==> !AccountEnds(s, a, w, unlisted, faults, |s.calendars|)
  {
    hide Ends, Wf;
    assert forall c: nat :: Visited(st, before + [a], c) <==> Visited(st, before, c) || Visited(s, [a], c);
  }

  /**
   A poll is cut short nowhere exactly if, in the state before it, every visited calendar can be listed and
   no polled primary with a new key has a live mirror that cannot be updated.
   */
  lemma {:induction false} PollCompleteIff(st: State, accounts: seq<nat>, w: Window, unlisted: set<nat>, faults: set<ItemId>, now: Time)
    requires Good(st)
    ensures PollTx(st, accounts, w, unlisted, faults, now).1 == [] <==> NothingEnds(st, accounts, w, unlisted, faults)
  {
    hide Ends, NothingEnds, AccountEnds, PollAccount, Quiet, Wf, OnePrimary, OneCopyPerCalendar, OneOwner, DeletionComplete, DistinctItems;
    if accounts == [] {
      NothingVisited(st, w, unlisted, faults);
    } else {
      var before, a := accounts[..|accounts| - 1], accounts[|accounts| - 1];
      assert accounts == before + [a];
      PollCompleteIff(st, before, w, unlisted, faults, now);
      if PollTx(st, before, w, unlisted, faults, now).1 == [] {
        var s := PollTx(st, before, w, unlisted, faults, now).0;
        QuietPoll(st, before, w, unlisted, faults, now);
        forall c: nat
          ensures Ends(s, c, w, unlisted, faults) == Ends(st, c, w, unlisted, faults)
        {
          NotEnding(st, before, w, unlisted, faults, c);
          EndsAsBefore(st, before, w, unlisted, faults, now, c);
        }
        NothingEndsNext(st, s, before, a, w, unlisted, faults);
        AccountCutIff(s, a, w, unlisted, faults, now, |s.calendars|);
      } else {
        FewerAccounts(st, before, a, w, unlisted, faults);
      }
    }
  }

  lemma NothingVisited(st: State, w: Window, unlisted: set<nat>, faults: set<ItemId>)
    requires Wf(st)
    ensures NothingEnds(st, [], w, unlisted, faults)
  {
  }

  lemma NotEnding(st: State, accounts: seq<nat>, w: Window, unlisted: set<nat>, faults: set<ItemId>, c: nat)
    requires Wf(st) && NothingEnds(st, accounts, w, unlisted, faults)
    ensures Visited(st, accounts, c) ==> !Ends(st, c, w, unlisted, faults)
  {
  }

  lemma FewerAccounts(st: State, before: seq<nat>, a: nat, w: Window, unlisted: set<nat>, faults: set<ItemId>)
    requires Wf(st)
    ensures NothingEnds(st, before + [a], w, unlisted, faults) ==> NothingEnds(st, before, w, unlisted, faults)
  {
    hide Ends;
    assert forall c: nat | Visited(st, before, c) :: Visited(st, before + [a], c);
  }

  /** With the condition a caller can see before the first poll: the second one changes nothing. */
  lemma SecondPollIdleWhenReachable(st: State, accounts: seq<nat>, w: Window, unlisted: set<nat>, faults: set<ItemId>, now: Time,
                                    laterFaults: set<ItemId>, later: Time)
    requires Good(st) && NothingEnds(st, accounts, w, unlisted, faults)
    ensures var s := PollTx(st, accounts, w, unlisted, faults, now).0;
            PollTx(s, accounts, w, {}, laterFaults, later) == (s, [])
  {
    PollCompleteIff(st, accounts, w, unlisted, faults, now);
    SecondPollIsIdle(st, accounts, w, unlisted, faults, now, laterFaults, later);
  }

  // ---------------------------------------------------------------- a mirror that is gone

  /** Primary i of calendar c has a new key, and its live mirror j no longer exists in Exchange. */
  predicate Stuck(st: State, c: nat, w: Window, i: nat, j: nat) {
    && i < |st.rows| && j < |st.rows| && Polled(st.rows[i], c, w) && NewKey(st, i, View(st, c, w))
    && IsTarget(st, i, j) && st.rows[j].item !in st.exchange
  }

  lemma StuckBlocks(st: State, c: nat, w: Window, faults: set<ItemId>, i: nat, j: nat)
    requires Wf(st) && Stuck(st, c, w, i, j)
    ensures CutsShort(st, c, w, faults) && Blocked(st, c, w, View(st, c, w), faults, i + 1)
  {
    assert Missed(st, i, faults, j);
    assert Raises(st, i, View(st, c, w), faults);
  }

  /** Once a calendar's poll has raised, the rest of it is skipped. */
  lemma {:induction false} RaisedStays(st: State, cal: nat, w: Window, view: map<ItemId, nat>, faults: set<ItemId>, now: Time, i: nat, k: nat)
    requires Wf(st) && i <= k <= |st.rows| && PollRows(st, cal, w, view, faults, now, i).1
    ensures PollRows(st, cal, w, view, faults, now, k) == PollRows(st, cal, w, view, faults, now, i)
  {
    hide PollRow, Polled;
    if i < k {
      RaisedStays(st, cal, w, view, faults, now, i, k - 1);
    }
  }

  /** Rows and items of i and j are as in st. */
  predicate Frozen(st: State, s: State, i: nat, j: nat) {
    SameCopy(st, s, i) && SameCopy(st, s, j)
  }

  lemma FrozenTransitive(a: State, b: State, c: State, i: nat, j: nat)
    requires Frozen(a, b, i, j) && Frozen(b, c, i, j)
    ensures Frozen(a, c, i, j)
  {
    SameCopyTransitive(a, b, c, i);
    SameCopyTransitive(a, b, c, j);
  }

  /** A state in which the copies of i and j are the same is stuck on the same pair, whatever the window. */
  lemma StuckAsBefore(st: State, s: State, c: nat, w: Window, i: nat, j: nat)
    requires Wf(st) && Stuck(st, c, w, i, j) && Frozen(st, s, i, j)
    ensures Stuck(s, c, w, i, j)
  {
  }

  lemma SyncKeepsStuck(s: State, c: nat, w: Window, faults: set<ItemId>, now: Time, i: nat, j: nat)
    requires Good(s) && Stuck(s, c, w, i, j)
    ensures Frozen(s, SyncTx(s, i, faults, now), i, j)
  {
    SyncSparesPrimaries(s, i, faults, now, i);
    GoneIsSpared(s, i, faults, now, j);
    hide SyncTx, Good, Wf;
  }

  lemma GoneIsSpared(s: State, p: nat, faults: set<ItemId>, now: Time, j: nat)
    requires Good(s) && p < |s.rows| && j < |s.rows| && s.rows[j].item !in s.exchange
    ensures SameCopy(s, SyncTx(s, p, faults, now), j)
  {
  }

  /** Up to the turn of its primary a stuck group stays stuck. */
  lemma StuckBefore(st: State, c: nat, w: Window, faults: set<ItemId>, now: Time, i: nat, j: nat)
    requires Good(st) && Stuck(st, c, w, i, j)
    ensures var s := PollRows(st, c, w, View(st, c, w), faults, now, i).0;
            Good(s) && |s.rows| == |st.rows| && s.rows[i] == st.rows[i] && Frozen(st, s, i, j) && Stuck(s, c, w, i, j)
  {
    var s := PollRows(st, c, w, View(st, c, w), faults, now, i).0;
    hide PollRows, Quiet, GroupAsWas, SameCopy, Stuck, Wf, View, OnePrimary, OneCopyPerCalendar, OneOwner, DeletionComplete, DistinctItems;
    StuckParts(st, c, w, i, j);
    BeforeItsTurn(st, c, w, View(st, c, w), faults, now, i);
    SameKinds(st, s);
    TargetAsBefore(st, s, i, faults, j);
    StuckAsBefore(st, s, c, w, i, j);
  }

  /** At its turn it raises and stays stuck. */
  lemma StuckTurn(st: State, c: nat, w: Window, faults: set<ItemId>, now: Time, i: nat, j: nat)
    requires Good(st) && Stuck(st, c, w, i, j)
    ensures var (s, raised) := PollRows(st, c, w, View(st, c, w), faults, now, i + 1); raised && Frozen(st, s, i, j)
  {
    var view := View(st, c, w);
    hide PollRow, Quiet, Stuck, SyncTx, Blocked, View, Wf, OnePrimary, OneCopyPerCalendar, OneOwner, DeletionComplete, DistinctItems;
    StuckParts(st, c, w, i, j);
    StuckBlocks(st, c, w, faults, i, j);
    CalendarRaisesIff(st, c, w, view, faults, now, i + 1);
    StuckBefore(st, c, w, faults, now, i, j);
    var (s, raised) := PollRows(st, c, w, view, faults, now, i);
    if !raised {
      StuckRow(s, i, view, faults, now);
      SyncKeepsStuck(s, c, w, faults, now, i, j);
      FrozenTransitive(st, s, SyncTx(s, i, faults, now), i, j);
    }
  }

  /** A stuck group cuts its calendar's poll short and is as stuck afterwards. */
  lemma StuckCalendar(st: State, c: nat, w: Window, faults: set<ItemId>, now: Time, i: nat, j: nat)
    requires Good(st) && Stuck(st, c, w, i, j)
    ensures PollCalendar(st, c, w, faults, now).1 && Frozen(st, PollCalendar(st, c, w, faults, now).0, i, j)
  {
    hide PollRows, Stuck, Wf, OnePrimary, OneCopyPerCalendar, OneOwner, DeletionComplete, DistinctItems;
    StuckParts(st, c, w, i, j);
    StuckTurn(st, c, w, faults, now, i, j);
    RaisedStays(st, c, w, View(st, c, w), faults, now, i + 1, |st.rows|);
  }

  lemma StuckParts(st: State, c: nat, w: Window, i: nat, j: nat)
    requires Stuck(st, c, w, i, j)
    ensures i < |st.rows| && j < |st.rows| && st.rows[i].role.Primary? && IsTarget(st, i, j) && Polled(st.rows[i], c, w)
    ensures NewKey(st, i, View(st, c, w))
  {
  }

  lemma StuckRow(s: State, i: nat, view: map<ItemId, nat>, faults: set<ItemId>, now: Time)
    requires Wf(s) && i < |s.rows| && NewKey(s, i, view)
    requires PollRow(s, i, s.rows[i], view, faults, now).1
    ensures PollRow(s, i, s.rows[i], view, faults, now).0 == SyncTx(s, i, faults, now)
  {
    hide SyncTx, Failures, MarkSeen, Wf;
  }

  /** Polling another calendar leaves a stuck group stuck. */
  lemma StuckElsewhere(st: State, s: State, c: nat, w: Window, i: nat, j: nat)
    requires Good(st) && Stuck(st, c, w, i, j) && Unvisited(st, s, c)
    ensures Frozen(st, s, i, j)
  {
    StuckParts(st, c, w, i, j);
    PrimaryIsOwn(st, i);
    TargetOf(st, i, j);
    assert GroupAsWas(st, s, i);
    hide Good, Stuck, SameCopy;
  }

  /** One further calendar of an account. */
  lemma StuckNext(s: State, cal: nat, c: nat, w: Window, faults: set<ItemId>, now: Time, i: nat, j: nat)
    requires Good(s) && Stuck(s, c, w, i, j)
    ensures Frozen(s, PollCalendar(s, cal, w, faults, now).0, i, j)
    ensures cal == c ==> PollCalendar(s, cal, w, faults, now).1
  {
    hide Stuck, PollCalendar, Unvisited, Wf, OnePrimary, OneCopyPerCalendar, OneOwner, DeletionComplete, DistinctItems;
    if cal == c {
      StuckCalendar(s, c, w, faults, now, i, j);
    } else {
      CalendarSparesOthers(s, cal, w, faults, now, c);
      StuckElsewhere(s, PollCalendar(s, cal, w, faults, now).0, c, w, i, j);
    }
  }

  lemma FrozenStart(st: State, i: nat, j: nat)
    requires i < |st.rows| && j < |st.rows|
    ensures Frozen(st, st, i, j)
  {
  }

  lemma {:induction false} StuckAccount(st: State, account: nat, w: Window, unlisted: set<nat>, faults: set<ItemId>, now: Time, k: nat,
                                        c: nat, i: nat, j: nat)
    requires Good(st) && k <= |st.calendars| && Stuck(st, c, w, i, j)
    ensures var (s, raised) := PollAccount(st, account, w, unlisted, faults, now, k);
            Frozen(st, s, i, j) && (c < k && Visited(st, [account], c) ==> raised)
  {
    hide Stuck, Frozen, PollCalendar, Quiet, Wf, OnePrimary, OneCopyPerCalendar, OneOwner, DeletionComplete, DistinctItems;
    if k == 0 {
      StuckParts(st, c, w, i, j);
      FrozenStart(st, i, j);
    } else {
      var s := PollAccount(st, account, w, unlisted, faults, now, k - 1).0;
      StuckAccount(st, account, w, unlisted, faults, now, k - 1, c, i, j);
      QuietPollAccount(st, account, w, unlisted, faults, now, k - 1);
      StuckAsBefore(st, s, c, w, i, j);
      StuckNext(s, k - 1, c, w, faults, now, i, j);
      FrozenTransitive(st, s, PollCalendar(s, k - 1, w, faults, now).0, i, j);
    }
  }

  lemma {:induction false} StuckPoll(st: State, accounts: seq<nat>, w: Window, unlisted: set<nat>, faults: set<ItemId>, now: Time,
                                     c: nat, i: nat, j: nat)
    requires Good(st) && Stuck(st, c, w, i, j)
    ensures var (s, aborted) := PollTx(st, accounts, w, unlisted, faults, now);
            && Good(s) && s.calendars == st.calendars && Frozen(st, s, i, j)
            && (Visited(st, accounts, c) ==> st.calendars[c].account in aborted)
  {
    hide Stuck, Frozen, PollAccount, Quiet, Wf, OnePrimary, OneCopyPerCalendar, OneOwner, DeletionComplete, DistinctItems;
    QuietPoll(st, accounts, w, unlisted, faults, now);
    if accounts == [] {
      StuckParts(st, c, w, i, j);
      FrozenStart(st, i, j);
    } else {
      var before, a := accounts[..|accounts| - 1], accounts[|accounts| - 1];
      var s := PollTx(st, before, w, unlisted, faults, now).0;
      StuckPoll(st, before, w, unlisted, faults, now, c, i, j);
      QuietPoll(st, before, w, unlisted, faults, now);
      StuckAsBefore(st, s, c, w, i, j);
      StuckAccount(s, a, w, unlisted, faults, now, |s.calendars|, c, i, j);
      FrozenTransitive(st, s, PollAccount(s, a, w, unlisted, faults, now, |s.calendars|).0, i, j);
      assert Visited(st, accounts, c) ==> Visited(st, before, c) || Visited(s, [a], c);
    }
  }

  /** One run of the polling task with its window and its failing calls. */
  datatype Run = Run(accounts: seq<nat>, w: Window, unlisted: set<nat>, faults: set<ItemId>, now: Time)

  /** The state after a row of polls. */
  function Polls(st: State, runs: seq<Run>): (s: State)
    requires Wf(st)
    ensures Wf(s)
  {
    if runs == [] then st else
      var r := runs[|runs| - 1];
      PollTx(Polls(st, runs[..|runs| - 1]), r.accounts, r.w, r.unlisted, r.faults, r.now).0
  }

  /**
   A primary with a new key and a live mirror whose item is gone cuts its account short on every poll, whatever the
   windows and whatever else happens, as long as each window has the primary polled and listed.
   */
  lemma {:induction false} GoneMirrorCutsEveryPoll(st: State, runs: seq<Run>, c: nat, i: nat, j: nat, next: Run)
    requires Good(st) && Stuck(st, c, next.w, i, j)
    requires forall k | 0 <= k < |runs| :: Stuck(st, c, runs[k].w, i, j)
    ensures var s := Polls(st, runs);
            && Good(s) && s.calendars == st.calendars && Frozen(st, s, i, j)
            && (Visited(s, next.accounts, c) ==>
                  s.calendars[c].account in PollTx(s, next.accounts, next.w, next.unlisted, next.faults, next.now).1)
  {
    hide Stuck, Frozen, PollTx, Wf, OnePrimary, OneCopyPerCalendar, OneOwner, DeletionComplete, DistinctItems;
    if runs == [] {
      StuckParts(st, c, next.w, i, j);
      FrozenStart(st, i, j);
    } else {
      var before, r := runs[..|runs| - 1], runs[|runs| - 1];
      var s := Polls(st, before);
      GoneMirrorCutsEveryPoll(st, before, c, i, j, r);
      StuckAsBefore(st, s, c, r.w, i, j);
      StuckPoll(s, r.accounts, r.w, r.unlisted, r.faults, r.now, c, i, j);
      FrozenTransitive(st, s, Polls(st, runs), i, j);
    }
    var t := Polls(st, runs);
    StuckAsBefore(st, t, c, next.w, i, j);
    StuckPoll(t, next.accounts, next.w, next.unlisted, next.faults, next.now, c, i, j);
  }
}
