/**
 What one whole run of the polling task does to a given group: whether the group's calendar gets its turn, and
 what that turn restores, deletes and never copies.
 */
module PollReach {
  import opened Basics
  import opened SyncModel
  import opened SyncInvariants
  import opened Polling
  import opened SyncRuns
  import opened RepairTheorems
  import opened PollTheorems
  import opened PollOutcome
  import opened PollCuts
  import opened Outcomes

  // ---------------------------------------------------------------- the turn of a calendar

  /** The task loads each account once. */
  predicate Distinct(accounts: seq<nat>) {
    forall i, j | 0 <= i < j < |accounts| :: accounts[i] != accounts[j]
  }

  /** The poll gets as far as calendar c: it can be listed, and no earlier calendar of its account ends the account's poll. */
  ghost predicate Reaches(st: State, accounts: seq<nat>, w: Window, unlisted: set<nat>, faults: set<ItemId>, c: nat)
    requires Wf(st)
  {
    Visited(st, accounts, c) && c !in unlisted && !AccountEnds(st, st.calendars[c].account, w, unlisted, faults, c)
  }

  /** What calendar c makes of state s at its turn, if it gets one. */
  ghost function Turned(s: State, w: Window, faults: set<ItemId>, now: Time, c: nat, taken: bool): (m: State)
    requires Wf(s)
    ensures Wf(m)
  {
    if taken then PollCalendar(s, c, w, faults, now).0 else s
  }

  /** From st to t the groups of calendar c change in one turn only, that of c, which finds state s and is taken or not. */
  ghost predicate Turn(st: State, s: State, t: State, w: Window, faults: set<ItemId>, now: Time, c: nat, taken: bool)
    requires Good(st)
  {
    && Quiet(st, s) && Unvisited(st, s, c)
    && var m := Turned(s, w, faults, now, c, taken); Quiet(s, m) && Quiet(m, t) && Unvisited(m, t, c)
  }

  lemma TurnIs(st: State, s: State, w: Window, faults: set<ItemId>, now: Time, c: nat, taken: bool)
    requires Good(st) && Quiet(st, s) && Unvisited(st, s, c)
    ensures Turn(st, s, Turned(s, w, faults, now, c, taken), w, faults, now, c, taken)
  {
    hide Unvisited, PollRows, Quiet, View, Wf, OnePrimary, OneCopyPerCalendar, OneOwner, DeletionComplete, DistinctItems;
    SameKinds(st, s);
    QuietStart(s);
    QuietPollRows(s, c, w, View(s, c, w), faults, now, |s.rows|);
    var m := Turned(s, w, faults, now, c, taken);
    SameKinds(s, m);
    QuietStart(m);
    UnvisitedStart(m, c);
  }

  /** What leaves the calendar's groups alone afterwards does not change its turn. */
  lemma TurnStays(st: State, s: State, t: State, u: State, w: Window, faults: set<ItemId>, now: Time, c: nat, taken: bool)
    requires Good(st) && Turn(st, s, t, w, faults, now, c, taken) && Quiet(t, u) && Unvisited(t, u, c)
    ensures Turn(st, s, u, w, faults, now, c, taken)
  {
    hide Unvisited, PollCalendar, Quiet, Wf, OnePrimary, OneCopyPerCalendar, OneOwner, DeletionComplete, DistinctItems;
    SameKinds(st, s);
    var m := Turned(s, w, faults, now, c, taken);
    hide Turned;
    SameKinds(s, m);
    SameKinds(m, t);
    QuietTransitive(m, t, u);
    UnvisitedTransitive(m, t, u, c);
  }

  /** Nor does what left them alone before. */
  lemma TurnFrom(st: State, before: State, s: State, t: State, w: Window, faults: set<ItemId>, now: Time, c: nat, taken: bool)
    requires Good(st) && Quiet(st, before) && Unvisited(st, before, c) && Turn(before, s, t, w, faults, now, c, taken)
    ensures Turn(st, s, t, w, faults, now, c, taken)
  {
    hide Unvisited, Turned, Quiet, Wf, OnePrimary, OneCopyPerCalendar, OneOwner, DeletionComplete, DistinctItems;
    SameKinds(st, before);
    QuietTransitive(st, before, s);
    UnvisitedTransitive(st, before, s, c);
  }

  lemma TurnKeepsGood(st: State, s: State, t: State, w: Window, faults: set<ItemId>, now: Time, c: nat, taken: bool)
    requires Good(st) && Turn(st, s, t, w, faults, now, c, taken)
    ensures Good(s) && Good(t) && |s.rows| == |st.rows| == |t.rows| && s.calendars == st.calendars == t.calendars
  {
    hide Unvisited, Turned;
  }

  // ---------------------------------------------------------------- within one account

  /** In an account's poll calendar c has its turn exactly if it can be listed and no earlier calendar ends the poll. */
  lemma {:induction false} AccountTurn(st: State, account: nat, w: Window, unlisted: set<nat>, faults: set<ItemId>, now: Time, k: nat, c: nat)
    requires Good(st) && c < k <= |st.calendars| && Visited(st, [account], c)
    ensures Turn(st, PollAccount(st, account, w, unlisted, faults, now, c).0, PollAccount(st, account, w, unlisted, faults, now, k).0,
                 w, faults, now, c, c !in unlisted && !AccountEnds(st, account, w, unlisted, faults, c))
    decreases k
  {
    hide PollCalendar, Turn, Quiet, Unvisited, AccountEnds, Wf, OnePrimary, OneCopyPerCalendar, OneOwner, DeletionComplete,
         DistinctItems;
    var s := PollAccount(st, account, w, unlisted, faults, now, c).0;
    var taken := c !in unlisted && !AccountEnds(st, account, w, unlisted, faults, c);
    if k == c + 1 {
      AccountSparesOthers(st, account, w, unlisted, faults, now, c, c);
      QuietPollAccount(st, account, w, unlisted, faults, now, c);
      AccountCutIff(st, account, w, unlisted, faults, now, c);
      TurnIs(st, s, w, faults, now, c, taken);
    } else {
      AccountTurn(st, account, w, unlisted, faults, now, k - 1, c);
      LaterCalendar(st, s, account, w, unlisted, faults, now, k, c, taken);
    }
  }

  lemma LaterCalendar(st: State, s: State, account: nat, w: Window, unlisted: set<nat>, faults: set<ItemId>, now: Time, k: nat, c: nat,
                      taken: bool)
    requires Good(st) && c + 1 < k <= |st.calendars|
    requires Turn(st, s, PollAccount(st, account, w, unlisted, faults, now, k - 1).0, w, faults, now, c, taken)
    ensures Turn(st, s, PollAccount(st, account, w, unlisted, faults, now, k).0, w, faults, now, c, taken)
  {
    hide PollRows, View, Turn, Quiet, Unvisited, Wf, OnePrimary, OneCopyPerCalendar, OneOwner, DeletionComplete, DistinctItems;
    var t := PollAccount(st, account, w, unlisted, faults, now, k - 1).0;
    TurnKeepsGood(st, s, t, w, faults, now, c, taken);
    CalendarSparesOthers(t, k - 1, w, faults, now, c);
    QuietPollRows(t, k - 1, w, View(t, k - 1, w), faults, now, |t.rows|);
    TurnStays(st, s, t, PollCalendar(t, k - 1, w, faults, now).0, w, faults, now, c, taken);
  }

  // ---------------------------------------------------------------- within the whole task

  lemma AccountEndsAsBefore(st: State, s: State, account: nat, w: Window, unlisted: set<nat>, faults: set<ItemId>, k: nat)
    requires Good(st) && Quiet(st, s) && forall c: nat | Visited(st, [account], c) :: Unvisited(st, s, c)
    ensures Wf(s) && AccountEnds(s, account, w, unlisted, faults, k) == AccountEnds(st, account, w, unlisted, faults, k)
  {
    SameKinds(st, s);
    SameGroups(st, s);
    forall c: nat | Visited(st, [account], c)
      ensures Ends(s, c, w, unlisted, faults) == Ends(st, c, w, unlisted, faults)
    {
      CutsAsBefore(st, s, c, w, faults);
    }
    assert forall c: nat :: Visited(s, [account], c) == Visited(st, [account], c);
    hide Ends, Visited, Unvisited, Quiet, Good;
  }

  lemma DistinctBefore(before: seq<nat>, a: nat)
    requires Distinct(before + [a])
    ensures Distinct(before) && a !in before
  {
    var accounts := before + [a];
    assert forall i | 0 <= i < |before| :: before[i] == accounts[i];
    assert accounts[|before|] == a;
  }

  /** In the task's poll calendar c has its turn exactly if the poll reaches it. */
  lemma {:induction false} PollTurn(st: State, accounts: seq<nat>, w: Window, unlisted: set<nat>, faults: set<ItemId>, now: Time, c: nat)
    returns (s: State)
    requires Good(st) && Distinct(accounts) && c < |st.calendars|
    ensures Turn(st, s, PollTx(st, accounts, w, unlisted, faults, now).0, w, faults, now, c,
                 Reaches(st, accounts, w, unlisted, faults, c))
    decreases accounts
  {
    hide PollAccount, Turn, Quiet, Unvisited, AccountEnds, Distinct, Wf, OnePrimary, OneCopyPerCalendar, OneOwner, DeletionComplete,
         DistinctItems;
    if !Visited(st, accounts, c) {
      s := PollTx(st, accounts, w, unlisted, faults, now).0;
      QuietPoll(st, accounts, w, unlisted, faults, now);
      PollSparesOthers(st, accounts, w, unlisted, faults, now, c);
      TurnIs(st, s, w, faults, now, c, false);
    } else {
      var before, a := accounts[..|accounts| - 1], accounts[|accounts| - 1];
      assert accounts == before + [a];
      DistinctBefore(before, a);
      var first := PollTx(st, before, w, unlisted, faults, now).0;
      QuietPoll(st, before, w, unlisted, faults, now);
      if st.calendars[c].account == a {
        s := LastAccountTurn(st, before, a, w, unlisted, faults, now, c);
      } else {
        s := PollTurn(st, before, w, unlisted, faults, now, c);
        AccountSparesOthers(first, a, w, unlisted, faults, now, |first.calendars|, c);
        QuietPollAccount(first, a, w, unlisted, faults, now, |first.calendars|);
        TurnStays(st, s, first, PollAccount(first, a, w, unlisted, faults, now, |first.calendars|).0, w, faults, now, c,
                  Reaches(st, accounts, w, unlisted, faults, c));
      }
    }
  }

  lemma LastAccountTurn(st: State, before: seq<nat>, a: nat, w: Window, unlisted: set<nat>, faults: set<ItemId>, now: Time, c: nat)
    returns (s: State)
    requires Good(st) && a !in before && c < |st.calendars| && st.calendars[c].account == a && st.calendars[c].active
    ensures var first := PollTx(st, before, w, unlisted, faults, now).0;
            Turn(st, s, PollAccount(first, a, w, unlisted, faults, now, |first.calendars|).0, w, faults, now, c,
                 c !in unlisted && !AccountEnds(st, a, w, unlisted, faults, c))
  {
    hide PollAccount, PollTx, Turn, Quiet, Unvisited, AccountEnds, Wf, OnePrimary, OneCopyPerCalendar, OneOwner, DeletionComplete,
         DistinctItems;
    var first := PollTx(st, before, w, unlisted, faults, now).0;
    QuietPoll(st, before, w, unlisted, faults, now);
    forall d: nat | Visited(st, [a], d)
      ensures Unvisited(st, first, d)
    {
      PollSparesOthers(st, before, w, unlisted, faults, now, d);
    }
    AccountEndsAsBefore(st, first, a, w, unlisted, faults, c);
    s := PollAccount(first, a, w, unlisted, faults, now, c).0;
    AccountTurn(first, a, w, unlisted, faults, now, |first.calendars|, c);
    assert Visited(st, [a], c);
    TurnFrom(st, first, s, PollAccount(first, a, w, unlisted, faults, now, |first.calendars|).0, w, faults, now, c,
             c !in unlisted && !AccountEnds(st, a, w, unlisted, faults, c));
  }

  // ---------------------------------------------------------------- the words of the theorems

  /** Row i is a live primary of calendar c that does not start before the window. */
  predicate InWindow(st: State, i: nat, c: nat, w: Window) {
    i < |st.rows| && st.rows[i].role == Primary && st.rows[i].deleted == None && st.rows[i].calendar == c && w.start <= st.rows[i].start
  }

  /** Exchange lists its item: it is in calendar c, overlaps the window and is not hidden. */
  predicate IsListed(st: State, i: nat, c: nat, w: Window)
    requires i < |st.rows|
  {
    var x := st.rows[i].item;
    && x in st.exchange && st.exchange[x].calendar == c && x !in w.hidden
    && st.exchange[x].content.start < w.end && w.start < st.exchange[x].content.end
  }

  /** It is listed under a change key the row has not seen. */
  predicate IsNew(st: State, i: nat, c: nat, w: Window)
    requires i < |st.rows|
  {
    IsListed(st, i, c, w) && st.rows[i].seenKey != Some(st.exchange[st.rows[i].item].key)
  }

  /** The poll of calendar c raises at one of the rows before n: a mirror of a changed primary cannot be updated. */
  ghost predicate RaisesBefore(st: State, c: nat, w: Window, faults: set<ItemId>, n: nat) {
    exists k: nat :: k < n && InWindow(st, k, c, w) && IsNew(st, k, c, w) && SomeMirrorFails(st, st.rows[k].group, faults)
  }

  /**
   A run of the task gets to calendar c: it is an active one of a polled account and can be listed, and no earlier
   active calendar of the account fails to be listed or raises.
   */
  ghost predicate GetsTo(st: State, accounts: seq<nat>, w: Window, unlisted: set<nat>, faults: set<ItemId>, c: nat) {
    && c < |st.calendars| && st.calendars[c].account in accounts && st.calendars[c].active && c !in unlisted
    && forall d: nat | d < c && st.calendars[d].account == st.calendars[c].account && st.calendars[d].active ::
         d !in unlisted && !RaisesBefore(st, d, w, faults, |st.rows|)
  }

  lemma WindowIs(st: State, i: nat, c: nat, w: Window)
    requires i < |st.rows|
    ensures InWindow(st, i, c, w) == Polled(st.rows[i], c, w)
    ensures IsListed(st, i, c, w) == (st.rows[i].item in View(st, c, w))
    ensures IsNew(st, i, c, w) == NewKey(st, i, View(st, c, w))
  {
  }

  lemma RaisingIs(st: State, c: nat, w: Window, faults: set<ItemId>, n: nat)
    requires n <= |st.rows|
    ensures RaisesBefore(st, c, w, faults, n) == Blocked(st, c, w, View(st, c, w), faults, n)
  {
    forall k: nat | k < |st.rows|
      ensures InWindow(st, k, c, w) == Polled(st.rows[k], c, w)
      ensures InWindow(st, k, c, w) && IsNew(st, k, c, w) && SomeMirrorFails(st, st.rows[k].group, faults)
              <==> Polled(st.rows[k], c, w) && Raises(st, k, View(st, c, w), faults)
    {
      WindowIs(st, k, c, w);
      MissingIs(st, k, faults);
    }
    hide InWindow, IsNew, SomeMirrorFails, Raises, Polled, View;
  }

  lemma MissingIs(st: State, k: nat, faults: set<ItemId>)
    requires k < |st.rows|
    ensures SomeMirrorFails(st, st.rows[k].group, faults) <==> exists j: nat :: j < |st.rows| && Missed(st, k, faults, j)
  {
    forall j: nat | j < |st.rows|
      ensures Missed(st, k, faults, j) == (LiveMirrorOf(st, st.rows[k].group, j) && !CallWorks(st, faults, j))
    {
      Outcomes.SameWords(st, k, faults, j);
    }
    hide Missed, CallWorks;
  }

  lemma GetsToIs(st: State, accounts: seq<nat>, w: Window, unlisted: set<nat>, faults: set<ItemId>, c: nat)
    requires Wf(st)
    ensures GetsTo(st, accounts, w, unlisted, faults, c) == Reaches(st, accounts, w, unlisted, faults, c)
  {
    forall d: nat
      ensures RaisesBefore(st, d, w, faults, |st.rows|) == CutsShort(st, d, w, faults)
    {
      RaisingIs(st, d, w, faults, |st.rows|);
    }
    hide RaisesBefore, CutsShort, Wf;
    if c < |st.calendars| {
      var a := st.calendars[c].account;
      if AccountEnds(st, a, w, unlisted, faults, c) {
        var d: nat :| d < c && Visited(st, [a], d) && Ends(st, d, w, unlisted, faults);
        assert d in unlisted || RaisesBefore(st, d, w, faults, |st.rows|);
      }
      if d: nat :| d < c && st.calendars[d].account == a && st.calendars[d].active
                   && (d in unlisted || RaisesBefore(st, d, w, faults, |st.rows|)) {
        assert Visited(st, [a], d) && Ends(st, d, w, unlisted, faults);
      }
    }
  }

  /** Some active calendar of the account cannot be listed or raises. */
  ghost predicate Fails(st: State, account: nat, w: Window, unlisted: set<nat>, faults: set<ItemId>) {
    exists d: nat :: d < |st.calendars| && st.calendars[d].account == account && st.calendars[d].active
                     && (d in unlisted || RaisesBefore(st, d, w, faults, |st.rows|))
  }

  lemma FailsIs(st: State, account: nat, w: Window, unlisted: set<nat>, faults: set<ItemId>)
    requires Wf(st)
    ensures Fails(st, account, w, unlisted, faults) == AccountEnds(st, account, w, unlisted, faults, |st.calendars|)
  {
    forall d: nat
      ensures RaisesBefore(st, d, w, faults, |st.rows|) == CutsShort(st, d, w, faults)
    {
      RaisingIs(st, d, w, faults, |st.rows|);
    }
    hide RaisesBefore, CutsShort, Wf;
    if AccountEnds(st, account, w, unlisted, faults, |st.calendars|) {
      var d: nat :| d < |st.calendars| && Visited(st, [account], d) && Ends(st, d, w, unlisted, faults);
      assert d in unlisted || RaisesBefore(st, d, w, faults, |st.rows|);
    }
    if d: nat :| d < |st.calendars| && st.calendars[d].account == account && st.calendars[d].active
                 && (d in unlisted || RaisesBefore(st, d, w, faults, |st.rows|)) {
      assert Visited(st, [account], d) && Ends(st, d, w, unlisted, faults);
    }
  }

  /** The accounts cut short are those that fail, judged by the state before the run, in the order of the accounts. */
  lemma {:induction false} AbortedAre(st: State, accounts: seq<nat>, w: Window, unlisted: set<nat>, faults: set<ItemId>, now: Time)
    requires Good(st) && Distinct(accounts)
    ensures PollTx(st, accounts, w, unlisted, faults, now).1 == FailingOf(st, accounts, w, unlisted, faults)
    decreases accounts
  {
    hide PollAccount, AccountEnds, Fails, Quiet, Wf, OnePrimary, OneCopyPerCalendar, OneOwner, DeletionComplete, DistinctItems, Distinct;
    if accounts != [] {
      var before, a := accounts[..|accounts| - 1], accounts[|accounts| - 1];
      assert accounts == before + [a];
      DistinctBefore(before, a);
      AbortedAre(st, before, w, unlisted, faults, now);
      AccountCutAsBefore(st, before, a, w, unlisted, faults, now);
      FailsIs(st, a, w, unlisted, faults);
    }
  }

  ghost function FailingOf(st: State, accounts: seq<nat>, w: Window, unlisted: set<nat>, faults: set<ItemId>): seq<nat> {
    if accounts == [] then [] else
      var a := accounts[|accounts| - 1];
      FailingOf(st, accounts[..|accounts| - 1], w, unlisted, faults) + if Fails(st, a, w, unlisted, faults) then [a] else []
  }

  lemma AccountCutAsBefore(st: State, before: seq<nat>, a: nat, w: Window, unlisted: set<nat>, faults: set<ItemId>, now: Time)
    requires Good(st) && a !in before
    ensures var first := PollTx(st, before, w, unlisted, faults, now).0;
            && first.calendars == st.calendars
            && (PollAccount(first, a, w, unlisted, faults, now, |first.calendars|).1
                <==> AccountEnds(st, a, w, unlisted, faults, |st.calendars|))
  {
    hide PollAccount, PollTx, Quiet, Unvisited, AccountEnds, Wf, OnePrimary, OneCopyPerCalendar, OneOwner, DeletionComplete,
         DistinctItems;
    var first := PollTx(st, before, w, unlisted, faults, now).0;
    QuietPoll(st, before, w, unlisted, faults, now);
    forall d: nat | Visited(st, [a], d)
      ensures Unvisited(st, first, d)
    {
      PollSparesOthers(st, before, w, unlisted, faults, now, d);
    }
    AccountEndsAsBefore(st, first, a, w, unlisted, faults, |st.calendars|);
    AccountCutIff(first, a, w, unlisted, faults, now, |first.calendars|);
  }

  // ---------------------------------------------------------------- what a whole poll restores

  /** At the turn of its calendar a primary is seen as it was at the start. */
  lemma AtItsTurn(st: State, s: State, c: nat, w: Window, faults: set<ItemId>, i: nat)
    requires Good(st) && Quiet(st, s) && Unvisited(st, s, c) && i < |st.rows| && st.rows[i].role.Primary? && st.rows[i].calendar == c
    ensures Wf(s) && |s.rows| == |st.rows| && s.rows[i] == st.rows[i] && GroupAsWas(st, s, i)
    ensures st.rows[i].item in View(s, c, w) <==> st.rows[i].item in View(st, c, w)
    ensures st.rows[i].item in View(st, c, w) ==> View(s, c, w)[st.rows[i].item] == View(st, c, w)[st.rows[i].item]
    ensures NewKey(s, i, View(s, c, w)) == NewKey(st, i, View(st, c, w))
    ensures Blocked(s, c, w, View(s, c, w), faults, i) == Blocked(st, c, w, View(st, c, w), faults, i)
  {
    assert GroupAsWas(st, s, i);
    OtherCalendarsSeeNoChange(st, s, c, w, i);
    BlockedAsBefore(st, s, c, w, faults, i);
    hide Good, Quiet, Unvisited, Blocked, View, GroupAsWas;
  }

  /** Between two states that agree on a group, its mirror's agreement is the same. */
  lemma AgreesThrough(s: State, t: State, i: nat, j: nat)
    requires Good(s) && Quiet(s, t) && GroupAsWas(s, t, i) && i < |s.rows| && j < |s.rows|
    requires PrimaryOf(s, j) == i && PrimaryOf(s, i) == i
    ensures Wf(t) && |t.rows| == |s.rows| && t.rows[i] == s.rows[i] && Agrees(t, j) == Agrees(s, j)
  {
    QuietStart(s);
    AgreesAsBefore(s, s, t, j);
    hide Quiet, Agrees, Good;
  }

  /** The turn itself, for a mirror that disagrees. */
  lemma TurnRestores(st: State, s: State, w: Window, faults: set<ItemId>, now: Time, c: nat, taken: bool, i: nat, j: nat)
    requires Good(st) && Quiet(st, s) && Unvisited(st, s, c) && i < |st.rows| && j < |st.rows|
    requires Polled(st.rows[i], c, w) && st.rows[i].item in View(st, c, w) && IsTarget(st, i, j) && !Agrees(st, j)
    ensures var m := Turned(s, w, faults, now, c, taken);
            && |m.rows| == |st.rows| && PrimaryOf(st, j) == i && PrimaryOf(st, i) == i
            && (Agrees(m, j) <==> NewKey(st, i, View(st, c, w)) && Reachable(st, faults, j) && taken
                                  && !Blocked(st, c, w, View(st, c, w), faults, i))
  {
    hide PollCalendar, Agrees, Blocked, NewKey, View, Quiet, Unvisited, GroupAsWas, IsTarget, Reachable, Wf, OnePrimary,
         OneCopyPerCalendar, OneOwner, DeletionComplete, DistinctItems;
    SameKinds(st, s);
    IsPrimary(st, c, w, i);
    AtItsTurn(st, s, c, w, faults, i);
    TargetOf(st, i, j);
    PrimaryIsOwn(st, i);
    AgreesThrough(st, s, i, j);
    TargetAsBefore(st, s, i, faults, j);
    if taken {
      CalendarRestoresIff(s, c, w, faults, now, i, j);
    }
  }

  /** After the turn. */
  lemma AfterTheTurn(st: State, s: State, t: State, w: Window, faults: set<ItemId>, now: Time, c: nat, taken: bool, i: nat)
    requires Good(st) && Turn(st, s, t, w, faults, now, c, taken)
    requires i < |st.rows| && st.rows[i].role.Primary? && st.rows[i].calendar == c
    ensures var m := Turned(s, w, faults, now, c, taken);
            && Good(m) && Quiet(st, m) && Quiet(m, t) && GroupAsWas(m, t, i)
            && m.rows[i].role.Primary? && m.rows[i].group == st.rows[i].group
  {
    hide Turned, Wf, OnePrimary, OneCopyPerCalendar, OneOwner, DeletionComplete, DistinctItems, PolledTo, GroupAsWas;
    var m := Turned(s, w, faults, now, c, taken);
    QuietTransitive(st, s, m);
    SameKinds(st, m);
    SameGroups(st, m);
    hide Quiet;
    assert Unvisited(m, t, c);
  }

  /**
   A run of the polling task restores a live mirror that disagreed with a listed primary in the window exactly if the
   primary's key is new, the mirror can be reached, the run gets to the primary's calendar, and no earlier row of that
   calendar raises; all of it judged by the state before the run.
   */
  lemma PollRestoresMirrorIff(st: State, accounts: seq<nat>, w: Window, unlisted: set<nat>, faults: set<ItemId>, now: Time,
                              c: nat, i: nat, j: nat)
    requires Good(st) && Distinct(accounts) && j < |st.rows|
    requires InWindow(st, i, c, w) && IsListed(st, i, c, w) && LiveMirrorOf(st, st.rows[i].group, j) && !Agrees(st, j)
    ensures var t := PollTx(st, accounts, w, unlisted, faults, now).0;
            && |t.rows| == |st.rows|
            && (Agrees(t, j) <==> IsNew(st, i, c, w) && CallWorks(st, faults, j)
                                  && GetsTo(st, accounts, w, unlisted, faults, c) && !RaisesBefore(st, c, w, faults, i))
  {
    hide PollTx, Agrees, Blocked, NewKey, View, Quiet, Unvisited, Turned, GroupAsWas, Reachable, Reaches, IsTarget, OnePrimary,
         OneCopyPerCalendar, OneOwner, DeletionComplete, DistinctItems, Distinct, GetsTo, RaisesBefore, IsListed, IsNew, CallWorks,
         LiveMirrorOf;
    WindowIs(st, i, c, w);
    RaisingIs(st, c, w, faults, i);
    GetsToIs(st, accounts, w, unlisted, faults, c);
    Outcomes.SameWords(st, i, faults, j);
    OfCalendar(st, c, w, i);
    var t := PollTx(st, accounts, w, unlisted, faults, now).0;
    var s := PollTurn(st, accounts, w, unlisted, faults, now, c);
    var taken := Reaches(st, accounts, w, unlisted, faults, c);
    TurnRestores(st, s, w, faults, now, c, taken, i, j);
    AfterTheTurn(st, s, t, w, faults, now, c, taken, i);
    var m := Turned(s, w, faults, now, c, taken);
    SameGroups(st, m);
    AgreesThrough(m, t, i, j);
  }

  lemma OfCalendar(st: State, c: nat, w: Window, i: nat)
    requires Wf(st) && i < |st.rows| && Polled(st.rows[i], c, w)
    ensures c < |st.calendars| && st.rows[i].calendar == c && st.rows[i].role.Primary? && st.rows[i].deleted.None?
  {
  }

  // ---------------------------------------------------------------- what a whole poll deletes

  lemma TurnDeletes(st: State, s: State, w: Window, faults: set<ItemId>, now: Time, c: nat, taken: bool, i: nat)
    requires Good(st) && Quiet(st, s) && Unvisited(st, s, c) && i < |st.rows| && Polled(st.rows[i], c, w)
    ensures var m := Turned(s, w, faults, now, c, taken);
            && |m.rows| == |st.rows|
            && (m.rows[i].deleted.Some? <==> st.rows[i].item !in View(st, c, w) && taken
                                             && !Blocked(st, c, w, View(st, c, w), faults, i))
  {
    hide PollCalendar, Blocked, NewKey, View, Quiet, Unvisited, GroupAsWas, GroupGone, Wf, OnePrimary,
         OneCopyPerCalendar, OneOwner, DeletionComplete, DistinctItems;
    SameKinds(st, s);
    AtItsTurn(st, s, c, w, faults, i);
    if taken {
      PollDeletesTheUnlisted(s, c, w, faults, now, i);
    }
  }

  /**
   A run of the polling task deletes a primary in the window exactly if Exchange does not list it, the run gets to its
   calendar and no earlier row of that calendar raises; its whole group goes with it.
   */
  lemma PollDeletesIff(st: State, accounts: seq<nat>, w: Window, unlisted: set<nat>, faults: set<ItemId>, now: Time, c: nat, i: nat)
    requires Good(st) && Distinct(accounts) && InWindow(st, i, c, w)
    ensures var t := PollTx(st, accounts, w, unlisted, faults, now).0;
            && |t.rows| == |st.rows|
            && (t.rows[i].deleted.Some? <==> !IsListed(st, i, c, w) && GetsTo(st, accounts, w, unlisted, faults, c)
                                             && !RaisesBefore(st, c, w, faults, i))
            && (t.rows[i].deleted.Some? ==> GroupGone(t, st.rows[i].group))
  {
    hide PollTx, Blocked, View, Quiet, Unvisited, Turned, GroupAsWas, GroupGone, Reaches, Wf, OnePrimary,
         OneCopyPerCalendar, OneOwner, DeletionComplete, DistinctItems, Distinct, GetsTo, RaisesBefore, IsListed;
    WindowIs(st, i, c, w);
    RaisingIs(st, c, w, faults, i);
    GetsToIs(st, accounts, w, unlisted, faults, c);
    OfCalendar(st, c, w, i);
    var t := PollTx(st, accounts, w, unlisted, faults, now).0;
    var s := PollTurn(st, accounts, w, unlisted, faults, now, c);
    var taken := Reaches(st, accounts, w, unlisted, faults, c);
    TurnParts(st, s, t, w, faults, now, c, taken);
    TurnDeletes(st, s, w, faults, now, c, taken, i);
    AfterTheTurn(st, s, t, w, faults, now, c, taken, i);
    GroupMembers(Turned(s, w, faults, now, c, taken), t, i, i);
    if t.rows[i].deleted.Some? {
      SameKinds(Turned(s, w, faults, now, c, taken), t);
      DeletedPrimary(t, i);
    }
  }

  lemma TurnParts(st: State, s: State, t: State, w: Window, faults: set<ItemId>, now: Time, c: nat, taken: bool)
    requires Good(st) && Turn(st, s, t, w, faults, now, c, taken)
    ensures Quiet(st, s) && Unvisited(st, s, c)
  {
  }

  /** An event whose item exists unchanged is deleted exactly if it starts at or after the window's end and the run gets to it. */
  lemma PollDeletesFarIff(st: State, accounts: seq<nat>, w: Window, unlisted: set<nat>, faults: set<ItemId>, now: Time, c: nat, i: nat)
    requires Good(st) && Distinct(accounts) && InWindow(st, i, c, w) && Unchanged(st, c, w, i)
    ensures var t := PollTx(st, accounts, w, unlisted, faults, now).0;
            && |t.rows| == |st.rows|
            && (t.rows[i].deleted.Some? <==> w.end <= st.rows[i].start && GetsTo(st, accounts, w, unlisted, faults, c)
                                             && !RaisesBefore(st, c, w, faults, i))
  {
    hide PollTx, RaisesBefore, GetsTo, Good, Distinct;
    PollDeletesIff(st, accounts, w, unlisted, faults, now, c, i);
  }

  // ---------------------------------------------------------------- what a whole poll makes of a group's state

  /** The group of primary i once its own turn is over, if it is taken. */
  ghost function GroupAfter(st: State, i: nat, view: map<ItemId, nat>, faults: set<ItemId>, now: Time): Group
    requires i < |st.rows| && st.rows[i].group < |st.groups|
  {
    var g := st.groups[st.rows[i].group];
    if st.rows[i].item !in view then Group(g.user, g.primary, Deleted, now)
    else if NewKey(st, i, view) && SomeMirrorFails(st, st.rows[i].group, faults) then Group(g.user, g.primary, Degraded, now)
    else g
  }

  lemma RowGroupIs(s: State, i: nat, view: map<ItemId, nat>, faults: set<ItemId>, now: Time)
    requires Good(s) && i < |s.rows| && s.rows[i].role.Primary? && s.rows[i].deleted.None?
    ensures var t := PollRow(s, i, s.rows[i], view, faults, now).0;
            |t.groups| == |s.groups| && t.groups[s.rows[i].group] == GroupAfter(s, i, view, faults, now)
  {
    hide SyncTx, DeleteTx, Failures, OnePrimary, OneCopyPerCalendar, OneOwner, DeletionComplete, SomeMirrorFails;
    if s.rows[i].item !in view {
      ExternalDeleteOf(s, i, faults, now);
      Outcomes.DeletedTablesAre(s, s.rows[i].user, i, true, faults, now);
    } else if s.rows[i].seenKey != Some(view[s.rows[i].item]) {
      Outcomes.SyncedGroupsAre(s, i, faults, now);
      MarkSeenSparesGroups(SyncTx(s, i, faults, now), i, view[s.rows[i].item]);
    }
  }

  lemma ExternalDeleteOf(s: State, i: nat, faults: set<ItemId>, now: Time)
    requires Good(s) && i < |s.rows| && s.rows[i].role.Primary? && s.rows[i].deleted.None?
    ensures ExternalDeleteTx(s, s.rows[i].item, faults, now) == DeleteTx(s, s.rows[i].user, i, true, faults, now)
  {
    assert Matches(s.rows[i], s.rows[i].item, None, true);
    hide DeleteTx, RepairTx, OnePrimary, OneCopyPerCalendar, OneOwner, DeletionComplete;
  }

  lemma GroupAfterAsBefore(st: State, s: State, i: nat, view: map<ItemId, nat>, faults: set<ItemId>, now: Time)
    requires Good(st) && Quiet(st, s) && GroupAsWas(st, s, i) && i < |st.rows| && st.rows[i].role.Primary?
    ensures Good(s) && |s.rows| == |st.rows| && s.rows[i] == st.rows[i] && s.rows[i].group < |s.groups| && st.rows[i].group < |st.groups|
    ensures GroupAfter(s, i, view, faults, now) == GroupAfter(st, i, view, faults, now)
    ensures SameGroup(st, s, st.rows[i].group)
  {
    SameKinds(st, s);
    GroupMembers(st, s, i, i);
    PrimaryIsOwn(st, i);
    MissingIs(st, i, faults);
    MissingIs(s, i, faults);
    forall j: nat | j < |st.rows|
      ensures Missed(s, i, faults, j) == Missed(st, i, faults, j)
    {
      MissedAsBefore(st, s, i, faults, j);
    }
    GroupExists(st, i);
    hide Quiet, Missed, SomeMirrorFails, Wf, OnePrimary, OneCopyPerCalendar, OneOwner, DeletionComplete, DistinctItems;
  }

  /** At its own turn, unless an earlier row raised. */
  lemma OwnTurnGroup(st: State, cal: nat, w: Window, view: map<ItemId, nat>, faults: set<ItemId>, now: Time, i: nat)
    requires Good(st) && i < |st.rows| && Polled(st.rows[i], cal, w)
    ensures var t := PollRows(st, cal, w, view, faults, now, i + 1).0; var g := st.rows[i].group;
            && g < |st.groups| && g < |t.groups|
            && t.groups[g] == if Blocked(st, cal, w, view, faults, i) then st.groups[g] else GroupAfter(st, i, view, faults, now)
  {
    hide PollRow, Blocked, GroupAsWas, GroupAfter, Quiet, Wf, OnePrimary, OneCopyPerCalendar, OneOwner, DeletionComplete, DistinctItems;
    var s := PollRows(st, cal, w, view, faults, now, i).0;
    BeforeItsTurn(st, cal, w, view, faults, now, i);
    GroupAfterAsBefore(st, s, i, view, faults, now);
    CalendarRaisesIff(st, cal, w, view, faults, now, i);
    RowGroupIs(s, i, view, faults, now);
  }

  /** A calendar's poll, seen by the group of one of its polled primaries. */
  lemma CalendarGroupIs(st: State, cal: nat, w: Window, faults: set<ItemId>, now: Time, i: nat)
    requires Good(st) && i < |st.rows| && Polled(st.rows[i], cal, w)
    ensures var t := PollCalendar(st, cal, w, faults, now).0; var g := st.rows[i].group;
            && g < |st.groups| == |t.groups|
            && t.groups[g] == if Blocked(st, cal, w, View(st, cal, w), faults, i) then st.groups[g]
                              else GroupAfter(st, i, View(st, cal, w), faults, now)
  {
    var view := View(st, cal, w);
    hide PollRows, Blocked, GroupAfter, Spared, Quiet, View, Wf, OnePrimary, OneCopyPerCalendar, OneOwner, DeletionComplete,
         DistinctItems;
    IsPrimary(st, cal, w, i);
    PrimaryIsOwn(st, i);
    OwnTurnGroup(st, cal, w, view, faults, now, i);
    AfterItsTurn(st, cal, w, view, faults, now, i, |st.rows|, i);
    QuietPollRows(st, cal, w, view, faults, now, i + 1);
    QuietPollRows(st, cal, w, view, faults, now, |st.rows|);
    SparedGroup(st, PollRows(st, cal, w, view, faults, now, i + 1).0, PollCalendar(st, cal, w, faults, now).0, i);
  }

  lemma SparedGroup(st: State, a: State, b: State, i: nat)
    requires Good(st) && Quiet(st, a) && Quiet(st, b) && i < |st.rows| && Spared(a, b, i)
    ensures |a.groups| == |b.groups| == |st.groups| && st.rows[i].group < |st.groups|
    ensures b.groups[st.rows[i].group] == a.groups[st.rows[i].group]
  {
    SameGroups(st, a);
    GroupExists(st, i);
  }

  /**
   What a run of the task makes of the group of a primary in the window: DELETED if the run gets to it and Exchange does
   not list it, DEGRADED if the run gets to it, its key is new and the call for one of its mirrors fails, and exactly as
   it was in every other case.
   */
  lemma PollGroupIs(st: State, accounts: seq<nat>, w: Window, unlisted: set<nat>, faults: set<ItemId>, now: Time, c: nat, i: nat)
    requires Good(st) && Distinct(accounts) && InWindow(st, i, c, w)
    ensures var t := PollTx(st, accounts, w, unlisted, faults, now).0; var g := st.rows[i].group;
            var gotTo := GetsTo(st, accounts, w, unlisted, faults, c) && !RaisesBefore(st, c, w, faults, i);
            && |t.groups| == |st.groups|
            && t.groups[g] == if gotTo && !IsListed(st, i, c, w) then Group(st.groups[g].user, st.groups[g].primary, Deleted, now)
                              else if gotTo && IsNew(st, i, c, w) && SomeMirrorFails(st, g, faults) then
                                Group(st.groups[g].user, st.groups[g].primary, Degraded, now)
                              else st.groups[g]
  {
    hide PollTx, PollCalendar, Blocked, View, Quiet, Unvisited, GroupAsWas, Reaches, Wf, OnePrimary, OneCopyPerCalendar, OneOwner,
         DeletionComplete, DistinctItems, Distinct, GetsTo, RaisesBefore, IsListed, IsNew, SomeMirrorFails;
    WindowIs(st, i, c, w);
    RaisingIs(st, c, w, faults, i);
    GetsToIs(st, accounts, w, unlisted, faults, c);
    OfCalendar(st, c, w, i);
    GroupExists(st, i);
    var t := PollTx(st, accounts, w, unlisted, faults, now).0;
    var s := PollTurn(st, accounts, w, unlisted, faults, now, c);
    var taken := Reaches(st, accounts, w, unlisted, faults, c);
    TurnParts(st, s, t, w, faults, now, c, taken);
    TurnGroup(st, s, w, faults, now, c, taken, i);
    AfterTheTurn(st, s, t, w, faults, now, c, taken, i);
    var m := Turned(s, w, faults, now, c, taken);
    SameGroups(st, m);
    GroupAfterAsBefore(m, t, i, View(st, c, w), faults, now);
    QuietTransitive(st, m, t);
    SameGroupCount(st, t);
  }

  lemma SameGroupCount(st: State, s: State)
    requires Wf(st) && Quiet(st, s)
    ensures |s.groups| == |st.groups|
  {
  }

  lemma TurnGroup(st: State, s: State, w: Window, faults: set<ItemId>, now: Time, c: nat, taken: bool, i: nat)
    requires Good(st) && Quiet(st, s) && Unvisited(st, s, c) && i < |st.rows| && Polled(st.rows[i], c, w)
    ensures var m := Turned(s, w, faults, now, c, taken); var g := st.rows[i].group;
            && g < |st.groups| == |m.groups|
            && m.groups[g] == if taken && !Blocked(st, c, w, View(st, c, w), faults, i) then GroupAfter(st, i, View(st, c, w), faults, now)
                              else st.groups[g]
  {
    hide PollCalendar, Blocked, View, Quiet, Unvisited, GroupAsWas, Wf, OnePrimary, OneCopyPerCalendar, OneOwner, DeletionComplete,
         DistinctItems, GroupAfter, SomeMirrorFails;
    SameKinds(st, s);
    SameGroupCount(st, s);
    AtItsTurn(st, s, c, w, faults, i);
    GroupAfterAsBefore(st, s, i, View(st, c, w), faults, now);
    SameAfter(st, s, c, w, faults, now, i);
    if taken {
      CalendarGroupIs(s, c, w, faults, now, i);
    }
  }

  lemma SameAfter(st: State, s: State, c: nat, w: Window, faults: set<ItemId>, now: Time, i: nat)
    requires i < |st.rows| && i < |s.rows| && s.rows[i] == st.rows[i] && s.rows[i].group < |s.groups| && st.rows[i].group < |st.groups|
    requires st.rows[i].item in View(s, c, w) <==> st.rows[i].item in View(st, c, w)
    requires NewKey(s, i, View(s, c, w)) == NewKey(st, i, View(st, c, w))
    requires st.rows[i].item in View(st, c, w) ==> View(s, c, w)[st.rows[i].item] == View(st, c, w)[st.rows[i].item]
    ensures GroupAfter(s, i, View(s, c, w), faults, now) == GroupAfter(s, i, View(st, c, w), faults, now)
  {
    hide View, SomeMirrorFails;
  }

  // ---------------------------------------------------------------- what a whole poll leaves alone

  /** Row i is never polled in this window. */
  ghost predicate Unpolled(st: State, i: nat, w: Window) {
    forall c: nat :: !InWindow(st, i, c, w)
  }

  lemma {:induction false} UnpolledAccount(st: State, account: nat, w: Window, unlisted: set<nat>, faults: set<ItemId>, now: Time, k: nat,
                                           i: nat)
    requires Good(st) && k <= |st.calendars| && i < |st.rows| && st.rows[i].role.Primary? && Unpolled(st, i, w)
    ensures GroupAsWas(st, PollAccount(st, account, w, unlisted, faults, now, k).0, i)
    decreases k
  {
    hide GroupAsWas, PollCalendar, Quiet, Unpolled, Wf, OnePrimary, OneCopyPerCalendar, OneOwner, DeletionComplete, DistinctItems;
    if k == 0 {
      GroupAsWasStart(st, i);
    } else {
      var s := PollAccount(st, account, w, unlisted, faults, now, k - 1).0;
      UnpolledAccount(st, account, w, unlisted, faults, now, k - 1, i);
      QuietPollAccount(st, account, w, unlisted, faults, now, k - 1);
      StillUnpolled(st, s, i, w);
      UnpolledCalendar(s, k - 1, w, faults, now, i);
      GroupAsWasTransitive(st, s, PollCalendar(s, k - 1, w, faults, now).0, i);
    }
  }

  lemma UnpolledCalendar(s: State, cal: nat, w: Window, faults: set<ItemId>, now: Time, i: nat)
    requires Good(s) && i < |s.rows| && s.rows[i].role.Primary? && Unpolled(s, i, w)
    ensures GroupAsWas(s, PollCalendar(s, cal, w, faults, now).0, i)
  {
    WindowIs(s, i, cal, w);
    hide PollRows, View, Wf, OnePrimary, OneCopyPerCalendar, OneOwner, DeletionComplete, DistinctItems, Polled, InWindow;
    assert !InWindow(s, i, cal, w);
    forall j | 0 <= j < |s.rows| && PrimaryOf(s, j) == i
      ensures Spared(s, PollCalendar(s, cal, w, faults, now).0, j)
    {
      PollRowsSpare(s, cal, w, View(s, cal, w), faults, now, |s.rows|, j);
    }
  }

  lemma GroupAsWasStart(st: State, i: nat)
    requires Wf(st)
    ensures GroupAsWas(st, st, i)
  {
  }

  lemma StillUnpolled(st: State, s: State, i: nat, w: Window)
    requires Good(st) && Quiet(st, s) && GroupAsWas(st, s, i) && i < |st.rows| && st.rows[i].role.Primary? && Unpolled(st, i, w)
    ensures Good(s) && |s.rows| == |st.rows| && s.rows[i] == st.rows[i] && Unpolled(s, i, w)
  {
    GroupMembers(st, s, i, i);
    SameKinds(st, s);
    hide Good, Quiet, GroupAsWas;
    forall c: nat
      ensures !InWindow(s, i, c, w)
    {
      assert !InWindow(st, i, c, w);
    }
  }

  /**
   A run of the task leaves alone every primary that is deleted, starts before the window, or lies in a calendar that is
   not an active one of the polled accounts: its row and item, those of its mirrors, and its group are as they were.
   */
  lemma {:induction false} UnpolledIsLeft(st: State, accounts: seq<nat>, w: Window, unlisted: set<nat>, faults: set<ItemId>, now: Time,
                                          i: nat)
    requires Good(st) && i < |st.rows| && st.rows[i].role.Primary?
    requires var c := st.rows[i].calendar;
             st.rows[i].deleted.Some? || st.rows[i].start < w.start || !(st.calendars[c].account in accounts && st.calendars[c].active)
    ensures GroupAsWas(st, PollTx(st, accounts, w, unlisted, faults, now).0, i)
    decreases accounts
  {
    hide GroupAsWas, PollAccount, Quiet, Unpolled, OnePrimary, OneCopyPerCalendar, OneOwner, DeletionComplete, DistinctItems;
    if accounts == [] {
      GroupAsWasStart(st, i);
    } else if st.rows[i].deleted.None? && st.rows[i].start >= w.start {
      PollSparesOthers(st, accounts, w, unlisted, faults, now, st.rows[i].calendar);
      UnvisitedMeans(st, PollTx(st, accounts, w, unlisted, faults, now).0, i);
    } else {
      var before, a := accounts[..|accounts| - 1], accounts[|accounts| - 1];
      var s := PollTx(st, before, w, unlisted, faults, now).0;
      UnpolledIsLeft(st, before, w, unlisted, faults, now, i);
      QuietPoll(st, before, w, unlisted, faults, now);
      OutsideIsUnpolled(st, i, w);
      StillUnpolled(st, s, i, w);
      UnpolledAccount(s, a, w, unlisted, faults, now, |s.calendars|, i);
      GroupAsWasTransitive(st, s, PollAccount(s, a, w, unlisted, faults, now, |s.calendars|).0, i);
    }
  }

  lemma UnvisitedMeans(st: State, s: State, i: nat)
    requires Wf(st) && i < |st.rows| && st.rows[i].role.Primary? && Unvisited(st, s, st.rows[i].calendar)
    ensures GroupAsWas(st, s, i)
  {
  }

  lemma OutsideIsUnpolled(st: State, i: nat, w: Window)
    requires i < |st.rows| && (st.rows[i].deleted.Some? || st.rows[i].start < w.start)
    ensures Unpolled(st, i, w)
  {
  }

  // ---------------------------------------------------------------- what a poll never copies

  predicate SameWords(a: Row, b: Row) {
    a.title == b.title && a.description == b.description && a.start == b.start && a.end == b.end && a.attendees == b.attendees
  }

  /** Mirror j still shows its primary's row, or is gone. */
  predicate StillAgrees(s: State, j: nat)
    requires Wf(s) && j < |s.rows|
  {
    Agrees(s, j) || s.rows[j].deleted.Some?
  }

  /** From st to s the primary of mirror j keeps what it says in the database, and j keeps showing it. */
  ghost predicate Untold(st: State, s: State, j: nat)
    requires Wf(st) && j < |st.rows|
  {
    Quiet(st, s) && SameWords(st.rows[PrimaryOf(st, j)], s.rows[PrimaryOf(st, j)]) && StillAgrees(s, j)
  }

  lemma UntoldTransitive(a: State, b: State, c: State, j: nat)
    requires Wf(a) && j < |a.rows| && Untold(a, b, j) && Wf(b) && j < |b.rows| && Untold(b, c, j)
    ensures Untold(a, c, j)
  {
    QuietTransitive(a, b, c);
    SameGroups(a, b);
    hide Quiet, StillAgrees;
  }

  lemma UntoldStart(s: State, j: nat)
    requires Good(s) && j < |s.rows| && StillAgrees(s, j)
    ensures Untold(s, s, j)
  {
    QuietStart(s);
  }

  /** Polling a primary of another group. */
  lemma OtherRowUntold(s: State, k: nat, view: map<ItemId, nat>, faults: set<ItemId>, now: Time, j: nat)
    requires Good(s) && k < |s.rows| && j < |s.rows| && s.rows[k].role.Primary? && StillAgrees(s, j) && PrimaryOf(s, j) != k
    ensures Untold(s, PollRow(s, k, s.rows[k], view, faults, now).0, j)
  {
    hide PollRow, Quiet, Agrees, Wf, OneCopyPerCalendar, OneOwner, DeletionComplete, DistinctItems;
    var t := PollRow(s, k, s.rows[k], view, faults, now).0;
    QuietStart(s);
    QuietPollRow(s, k, s.rows[k], view, faults, now);
    OtherGroups(s, k, j);
    PollRowSparesOthers(s, k, s.rows[k], view, faults, now, j);
    PrimaryShares(s, j);
    PollRowSparesOthers(s, k, s.rows[k], view, faults, now, PrimaryOf(s, j));
    AgreesAsBefore(s, s, t, j);
  }

  lemma PrimaryShares(s: State, j: nat)
    requires Good(s) && j < |s.rows|
    ensures PrimaryOf(s, j) < |s.rows| && s.rows[PrimaryOf(s, j)].group == s.rows[j].group && s.rows[PrimaryOf(s, j)].role.Primary?
  {
  }

  /** Polling the mirror's own primary. */
  lemma OwnRowUntold(s: State, k: nat, view: map<ItemId, nat>, faults: set<ItemId>, now: Time, j: nat)
    requires Good(s) && k < |s.rows| && j < |s.rows| && s.rows[k].role.Primary? && s.rows[k].deleted.None?
    requires s.rows[j].role.Mirror? && StillAgrees(s, j) && PrimaryOf(s, j) == k
    ensures Untold(s, PollRow(s, k, s.rows[k], view, faults, now).0, j)
  {
    hide SyncTx, ExternalDeleteTx, MarkSeen, Failures, Quiet, Agrees, Wf, OnePrimary, OneCopyPerCalendar, OneOwner, DeletionComplete,
         DistinctItems;
    QuietPollRow(s, k, s.rows[k], view, faults, now);
    PrimaryShares(s, j);
    if s.rows[k].item !in view {
      UnlistedUntold(s, k, view, faults, now, j);
    } else if s.rows[k].seenKey != Some(view[s.rows[k].item]) {
      SyncUntold(s, k, faults, now, j);
      MarkSeenUntold(SyncTx(s, k, faults, now), k, view[s.rows[k].item], j);
    }
  }

  lemma UnlistedUntold(s: State, k: nat, view: map<ItemId, nat>, faults: set<ItemId>, now: Time, j: nat)
    requires Good(s) && k < |s.rows| && j < |s.rows| && s.rows[k].role.Primary? && s.rows[k].deleted.None? && s.rows[k].item !in view
    requires s.rows[j].group == s.rows[k].group
    ensures var t := PollRow(s, k, s.rows[k], view, faults, now).0;
            |t.rows| == |s.rows| && SameWords(s.rows[k], t.rows[k]) && t.rows[j].deleted.Some?
  {
    hide Quiet, ExternalDeleteTx, Wf, OnePrimary, OneCopyPerCalendar, OneOwner, DeletionComplete, DistinctItems;
    var t := PollRow(s, k, s.rows[k], view, faults, now).0;
    PollRowSettles(s, k, view, faults, now);
    QuietPollRow(s, k, s.rows[k], view, faults, now);
    SameKinds(s, t);
    SameGroups(s, t);
    DeletedPrimary(t, k);
  }

  lemma SyncUntold(s: State, k: nat, faults: set<ItemId>, now: Time, j: nat)
    requires Good(s) && k < |s.rows| && j < |s.rows| && s.rows[k].role.Primary?
    requires s.rows[j].group == s.rows[k].group && s.rows[j].role.Mirror? && StillAgrees(s, j)
    ensures var t := SyncTx(s, k, faults, now);
            Wf(t) && |t.rows| == |s.rows| && t.rows[k] == s.rows[k] && StillAgrees(t, j)
  {
    hide SyncTx, Quiet, Reachable, RowAgrees, ItemAgrees, Wf, OnePrimary, OneCopyPerCalendar, OneOwner, DeletionComplete, DistinctItems;
    QuietSync(s, k, faults, now);
    SyncSparesPrimaries(s, k, faults, now, k);
    if IsTarget(s, k, j) {
      SyncedMirrorAgrees(s, k, faults, now, j);
    } else {
      SyncSparesOthers(s, k, faults, now, j);
    }
  }

  lemma MarkSeenUntold(s: State, k: nat, key: nat, j: nat)
    requires Wf(s) && k < |s.rows| && j < |s.rows| && StillAgrees(s, j)
    ensures var t := MarkSeen(s, k, key);
            Wf(t) && |t.rows| == |s.rows| && SameWords(s.rows[k], t.rows[k]) && StillAgrees(t, j)
  {
    MarkSeenKeepsAgreement(s, k, key, j);
    hide Wf, Agrees;
  }

  lemma {:induction false} RowsUntold(st: State, cal: nat, w: Window, faults: set<ItemId>, now: Time, k: nat, j: nat)
    requires Good(st) && k <= |st.rows| && j < |st.rows| && st.rows[j].role.Mirror? && StillAgrees(st, j)
    ensures Untold(st, PollRows(st, cal, w, View(st, cal, w), faults, now, k).0, j)
  {
    hide PollRow, View, Untold, StillAgrees, Wf, Quiet, GroupAsWas, OnePrimary, OneCopyPerCalendar, OneOwner, DeletionComplete,
         DistinctItems;
    if k == 0 {
      UntoldStart(st, j);
    } else {
      var view := View(st, cal, w);
      var (s, raised) := PollRows(st, cal, w, view, faults, now, k - 1);
      RowsUntold(st, cal, w, faults, now, k - 1, j);
      if !raised && Polled(st.rows[k - 1], cal, w) {
        BeforeItsTurn(st, cal, w, view, faults, now, k - 1);
        GroupMembers(st, s, k - 1, k - 1);
        RowUntold(st, s, k - 1, view, faults, now, j);
      }
    }
  }

  lemma RowUntold(st: State, s: State, k: nat, view: map<ItemId, nat>, faults: set<ItemId>, now: Time, j: nat)
    requires Good(st) && j < |st.rows| && st.rows[j].role.Mirror? && Untold(st, s, j)
    requires k < |st.rows| && k < |s.rows| && s.rows[k] == st.rows[k] && st.rows[k].role.Primary? && st.rows[k].deleted.None?
    ensures Wf(s) && Untold(st, PollRow(s, k, st.rows[k], view, faults, now).0, j)
  {
    hide PollRow, StillAgrees, SameWords, Wf, OnePrimary, OneCopyPerCalendar, OneOwner, DeletionComplete, DistinctItems;
    SameKinds(st, s);
    UntoldAgrees(st, s, j);
    if PrimaryOf(s, j) == k {
      OwnRowUntold(s, k, view, faults, now, j);
    } else {
      OtherRowUntold(s, k, view, faults, now, j);
    }
    hide Untold, Quiet;
    UntoldTransitive(st, s, PollRow(s, k, st.rows[k], view, faults, now).0, j);
  }

  lemma UntoldAgrees(st: State, s: State, j: nat)
    requires Wf(st) && j < |st.rows| && Untold(st, s, j)
    ensures Good(s) && |s.rows| == |st.rows| && StillAgrees(s, j) && s.rows[j].role == st.rows[j].role
  {
  }

  lemma {:induction false} AccountUntold(st: State, account: nat, w: Window, unlisted: set<nat>, faults: set<ItemId>, now: Time, k: nat,
                                         j: nat)
    requires Good(st) && k <= |st.calendars| && j < |st.rows| && st.rows[j].role.Mirror? && StillAgrees(st, j)
    ensures Untold(st, PollAccount(st, account, w, unlisted, faults, now, k).0, j)
  {
    hide PollRows, View, Untold, StillAgrees, Wf, OnePrimary, OneCopyPerCalendar, OneOwner, DeletionComplete, DistinctItems;
    if k == 0 {
      UntoldStart(st, j);
    } else {
      var s := PollAccount(st, account, w, unlisted, faults, now, k - 1).0;
      AccountUntold(st, account, w, unlisted, faults, now, k - 1, j);
      UntoldAgrees(st, s, j);
      RowsUntold(s, k - 1, w, faults, now, |s.rows|, j);
      UntoldTransitive(st, s, PollCalendar(s, k - 1, w, faults, now).0, j);
    }
  }

  lemma {:induction false} PollUntold(st: State, accounts: seq<nat>, w: Window, unlisted: set<nat>, faults: set<ItemId>, now: Time, j: nat)
    requires Good(st) && j < |st.rows| && st.rows[j].role.Mirror? && StillAgrees(st, j)
    ensures Untold(st, PollTx(st, accounts, w, unlisted, faults, now).0, j)
    decreases accounts
  {
    hide PollAccount, Untold, StillAgrees, Wf, OnePrimary, OneCopyPerCalendar, OneOwner, DeletionComplete, DistinctItems;
    if accounts == [] {
      UntoldStart(st, j);
    } else {
      var before, a := accounts[..|accounts| - 1], accounts[|accounts| - 1];
      var s := PollTx(st, before, w, unlisted, faults, now).0;
      PollUntold(st, before, w, unlisted, faults, now, j);
      UntoldAgrees(st, s, j);
      AccountUntold(s, a, w, unlisted, faults, now, |s.calendars|, j);
      UntoldTransitive(st, s, PollAccount(s, a, w, unlisted, faults, now, |s.calendars|).0, j);
    }
  }

  /** A mirror in agreement shows a title and a slot exactly if they are those of its primary's row. */
  lemma AgreeingShows(s: State, j: nat, title: string, start: Time, end: Time)
    requires Wf(s) && j < |s.rows| && Agrees(s, j)
    ensures var p := s.rows[PrimaryOf(s, j)];
            Shows(s, j, title, start, end) <==> title == p.title && start == p.start && end == p.end
  {
    var p := s.rows[PrimaryOf(s, j)];
    if BUSY + title == BUSY + p.title {
      assert title == (BUSY + title)[|BUSY|..] && p.title == (BUSY + p.title)[|BUSY|..];
    }
  }

  /**
   An event edited in Outlook: no poll copies the edit. The primary's row keeps what it says, and a mirror that agreed
   shows the edit afterwards exactly if title and slot were not edited at all, unless the poll deletes it.
   */
  lemma OutlookEditStaysBehind(st: State, i: nat, j: nat, content: Content, attendees: seq<string>, accounts: seq<nat>, w: Window,
                               unlisted: set<nat>, faults: set<ItemId>, now: Time)
    requires Good(st) && i < |st.rows| && j < |st.rows| && st.rows[i].role.Primary? && IsTarget(st, i, j) && Agrees(st, j)
    ensures var t := PollTx(Apply(st, OutlookEdit(st.rows[i].item, content, attendees)), accounts, w, unlisted, faults, now).0;
            && |t.rows| == |st.rows| && SameWords(st.rows[i], t.rows[i])
            && (t.rows[j].deleted.None? ==>
                  Agrees(t, j)
                  && (Shows(t, j, content.subject, content.start, content.end)
                      <==> content.subject == st.rows[i].title && content.start == st.rows[i].start && content.end == st.rows[i].end))
  {
    var edited := Apply(st, OutlookEdit(st.rows[i].item, content, attendees));
    OutlookStep(st, OutlookEdit(st.rows[i].item, content, attendees));
    EditedTables(st, i, content, attendees);
    TargetOf(st, i, j);
    EditKeepsAgreement(st, i, j, content, attendees);
    hide Apply, PollTx, Agrees, Shows, Quiet, Wf, OnePrimary, OneCopyPerCalendar, OneOwner, DeletionComplete, DistinctItems;
    var t := PollTx(edited, accounts, w, unlisted, faults, now).0;
    PollUntold(edited, accounts, w, unlisted, faults, now, j);
    SameGroups(edited, t);
    if t.rows[j].deleted.None? {
      AgreeingShows(t, j, content.subject, content.start, content.end);
    }
  }

  lemma EditKeepsAgreement(st: State, i: nat, j: nat, content: Content, attendees: seq<string>)
    requires Good(st) && i < |st.rows| && j < |st.rows| && st.rows[i].role.Primary? && IsTarget(st, i, j) && Agrees(st, j)
    ensures var edited := Apply(st, OutlookEdit(st.rows[i].item, content, attendees));
            Wf(edited) && |edited.rows| == |st.rows| && Agrees(edited, j) && PrimaryOf(edited, j) == PrimaryOf(st, j)
  {
    assert i != j && st.rows[i].item != st.rows[j].item;
    hide OnePrimary, OneCopyPerCalendar, OneOwner, DeletionComplete, MirrorBody;
  }
}
