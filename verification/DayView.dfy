/** The day view: entries of all calendars folded by title and start minute. */
module DayView {
  import opened SyncModel
  import Text

  datatype Entry = Entry(id: string, title: string, start: string)

  /** An entry kept for a key, with the ids of every entry of that key. */
  datatype Shown = Shown(entry: Entry, ids: seq<string>)

  type Key = (string, string)

  const BUSY_PREFIXES := [BUSY, "[Tentative] ", "[Tentatively Accepted] ", "[Declined] "]

  predicate HasBusy(title: string) {
    exists i | 0 <= i < |BUSY_PREFIXES| :: Text.StartsWith(title, BUSY_PREFIXES[i])
  }

  /** The title without the first prefix of the list that it starts with. */
  function StripBusy(title: string): string {
    StripFirst(title, BUSY_PREFIXES)
  }

  function StripFirst(title: string, prefixes: seq<string>): string {
    if prefixes == [] then title
    else if Text.StartsWith(title, prefixes[0]) then title[|prefixes[0]|..]
    else StripFirst(title, prefixes[1..])
  }

  function Minute(start: string): string {
    if |start| <= 16 then start else start[..16]
  }

  function KeyOf(e: Entry): Key {
    (StripBusy(e.title), Minute(e.start))
  }

  // ---------------------------------------------------------------- the reference form

  /** The keys in order of first appearance. */
  function Keys(events: seq<Entry>): seq<Key> {
    if events == [] then [] else
    var before, key := Keys(events[..|events| - 1]), KeyOf(events[|events| - 1]);
    if key in before then before else before + [key]
  }

  /** The entries of one key, in listing order. */
  function Members(events: seq<Entry>, key: Key): seq<Entry> {
    if events == [] then [] else
    var last := events[|events| - 1];
    Members(events[..|events| - 1], key) + if KeyOf(last) == key then [last] else []
  }

  /** The position of the first member without a busy prefix, or the number of members. */
  function FirstPlain(members: seq<Entry>): (i: nat)
    ensures i <= |members|
  {
    if members == [] || !HasBusy(members[0].title) then 0 else 1 + FirstPlain(members[1..])
  }

  function Representative(members: seq<Entry>): Entry
    requires members != []
  {
    if FirstPlain(members) < |members| then members[FirstPlain(members)] else members[0]
  }

  function Ids(events: seq<Entry>): seq<string> {
    seq(|events|, i requires 0 <= i < |events| => events[i].id)
  }

  function ShownFor(events: seq<Entry>, key: Key): Shown
    requires Members(events, key) != []
  {
    Shown(Representative(Members(events, key)), Ids(Members(events, key)))
  }

  lemma {:induction false} KeysHaveMembers(events: seq<Entry>, key: Key)
    ensures key in Keys(events) <==> Members(events, key) != []
  {
    if events != [] {
      KeysHaveMembers(events[..|events| - 1], key);
    }
  }

  /** The whole view: one shown entry per key. */
  function View(events: seq<Entry>): seq<Shown> {
    var keys := Keys(events);
    seq(|keys|, k requires 0 <= k < |keys| => KeysHaveMembers(events, keys[k]); ShownFor(events, keys[k]))
  }

  lemma {:induction false} FirstPlainGrows(members: seq<Entry>, e: Entry)
    ensures FirstPlain(members + [e])
         == if FirstPlain(members) < |members| || !HasBusy(e.title) then FirstPlain(members) else |members| + 1
    ensures FirstPlain(members) < |members| ==> !HasBusy(members[FirstPlain(members)].title)
    ensures forall i | 0 <= i < FirstPlain(members) :: HasBusy(members[i].title)
  {
    if members == [] {
      assert (members + [e])[1..] == [];
    } else {
      FirstPlainGrows(members[1..], e);
      assert (members + [e])[1..] == members[1..] + [e];
    }
  }

  /** A newcomer replaces the entry kept so far exactly if that one is prefixed and the newcomer is not. */
  lemma RepresentativeGrows(members: seq<Entry>, e: Entry)
    requires members != []
    ensures Representative(members + [e])
         == if HasBusy(Representative(members).title) && !HasBusy(e.title) then e else Representative(members)
  {
    FirstPlainGrows(members, e);
  }

  /** One step of the loop on the entry of a key. */
  lemma ShownGrows(events: seq<Entry>, e: Entry, key: Key)
    requires key in Keys(events + [e])
    ensures Members(events + [e], key) != []
    ensures KeyOf(e) != key ==> Members(events, key) != [] && ShownFor(events + [e], key) == ShownFor(events, key)
    ensures KeyOf(e) == key && key !in Keys(events) ==> ShownFor(events + [e], key) == Shown(e, [e.id])
    ensures KeyOf(e) == key && key in Keys(events) ==>
              && Members(events, key) != []
              && var was := ShownFor(events, key);
                 ShownFor(events + [e], key)
                 == Shown(if HasBusy(was.entry.title) && !HasBusy(e.title) then e else was.entry, was.ids + [e.id])
  {
    KeysHaveMembers(events + [e], key);
    KeysHaveMembers(events, key);
    assert (events + [e])[..|events|] == events;
    var members := Members(events, key);
    assert members + [] == members;
    if KeyOf(e) == key && members != [] {
      RepresentativeGrows(members, e);
      assert Ids(members + [e]) == Ids(members) + [e.id];
    }
  }

  /** The folding loop over an insertion-ordered dictionary. */
  method Dedup(events: seq<Entry>) returns (shown: seq<Shown>)
    ensures shown == View(events)
  {
    var order: seq<Key> := [];
    var seen: map<Key, Shown> := map[];
    for i := 0 to |events|
      invariant order == Keys(events[..i])
      invariant forall key :: key in seen <==> key in order
      invariant forall key | key in order :: Members(events[..i], key) != [] && seen[key] == ShownFor(events[..i], key)
    {
      var e := events[i];
      var key := KeyOf(e);
      assert events[..i + 1] == events[..i] + [e] && events[..i + 1][..i] == events[..i];
      forall other | other in Keys(events[..i + 1])
        ensures Members(events[..i + 1], other) != []
        ensures other != key ==> other in order && ShownFor(events[..i + 1], other) == seen[other]
      {
        ShownGrows(events[..i], e, other);
      }
      ShownGrows(events[..i], e, key);
      if key !in seen {
        order := order + [key];
        seen := seen[key := Shown(e, [e.id])];
      } else {
        var existing := seen[key];
        existing := existing.(ids := existing.ids + [e.id]);
        if HasBusy(existing.entry.title) && !HasBusy(e.title) {
          existing := Shown(e, existing.ids);
        }
        seen := seen[key := existing];
      }
    }
    assert events[..|events|] == events;
    shown := seq(|order|, k requires 0 <= k < |order| && order[k] in seen => seen[order[k]]);
  }

  // ---------------------------------------------------------------- what the view keeps

  lemma {:induction false} KeysAreDistinct(events: seq<Entry>)
    ensures forall i, j | 0 <= i < j < |Keys(events)| :: Keys(events)[i] != Keys(events)[j]
  {
    if events != [] {
      KeysAreDistinct(events[..|events| - 1]);
    }
  }

  /** The position of the first entry of a key, or the number of entries. */
  function FirstOf(events: seq<Entry>, key: Key): (i: nat)
    ensures i <= |events|
  {
    if events == [] || KeyOf(events[0]) == key then 0 else 1 + FirstOf(events[1..], key)
  }

  lemma {:induction false} FirstOfGrows(events: seq<Entry>, e: Entry, key: Key)
    ensures FirstOf(events + [e], key)
         == if FirstOf(events, key) < |events| || KeyOf(e) == key then FirstOf(events, key) else |events| + 1
    ensures FirstOf(events, key) < |events| <==> exists i :: 0 <= i < |events| && KeyOf(events[i]) == key
  {
    if events == [] {
      assert (events + [e])[1..] == [];
    } else {
      FirstOfGrows(events[1..], e, key);
      assert (events + [e])[1..] == events[1..] + [e];
      assert forall i | 0 <= i < |events| - 1 :: events[1..][i] == events[i + 1];
    }
  }

  lemma {:induction false} KeyAppears(events: seq<Entry>, key: Key)
    ensures key in Keys(events) <==> exists i :: 0 <= i < |events| && KeyOf(events[i]) == key
  {
    if events != [] {
      var before := events[..|events| - 1];
      KeyAppears(before, key);
      assert forall i | 0 <= i < |before| :: before[i] == events[i];
    }
  }

  /** The view lists its keys in the order of their first appearance. */
  lemma {:induction false} KeysInOrder(events: seq<Entry>)
    ensures forall i, j | 0 <= i < j < |Keys(events)| :: FirstOf(events, Keys(events)[i]) < FirstOf(events, Keys(events)[j]) < |events|
    ensures forall i | 0 <= i < |Keys(events)| :: FirstOf(events, Keys(events)[i]) < |events|
  {
    if events != [] {
      var before, e := events[..|events| - 1], events[|events| - 1];
      KeysInOrder(before);
      assert events == before + [e];
      forall k | 0 <= k < |Keys(events)|
        ensures FirstOf(events, Keys(events)[k]) == if k < |Keys(before)| then FirstOf(before, Keys(before)[k]) else |before|
      {
        FirstOfGrows(before, e, Keys(events)[k]);
        KeyAppears(before, Keys(events)[k]);
      }
    }
  }

  /** The members of a key are the entries at its positions, in listing order. */
  lemma {:induction false} MembersInOrder(events: seq<Entry>, key: Key) returns (at: seq<nat>)
    ensures |at| == |Members(events, key)|
    ensures forall i, j | 0 <= i < j < |at| :: at[i] < at[j]
    ensures forall i | 0 <= i < |at| :: at[i] < |events| && events[at[i]] == Members(events, key)[i]
    ensures forall p: nat | p < |events| :: KeyOf(events[p]) == key <==> p in at
  {
    if events == [] {
      at := [];
    } else {
      at := MembersInOrder(events[..|events| - 1], key);
      if KeyOf(events[|events| - 1]) == key {
        at := at + [|events| - 1];
      }
    }
  }

  function AllIds(shown: seq<Shown>): seq<string> {
    if shown == [] then [] else AllIds(shown[..|shown| - 1]) + shown[|shown| - 1].ids
  }

  function IdsOfKeys(events: seq<Entry>, keys: seq<Key>): seq<string> {
    if keys == [] then [] else IdsOfKeys(events, keys[..|keys| - 1]) + Ids(Members(events, keys[|keys| - 1]))
  }

  lemma {:induction false} ViewIds(events: seq<Entry>, k: nat)
    requires k <= |Keys(events)|
    ensures AllIds(View(events)[..k]) == IdsOfKeys(events, Keys(events)[..k])
  {
    if k > 0 {
      ViewIds(events, k - 1);
      assert View(events)[..k][..k - 1] == View(events)[..k - 1];
      assert Keys(events)[..k][..k - 1] == Keys(events)[..k - 1];
    }
  }

  lemma {:induction false} IdsGrow(events: seq<Entry>, e: Entry, keys: seq<Key>)
    requires forall i, j | 0 <= i < j < |keys| :: keys[i] != keys[j]
    ensures multiset(IdsOfKeys(events + [e], keys))
         == multiset(IdsOfKeys(events, keys)) + if KeyOf(e) in keys then multiset{e.id} else multiset{}
  {
    if keys != [] {
      var before, last := keys[..|keys| - 1], keys[|keys| - 1];
      IdsGrow(events, e, before);
      MemberIdsGrow(events, e, last);
      hide KeyOf, Members, Ids;
    }
  }

  lemma MemberIdsGrow(events: seq<Entry>, e: Entry, key: Key)
    ensures Ids(Members(events + [e], key)) == Ids(Members(events, key)) + if KeyOf(e) == key then [e.id] else []
  {
    assert (events + [e])[..|events|] == events;
    var members := Members(events, key);
    assert members + [] == members && Ids(members + [e]) == Ids(members) + [e.id];
  }

  lemma {:induction false} KeyIdsConserved(events: seq<Entry>)
    ensures multiset(IdsOfKeys(events, Keys(events))) == multiset(Ids(events))
  {
    if events != [] {
      var before, e := events[..|events| - 1], events[|events| - 1];
      hide KeyOf, Members, Ids;
      IdsOneMore(events);
      KeyIdsConserved(before);
      KeysAreDistinct(events);
      KeysHaveMembers(before, KeyOf(e));
      IdsGrow(before, e, Keys(events));
      if KeyOf(e) !in Keys(before) {
        assert Keys(events)[..|Keys(events)| - 1] == Keys(before);
        NoIds(before, KeyOf(e));
        assert IdsOfKeys(before, Keys(events)) == IdsOfKeys(before, Keys(before)) + [];
      }
    }
  }

  lemma IdsOneMore(events: seq<Entry>)
    requires events != []
    ensures events == events[..|events| - 1] + [events[|events| - 1]]
    ensures Ids(events) == Ids(events[..|events| - 1]) + [events[|events| - 1].id]
  {
  }

  lemma NoIds(events: seq<Entry>, key: Key)
    requires Members(events, key) == []
    ensures Ids(Members(events, key)) == []
  {
  }

  /** No id is lost, none is invented, none is counted twice. */
  lemma IdsConserved(events: seq<Entry>)
    ensures multiset(AllIds(View(events))) == multiset(Ids(events))
  {
    ViewIds(events, |Keys(events)|);
    assert View(events)[..|Keys(events)|] == View(events) && Keys(events)[..|Keys(events)|] == Keys(events);
    KeyIdsConserved(events);
  }

  /** The entry kept for a key: its first member without a busy prefix, if there is one, otherwise its first member. */
  lemma RepresentativeIs(members: seq<Entry>)
    requires members != []
    ensures (exists i :: 0 <= i < |members| && !HasBusy(members[i].title))
            ==> exists i :: 0 <= i < |members| && members[i] == Representative(members) && !HasBusy(members[i].title)
                            && forall j | 0 <= j < i :: HasBusy(members[j].title)
    ensures (forall i | 0 <= i < |members| :: HasBusy(members[i].title)) ==> Representative(members) == members[0]
  {
    FirstPlainGrows(members, members[0]);
    assert FirstPlain(members) < |members| ==> members[FirstPlain(members)] == Representative(members);
  }

  // ---------------------------------------------------------------- mirrors fold into their primary

  /** The title under which an item is listed. */
  function ListedTitle(subject: string): string {
    if subject == "" then "Без названия" else subject
  }

  lemma {:induction false} StripFirstUnprefixed(title: string, prefixes: seq<string>)
    requires forall i | 0 <= i < |prefixes| :: prefixes[i] != ""
    ensures StripFirst(title, prefixes) == title
            <==> forall i | 0 <= i < |prefixes| :: !Text.StartsWith(title, prefixes[i])
  {
    if prefixes != [] {
      StripFirstUnprefixed(title, prefixes[1..]);
      assert forall i | 0 < i < |prefixes| :: prefixes[i] == prefixes[1..][i - 1];
      assert Text.StartsWith(title, prefixes[0]) ==> |title[|prefixes[0]|..]| < |title|;
    }
  }

  lemma StripUnprefixed(title: string)
    ensures !HasBusy(title) <==> StripBusy(title) == title
  {
    StripFirstUnprefixed(title, BUSY_PREFIXES);
  }

  lemma NoTitlePlain()
    ensures !HasBusy("Без названия")
  {
    forall i | 0 <= i < |BUSY_PREFIXES|
      ensures !Text.StartsWith("Без названия", BUSY_PREFIXES[i])
    {
      assert BUSY_PREFIXES[i][0] == '[' && "Без названия"[0] == 'Б';
    }
  }

  lemma StripMirror(title: string)
    ensures StripBusy(BUSY + title) == title
  {
    assert (BUSY + title)[..|BUSY|] == BUSY && (BUSY + title)[|BUSY|..] == title;
  }

  /**
   A primary and its mirror share a key exactly if the primary's title is not empty and does not
   itself begin with a busy prefix.
   */
  lemma FoldsIff(primary: Row, calendarName: string, start: string, id1: string, id2: string)
    ensures KeyOf(Entry(id1, ListedTitle(primary.title), start))
            == KeyOf(Entry(id2, ListedTitle(MirrorBody(primary, calendarName).subject), start))
            <==> primary.title != "" && !HasBusy(primary.title)
  {
    StripMirror(primary.title);
    StripUnprefixed(primary.title);
    NoTitlePlain();
    StripUnprefixed("Без названия");
    hide HasBusy, StripBusy;
  }

  /**
   In any listing, a primary with such a title and its in-sync mirrors become one entry: it keeps the
   primary's title, carries the ids of all copies, and is the primary's own entry when no other entry
   of its key is unprefixed.
   */
  lemma CopiesFoldIntoOne(events: seq<Entry>, p: nat, copies: set<nat>, primary: Row, calendarName: string) returns (k: nat)
    requires p < |events| && primary.title != "" && !HasBusy(primary.title)
    requires events[p].title == ListedTitle(primary.title)
    requires forall c | c in copies ::
               c < |events| && events[c].title == ListedTitle(MirrorBody(primary, calendarName).subject)
               && Minute(events[c].start) == Minute(events[p].start)
    ensures k < |View(events)| && Keys(events)[k] == KeyOf(events[p])
    ensures View(events)[k].entry.title == primary.title
    ensures forall c | c in copies + {p} :: events[c].id in View(events)[k].ids
    ensures (forall q | 0 <= q < |events| && KeyOf(events[q]) == KeyOf(events[p]) && !HasBusy(events[q].title) :: q == p)
            ==> View(events)[k].entry == events[p]
  {
    var key := KeyOf(events[p]);
    StripUnprefixed(primary.title);
    forall c | c in copies
      ensures KeyOf(events[c]) == key
    {
      FoldsIff(primary, calendarName, events[p].start, "", "");
    }
    KeyAppears(events, key);
    KeysHaveMembers(events, key);
    k :| 0 <= k < |Keys(events)| && Keys(events)[k] == key;
    hide HasBusy, StripBusy, Minute, Keys, Members;
    AllIn(events, key, copies + {p});
    KeptEntry(events, key, p);
  }

  lemma AllIn(events: seq<Entry>, key: Key, copies: set<nat>)
    requires forall c | c in copies :: c < |events| && KeyOf(events[c]) == key
    ensures forall c | c in copies :: events[c].id in Ids(Members(events, key))
  {
    hide KeyOf, Members;
    var at := MembersInOrder(events, key);
    forall c | c in copies
      ensures events[c].id in Ids(Members(events, key))
    {
      var i :| 0 <= i < |at| && at[i] == c;
      assert Ids(Members(events, key))[i] == events[c].id;
    }
  }

  /** With an unprefixed entry among its members, a key keeps an unprefixed entry of the key's title. */
  lemma KeptEntry(events: seq<Entry>, key: Key, p: nat)
    requires p < |events| && KeyOf(events[p]) == key && !HasBusy(events[p].title)
    ensures Members(events, key) != []
    ensures var kept := Representative(Members(events, key));
            && kept.title == key.0
            && ((forall q | 0 <= q < |events| && KeyOf(events[q]) == key && !HasBusy(events[q].title) :: q == p) ==> kept == events[p])
  {
    hide HasBusy, StripBusy, Minute, Members;
    var members := Members(events, key);
    var at := MembersInOrder(events, key);
    var i :| 0 <= i < |at| && at[i] == p;
    RepresentativeIs(members);
    assert !HasBusy(members[i].title);
    var r :| 0 <= r < |members| && members[r] == Representative(members) && !HasBusy(members[r].title);
    assert at[r] in at;
    StripUnprefixed(members[r].title);
  }

  // ---------------------------------------------------------------- the key, character by character

  /** Two start texts are the same, or have the same first sixteen characters. */
  predicate SameMinute(a: string, b: string) {
    a == b || (|a| >= 16 && |b| >= 16 && a[..16] == b[..16])
  }

  /** Two entries are folded exactly if their titles agree without busy prefixes and their starts to the minute. */
  lemma SameKeyIff(a: Entry, b: Entry)
    ensures KeyOf(a) == KeyOf(b) <==> StripBusy(a.title) == StripBusy(b.title) && SameMinute(a.start, b.start)
  {
    hide StripBusy;
    assert |a.start| == 16 ==> a.start[..16] == a.start;
    assert |b.start| == 16 ==> b.start[..16] == b.start;
  }

  /** One of the four prefixes is taken off, once; any other title stays as it is. */
  lemma StripIs(title: string)
    ensures StripBusy("[Занято] " + title) == title && StripBusy("[Tentative] " + title) == title
    ensures StripBusy("[Tentatively Accepted] " + title) == title && StripBusy("[Declined] " + title) == title
    ensures (forall prefix | prefix in ["[Занято] ", "[Tentative] ", "[Tentatively Accepted] ", "[Declined] "] ::
               !(|prefix| <= |title| && title[..|prefix|] == prefix))
            ==> StripBusy(title) == title && !HasBusy(title)
  {
    hide StripBusy, HasBusy;
    Taken("[Занято] ", title, 0);
    Taken("[Tentative] ", title, 1);
    Taken("[Tentatively Accepted] ", title, 2);
    Taken("[Declined] ", title, 3);
    StripUnprefixed(title);
    BusyMeans(title);
  }

  lemma BusyMeans(title: string)
    ensures HasBusy(title) <==> exists prefix :: prefix in ["[Занято] ", "[Tentative] ", "[Tentatively Accepted] ", "[Declined] "]
                                                 && |prefix| <= |title| && title[..|prefix|] == prefix
  {
    var prefixes := ["[Занято] ", "[Tentative] ", "[Tentatively Accepted] ", "[Declined] "];
    assert prefixes == BUSY_PREFIXES;
    if i :| 0 <= i < |BUSY_PREFIXES| && Text.StartsWith(title, BUSY_PREFIXES[i]) {
      assert BUSY_PREFIXES[i] in prefixes;
    }
  }

  lemma Taken(prefix: string, title: string, i: nat)
    requires i < 4 && BUSY_PREFIXES[i] == prefix
    ensures StripBusy(prefix + title) == title
  {
    var text := prefix + title;
    assert text[..|prefix|] == prefix && text[|prefix|..] == title;
    NoOtherPrefix(prefix, title, i);
    TakenAt(text, BUSY_PREFIXES, i);
  }

  /** The prefixes differ from each other within their lengths. */
  lemma NoOtherPrefix(prefix: string, title: string, i: nat)
    requires i < 4 && BUSY_PREFIXES[i] == prefix
    ensures forall k | 0 <= k < i :: !Text.StartsWith(prefix + title, BUSY_PREFIXES[k])
  {
    var text := prefix + title;
    forall k | 0 <= k < i
      ensures !Text.StartsWith(text, BUSY_PREFIXES[k])
    {
      assert text[1] == prefix[1] && text[10] == prefix[10];
      if k == 0 {
        assert BUSY_PREFIXES[0][1] == 'З' && prefix[1] != 'З';
      } else if k == 1 {
        assert BUSY_PREFIXES[1][10] == ']' && prefix[10] != ']';
      } else {
        assert BUSY_PREFIXES[2][1] == 'T' && prefix[1] == 'D';
      }
    }
  }

  lemma {:induction false} TakenAt(text: string, prefixes: seq<string>, i: nat)
    requires i < |prefixes| && Text.StartsWith(text, prefixes[i])
    requires forall k | 0 <= k < i :: !Text.StartsWith(text, prefixes[k])
    ensures StripFirst(text, prefixes) == text[|prefixes[i]|..]
  {
    if i > 0 {
      assert forall k | 0 <= k < i - 1 :: prefixes[1..][k] == prefixes[k + 1];
      TakenAt(text, prefixes[1..], i - 1);
    }
  }
}
