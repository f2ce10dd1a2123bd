/** The records the chat server keeps in memory, the events it emits, and the functions over
    them that specify its handlers. */
module ChatModel {
  import opened Options
  import opened Helpers
  import opened OrderedDict

  /** GLOBAL_ROOM */
  const GlobalRoom: string := "global_chat_room"
  /** The name shown in call_ended when no one is named as having ended the call. */
  const SystemName: string := "سیستم"
  /** How many messages join replays. */
  const HistoryLimit: nat := 100
  /** How many characters of a message a notification previews. */
  const PreviewLength: nat := 50

  /** An entry of users_in_room[room]: one connection of a user in a room. */
  datatype Member = Member(username: string, sid: string, displayName: string, joinedAt: string)

  /** A message as appended to rooms[room]['messages'] and broadcast as new_message. */
  datatype Message = Message(
    id: string, username: string, displayName: string, text: string, kind: string,
    room: string, timestamp: string, replyTo: Option<string>, edited: bool, deleted: bool)

  /** The separate record kept in all_messages[id], the one the REST endpoint edits and deletes. */
  datatype LedgerEntry = LedgerEntry(
    username: string, text: string, timestamp: string, room: string,
    edited: bool, deleted: bool, editedAt: Option<string>, deletedAt: Option<string>)

  /** An entry of rooms: its history, privacy flag, the two users a private room was opened
      for ([] when the key is absent) and its creation time (None when the key is absent). */
  datatype Room = Room(messages: seq<Message>, isPrivate: bool, participants: seq<string>, createdAt: Option<string>)

  /** An entry of active_calls. */
  datatype Call = Call(caller: string, kind: string, participants: seq<string>, startedAt: string) {
    /** The caller is the first participant and nobody is listed twice. */
    ghost predicate Valid() {
      participants != [] && participants[0] == caller && Distinct(participants)
    }
  }

  /** The Socket.IO events the handlers emit, with the payload fields the model keeps. */
  datatype Event =
    | UserJoined(username: string, displayName: string, room: string)
    | RoomUsers(users: seq<Member>, room: string)
    | MessageHistory(messages: seq<Message>, room: string)
    | UserLeft(username: string, room: string)
    | NewMessage(message: Message)
    | Notification(body: string, room: string, from: string)
    | IncomingCall(caller: string, callerName: string, room: string, kind: string)
    | CallAccepted(answerer: string, answererName: string)
    | CallRejected(answerer: string, answererName: string)
    | CallEnded(endedBy: Option<string>, endedByName: string)
    | RtcSignal(sender: Option<string>, signal: string, signalType: Option<string>)
    | UserOffline(username: string)
    | MessageDeleted(messageId: string, room: string)
    | MessageEdited(messageId: string, content: string, room: string)

  /** Where an emit goes: the requesting connection, a room, one connection by sid, everyone. */
  datatype Target = ToSender | ToRoom(room: string) | ToSid(sid: string) | ToAll

  datatype Emit = Emit(event: Event, target: Target)

  // ---------------------------------------------------------------------------
  // Room member lists
  // ---------------------------------------------------------------------------

  /** users_in_room.get(room, []) */
  function MembersIn(d: ODict<seq<Member>>, r: string): seq<Member> {
    if r in d.entries then d.entries[r] else []
  }

  /** any(u['username'] == username for u in members) */
  predicate HasUser(ms: seq<Member>, u: string) {
    exists i :: 0 <= i < |ms| && ms[i].username == u
  }

  /** At most one entry per username. */
  ghost predicate UniqueUsernames(ms: seq<Member>) {
    forall i, j :: 0 <= i < j < |ms| ==> ms[i].username != ms[j].username
  }

  /** [u for u in members if u['username'] != username] */
  function WithoutUser(ms: seq<Member>, u: string): (r: seq<Member>)
    ensures forall m :: m in r <==> m in ms && m.username != u
    ensures !HasUser(r, u)
    ensures |r| <= |ms|
  {
    if ms == [] then []
    else
      var rest := WithoutUser(ms[..|ms| - 1], u);
      var last := ms[|ms| - 1];
      assert ms == ms[..|ms| - 1] + [last];
      if last.username != u then rest + [last] else rest
  }

  /** Filtering keeps the remaining entries in their order. */
  lemma {:induction false} WithoutUserAppend(a: seq<Member>, b: seq<Member>, u: string)
    ensures WithoutUser(a + b, u) == WithoutUser(a, u) + WithoutUser(b, u)
  {
    if b == [] {
      assert a + b == a;
    } else {
      var b' := b[..|b| - 1];
      assert (a + b)[..|a + b| - 1] == a + b';
      WithoutUserAppend(a, b', u);
    }
  }

  /** Filtering out a user who has no entry changes nothing. */
  lemma {:induction false} WithoutAbsentUser(ms: seq<Member>, u: string)
    requires !HasUser(ms, u)
    ensures WithoutUser(ms, u) == ms
  {
    if ms != [] {
      var p := ms[..|ms| - 1];
      assert !HasUser(p, u) by {
        forall i | 0 <= i < |p| ensures p[i].username != u {
          assert p[i] == ms[i];
        }
      }
      WithoutAbsentUser(p, u);
      assert ms == p + [ms[|ms| - 1]];
    }
  }

  /** Filtering keeps a member list free of repeated usernames. */
  lemma {:induction false} WithoutUserUnique(ms: seq<Member>, u: string)
    requires UniqueUsernames(ms)
    ensures UniqueUsernames(WithoutUser(ms, u))
  {
    if ms != [] {
      var p := ms[..|ms| - 1];
      var last := ms[|ms| - 1];
      assert UniqueUsernames(p) by {
        forall i, j | 0 <= i < j < |p| ensures p[i].username != p[j].username {
          assert p[i] == ms[i] && p[j] == ms[j];
        }
      }
      WithoutUserUnique(p, u);
      var rest := WithoutUser(p, u);
      if last.username != u {
        forall m | m in rest ensures m.username != last.username {
          var i :| 0 <= i < |p| && p[i] == m;
          assert ms[i] == m;
        }
        var r := rest + [last];
        forall i, j | 0 <= i < j < |r| ensures r[i].username != r[j].username {
          if j == |r| - 1 {
            assert r[i] in rest;
          } else {
            assert r[i] == rest[i] && r[j] == rest[j];
          }
        }
      }
    }
  }

  /** Appending a user who has no entry keeps the usernames unique. */
  lemma AppendNewUserUnique(ms: seq<Member>, m: Member)
    requires UniqueUsernames(ms) && !HasUser(ms, m.username)
    ensures UniqueUsernames(ms + [m]) && HasUser(ms + [m], m.username)
  {
    var r := ms + [m];
    assert r[|ms|].username == m.username;
    forall i, j | 0 <= i < j < |r| ensures r[i].username != r[j].username {
      if j == |ms| {
        assert r[i] == ms[i];
      } else {
        assert r[i] == ms[i] && r[j] == ms[j];
      }
    }
  }

  /** One emit of ev to each entry of ms whose username is not u, in list order: the loops that
      send notification and incoming_call. */
  function ToEachOther(ms: seq<Member>, u: string, ev: Event): seq<Emit> {
    if ms == [] then []
    else
      var last := ms[|ms| - 1];
      ToEachOther(ms[..|ms| - 1], u, ev) + (if last.username != u then [Emit(ev, ToSid(last.sid))] else [])
  }

  /** Exactly one emit goes to each other entry, addressed to that entry's sid, in list order. */
  lemma {:induction false} ToEachOtherTargets(ms: seq<Member>, u: string, ev: Event)
    ensures |ToEachOther(ms, u, ev)| == |WithoutUser(ms, u)|
    ensures forall i :: 0 <= i < |WithoutUser(ms, u)| ==>
      ToEachOther(ms, u, ev)[i] == Emit(ev, ToSid(WithoutUser(ms, u)[i].sid))
  {
    if ms != [] {
      ToEachOtherTargets(ms[..|ms| - 1], u, ev);
    }
  }

  /** The body of a notification: the sender's display name and the first characters of the text. */
  function NotificationBody(displayName: string, text: string): string {
    displayName + ": " + (if |text| <= PreviewLength then text else text[..PreviewLength]) + "..."
  }

  /** The ended_by_name of call_ended: the display name of whoever ended it, or the system's name. */
  function EndedByName(accounts: map<string, Account>, endedBy: Option<string>): string {
    if Given(endedBy) then DisplayName(accounts, endedBy.value) else SystemName
  }

  // ---------------------------------------------------------------------------
  // Invariants of the tables
  // ---------------------------------------------------------------------------

  /** The public room exists and is public. */
  ghost predicate RoomsOk(rooms: map<string, Room>) {
    GlobalRoom in rooms && !rooms[GlobalRoom].isPrivate
  }

  /** users_in_room is a well-formed dict whose every list holds a username at most once. */
  ghost predicate MembersOk(d: ODict<seq<Member>>) {
    d.Valid() && forall r :: r in d.entries ==> UniqueUsernames(d.entries[r])
  }

  /** active_calls is a well-formed dict of well-formed calls. */
  ghost predicate CallsOk(d: ODict<Call>) {
    d.Valid() && forall r :: r in d.entries ==> d.entries[r].Valid()
  }

  /** The invariant of the three tables the handlers keep well formed. */
  ghost predicate TablesOk(rooms: map<string, Room>, users: ODict<seq<Member>>, calls: ODict<Call>) {
    RoomsOk(rooms) && MembersOk(users) && CallsOk(calls)
  }

  lemma MembersSetOk(d: ODict<seq<Member>>, r: string, ms: seq<Member>)
    requires MembersOk(d) && UniqueUsernames(ms)
    ensures MembersOk(d.Set(r, ms))
  {
  }

  lemma MembersRemoveOk(d: ODict<seq<Member>>, r: string)
    requires MembersOk(d)
    ensures MembersOk(d.Remove(r))
  {
  }

  lemma CallsSetOk(d: ODict<Call>, r: string, c: Call)
    requires CallsOk(d) && c.Valid()
    ensures CallsOk(d.Set(r, c))
  {
  }

  lemma CallsRemoveOk(d: ODict<Call>, r: string)
    requires CallsOk(d)
    ensures CallsOk(d.Remove(r))
  {
  }

  // ---------------------------------------------------------------------------
  // History replay
  // ---------------------------------------------------------------------------

  /** messages[-n:] */
  function LastN(s: seq<Message>, n: nat): (r: seq<Message>)
    ensures |r| == if |s| < n then |s| else n
    ensures forall i :: 0 <= i < |r| ==> r[i] == s[|s| - |r| + i]
  {
    if |s| <= n then s else s[|s| - n..]
  }

  /** The replay window slides with each append: the newest message is last, and the rest is
      the previous window shortened by one when it was full. */
  lemma HistoryAfterAppend(s: seq<Message>, m: Message, n: nat)
    requires n > 0
    ensures LastN(s + [m], n) == LastN(s, n - 1) + [m]
  {
  }

  // ---------------------------------------------------------------------------
  // Online users (the list built by index)
  // ---------------------------------------------------------------------------

  datatype OnlineUser = OnlineUser(username: string, displayName: string)

  function Usernames(ms: seq<Member>): (names: seq<string>)
    ensures |names| == |ms|
  {
    if ms == [] then [] else Usernames(ms[..|ms| - 1]) + [ms[|ms| - 1].username]
  }

  /** The usernames of all member lists, room after room. */
  function FlatNames(lists: seq<seq<Member>>): seq<string> {
    if lists == [] then [] else FlatNames(lists[..|lists| - 1]) + Usernames(lists[|lists| - 1])
  }

  function OnlineNames(os: seq<OnlineUser>): (names: seq<string>)
    ensures |names| == |os|
    ensures forall i :: 0 <= i < |os| ==> names[i] == os[i].username
  {
    if os == [] then [] else OnlineNames(os[..|os| - 1]) + [os[|os| - 1].username]
  }

  /** Every entry of the online list carries the display name the accounts give its user. */
  predicate NamedFrom(os: seq<OnlineUser>, accounts: map<string, Account>) {
    forall i :: 0 <= i < |os| ==> os[i].displayName == DisplayName(accounts, os[i].username)
  }

  lemma NamedSnoc(os: seq<OnlineUser>, o: OnlineUser, accounts: map<string, Account>)
    requires NamedFrom(os, accounts) && o.displayName == DisplayName(accounts, o.username)
    ensures NamedFrom(os + [o], accounts)
  {
  }

  /** Each name once, at the place of its first occurrence: the result holds every name of the
      input and nothing else. */
  function Dedup(s: seq<string>): (r: seq<string>)
    ensures forall x :: x in r <==> x in s
  {
    if s == [] then []
    else
      var p := s[..|s| - 1];
      var d := Dedup(p);
      assert s == p + [s[|s| - 1]];
      if s[|s| - 1] in d then d else d + [s[|s| - 1]]
  }

  /** Dedup lists no name twice. */
  lemma {:induction false} DedupDistinct(s: seq<string>)
    ensures Distinct(Dedup(s))
  {
    if s != [] {
      var p := s[..|s| - 1];
      DedupDistinct(p);
      if s[|s| - 1] !in Dedup(p) {
        DistinctSnoc(Dedup(p), s[|s| - 1]);
      }
    }
  }

  /** One more name: Dedup keeps its result, or extends it by the name when it is new. */
  lemma DedupSnoc(s: seq<string>, x: string)
    ensures Dedup(s + [x]) == if x in Dedup(s) then Dedup(s) else Dedup(s) + [x]
  {
  }

  lemma OnlineNamesSnoc(os: seq<OnlineUser>, o: OnlineUser)
    ensures OnlineNames(os + [o]) == OnlineNames(os) + [o.username]
  {
  }

  lemma UsernamesSnoc(ms: seq<Member>, j: nat)
    requires j < |ms|
    ensures Usernames(ms[..j + 1]) == Usernames(ms[..j]) + [ms[j].username]
  {
    assert ms[..j + 1][..j] == ms[..j];
  }

  lemma FlatNamesSnoc(lists: seq<seq<Member>>, i: nat)
    requires i < |lists|
    ensures FlatNames(lists[..i + 1]) == FlatNames(lists[..i]) + Usernames(lists[i])
  {
    assert lists[..i + 1][..i] == lists[..i];
  }

  /** Index of the first occurrence of x in s. */
  function FirstIndex(s: seq<string>, x: string): (k: nat)
    requires x in s
    ensures k < |s| && s[k] == x && x !in s[..k]
  {
    if s[0] == x then 0 else 1 + FirstIndex(s[1..], x)
  }

  lemma FirstIndexExtend(s: seq<string>, y: string, x: string)
    requires x in s
    ensures FirstIndex(s + [y], x) == FirstIndex(s, x)
  {
    var k := FirstIndex(s, x);
    var k' := FirstIndex(s + [y], x);
    assert (s + [y])[k] == x;
    assert (s + [y])[..k] == s[..k];
  }

  /** The deduplicated names appear in the order of their first occurrence in the input. */
  lemma {:induction false} DedupFirstOccurrenceOrder(s: seq<string>)
    ensures forall i, j :: 0 <= i < j < |Dedup(s)| ==> FirstIndex(s, Dedup(s)[i]) < FirstIndex(s, Dedup(s)[j])
  {
    if s != [] {
      var p := s[..|s| - 1];
      var x := s[|s| - 1];
      assert s == p + [x];
      DedupFirstOccurrenceOrder(p);
      var d := Dedup(p);
      forall i, j | 0 <= i < j < |Dedup(s)|
        ensures FirstIndex(s, Dedup(s)[i]) < FirstIndex(s, Dedup(s)[j])
      {
        assert d[i] in p;
        FirstIndexExtend(p, x, d[i]);
        if j < |d| {
          assert d[j] in p;
          FirstIndexExtend(p, x, d[j]);
        } else {
          assert x !in p && Dedup(s)[j] == x;
          assert FirstIndex(s, x) == |p|;
        }
      }
    }
  }

  // ---------------------------------------------------------------------------
  // rtc_signal's target lookup
  // ---------------------------------------------------------------------------

  /** The first entry of a member list with the given username. */
  function FirstMatch(ms: seq<Member>, u: string): (r: Option<Member>)
    ensures r.Some? ==> r.value in ms && r.value.username == u
    ensures r.None? <==> !HasUser(ms, u)
  {
    if ms == [] then None
    else if ms[0].username == u then Some(ms[0])
    else
      var r := FirstMatch(ms[1..], u);
      assert HasUser(ms[1..], u) ==> HasUser(ms, u) by {
        if HasUser(ms[1..], u) {
          var i :| 0 <= i < |ms[1..]| && ms[1..][i].username == u;
          assert ms[i + 1].username == u;
        }
      }
      assert HasUser(ms, u) ==> HasUser(ms[1..], u) by {
        if HasUser(ms, u) {
          var i :| 0 <= i < |ms| && ms[i].username == u;
          assert i > 0 && ms[1..][i - 1].username == u;
        }
      }
      r
  }

  lemma {:induction false} FirstMatchAt(ms: seq<Member>, u: string, j: nat)
    requires j < |ms| && ms[j].username == u
    requires forall k :: 0 <= k < j ==> ms[k].username != u
    ensures FirstMatch(ms, u) == Some(ms[j])
  {
    if j > 0 {
      FirstMatchAt(ms[1..], u, j - 1);
    }
  }

  /** The sid rtc_signal sends to, "" when it sends nothing: rooms are searched in order,
      each one up to its first entry for the user, and the search stops at the first such
      entry whose sid is not empty. */
  function SignalTarget(lists: seq<seq<Member>>, to: string): string {
    if lists == [] then ""
    else
      var m := FirstMatch(lists[0], to);
      if m.Some? && m.value.sid != "" then m.value.sid else SignalTarget(lists[1..], to)
  }

  /** A signal only goes to a connection that some room lists for the addressee. */
  lemma {:induction false} SignalTargetSound(lists: seq<seq<Member>>, to: string)
    ensures SignalTarget(lists, to) != "" ==>
      exists i, m :: 0 <= i < |lists| && m in lists[i] && m.username == to && m.sid == SignalTarget(lists, to)
  {
    if lists != [] {
      var m := FirstMatch(lists[0], to);
      if !(m.Some? && m.value.sid != "") {
        SignalTargetSound(lists[1..], to);
        if SignalTarget(lists, to) != "" {
          var i, m' :| 0 <= i < |lists[1..]| && m' in lists[1..][i] && m'.username == to && m'.sid == SignalTarget(lists, to);
          assert lists[i + 1] == lists[1..][i];
        }
      }
    }
  }

  /** When every room lists a user at most once and some room lists the addressee with a
      non-empty sid, the signal is delivered. */
  lemma {:induction false} SignalTargetComplete(lists: seq<seq<Member>>, to: string, i: nat, m: Member)
    requires forall k :: 0 <= k < |lists| ==> UniqueUsernames(lists[k])
    requires i < |lists| && m in lists[i] && m.username == to && m.sid != ""
    ensures SignalTarget(lists, to) != ""
  {
    var f := FirstMatch(lists[0], to);
    if i == 0 {
      assert f.Some?;
      var a :| 0 <= a < |lists[0]| && lists[0][a] == f.value;
      var b :| 0 <= b < |lists[0]| && lists[0][b] == m;
      assert a == b;
    } else if !(f.Some? && f.value.sid != "") {
      SignalTargetComplete(lists[1..], to, i - 1, m);
    }
  }

  // ---------------------------------------------------------------------------
  // The disconnect sweep
  // ---------------------------------------------------------------------------

  /** users_in_room after a user's entries are filtered out of every room; no key is removed. */
  function DropUserEverywhere(d: ODict<seq<Member>>, u: string): ODict<seq<Member>> {
    ODict(d.keys, map k | k in d.entries :: WithoutUser(d.entries[k], u))
  }

  /** A table whose every listed key holds the filtered list is the swept table. */
  lemma DroppedEverywhere(d: ODict<seq<Member>>, m: map<string, seq<Member>>, u: string)
    requires d.KeysMatch() && m.Keys == d.entries.Keys
    requires forall j :: 0 <= j < |d.keys| ==> m[d.keys[j]] == WithoutUser(d.entries[d.keys[j]], u)
    ensures m == DropUserEverywhere(d, u).entries
  {
  }

  /** Taking a user out of every room keeps the table well formed. */
  lemma DropUserEverywhereOk(d: ODict<seq<Member>>, u: string)
    requires MembersOk(d)
    ensures MembersOk(DropUserEverywhere(d, u))
  {
    forall k | k in d.entries
      ensures UniqueUsernames(WithoutUser(d.entries[k], u))
    {
      WithoutUserUnique(d.entries[k], u);
    }
  }

  /** Does the call of room k exist and include u? */
  predicate InCall(calls: map<string, Call>, k: string, u: string) {
    k in calls && u in calls[k].participants
  }

  /** The call_ended emits of the sweep, one per call that includes u, in key order. */
  function EndNotices(keys: seq<string>, calls: map<string, Call>, u: string, name: string): seq<Emit>
  {
    if keys == [] then []
    else
      var k := keys[|keys| - 1];
      EndNotices(keys[..|keys| - 1], calls, u, name)
        + (if InCall(calls, k, u) then [Emit(CallEnded(Some(u), name), ToRoom(k))] else [])
  }

  /** The disconnect sweep as it runs: over a snapshot ks of the keys, each call that still
      exists and includes u is ended (removed). */
  function SweepCalls(d: ODict<Call>, ks: seq<string>, u: string): (r: ODict<Call>)
    requires d.Valid()
    ensures r.Valid()
    ensures forall k :: k in r.entries <==> k in d.entries && !(k in ks && InCall(d.entries, k, u))
    ensures forall k :: k in r.entries ==> r.entries[k] == d.entries[k]
  {
    if ks == [] then d
    else
      var r := SweepCalls(d, ks[..|ks| - 1], u);
      var k := ks[|ks| - 1];
      assert ks == ks[..|ks| - 1] + [k];
      if InCall(r.entries, k, u) then r.Remove(k) else r
  }

  /** One step of the sweep over d's own keys: the key at i is still present, unchanged, and
      it is removed and announced exactly when u takes part in its call. */
  lemma SweepStep(d: ODict<Call>, i: nat, u: string, name: string)
    requires d.Valid() && i < |d.keys|
    ensures var r := SweepCalls(d, d.keys[..i], u);
      var k := d.keys[i];
      && k in r.entries && r.entries[k] == d.entries[k]
      && SweepCalls(d, d.keys[..i + 1], u) == (if InCall(d.entries, k, u) then r.Remove(k) else r)
      && EndNotices(d.keys[..i + 1], d.entries, u, name)
         == EndNotices(d.keys[..i], d.entries, u, name)
            + (if InCall(d.entries, k, u) then [Emit(CallEnded(Some(u), name), ToRoom(k))] else [])
  {
    assert d.keys[..i + 1][..i] == d.keys[..i];
    DistinctPrefix(d.keys, i);
  }

  /** active_calls after the sweep over all of its keys: exactly the calls that include u are
      gone, and the others are unchanged. */
  function EndCallsOf(d: ODict<Call>, u: string): (r: ODict<Call>)
    requires d.Valid()
    ensures r.Valid()
    ensures forall k :: k in r.entries <==> k in d.entries && u !in d.entries[k].participants
    ensures forall k :: k in r.entries ==> r.entries[k] == d.entries[k]
  {
    SweepCalls(d, d.keys, u)
  }

  /** The sweep sends a call_ended to the room of a call exactly when that call includes u,
      and nothing else. */
  lemma {:induction false} EndNoticesExactly(keys: seq<string>, calls: map<string, Call>, u: string, name: string)
    ensures forall e :: e in EndNotices(keys, calls, u, name) ==>
      e.event == CallEnded(Some(u), name) && e.target.ToRoom? &&
      e.target.room in keys && InCall(calls, e.target.room, u)
    ensures forall k :: k in keys && InCall(calls, k, u) ==>
      Emit(CallEnded(Some(u), name), ToRoom(k)) in EndNotices(keys, calls, u, name)
    ensures |EndNotices(keys, calls, u, name)| <= |keys|
  {
    if keys != [] {
      var p := keys[..|keys| - 1];
      assert keys == p + [keys[|keys| - 1]];
      EndNoticesExactly(p, calls, u, name);
    }
  }
}
