/** The event handlers of app.py as methods of one object that owns the module-level tables
    (rooms, users_in_room, active_calls, all_messages, accounts, user_themes). Each handler
    returns the emits it makes, in order. */
module ChatServer {
  import opened Options
  import opened Text
  import opened Helpers
  import opened OrderedDict
  import opened ChatModel

  /** The two requests of the REST message endpoint: DELETE, and PUT with the new content
      ("" when the body has none). */
  datatype MessageRequest = DeleteMessage | EditMessage(content: string)

  /** The loops of send_message and start_call: one emit of ev per entry of another user. */
  method EmitToEachOther(ms: seq<Member>, u: string, ev: Event) returns (out: seq<Emit>)
    ensures out == ToEachOther(ms, u, ev)
  {
    out := [];
    var i := 0;
    while i < |ms|
      invariant 0 <= i <= |ms|
      invariant out == ToEachOther(ms[..i], u, ev)
    {
      assert ms[..i + 1][..i] == ms[..i];
      if ms[i].username != u {
        out := out + [Emit(ev, ToSid(ms[i].sid))];
      }
      i := i + 1;
    }
    assert ms[..|ms|] == ms;
  }

  /** The first loop of the disconnect handler: the user is taken out of every room's list,
      keeping the rooms (even emptied ones) and their order. */
  method DropUserFromRooms(d: ODict<seq<Member>>, u: string) returns (r: ODict<seq<Member>>)
    requires d.KeysMatch()
    ensures r == DropUserEverywhere(d, u)
  {
    // each key is visited once, so the list read from d is the one the dict holds at that
    // point; assigning to a key that is present keeps the key order
    var m := d.entries;
    var i := 0;
    while i < |d.keys|
      invariant 0 <= i <= |d.keys|
      invariant m.Keys == d.entries.Keys
      invariant forall j :: 0 <= j < i ==> m[d.keys[j]] == WithoutUser(d.entries[d.keys[j]], u)
    {
      var k := d.keys[i];
      m := m[k := WithoutUser(d.entries[k], u)];
      i := i + 1;
    }
    DroppedEverywhere(d, m, u);
    r := ODict(d.keys, m);
  }

  /** The second loop of the disconnect handler: every call that includes u is ended as
      end_call_in_room does (removed, with one call_ended to its room naming u). */
  method EndCallsOfUser(d: ODict<Call>, u: string, name: string) returns (r: ODict<Call>, out: seq<Emit>)
    requires d.Valid()
    ensures r == EndCallsOf(d, u)
    ensures out == EndNotices(d.keys, d.entries, u, name)
  {
    r := d;
    out := [];
    var ks := d.keys;
    var i := 0;
    while i < |ks|
      invariant 0 <= i <= |ks|
      invariant r == SweepCalls(d, ks[..i], u)
      invariant out == EndNotices(ks[..i], d.entries, u, name)
    {
      var k := ks[i];
      SweepStep(d, i, u, name);
      if u in r.entries[k].participants {
        r := r.Remove(k);
        out := out + [Emit(CallEnded(Some(u), name), ToRoom(k))];
      }
      i := i + 1;
    }
    assert ks[..|ks|] == ks;
  }

  /** The loops of index: every listed user once, in order of first appearance, with the
      display name from the accounts. */
  method CollectOnline(lists: seq<seq<Member>>, accounts: map<string, Account>) returns (online: seq<OnlineUser>)
    ensures OnlineNames(online) == Dedup(FlatNames(lists))
    ensures NamedFrom(online, accounts)
  {
    online := [];
    var i := 0;
    while i < |lists|
      invariant 0 <= i <= |lists|
      invariant OnlineNames(online) == Dedup(FlatNames(lists[..i]))
      invariant NamedFrom(online, accounts)
    {
      online := AddOnline(online, lists[i], accounts, FlatNames(lists[..i]));
      FlatNamesSnoc(lists, i);
      i := i + 1;
    }
    assert lists[..|lists|] == lists;
  }

  /** The inner loop of index over one room's list. */
  method AddOnline(online0: seq<OnlineUser>, ms: seq<Member>, accounts: map<string, Account>, ghost seen: seq<string>)
    returns (online: seq<OnlineUser>)
    requires OnlineNames(online0) == Dedup(seen)
    requires NamedFrom(online0, accounts)
    ensures OnlineNames(online) == Dedup(seen + Usernames(ms))
    ensures NamedFrom(online, accounts)
  {
    online := online0;
    var j := 0;
    assert seen + Usernames(ms[..0]) == seen;
    while j < |ms|
      invariant 0 <= j <= |ms|
      invariant OnlineNames(online) == Dedup(seen + Usernames(ms[..j]))
      invariant NamedFrom(online, accounts)
    {
      ghost var prefix := seen + Usernames(ms[..j]);
      UsernamesSnoc(ms, j);
      assert seen + Usernames(ms[..j + 1]) == prefix + [ms[j].username];
      online := AddName(online, ms[j].username, accounts, prefix);
      j := j + 1;
    }
    assert ms[..|ms|] == ms;
  }

  /** One step of index's inner loop: a username not yet listed is appended with its
      display name. */
  method AddName(online0: seq<OnlineUser>, u: string, accounts: map<string, Account>, ghost prefix: seq<string>)
    returns (online: seq<OnlineUser>)
    requires OnlineNames(online0) == Dedup(prefix)
    requires NamedFrom(online0, accounts)
    ensures OnlineNames(online) == Dedup(prefix + [u])
    ensures NamedFrom(online, accounts)
  {
    DedupSnoc(prefix, u);
    if u in OnlineNames(online0) {
      online := online0;
    } else {
      var o := OnlineUser(u, DisplayName(accounts, u));
      OnlineNamesSnoc(online0, o);
      NamedSnoc(online0, o, accounts);
      online := online0 + [o];
    }
  }

  class Server {
    var rooms: map<string, Room>
    var usersInRoom: ODict<seq<Member>>
    var activeCalls: ODict<Call>
    var allMessages: map<string, LedgerEntry>
    var accounts: map<string, Account>
    var userThemes: map<string, string>

    /** The public room always exists and is public; every room lists a username at most
        once; every call lists its caller first and nobody twice. */
    ghost predicate Valid()
      reads this
    {
      TablesOk(rooms, usersInRoom, activeCalls)
    }

    /** Start-up: the seed accounts and the public room. */
    constructor (now: string)
      ensures Valid()
      ensures rooms == map[GlobalRoom := Room([], false, [], Some(now))]
      ensures usersInRoom == Empty() && activeCalls == Empty()
      ensures allMessages == map[] && accounts == SeedAccounts() && userThemes == map[]
    {
      rooms := map[GlobalRoom := Room([], false, [], Some(now))];
      usersInRoom := Empty();
      activeCalls := Empty();
      allMessages := map[];
      accounts := SeedAccounts();
      userThemes := map[];
    }

    /** on_join */
    method Join(username: Option<string>, room: Option<string>, isPrivate: bool,
                otherUser: Option<string>, sid: string, now: string) returns (out: seq<Emit>)
      requires Valid()
      modifies this
      ensures Valid()
      ensures activeCalls == old(activeCalls) && allMessages == old(allMessages)
      ensures accounts == old(accounts) && userThemes == old(userThemes)
      ensures var r := room.GetOr(GlobalRoom);
        if !Given(username) || (isPrivate && r !in old(rooms) && !Given(otherUser)) then
          rooms == old(rooms) && usersInRoom == old(usersInRoom) && out == []
        else
          var u := username.value;
          var before := MembersIn(old(usersInRoom), r);
          var after := if HasUser(before, u) then before else before + [Member(u, sid, DisplayName(accounts, u), now)];
          && rooms == (if isPrivate && r !in old(rooms)
                       then old(rooms)[r := Room([], true, [u, otherUser.value], Some(now))]
                       else old(rooms))
          && usersInRoom == old(usersInRoom).Set(r, after)
          && HasUser(usersInRoom.entries[r], u)
          && out == (if HasUser(before, u) then [] else [Emit(UserJoined(u, DisplayName(accounts, u), r), ToRoom(r))])
                    + [Emit(RoomUsers(after, r), ToSender)]
                    + (if r in rooms then [Emit(MessageHistory(LastN(rooms[r].messages, HistoryLimit), r), ToSender)] else [])
    {
      var r := room.GetOr(GlobalRoom);
      if !Given(username) {
        return [];
      }
      var u := username.value;
      var newRooms := rooms;
      if isPrivate && r !in rooms {
        if !Given(otherUser) {
          return [];
        }
        newRooms := rooms[r := Room([], true, [u, otherUser.value], Some(now))];
      }
      // users_in_room.setdefault(room, []), then the append when the user is not listed yet
      var before := MembersIn(usersInRoom, r);
      var after := before;
      var joined: seq<Emit> := [];
      if !HasUser(before, u) {
        var member := Member(u, sid, DisplayName(accounts, u), now);
        AppendNewUserUnique(before, member);
        after := before + [member];
        joined := [Emit(UserJoined(u, member.displayName, r), ToRoom(r))];
      }
      MembersSetOk(usersInRoom, r, after);
      var history: seq<Emit> := [];
      if r in newRooms {
        history := [Emit(MessageHistory(LastN(newRooms[r].messages, HistoryLimit), r), ToSender)];
      }
      rooms, usersInRoom := newRooms, usersInRoom.Set(r, after);
      out := joined + [Emit(RoomUsers(after, r), ToSender)] + history;
    }

    /** on_leave */
    method Leave(username: Option<string>, room: Option<string>) returns (out: seq<Emit>)
      requires Valid()
      modifies this
      ensures Valid()
      ensures activeCalls == old(activeCalls) && allMessages == old(allMessages)
      ensures accounts == old(accounts) && userThemes == old(userThemes)
      ensures var r := room.GetOr(GlobalRoom);
        if !Given(username) || r !in old(usersInRoom.entries) then
          rooms == old(rooms) && usersInRoom == old(usersInRoom) && out == []
        else
          var u := username.value;
          var remaining := WithoutUser(old(usersInRoom.entries[r]), u);
          && out == [Emit(UserLeft(u, r), ToRoom(r))]
          && if r in old(rooms) && old(rooms[r].isPrivate) && remaining == [] then
               rooms == old(rooms) - {r} && usersInRoom == old(usersInRoom).Remove(r)
             else
               rooms == old(rooms) && usersInRoom == old(usersInRoom).Set(r, remaining)
    {
      var r := room.GetOr(GlobalRoom);
      if !Given(username) || r !in usersInRoom.entries {
        return [];
      }
      var u := username.value;
      var remaining := WithoutUser(usersInRoom.entries[r], u);
      if r in rooms && rooms[r].isPrivate && remaining == [] {
        // the emptied private room goes away together with its (now empty) list
        MembersRemoveOk(usersInRoom, r);
        rooms, usersInRoom := rooms - {r}, usersInRoom.Remove(r);
      } else {
        WithoutUserUnique(usersInRoom.entries[r], u);
        MembersSetOk(usersInRoom, r, remaining);
        usersInRoom := usersInRoom.Set(r, remaining);
      }
      out := [Emit(UserLeft(u, r), ToRoom(r))];
    }

    /** The send_message handler. */
    method SendMessage(username: Option<string>, room: Option<string>, message: string,
                       replyTo: Option<string>, kind: Option<string>, messageId: string, now: string)
      returns (out: seq<Emit>)
      requires Valid()
      modifies this
      ensures Valid()
      ensures usersInRoom == old(usersInRoom) && activeCalls == old(activeCalls)
      ensures accounts == old(accounts) && userThemes == old(userThemes)
      ensures var r := room.GetOr(GlobalRoom);
        var text := Strip(message);
        if !Given(username) || text == [] then
          rooms == old(rooms) && allMessages == old(allMessages) && out == []
        else
          var u := username.value;
          var name := DisplayName(accounts, u);
          var msg := Message(messageId, u, name, text, kind.GetOr("text"), r, now, replyTo, false, false);
          var base := if r in old(rooms) then old(rooms[r]) else Room([], false, [], None);
          && rooms == old(rooms)[r := base.(messages := base.messages + [msg])]
          && allMessages == old(allMessages)[messageId := LedgerEntry(u, text, now, r, false, false, None, None)]
          && out == [Emit(NewMessage(msg), ToRoom(r))]
                    + ToEachOther(MembersIn(usersInRoom, r), u, Notification(NotificationBody(name, text), r, u))
    {
      var r := room.GetOr(GlobalRoom);
      var text := Strip(message);
      if !Given(username) || text == [] {
        return [];
      }
      var u := username.value;
      var msg := Message(messageId, u, DisplayName(accounts, u), text, kind.GetOr("text"), r, now, replyTo, false, false);
      // a room that does not exist yet is created public and empty before the append
      var base := if r in rooms then rooms[r] else Room([], false, [], None);
      var notices := EmitToEachOther(MembersIn(usersInRoom, r), u, Notification(NotificationBody(msg.displayName, text), r, u));
      rooms, allMessages :=
        rooms[r := base.(messages := base.messages + [msg])],
        allMessages[messageId := LedgerEntry(u, text, now, r, false, false, None, None)];
      out := [Emit(NewMessage(msg), ToRoom(r))] + notices;
    }

    /** The REST message endpoint: DELETE marks the all_messages record deleted, PUT replaces
        its text; both only for the record's author. */
    method EditOrDeleteMessage(session: Option<string>, messageId: string, request: MessageRequest, now: string)
      returns (status: HttpStatus, out: seq<Emit>)
      requires Valid()
      modifies this
      ensures Valid()
      ensures rooms == old(rooms) && usersInRoom == old(usersInRoom) && activeCalls == old(activeCalls)
      ensures accounts == old(accounts) && userThemes == old(userThemes)
      ensures status != Ok ==> allMessages == old(allMessages) && out == []
      ensures session.None? ==> status == Unauthorized
      ensures session.Some? && messageId !in old(allMessages) ==> status == NotFound
      ensures session.Some? && messageId in old(allMessages) && old(allMessages[messageId]).username != session.value ==>
        status == Forbidden
      ensures session.Some? && messageId in old(allMessages) && old(allMessages[messageId]).username == session.value ==>
        var e := old(allMessages[messageId]);
        match request
        case DeleteMessage =>
          && status == Ok
          && allMessages == old(allMessages)[messageId := e.(deleted := true, deletedAt := Some(now))]
          && out == [Emit(MessageDeleted(messageId, e.room), ToRoom(e.room))]
        case EditMessage(content) =>
          if Strip(content) == [] then status == BadRequest
          else
            && status == Ok
            && allMessages == old(allMessages)[messageId := e.(text := Strip(content), edited := true, editedAt := Some(now))]
            && out == [Emit(MessageEdited(messageId, Strip(content), e.room), ToRoom(e.room))]
    {
      if session.None? {
        return Unauthorized, [];
      }
      if messageId !in allMessages {
        return NotFound, [];
      }
      var e := allMessages[messageId];
      if e.username != session.value {
        return Forbidden, [];
      }
      match request {
        case DeleteMessage =>
          allMessages := allMessages[messageId := e.(deleted := true, deletedAt := Some(now))];
          status, out := Ok, [Emit(MessageDeleted(messageId, e.room), ToRoom(e.room))];
        case EditMessage(content) =>
          var text := Strip(content);
          if text == [] {
            return BadRequest, [];
          }
          allMessages := allMessages[messageId := e.(text := text, edited := true, editedAt := Some(now))];
          status, out := Ok, [Emit(MessageEdited(messageId, text, e.room), ToRoom(e.room))];
      }
    }

    /** handle_start_call */
    method StartCall(caller: Option<string>, room: Option<string>, kind: Option<string>, now: string)
      returns (out: seq<Emit>)
      requires Valid()
      modifies this
      ensures Valid()
      ensures rooms == old(rooms) && usersInRoom == old(usersInRoom) && allMessages == old(allMessages)
      ensures accounts == old(accounts) && userThemes == old(userThemes)
      ensures var r := room.GetOr(GlobalRoom);
        if !Given(caller) || r !in usersInRoom.entries then
          activeCalls == old(activeCalls) && out == []
        else
          var c := caller.value;
          var k := kind.GetOr("audio");
          && activeCalls == old(activeCalls).Set(r, Call(c, k, [c], now))
          && out == ToEachOther(usersInRoom.entries[r], c, IncomingCall(c, DisplayName(accounts, c), r, k))
    {
      var r := room.GetOr(GlobalRoom);
      if !Given(caller) || r !in usersInRoom.entries {
        return [];
      }
      var c := caller.value;
      var k := kind.GetOr("audio");
      var call := Call(c, k, [c], now);
      assert [c][1..] == [];
      CallsSetOk(activeCalls, r, call);
      activeCalls := activeCalls.Set(r, call);
      out := EmitToEachOther(usersInRoom.entries[r], c, IncomingCall(c, DisplayName(accounts, c), r, k));
    }

    /** end_call_in_room */
    method EndCallInRoom(r: string, endedBy: Option<string>) returns (out: seq<Emit>)
      requires Valid()
      modifies this
      ensures Valid()
      ensures rooms == old(rooms) && usersInRoom == old(usersInRoom) && allMessages == old(allMessages)
      ensures accounts == old(accounts) && userThemes == old(userThemes)
      ensures r !in old(activeCalls.entries) ==> activeCalls == old(activeCalls) && out == []
      ensures r in old(activeCalls.entries) ==>
        && activeCalls == old(activeCalls).Remove(r)
        && out == [Emit(CallEnded(endedBy, EndedByName(accounts, endedBy)), ToRoom(r))]
    {
      out := [];
      if r in activeCalls.entries {
        activeCalls := activeCalls.Remove(r);
        out := [Emit(CallEnded(endedBy, EndedByName(accounts, endedBy)), ToRoom(r))];
      }
    }

    /** handle_answer_call */
    method AnswerCall(answerer: Option<string>, room: Option<string>, accept: bool) returns (out: seq<Emit>)
      requires Valid()
      modifies this
      ensures Valid()
      ensures rooms == old(rooms) && usersInRoom == old(usersInRoom) && allMessages == old(allMessages)
      ensures accounts == old(accounts) && userThemes == old(userThemes)
      ensures if !Given(answerer) || room.None? || room.value !in old(activeCalls.entries) then
          activeCalls == old(activeCalls) && out == []
        else
          var a := answerer.value;
          var r := room.value;
          var call := old(activeCalls.entries[r]);
          var name := DisplayName(accounts, a);
          if accept then
            && activeCalls == old(activeCalls).Set(r, call.(participants :=
                 if a in call.participants then call.participants else call.participants + [a]))
            && out == [Emit(CallAccepted(a, name), ToRoom(r))]
          else if call.participants == [call.caller] then
            && activeCalls == old(activeCalls).Remove(r)
            && out == [Emit(CallRejected(a, name), ToRoom(r)), Emit(CallEnded(None, SystemName), ToRoom(r))]
          else
            && activeCalls == old(activeCalls)
            && out == [Emit(CallRejected(a, name), ToRoom(r))]
    {
      if !Given(answerer) || room.None? || room.value !in activeCalls.entries {
        return [];
      }
      var a := answerer.value;
      var r := room.value;
      var call := activeCalls.entries[r];
      if accept {
        if a !in call.participants {
          DistinctSnoc(call.participants, a);
          activeCalls := activeCalls.Set(r, call.(participants := call.participants + [a]));
        }
        out := [Emit(CallAccepted(a, DisplayName(accounts, a)), ToRoom(r))];
      } else {
        out := [Emit(CallRejected(a, DisplayName(accounts, a)), ToRoom(r))];
        if |call.participants| == 1 {
          var ended := EndCallInRoom(r, None);
          out := out + ended;
        }
      }
    }

    /** handle_end_call */
    method EndCall(username: Option<string>, room: Option<string>) returns (out: seq<Emit>)
      requires Valid()
      modifies this
      ensures Valid()
      ensures rooms == old(rooms) && usersInRoom == old(usersInRoom) && allMessages == old(allMessages)
      ensures accounts == old(accounts) && userThemes == old(userThemes)
      ensures if room.None? || room.value !in old(activeCalls.entries) then
          activeCalls == old(activeCalls) && out == []
        else
          && activeCalls == old(activeCalls).Remove(room.value)
          && out == [Emit(CallEnded(username, EndedByName(accounts, username)), ToRoom(room.value))]
    {
      out := [];
      if room.Some? {
        out := EndCallInRoom(room.value, username);
      }
    }

    /** handle_rtc_signal: relays the signal to the first connection found for the addressee. */
    method RelaySignal(session: Option<string>, to: Option<string>, signal: Option<string>, signalType: Option<string>)
      returns (out: seq<Emit>)
      requires Valid()
      ensures !Given(to) || !Given(signal) ==> out == []
      ensures Given(to) && Given(signal) ==>
        var t := SignalTarget(usersInRoom.Values(), to.value);
        out == if t != "" then [Emit(RtcSignal(session, signal.value, signalType), ToSid(t))] else []
    {
      if !Given(to) || !Given(signal) {
        return [];
      }
      var u := to.value;
      var lists := usersInRoom.Values();
      var target := "";
      var i := 0;
      while i < |lists|
        invariant 0 <= i <= |lists|
        invariant target == ""
        invariant SignalTarget(lists, u) == SignalTarget(lists[i..], u)
      {
        var ms := lists[i];
        var j := 0;
        while j < |ms|
          invariant 0 <= j <= |ms|
          invariant target == ""
          invariant forall k :: 0 <= k < j ==> ms[k].username != u
        {
          if ms[j].username == u {
            FirstMatchAt(ms, u, j);
            target := ms[j].sid;
            break;
          }
          j := j + 1;
        }
        assert (FirstMatch(ms, u).None? && target == "") || (FirstMatch(ms, u).Some? && target == FirstMatch(ms, u).value.sid);
        assert lists[i..][0] == ms && lists[i..][1..] == lists[i + 1..];
        if target != "" {
          break;
        }
        i := i + 1;
      }
      out := if target != "" then [Emit(RtcSignal(session, signal.value, signalType), ToSid(target))] else [];
    }

    /** handle_disconnect: the user's entries leave every room (rooms themselves stay, empty
        private ones included) and every call that includes the user is ended. */
    method Disconnect(session: Option<string>) returns (out: seq<Emit>)
      requires Valid()
      modifies this
      ensures Valid()
      ensures rooms == old(rooms) && allMessages == old(allMessages)
      ensures accounts == old(accounts) && userThemes == old(userThemes)
      ensures !Given(session) ==> usersInRoom == old(usersInRoom) && activeCalls == old(activeCalls) && out == []
      ensures Given(session) ==>
        var u := session.value;
        && usersInRoom == DropUserEverywhere(old(usersInRoom), u)
        && activeCalls == EndCallsOf(old(activeCalls), u)
        && out == [Emit(UserOffline(u), ToAll)]
                  + EndNotices(old(activeCalls.keys), old(activeCalls.entries), u, DisplayName(accounts, u))
    {
      if !Given(session) {
        return [];
      }
      var u := session.value;
      out := [Emit(UserOffline(u), ToAll)];

      var users := DropUserFromRooms(usersInRoom, u);
      DropUserEverywhereOk(usersInRoom, u);
      var name := DisplayName(accounts, u);
      var calls, ended := EndCallsOfUser(activeCalls, u, name);
      usersInRoom, activeCalls := users, calls;
      out := out + ended;
    }

    /** The online-user list of index: each user found in users_in_room once, with the
        display name, in order of first appearance. */
    method OnlineUsers() returns (online: seq<OnlineUser>)
      requires usersInRoom.Valid()
      ensures OnlineNames(online) == Dedup(FlatNames(usersInRoom.Values()))
      ensures NamedFrom(online, accounts)
    {
      online := CollectOnline(usersInRoom.Values(), accounts);
    }

    /** admin_create_user */
    method AdminCreateUser(session: Option<string>, newUser: string, newPassword: string,
                           displayName: string, isAdmin: bool) returns (status: HttpStatus)
      requires Valid()
      modifies this
      ensures Valid()
      ensures rooms == old(rooms) && usersInRoom == old(usersInRoom) && activeCalls == old(activeCalls)
      ensures allMessages == old(allMessages) && userThemes == old(userThemes)
      ensures status == CreateUserCheck(old(accounts), session, newUser, newPassword)
      ensures status != Ok ==> accounts == old(accounts)
      ensures status == Ok ==>
        var name := Strip(newUser);
        accounts == old(accounts)[name := Account(if Strip(displayName) == [] then name else Strip(displayName), isAdmin)]
    {
      status := CreateUserCheck(accounts, session, newUser, newPassword);
      if status == Ok {
        var name := Strip(newUser);
        var shown := Strip(displayName);
        accounts := accounts[name := Account(if shown == [] then name else shown, isAdmin)];
      }
    }

    /** update_user_theme */
    method UpdateTheme(session: Option<string>, theme: Option<string>) returns (status: HttpStatus)
      requires Valid()
      modifies this
      ensures Valid()
      ensures rooms == old(rooms) && usersInRoom == old(usersInRoom) && activeCalls == old(activeCalls)
      ensures allMessages == old(allMessages) && accounts == old(accounts)
      ensures status == ThemeCheck(session, theme)
      ensures status == Ok ==> userThemes == old(userThemes)[session.value := theme.GetOr("light")]
      ensures status != Ok ==> userThemes == old(userThemes)
    {
      status := ThemeCheck(session, theme);
      if status == Ok {
        userThemes := userThemes[session.value := theme.GetOr("light")];
      }
    }
  }
}
