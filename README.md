# secure-global-chat: a verified model of the chat server's state machine

This project models `app.py` of the secure-global-chat server in Dafny. The server is a Flask /
Socket.IO application that keeps everything in memory. The model covers:

- the module-level tables `rooms`, `users_in_room`, `active_calls`, `all_messages`, `accounts`
  and `user_themes`;
- the Socket.IO handlers that change them or read them: join, leave, send_message,
  start_call, answer_call, end_call, rtc_signal and disconnect;
- the REST endpoints that edit or delete a message, create an account and change a theme;
- the online-user list that the index page builds;
- the pure helpers: allowed_file, the upload classifier, get_user_display_name,
  create_private_room_id and is_user_admin.

Layout:

- `text.dfy`: `Options`, an optional payload field with Python truthiness (`Given`), and
  `Text`, the parts of Python's `str` the server uses (`strip`, ASCII `lower`, the text after
  the last dot, string order).
- `odict.dfy`: `OrderedDict`. A Python dict is a map plus the order in which its keys were
  inserted, because the server iterates over `users_in_room` and `active_calls`.
- `helpers.dfy`: `Helpers`, the pure functions, the seed accounts and the validation of the
  two account endpoints.
- `model.dfy`: `ChatModel`, the records and events, and the functions that specify the
  handlers. These are the member-list filter, the notification fan-out, history replay, the
  online list, the signal lookup and the disconnect sweep. The file also holds the invariants
  of the tables and the lemmas about all of these.
- `server.dfy`: `ChatServer`. The class `Server` owns the tables, and each handler is a
  method that updates them and returns the emits it makes, in order. The handlers' loops are
  separate methods proved against the functions of `ChatModel`.

`Server.Valid()` is the invariant every handler keeps:

- the public room exists and is public;
- every room's member list holds each username at most once;
- every call lists its caller first and nobody twice;
- both dicts list each key once, and their key order lists exactly their keys.

Time stamps, message ids and connection ids are parameters of the handlers. The JSON payload
is modelled field by field: a field that may be missing is an `Option`, and `Given` is
Python's truthiness of a string field.

Where the specification of the system and the code disagree, the model follows the code:

- Editing or deleting through the REST endpoint changes only the `all_messages` record. The
  copy in the room's history, which join replays, keeps its old text and flags.
- Deleting a message again sets `deleted_at` again. Editing a deleted message is allowed.
- `start_call` only requires that the room has a member list. The caller need not be in it,
  and an existing call in the room is overwritten.
- Any user may join an existing private room.
- Membership holds one entry per username. A second connection of the same user in the same
  room is not recorded, and `leave` removes the user's entry and always announces
  `user_left`.
- Deleting an emptied private room does not remove its messages from `all_messages`.
- `disconnect` acts on every disconnect, not on a user's last connection. It keeps the rooms
  it empties, private ones included.
- The handlers take the username from the payload and do not compare it with the session.
- A call has no ringing or active state. Message kinds and call kinds are not checked.

A proved observation: the upload route and `allowed_file` read extensions differently. A file
name without a dot is its own extension to the upload route, while `allowed_file` refuses it
for every type (`Helpers.DotlessNames`); so `PNG` is accepted as an image
(`Helpers.DotlessNamesDiverge`). On names with a dot the two agree
(`Helpers.UploadAgreesWithAllowedFile`).

## Model

| member | source | states |
|---|---|---|
| Text.StripMeaning | app.py:168-170 | strip keeps one contiguous piece of the text, removes only whitespace on either side, and the piece neither starts nor ends with whitespace |
| Text.StripBlankIffAllSpace | app.py:392-397 | a text is empty after strip exactly when all of its characters are whitespace |
| Text.StripIdempotent | app.py:392 | stripping a stripped text changes nothing |
| Text.Lower | app.py:52 | lower keeps the length and lower-cases each ASCII letter in place |
| Text.AfterLastDot | app.py:52 | the result is a suffix of the name without a dot, and the name has a dot just before it when it is shorter than the name |
| Helpers.AfterLastDotAt | app.py:52 | the text after the last dot is what follows any dot with no dot after it |
| Text.LexLeTotal | app.py:66 | any two names are ordered one way or the other |
| Text.LexLeAntisymmetric | app.py:66 | two names ordered both ways are equal |
| Helpers.AllowedFileMeaning | app.py:49-59 | a name is allowed exactly when it has a dot with no dot after it and the lower-cased text after that dot is in the set of the requested type; an unknown type allows nothing |
| Helpers.ClassifyUploadMeaning | app.py:213-226 | the empty name is refused; otherwise the upload is accepted as kind k exactly when its lower-cased extension is in k's set, and is unsupported exactly when it is in none |
| Helpers.UploadAgreesWithAllowedFile | app.py:216-226 | on names with a dot, the upload route accepts kind k exactly when allowed_file accepts the name for k's type |
| Helpers.DotlessNames | app.py:216-226 | a name without a dot is its own (lower-cased) extension to the upload route, which accepts it as kind k exactly when it is non-empty and in k's set, while allowed_file refuses it for every type |
| Helpers.DotlessNamesDiverge | app.py:216-226 | the name PNG is accepted as an image by the upload route and refused by allowed_file |
| Helpers.PrivateRoomId | app.py:64-67 | the id is "private_", the smaller name, "_", the larger name |
| Helpers.PrivateRoomIdSymmetric | app.py:64-67 | the private room id does not depend on the order of the two users |
| Helpers.SeedDirectory | app.py:32-37 | among the seed accounts only yasin is an administrator, and an unknown user is shown under their username |
| Helpers.DisplayNameAfterStore | app.py:61-62 | after an account is stored under a name, that name shows the account's display name, every other user shows what it showed before, and an unknown user shows the username |
| Helpers.IsAdminAfterStore | app.py:69-70 | after an account is stored under a name, only that name's administrator flag can change, and an unknown user is not an administrator |
| Helpers.CreateUserCheck | app.py:158-178 | success exactly for an administrator with a non-blank new username and password that is not taken; 401 exactly without a session; 403 exactly for a non-administrator; 400 exactly for an administrator with a blank username or password or a taken username; no other status |
| Helpers.ThemeCheck | app.py:186-195 | success exactly with a session and a theme of light or dark (light when absent); 401 exactly without a session; 400 exactly with a session and another theme; no other status |
| OrderedDict.ODict.Set | app.py:328-329 | assignment maps the key to the value, keeps the key order for a present key and appends a new key at the end, and keeps the dict well formed |
| OrderedDict.ODict.Remove | app.py:524 | deletion removes the key from the map, drops it from the key order leaving the other keys in place, and keeps the dict well formed |
| OrderedDict.ValuesMeaning | app.py:96 | values() has one value per key; each key's value stands at that key's unique place in the key order; a value is listed exactly when some key maps to it |
| OrderedDict.DistinctMeaning | app.py:96 | the key order has no repeats exactly when any two positions hold different keys |
| OrderedDict.RemoveAllAppend | app.py:524 | deleting a key leaves the other keys in their relative order |
| OrderedDict.RemoveBetween | app.py:524 | deleting a key that occurs once joins the keys before it and the keys after it |
| ChatModel.WithoutUser | app.py:371 | the filtered list holds exactly the entries of other users and no entry of the user |
| ChatModel.WithoutUserAppend | app.py:371 | filtering keeps the order of the remaining entries |
| ChatModel.WithoutAbsentUser | app.py:371 | filtering out a user without an entry changes nothing |
| ChatModel.WithoutUserUnique | app.py:371 | filtering keeps the usernames of a list unique |
| ChatModel.AppendNewUserUnique | app.py:339-340 | appending a user who is not listed keeps usernames unique and lists the user |
| ChatModel.ToEachOtherTargets | app.py:435-443 | the fan-out sends one emit to the sid of each entry of another user, in list order, and nothing else |
| ChatModel.LastN | app.py:358 | the replayed window is the last n messages of the history, or all of it when it is shorter |
| ChatModel.HistoryAfterAppend | app.py:420 | after an append the replay window ends with the new message, after the previous window shortened by one |
| ChatModel.Dedup | app.py:95-101 | the online names hold every listed name and nothing else |
| ChatModel.DedupDistinct | app.py:98-99 | no name is listed twice among the online users |
| ChatModel.DedupFirstOccurrenceOrder | app.py:95-101 | online names appear in the order of their first listing |
| ChatModel.FirstMatch | app.py:545-548 | the inner search finds an entry of the addressee exactly when the list has one |
| ChatModel.FirstMatchAt | app.py:545-548 | the inner search stops at the first entry of the addressee |
| ChatModel.SignalTargetSound | app.py:543-550 | a signal only goes to a sid that some room lists for the addressee |
| ChatModel.SignalTargetComplete | app.py:543-550 | when the addressee is listed with a non-empty sid, the signal is delivered |
| ChatModel.DroppedEverywhere | app.py:566-568 | a table in which every listed room holds its filtered list is the table with the user taken out |
| ChatModel.DropUserEverywhereOk | app.py:566-568 | taking a user out of every room keeps the member table well formed |
| ChatModel.SweepCalls | app.py:571-573 | after sweeping a snapshot of keys, exactly the swept calls that include the user are gone and the rest are unchanged |
| ChatModel.SweepStep | app.py:571-573 | each swept key is still present when its turn comes, and is removed and announced exactly when its call includes the user |
| ChatModel.EndCallsOf | app.py:571-573 | after disconnect exactly the calls that include the user are gone, and the others are unchanged |
| ChatModel.EndNoticesExactly | app.py:571-573 | disconnect sends call_ended naming the user to the room of each call that includes the user, and nothing else |
| ChatServer.EmitToEachOther | app.py:476-483 | the loop's emits are the fan-out to every other entry of the room |
| ChatServer.DropUserFromRooms | app.py:566-568 | the first disconnect loop yields the table with the user filtered out of every room, same keys in the same order |
| ChatServer.EndCallsOfUser | app.py:571-573 | the second disconnect loop yields the swept call table and one call_ended per ended call, in key order |
| ChatServer.CollectOnline | app.py:94-101 | the index loop lists each member username once, in first-listing order, with its display name |
| ChatServer.AddOnline | app.py:97-101 | one room's entries extend the online list as they extend the deduplicated name list |
| ChatServer.AddName | app.py:98-101 | a username is appended with its display name exactly when it is not yet listed |
| ChatServer.Server.constructor | app.py:27-79 | the tables start empty except for the seed accounts and the public room |
| ChatServer.Server.Join | app.py:302-360 | a missing username, or a new private room without the other user, changes nothing; otherwise the room is created if private and new, the user is listed once, user_joined goes to the room only for a new entry, and the member list and the last 100 messages are sent back |
| ChatServer.Server.Leave | app.py:362-386 | an unknown room or missing username changes nothing; otherwise the user's entries go, a private room left empty is deleted with its list, and user_left goes to the room |
| ChatServer.Server.SendMessage | app.py:388-443 | a missing username or blank text changes nothing; otherwise the stripped message is appended to the room (created public if absent), recorded in all_messages, broadcast, and a notification goes to each other member |
| ChatServer.Server.EditOrDeleteMessage | app.py:244-291 | 401 without a session, 404 for an unknown id, 403 for another author, 400 for blank new text, with nothing changed; otherwise only the all_messages record is marked deleted or given the new text, and the room is told |
| ChatServer.Server.StartCall | app.py:458-483 | without a caller or a member list nothing happens; otherwise the room's call is (over)written with the caller as only participant and every other member is rung |
| ChatServer.Server.AnswerCall | app.py:485-513 | an accept adds the answerer once and announces it; a reject is announced and ends the call when only the caller is in it |
| ChatServer.Server.EndCall | app.py:515-520 | the room's call, if any, is removed and call_ended names who ended it |
| ChatServer.Server.EndCallInRoom | app.py:522-530 | a call that exists is removed and call_ended goes to its room; otherwise nothing happens |
| ChatServer.Server.RelaySignal | app.py:532-557 | the signal goes to the sid the room-by-room search finds, and nowhere when it finds none |
| ChatServer.Server.Disconnect | app.py:559-573 | user_offline is broadcast, the user leaves every room's list, every call that includes the user ends with call_ended to its room, and the rooms are unchanged |
| ChatServer.Server.OnlineUsers | app.py:94-101 | the online list is the deduplicated member usernames in order, each with its display name |
| ChatServer.Server.AdminCreateUser | app.py:158-184 | the status is the endpoint's check, and only on success is the stripped username added, shown under the stripped display name or else the username |
| ChatServer.Server.UpdateTheme | app.py:186-200 | the status is the endpoint's check, and only on success is the user's theme set |

## Left out

- Flask routing, sessions, login, logout and the index page's other lists (private chats,
  themes, templates): these are web plumbing around the tables. The session's username is an
  `Option` parameter.
- The connect and typing handlers: they only broadcast and change no state.
- Socket.IO's `join_room` and `leave_room`, and the delivery of emits: an emit is returned as
  a value with its target (sender, room, sid or everyone).
- File saving, `secure_filename`, the generated upload name and the upload route's 403 and 400
  answers for a missing session or file: only the classification of the sanitised name is
  modelled.
- Passwords: they are stored and never read by the modelled code.
- uuid and datetime: message ids and time stamps are parameters.
- JSON values other than strings and booleans (null, numbers, lists) in payload fields: a
  field is either absent or a string. `is_private`, `accept` and `is_admin` are booleans.
- Text.Lower: only ASCII letters are lower-cased. Python's `lower()` also maps other letters,
  which no extension in the allowed sets contains.
- The notification title and the call_ended duration: they are constant strings.
- The `users` key of a room entry: nothing ever writes to it.
- Concurrency: handlers run one at a time, as under a single lock.
- ChatServer.EndCallsOfUser: the key order of `active_calls` after the sweep is defined by
  deleting keys one by one (`ChatModel.SweepCalls`). It is not restated as a filter of the
  original key order.
