# nexus-chat server, modelled in Dafny

This project models the in-memory state machine of the nexus-chat server
(`server/index.js`). The server has an HTTP part (registration, avatar
change, channel creation, message history) and a socket.io part. The socket
events are `connection`, `user_connected`, `join_channel`, `send_message` and
`disconnect`.

The server state is modelled as one immutable record, `ChatServer.State`:
- the channel-name list;
- a log of messages per channel;
- the `onlineUsers` object (connection id to username);
- the room of every channel (a set of connection ids);
- the registered accounts.

Every handler is a pure function from a state to the next state, plus the
socket events it emits. Each event names its audience: one socket, everyone,
or the members of a room. HTTP handlers also return a reply, `Done` or a
refusal with its reason (`GET /messages/:channel` returns the log or
`ChannelNotFound`).

The files:
- `outcomes.dfy`: `Option` and `Result`.
- `js_string.dfy`: the JavaScript string operations the handlers use, namely
  `toLowerCase`, `trim`, `length`, `startsWith` and `split`. `trim` uses
  ECMAScript's white-space set, and `length` counts UTF-16 code units. A
  `join` is also defined there, as the inverse of `split`, for the proofs
  about `split`; no handler joins strings.
- `channel_policy.dfy`: how a requested channel name is normalised and
  validated, and the `dm-` join rule.
- `presence.dfy`: the `onlineUsers` object. It is a list of entries with
  distinct keys, so `Object.values` keeps insertion order.
- `chat_server.dfy`: the state, the handlers, the state invariant `Valid`,
  and one lemma per state-changing handler showing it keeps the invariant.
- `server_runs.dfy`: the server as a transition system over a sequence of
  inputs. It proves that reachable states satisfy the invariant, that the
  logs of listed channels are append-only, and that after a disconnect no later event is addressed
  to that connection, directly or through a room.
- `scenarios.dfy`: concrete runs, such as a rejected channel name, a
  duplicate creation, and a two-user conversation.

Behaviour of the code that the model keeps as written:
- `dm-alice` admits `alice`. `split('-')` leaves the third segment
  undefined, but the second segment matches.
- The online list is `Object.values(onlineUsers)` as it stands. A username
  announced on two connections is listed twice.
- `send_message` checks neither the sender's identity nor its room
  membership. The author is the client's `user` field, and the timestamp is
  the server clock.
- `send_message` to a channel that has no log creates one. If that name is
  later created as a channel, its log is reset to empty, because the file is
  overwritten with `[]`.
- `join_channel` does not require the channel to be listed.
- The `dm-` rule splits the whole name on `-`, so a username containing `-`
  cannot be one side of a direct channel: `dm-al-ice-bob` admits `al` and
  `ice`, and refuses `bob` and `al-ice`. `/register` accepts such names.

## Model

| member | source | states |
|---|---|---|
| JsString.ToLower | server/index.js:109 | `toLowerCase` keeps the length of the name |
| JsString.ToLowerChars | server/index.js:109 | lower-casing maps each ASCII capital to its small letter, keeps every other character, and leaves no capital behind |
| JsString.ToLowerOfLower | server/index.js:109 | lower-casing a name without capitals changes nothing |
| JsString.TrimStartSpec | server/index.js:109 | the left half of `trim` removes exactly a trimmable prefix and stops at the first non-trimmable character |
| JsString.TrimEndSpec | server/index.js:109 | the right half of `trim` removes exactly a trimmable suffix and stops at the last non-trimmable character |
| JsString.TrimSpec | server/index.js:109 | the trimmed name has no trimmable character at either end and only holds characters of the input |
| JsString.TrimOfPadded | server/index.js:109 | characterises `trim`: trimmable padding around a core whose ends are not trimmable trims to exactly that core |
| JsString.TrimIdempotent | server/index.js:109 | trimming twice is trimming once |
| JsString.Utf16LengthBounds | server/index.js:111 | `length` counts one or two code units per character, and exactly one per character iff the name stays in the Basic Multilingual Plane |
| JsString.Split | server/index.js:150 | `split` always yields at least one segment |
| JsString.SplitSegmentsFree | server/index.js:150 | no segment contains the separator |
| JsString.JoinSplit | server/index.js:150 | joining the segments with the separator gives back the input |
| JsString.SplitJoin | server/index.js:150 | splitting undoes joining separator-free segments |
| JsString.SplitAfterSegment | server/index.js:150 | a separator-free prefix followed by the separator splits off as the first segment |
| JsString.SplitWithoutSeparator | server/index.js:150 | a separator-free string is one segment |
| ChannelPolicy.NormalizeIsNormal | server/index.js:109 | a normalised name has no capital and no trimmable character at either end |
| ChannelPolicy.NormalFormIsFixed | server/index.js:109 | normalising a name already in normal form changes nothing |
| ChannelPolicy.NormalizeIdempotent | server/index.js:109 | normalising twice is normalising once |
| ChannelPolicy.LowerKeepsTrimmable | server/index.js:109 | lower-casing never makes a character trimmable or stops it from being trimmable |
| ChannelPolicy.InnerSpaceRejected | server/index.js:109-113 | a name with a space between non-trimmable ends still contains the space after normalising, so it is invalid |
| ChannelPolicy.BlankRejected | server/index.js:109-113 | a name made only of trimmable characters normalises to the empty name, which is invalid |
| ChannelPolicy.DirectPairAdmission | server/index.js:149-152 | for A and B without `-`, `dm-A-B` admits a user iff the user is A or B |
| ChannelPolicy.DirectExtraSegmentsIgnored | server/index.js:149-152 | for A and B without `-`, `dm-A-B-rest` admits exactly A and B, whatever follows |
| ChannelPolicy.DirectSingleSegment | server/index.js:149-152 | for A without `-`, `dm-A` admits exactly A |
| ChannelPolicy.DirectHyphenatedNames | server/index.js:149-152 | a username containing `-` is split too: `dm-al-ice-bob` admits `al` and `ice` and refuses `bob` and `al-ice` |
| ChannelPolicy.DirectExamples | server/index.js:145-152 | alice and bob may join `dm-alice-bob` and carol may not; alice may join `dm-alice`; an empty username may not join `general`, and carol may |
| Presence.FindSpec | server/index.js:146 | reading `onlineUsers[id]` gives nothing iff no entry has that key, and otherwise the name of an entry with that key |
| Presence.FindAt | server/index.js:146 | with distinct keys, reading a key gives the name stored in its entry |
| Presence.Put | server/index.js:141 | `onlineUsers[id] = name` makes the key read as name and leaves every other key as it was; a new key goes at the end and an existing key keeps its place |
| Presence.PutKeepsDistinct | server/index.js:141 | setting a key never makes two entries share a key |
| Presence.Remove | server/index.js:179 | `delete onlineUsers[id]` makes the key read as nothing and leaves every other key as it was; deleting an absent key changes nothing; keys stay distinct and no entry is invented |
| Presence.RemoveHead | server/index.js:179 | with distinct keys, deleting the first entry's key drops exactly that entry |
| Presence.RemoveKeepsOrder | server/index.js:179-180 | with distinct keys, deleting a key cuts its entry out where it stands, so the remaining entries, and the online list broadcast after a disconnect, keep their order |
| Presence.RemoveAppended | server/index.js:141-179 | deleting the key just appended gives back the earlier object |
| Presence.RemovePutFresh | server/index.js:141-179 | adding a fresh key and then deleting it restores the object, order included |
| Presence.OnlinePutFresh | server/index.js:141-142 | announcing a fresh connection adds its name at the end of the online list and moves no other name |
| Presence.OnlineRemove | server/index.js:179-180 | a disconnect takes exactly that connection's name out of the online list; the names before and after it keep their order |
| Presence.ListedAt | server/index.js:142 | a connection's announced name stands at that connection's position in the list |
| Presence.TwoConnectionsListed | server/index.js:142 | two connections with the same name put that name at two positions of the online list |
| Presence.SameNameListedTwice | server/index.js:140-143 | announcing one name on two connections lists it twice; duplicate names are not removed |
| ChatServer.LowerLettersNormal | server/index.js:34 | a short lower-case ASCII name is valid and in normal form |
| ChatServer.DefaultNameValid | server/index.js:34 | the default name at any one position is valid and in normal form |
| ChatServer.DefaultsDistinct | server/index.js:34 | the default channel names are distinct |
| ChatServer.DefaultsValid | server/index.js:34 | every default channel name is valid and in normal form |
| ChatServer.InitValid | server/index.js:30-37 | the fresh server satisfies the invariant |
| ChatServer.CreateChannel | server/index.js:107-124 | refused as invalid iff the name is missing or its lower-cased and trimmed form is empty, contains a space or is longer than 32 code units; refused as existing iff the valid form is already listed; a refusal changes nothing; success appends the name, sets its log to empty, changes nothing else and announces the new channel to everyone |
| ChatServer.FindUser | server/index.js:42 | `users.find` gives nothing iff no account has the name, and otherwise the first account with that name |
| ChatServer.Register | server/index.js:40-58 | refused iff the username is taken, or fails iff hashing fails; otherwise exactly one account with the hash and the default avatar URL is appended; nothing else changes |
| ChatServer.UpdateAvatar | server/index.js:77-85 | refused iff no account has the name; only avatars change; with distinct usernames exactly the named account gets the new avatar |
| ServerRuns.ConnectAfterRun | server/index.js:136-138 | the channel list a new connection is sent, at any point of a run from a valid state, holds every channel listed at the start, in order, with no name twice |
| ChatServer.Identify | server/index.js:140-143 | the connection's username is set or overwritten, every other connection keeps its username, and everyone is sent the new online list |
| ChatServer.Join | server/index.js:145-155 | a connection without a username, with an empty one, or refused by the `dm-` rule changes nothing; otherwise it is added to that channel's room and no other room changes |
| ServerRuns.SendIgnoresSender | server/index.js:157-175 | `send_message` has the same effect whichever connection sends it: the stored and broadcast message depends only on the payload and the clock |
| ChatServer.Send | server/index.js:157-175 | the channel's log becomes the old log (empty if none) followed by exactly the new message; no other log, the channel list, presence or rooms change; the message goes to exactly the room's current members |
| ChatServer.Disconnect | server/index.js:177-181 | the connection's username is deleted, every other connection keeps its username, an unknown connection leaves presence unchanged, and everyone is sent the remaining online list |
| ChatServer.CreateChannelPreservesValid | server/index.js:107-124 | channel creation keeps the channel list duplicate-free, valid and normalised, with a log for each channel |
| ChatServer.RegisterPreservesValid | server/index.js:40-58 | registration keeps usernames distinct |
| ChatServer.UpdateAvatarPreservesValid | server/index.js:77-85 | an avatar change keeps the invariant |
| ChatServer.IdentifyPreservesValid | server/index.js:140-143 | announcing a username keeps presence keys distinct and every room member online |
| ChatServer.JoinPreservesValid | server/index.js:145-155 | only online connections enter rooms |
| ChatServer.SendPreservesValid | server/index.js:157-175 | sending keeps the invariant |
| ChatServer.DisconnectPreservesValid | server/index.js:177-181 | disconnecting keeps every remaining room member online |
| ServerRuns.Apply | server/index.js:107-181 | no input removes or reorders a channel or deletes a log |
| ServerRuns.Run | server/index.js:107-181 | over any run the channel list only grows at its end |
| ServerRuns.ApplyPreservesValid | server/index.js:30-181 | every handler keeps the invariant |
| ServerRuns.RunPreservesValid | server/index.js:30-181 | every run keeps the invariant |
| ServerRuns.ReachableValid | server/index.js:30-181 | every state reached from a fresh server satisfies the invariant: distinct, valid channel names with logs, distinct usernames, and rooms holding only online connections |
| ServerRuns.ApplyLog | server/index.js:107-181 | one input changes a listed channel's log only by appending the message it sends there |
| ServerRuns.LogIsAppendOnly | server/index.js:166-172 | after any run, a listed channel's history is its earlier log followed by exactly the messages sent to it, in order |
| ServerRuns.NothingForConcat | server/index.js:136-181 | two event batches that address nothing to a connection still address nothing to it together |
| ServerRuns.ApplyKeepsGone | server/index.js:136-181 | a connection that is offline and in no room stays so, and is sent nothing, under inputs from others |
| ServerRuns.RunKeepsGone | server/index.js:136-181 | the same holds over any run of inputs from others |
| ServerRuns.DisconnectedNeverReceives | server/index.js:174-181 | after a disconnect, no later event is addressed to that connection, directly or through a room |
| ServerRuns.DisconnectUnknownIsNoop | server/index.js:177-181 | disconnecting a connection that never announced a username changes no state |
| ServerRuns.IdentifyThenDisconnect | server/index.js:140-181 | a fresh connection that announces a name and disconnects leaves presence, and the broadcast online list, as before |
| ServerRuns.CreateTwiceRefused | server/index.js:115-121 | repeating a successful creation request is refused as existing and changes nothing |
| ServerRuns.JoinIdempotent | server/index.js:154 | joining twice is joining once |
| ServerRuns.RegisterTwiceRefused | server/index.js:42-52 | in a sequential run, a second registration of the same username is refused |
| Scenarios.NormalizeGeneral | server/index.js:109 | `General` normalises to `general` |
| Scenarios.CreateMyChannelRejected | server/index.js:109-113 | creating `My Channel` is refused as invalid on any server |
| Scenarios.CreateBlankRejected | server/index.js:108-113 | a blank name and a missing name are refused as invalid |
| Scenarios.CreateGeneralExists | server/index.js:115-117 | `General` is refused as existing when `general` is listed |
| Scenarios.NormalizePaddedNews | server/index.js:109 | `" NEWS\t"` normalises to `news` |
| Scenarios.CreateChannelThenDuplicate | server/index.js:107-124 | creating `" NEWS\t"` appends `news` with an empty history and announces it, and a second request for `news` is refused |
| Scenarios.AnnouncedAdmitted | server/index.js:140-155 | a connection that announced a non-empty name may join any channel that is not direct |
| Scenarios.AnnounceThenJoin | server/index.js:140-155 | announcing a name and joining a public channel adds the connection to its room and leaves the logs alone |
| Scenarios.SendToFreshRoom | server/index.js:157-175 | a message sent to a channel with an empty log reaches exactly the room and becomes the whole log |
| Scenarios.ConversationInPublicChannel | server/index.js:140-175 | two users who join a public channel both receive a message the first sends, and the log holds exactly that message |
| Scenarios.ConversationInGeneral | server/index.js:30-175 | on a fresh server, alice and bob join `general` and alice sends `hi`: both connections are sent the message, and the log of `general` holds exactly it |
| Scenarios.SameUserOnTwoConnections | server/index.js:140-143 | the online list broadcast after one name is announced on two connections shows it twice |

## Left out

- `/login` (server/index.js:61-74): it is only a bcrypt comparison against the stored hash and changes no state.
- bcrypt hashing: `Register` takes the hash as an input, with `None` when hashing throws.
- The `await` in `/register` between the existence check and the push. Concurrent registrations of the same name can both pass the check, so username uniqueness (`RegisterTwiceRefused`, `ReachableValid`) is proved only for runs where each request completes before the next.
- HTTP status codes, response texts, CORS, the socket.io server options and `server.listen`. A refusal is an `Error` value, and the comment on each constructor names its status code.
- `GET /channels` (server/index.js:102-104): it returns the channel list unchanged.
- File persistence: the JSON files, `readFileSync` and `writeFileSync`, the `messages/` directory, and a write that fails after the in-memory push. Logs and accounts live in the state, and a start-up from existing files is not modelled.
- `path.join` on a channel name: names such as `../users` or `./general` are taken literally. The model does not capture that two such names can reach the same file, or a file outside the `messages/` directory.
- LogIsAppendOnly: holds for logs keyed by the channel name as written. In the server, creating `./general` passes the name guard (server/index.js:111) and the duplicate check (server/index.js:115). Writing `[]` for it (server/index.js:121) then empties the file of `general`. Likewise `../users` overwrites the account file. The model keeps these as separate names. In the same way, `send_message` and `GET /messages/:channel` do not lower-case the channel. On a case-insensitive file system, the usual one on Windows and macOS, `General` therefore reads and appends to the file of `general`, while the model keeps `General` as a log of its own.
- Payloads that are not strings, such as a number as the channel name or a missing `channel` field in `send_message`. Every field is a string; only the create-channel body field may be absent.
- `Date.now()`: the time is a parameter of `SendMessage`.
- Unpaired UTF-16 surrogates: a string here is a sequence of Unicode scalar values, so a channel name or username holding a lone surrogate (possible in a JSON body) cannot be represented.
- `toLowerCase` beyond ASCII: non-ASCII letters are kept as they are.
- Room bookkeeping: socket.io removes a disconnecting socket from its rooms, and `Disconnect` assumes this. The socket's own private room is not modelled.
- The ordering JavaScript gives integer-like keys in `Object.values`: presence keeps insertion order, which is right for socket.io ids.
- Console logging, and the Electron shell in `main/main.js`.
