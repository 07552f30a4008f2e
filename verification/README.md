# CodeMate room synchronisation, modelled in Dafny

CodeMate is a collaborative code editor. Browsers join a room over a WebSocket.
The server relays code, language, cursor, chat and video-signalling messages
between the members of the room. It persists rooms and chat through a storage
gateway. It also runs submitted code through a per-language dispatcher.

This project models that core:

- `Directory`: the server's room directory (`activeRooms`) and per-connection flags. These are pure functions of a directory value.
- `Relay`: what one inbound frame delivers, and to whom.
- `Router`: the imperative server. Class `RoomServer` holds the directory as fields. Its methods are the `connection`, `message`, `pong` and `close` handlers, the `broadcastToRoom` loop and the heartbeat sweep. Each method is proved against the `Directory`/`Relay` functions.
- `Storage`: the in-memory store (`MemStorage`) as a class, with its queries specified by pure functions.
- `Waitlist`: the e-mail check of `POST /api/waitlist` and the response it produces.
- `RoomState`: the client's reducer over inbound envelopes, plus the two editor actions that send envelopes.
- `Compile`: language sanitising, the per-language dispatch, Java class-name extraction and the fixed results.
- `Presence`: how join and leave announcements interact (see Findings).
- Support modules: `Schema` (record shapes), `Wire` (JSON envelopes), `JsText` (JavaScript `\s`, `parseInt` and decimal rendering), `Arrays` (`filter`, `findIndex`, `find`, stable `sort`) and `Wrappers` (`Option`).

## Modelling choices

- **Atomic events.** Node runs each event handler to completion, so every event is one atomic step. Its effect is the new directory plus the set of deliveries it causes. A delivery is one payload sent to one connection.
- **Events between sweeps.** `Directory.Event` lists the handlers that can run between two heartbeat sweeps: a connect (`Join`), a close (`Leave`), a pong (`Pong`) and an inbound frame, which leaves the directory unchanged. These are the directory effects that `Router.RoomServer.Connect`, `Close`, `Pong` and `OnMessage` are proved to have. `Directory.Replay` applies a sequence of them. A new connection is a new socket object, so it never reuses the id of a socket that is still known.
- **Stand-ins for values.** Connections are identified by a natural number. Timestamps are their time values in milliseconds. The `userId` the server parses with `parseInt` is an integer or NaN.
- **Comparing ids.** `===` on a JSON id is equality of `JsonId` values. A NaN id is serialised as `null` and matches nothing.
- **Insertion order.** JavaScript `Map`s iterate in insertion order. So users and rooms are sequences: rooms have distinct ids, and `set` on an existing id replaces the room in place.
- **Code and specification disagree.** The model follows the code in four places:
  1. `cursor_update` and `language_update` are relayed to the sender too (server/routes.ts:119-124).
  2. The persist flag is `shouldPersist` (server/routes.ts:85).
  3. A chat message that fails to store is only logged. Nothing is sent (server/routes.ts:126-128).
  4. `code_update` persists into the sender's own room. The frame's `roomId` field is ignored (server/routes.ts:86).
- **Which store.** `MemStorage` is the store the server uses when no database URL is configured (server/storage.ts:368-370). The router's effects on storage are stated against it.
- **A store call that throws.** The `storeOk` input says whether the store call succeeds:
  - a failed chat store broadcasts nothing and leaves the store unchanged;
  - a failed code persist leaves the store unchanged, but the broadcast has already gone out.

## Model

| member | source | states |
|---|---|---|
| Router.Handshake | server/routes.ts:46-60 | the connection is refused exactly when `roomId`, `userId` or `username` is missing or empty; otherwise the client record carries the three values, `parseInt` of the user id, `isAlive` and OPEN |
| Router.JoinedPayload | server/routes.ts:69-74 | the `user_joined` payload as sent: the user id is the `userId` query text itself, with the joiner's name and the time; that id never equals the parsed number the matching `user_left` carries |
| Router.RoomServer.Connect | server/routes.ts:45-74 | missing parameters: close code 1008, nothing sent, directory unchanged; otherwise the connection joins its room (the room is created if absent) and `user_joined`, with the user id as the raw query text, goes to the room's OPEN members other than the joiner |
| Directory.JoinAnnouncedToOthers | server/routes.ts:63-74 | the joiner's announcement reaches exactly the OPEN members the room had before the join |
| Directory.JoinValid | server/routes.ts:63-66 | joining keeps the directory well formed: member lists are duplicate-free, a room is listed iff non-empty, and each client is listed in its own room only |
| Directory.JoinAppends | server/routes.ts:63-66 | a join puts the connection last in its room's member list (creating the list when absent), records its client, and changes no other room or client |
| Router.RoomServer.BroadcastToRoom | server/routes.ts:176-187 | the loop sends the payload once to every OPEN member of the room except the sender, and nothing if the room is absent (equals `Directory.Broadcast`) |
| Directory.BroadcastExact | server/routes.ts:176-187 | a delivery is in a broadcast iff it carries the payload to an OPEN member of that room that is not the sender; deliveries never leave the room; an absent room gets nothing |
| Directory.BroadcastReachesOthers | server/routes.ts:182-186 | when every member is OPEN, a broadcast excluding one member reaches exactly the other N-1 |
| Relay.RouteOf | server/routes.ts:79-125 | the route follows the frame's `type` field: `code_update` to others; `chat_message` stored (with the frame's `content`, absent when the frame has none), then to others; the three video signals to the frame's `target` (absent when missing); `video_join`, `video_leave`, `cursor_update` and `language_update` to everyone; a frame is dropped iff it is malformed or its type is none of these |
| Relay.RouteByEnvelope | server/routes.ts:79-125 | per envelope: code updates go to others, the four broadcast kinds to everyone, a client-sent `user_joined`, `user_left`, `error` or `room_closed` is dropped; a field-less frame of a handled type is routed by its type, storing no content or targeting nobody |
| Relay.Deliveries | server/routes.ts:77-125 | everything a frame causes goes to OPEN members of the sender's room; dropped frames and chat the store rejects cause nothing; relayed frames carry the frame unchanged |
| Router.RoomServer.OnMessage | server/routes.ts:77-129 | the deliveries `Relay.Deliveries` names, with the store's next message id; `updateRoomCode` on the sender's room only for `code_update` with `shouldPersist`; one message appended for a stored `chat_message`, with the frame's content or none; the directory and the other tables unchanged |
| Router.RoomServer.ForwardCodeUpdate | server/routes.ts:82-87 | `code_update` is broadcast to the others, then the sender's room gets the frame's code and language when `shouldPersist` is set and the store succeeds; nothing else in the store changes |
| Router.RoomServer.StoreAndRelayChat | server/routes.ts:88-102 | a stored chat record gets the next message id and is appended, and that record goes to the others; a failing store changes nothing and sends nothing |
| Relay.DeliveriesStayInRoom | server/routes.ts:77-125 | whatever a frame causes is delivered only to OPEN connections of the sender's room |
| Relay.SenderEcho | server/routes.ts:82-124 | `code_update` and chat never reach the sender; `video_join`, `video_leave`, `cursor_update` and `language_update` reach the sender when it is OPEN |
| Relay.ChatOutcome | server/routes.ts:88-102 | for any `chat_message` frame: a failed store sends nothing; otherwise every delivery is the stored record, with the next message id, the frame's `content` field (absent if missing) and the sender's name |
| Relay.HookChatLosesText | server/routes.ts:90-96 | the room hook's chat frame carries its text as `text`, with no `content`; what the others receive then has no content at all |
| Relay.ChatInsert | server/routes.ts:90-96 | the stored message has the frame's content (or none), the parsed user id, the username, the sender's room and the current time |
| Relay.Unicast | server/routes.ts:108-115 | at most one delivery, to the first member whose `userId` equals the target, and only if it is OPEN; that member receives the payload whenever it is OPEN; none when no member matches or the target is missing |
| Router.RoomServer.SendToTarget | server/routes.ts:110-115 | the `find` loop delivers exactly what `Relay.Unicast` specifies |
| Relay.NaNNeverTargeted | server/routes.ts:111 | a connection whose user id parsed to NaN is never the target of a signal |
| Router.RoomServer.Pong | server/routes.ts:132-134 | a pong sets the connection's `isAlive` and nothing else |
| Router.RoomServer.Close | server/routes.ts:137-155 | the connection leaves its room and the room is dropped when it empties; `user_left` goes to the remaining OPEN members, and nothing is sent when the room emptied |
| Directory.LeaveRemoves | server/routes.ts:137-146 | a close removes the client and takes it out of its room's list; the room is deleted iff that empties it; no other room changes |
| Directory.DepartureExact | server/routes.ts:147-152 | a close sends `user_left` to exactly the other OPEN members of the room, judged before the close, and nothing for an unknown socket |
| Directory.LeaveValid | server/routes.ts:137-155 | leaving keeps the directory well formed |
| Directory.RoomPresentIffNonEmpty | server/routes.ts:142-145 | a room is in the directory iff some connection belongs to it |
| Directory.LeaveUndoesJoin | server/routes.ts:63-66 | a join followed by the same connection's close restores the directory exactly |
| Directory.LeaveIdempotent | server/routes.ts:138 | a second close of the same connection changes nothing and sends nothing |
| Directory.DepartureReachesRemaining | server/routes.ts:143-152 | the `user_left` deliveries go to the OPEN members that remain after the removal, and to none when the room emptied |
| Router.RoomServer.Sweep | server/routes.ts:160-168 | one pass over all clients: those with `isAlive` false are terminated, every other one is pinged and marked not alive |
| Directory.MarkAllMarksEach | server/routes.ts:160-168 | every client ends the sweep marked not alive; one that was already not alive is terminated (CLOSING); rooms and every other field are kept |
| Directory.AfterSweepExact | server/routes.ts:159-169 | after a sweep and its closes, exactly the clients that were alive remain, each marked not alive and otherwise unchanged, and every room keeps its members minus the terminated ones, in order |
| Router.MarkEach | server/routes.ts:160-168 | the loop of one tick over every client gives exactly the sweep's marked directory, pings exactly the clients that were alive and terminates exactly the others |
| Router.CloseAllTerminated | server/routes.ts:137-155 | running the close handler of each terminated socket in turn removes them all, and the messages sent, kept per terminated socket, are exactly their departures |
| Router.RoomServer.Heartbeat | server/routes.ts:159-169 | a sweep followed by the close handler of every terminated socket: the survivors are pinged and marked, the terminated are removed, and for each terminated socket its `user_left` goes to the OPEN survivors of its room; two sockets of one user send two separate frames |
| Directory.SweepLeavesAllSuspect | server/routes.ts:160-168 | after a sweep every remaining client is not alive, and the remaining clients are exactly the previous sweep's survivors |
| Directory.SweepMakesSuspect | server/routes.ts:160-168 | after a sweep, every socket is either gone or marked not alive |
| Directory.ReplayKeepsSuspect | server/routes.ts:45-155 | any sequence of connects of other sockets, closes, frames and pongs of other sockets leaves a not-alive socket not alive |
| Directory.ReplayKeepsAnswering | server/routes.ts:45-155 | any sequence of events that does not close or replace a socket keeps it connected and alive once it has answered |
| Directory.SilentSocketEvictedBySecondSweep | server/routes.ts:159-169 | a socket that sends no pong between two sweeps is gone after the second, whatever other sockets connect, answer, send or close in between |
| Directory.PongSparesSocket | server/routes.ts:132-134 | a socket that answers between two sweeps and is not closed in between survives the second, whatever other sockets do before or after its pong |
| Directory.AfterSweepValid | server/routes.ts:159-169 | a sweep with its closes keeps the directory well formed |
| Directory.LeaveAfterCloseAll | server/routes.ts:137-155 | closing the terminated sockets one at a time gives the same directory as removing them all at once |
| Directory.DepartureAfterCloseAll | server/routes.ts:143-152 | each close in a sweep announces the departure to the room's OPEN survivors |
| Waitlist.IsValidEmailIsPattern | server/routes.ts:343 | the check holds iff the text is a non-empty run without white space or `@`, then `@`, then such a run, then `.`, then such a run (the regular expression `^[^\s@]+@[^\s@]+\.[^\s@]+$`) |
| Waitlist.IsValidEmail | server/routes.ts:343-344 | an accepted address has no white space and at least five characters |
| Waitlist.PostWaitlist | server/routes.ts:337-353 | missing or empty e-mail: 400 "Email is required"; not matching: 400 "Invalid email format"; both leave the waitlist unchanged; otherwise 201 with the entry `addToWaitlist` returns |
| Storage.MemStorage.constructor | server/storage.ts:233-242 | empty tables and all four counters at 1 |
| Storage.MemStorage.GetUser | server/storage.ts:251-253 | the user with that id if one was created, otherwise none |
| Storage.MemStorage.GetUserByUsername | server/storage.ts:255-259 | a user with exactly that name if one exists, none iff no user has it |
| Storage.UserByUsername | server/storage.ts:255-259 | under unique usernames, the user found is the only one with that name |
| Storage.MemStorage.CreateUser | server/storage.ts:261-266 | the next id from the counter; the user appended; the counter up by one; a fresh name keeps usernames unique and becomes findable |
| Storage.MemStorage.GetRooms | server/storage.ts:269-271 | every stored room in insertion order |
| Storage.FindRoom | server/storage.ts:274 | `rooms.get`: none iff no stored room has the id, otherwise a stored room with that id |
| Storage.MemStorage.GetRoom | server/storage.ts:273-291 | none for an unknown id; otherwise the stored room with its participants attached |
| Storage.Participants | server/storage.ts:277-289 | the creator first, then exactly the registered users other than the creator who sent a message in the room |
| Storage.ProjectMembers | server/storage.ts:280 | the projection to `{id, username}` keeps one entry per user and invents none |
| Storage.MemStorage.CreateRoom | server/storage.ts:293-301 | stored under its id, replacing a room with the same id and leaving the others; an empty code becomes null |
| Storage.PutRoom | server/storage.ts:299 | `Map.set`: ids stay distinct, the room is found under its id, other ids are unaffected, and the size grows only for a new id |
| Storage.MemStorage.UpdateRoomCode | server/storage.ts:303-315 | unknown id: none, nothing changes; otherwise the room's code and language are overwritten, every other field and room is kept, and the room is returned as `getRoom` gives it |
| Storage.RoomCodeUpdated | server/storage.ts:303-313 | the same overwrite as a function of the room list |
| Storage.LastWriterWins | server/storage.ts:303-313 | two updates of the same room leave what the later one alone would |
| Storage.MessagesByRoom | server/storage.ts:318-322 | exactly the stored messages of that room, the same multiset as `filter`, ordered by non-decreasing timestamp |
| Storage.MemStorage.GetMessagesByRoom | server/storage.ts:318-322 | exactly that room's messages, oldest first |
| Storage.MemStorage.CreateMessage | server/storage.ts:324-329 | the next id, larger than every earlier message's; the message appended after the unchanged earlier ones |
| Storage.SnippetsByUser | server/storage.ts:332-336 | exactly that user's snippets, the same multiset as `filter`, newest first |
| Storage.MemStorage.GetSnippetsByUser | server/storage.ts:332-336 | exactly that user's snippets, newest first |
| Storage.MemStorage.CreateSnippet | server/storage.ts:338-348 | the next id; an empty room id becomes null; the snippet appended |
| Storage.Enlist | server/storage.ts:351-364 | a known e-mail returns the existing entry and changes nothing; a new e-mail gets the next id and is appended; e-mails stay unique |
| Storage.EnlistIdempotent | server/storage.ts:351-364 | adding the same e-mail twice equals adding it once |
| Storage.MemStorage.AddToWaitlist | server/storage.ts:351-364 | the entry and list `Enlist` gives; the counter stays one past the list length, unchanged for a known e-mail |
| Arrays.SortIsStable | server/storage.ts:321 | the numeric-comparator sort keeps the elements of each key in their original order |
| Arrays.SortByKey | server/storage.ts:321 | the sort returns a permutation of its input ordered by key |
| Arrays.FilterConcat | server/storage.ts:320 | `filter` distributes over concatenation |
| RoomState.Initial | client/src/hooks/use-room.tsx:30-34 | empty code, language "javascript", no users, messages or cursors |
| RoomState.Apply | client/src/hooks/use-room.tsx:58-119 | each envelope touches only its own field: code for `code_update`, language for `language_update`, users for `user_joined`, users and cursors for `user_left`, cursors for `cursor_update`; chat envelopes are appended to the messages and nothing else ever changes them |
| RoomState.Receive | client/src/hooks/use-room.tsx:57-59 | a frame that does not parse changes nothing; the message history only grows |
| RoomState.ReceiveAll | client/src/hooks/use-room.tsx:57-119 | a run of unparsable frames changes nothing; over any run of frames the earlier messages stay a prefix of the history |
| RoomState.Upsert | client/src/hooks/use-room.tsx:71-83 | a new cursor id is appended; an existing one is replaced at the same index with the others unchanged; cursor ids stay unique |
| RoomState.AddUser | client/src/hooks/use-room.tsx:84-90 | the user is added only when no user has that id; the list never gains a duplicate id, and afterwards someone has that id |
| RoomState.UserLeftRemoves | client/src/hooks/use-room.tsx:96-98 | `user_left` removes exactly the users and cursors with that id and leaves the code, language and messages |
| RoomState.RemoveUserKeepsOrder | client/src/hooks/use-room.tsx:97 | the removal keeps the other users in their order |
| RoomState.ChatAppends | client/src/hooks/use-room.tsx:68-70 | `chat_message` appends the envelope and leaves earlier messages unchanged |
| RoomState.LastUpdateWins | client/src/hooks/use-room.tsx:62-67 | two code (or language) updates leave what the later one alone would |
| RoomState.ApplyKeepsInv | client/src/hooks/use-room.tsx:58-119 | every envelope keeps user ids and cursor ids unique |
| RoomState.ReachableInv | client/src/hooks/use-room.tsx:58-119 | any sequence of frames, malformed ones included, keeps the ids unique |
| RoomState.UpdateCode | client/src/hooks/use-room.tsx:160-172 | the local code is always set; `code_update` with `shouldPersist` is sent iff the connection is OPEN and the user and a room id exist |
| RoomState.UpdateLanguage | client/src/hooks/use-room.tsx:192-203 | the local language is always set; `language_update` is sent under the same condition |
| RoomState.PeersConverge | client/src/hooks/use-room.tsx:62-67 | a peer that applies the sent envelope has the sender's new code (or language) and keeps its other field |
| Compile.Sanitize | server/compile.ts:41 | the result holds only `a`-`z` and is no longer than the input |
| Compile.LowerSurvivor | server/compile.ts:41 | a lower-case letter stays; an upper-case ASCII letter becomes its lower case; U+0130 gives `i` and U+212A gives `k`; every other character (digits, `+`, `#`, ...) gives nothing |
| Compile.SanitizeIdempotent | server/compile.ts:41 | sanitising twice equals sanitising once |
| Compile.SanitizeConcat | server/compile.ts:41 | sanitising works character by character |
| Compile.CPlusPlusAndCSharpAreC | server/compile.ts:41 | "C++" and "C#" both sanitise to `c`, not to `cpp` or `csharp` |
| Compile.PlanFor | server/compile.ts:43-159 | per sanitised tag: `.js`/node, `.py`/python3, `.cpp`/g++, `.c`/gcc, `.cs`/csc then mono, Java by class name or the fixed failure, fixed html and css notices, otherwise "Unsupported language" with the original tag |
| Compile.ClassName | server/compile.ts:72-80 | there is no class name iff the greedy matcher succeeds at no position of the code |
| Compile.ClassNameIsLeftmostCapture | server/compile.ts:72-80 | the class name is the capture of the leftmost match of `public\s+class\s+([A-Za-z0-9_]+)`, and there is none iff nothing matches |
| Compile.MatchAtIsCapture | server/compile.ts:72 | the greedy matcher at a position succeeds with a name iff the pattern captures that name there |
| Compile.AfterPublicIsTail | server/compile.ts:72 | after `public`, the greedy matcher succeeds with a name iff white space, `class` and a class tail capturing that name follow |
| Compile.AfterClassIsTail | server/compile.ts:72 | after `class`, the greedy matcher succeeds with a name iff white space and then that name as a whole identifier follow |
| Compile.ClassNameIsIdentifier | server/compile.ts:80 | a found class name is a non-empty run of `[A-Za-z0-9_]` |
| Compile.Directory | server/compile.ts:82 | the path up to (not including) its last `/`, with no `/` after that point; the empty text when the path has no `/` |
| Compile.Commands | server/compile.ts:44-137 | fixed results run nothing; an interpreter runs `<interpreter> <path>`; C and C++ run `<compiler> <path> -o <path>.out` then `<path>.out`; C# runs `csc <path> -out:<path>.exe` then `mono <path>.exe`; Java runs `javac <path>` then `cd <directory> && java <class>` |
| Compile.CommandsByLanguage | server/compile.ts:43-137 | per sanitised tag, the exact commands: `node`, `python3`, `g++`, `gcc`, `csc`/`mono`, and `javac`/`java` with the class name found |
| Compile.RunAll | server/compile.ts:25-35 | success iff every command succeeds, with the last one's output; otherwise the first failure's error |
| Compile.ExecuteCode | server/compile.ts:38-167 | a fixed plan gives its fixed result; otherwise the result succeeds iff every command of the plan succeeds, with the last command's output |
| Compile.FixedResultsRunNothing | server/compile.ts:139-159 | html, css, unsupported tags and Java without a class give the same result whatever the command runner does |
| Compile.BuildFailureStopsRun | server/compile.ts:84-136 | when compiling fails, the result is that error and the program is not run |
| Schema.MessageWithId | shared/schema.ts:48-50 | a stored message is its insert shape plus the generated id |
| Schema.MessageShapesDifferOnlyInId | shared/schema.ts:48-53 | the message insert shape omits exactly `id` |
| Schema.SnippetWithId | shared/schema.ts:66-68 | a stored snippet is its insert shape plus the generated id |
| Schema.SnippetShapesDifferOnlyInId | shared/schema.ts:66-71 | the snippet insert shape omits exactly `id` |
| JsText.ParseIntOfDecimal | server/routes.ts:58 | `parseInt` reads back the decimal rendering of any integer, and stops at the first non-digit after it |
| JsText.ParseIntNoDigits | server/routes.ts:58 | text with no sign and no digit parses to NaN |
| Presence.CorrectedJoinedPayload | server/routes.ts:69-74 | the corrected `user_joined` payload: the joiner's name and time, and the same parsed user id the later `user_left` carries |
| Presence.AsWrittenLeaveKeepsUser | client/src/hooks/use-room.tsx:96-98 | with the payloads as the server writes them (`Router.JoinedPayload`), a peer still lists a user after their join and their leave |
| Presence.AsWrittenGhostUserExample | server/routes.ts:147-152 | user "7" joins an empty view and leaves, and the view still shows them |
| Presence.JoinThenLeaveRemovesUser | client/src/hooks/use-room.tsx:84-98 | with the corrected payload, join then leave removes the user and their cursors and keeps every other user |
| Presence.CorrectedJoinIsListed | client/src/hooks/use-room.tsx:84-90 | with the corrected payload, the joiner is listed and ids stay unique |

## Left out

- `DatabaseStorage` (SQL through Drizzle and Postgres) is not part of this model. Only the in-memory store is modelled.
- HTTP plumbing is not modelled: the database probe, authentication and its 401 answers, server creation, and the one-line 400 presence guards of the other REST routes. These routes only forward to the store methods that are modelled.
- Clocks and randomness are inputs: the current time, generated room ids, and the temporary file path.
- JSON parsing is not modelled. A frame that does not parse is the input `Malformed`, which changes nothing and sends nothing.
- Process and file-system work in the compiler is not modelled: temporary files, `exec` with its 10-second timeout, and `unlink`. A command runner is passed in as a function from command text to result.
- Async interleaving is not modelled. The router awaits the store (server/routes.ts:86, 90); each event is modelled as atomic.
- `Router.RoomServer.Heartbeat`: does not model `terminate` as an asynchronous close. It folds the close handler of each terminated socket into the sweep. `Router.RoomServer.Sweep` gives the sweep alone. Within one socket's messages the order of sends is not kept (a set per socket).
- The socket's `readyState` is set to OPEN by the handshake and to CLOSING by the sweep's `terminate`. A client-initiated close is not modelled: a socket that the client moves to CLOSING before its `close` event arrives is not modelled, and neither are the other transport-driven changes.
- `JsText.ParseInt`: reads integers of any size. JavaScript numbers lose precision beyond 2^53, and exponent forms are not produced.
- `Compile.LowerSurvivor`: implements `toLowerCase` only for ASCII letters and the two non-ASCII characters that lower-case into `a`-`z` (U+0130 and U+212A). Every other character lower-cases to something outside `a`-`z`, so it is removed either way.
- `Waitlist.PostWaitlist`: takes the e-mail as text or absent. A non-string JSON value is not modelled.
- The outer "An unexpected error occurred" catch of `executeCode` is not modelled. It is reachable only through the file-system calls that are left out.
- Toasts, navigation, and the `error` and `room_closed` effects of the client are left out. They are presentation only and leave the modelled state unchanged.
- The client's `join` and `leave` frames and `sendCursorPosition` are not modelled as client functions. The server drops `join` and `leave` (their type has no case) and relays `cursor_update` unchanged; both are covered by `Relay.RouteOf`.
- `sendMessage` is not modelled as a client function. Its frame is modelled on the server side as `ChatSend(None)`: the hook sends the text as `text`, so the server stores and rebroadcasts a rebuilt record without content (`Relay.HookChatLosesText`).
- A frame of a handled type that carries only some of that type's fields is not modelled. The model has either the full envelope or `Other`, which has none of the fields. `RoomState.Apply` leaves the state unchanged for an `Other` frame of a handled type, where the hook would store `undefined`.
- Session stores are not modelled.

## Findings

| source | as written | input that shows it | evidently intended | confidence | as-written member | corrected member |
|---|---|---|---|---|---|---|
| server/routes.ts:69-74, server/routes.ts:147-152, client/src/hooks/use-room.tsx:96-98 | `user_joined` sends the `userId` query text (a string); `Router.RoomServer.Connect` sends exactly this payload (`Router.JoinedPayload`). `user_left` sends `parseInt` of it (a number). The client removes users with `!==`, so the string entry is never removed. | a connection with `userId=7` joins a room with one other member and then closes | the departed user disappears from the other members' user lists | not executed | Presence.AsWrittenGhostUserExample | Presence.JoinThenLeaveRemovesUser |
