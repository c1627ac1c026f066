# chatosaurus server core, modelled in Dafny

chatosaurus is a small WebSocket chat server for Deno. It has five parts:

- **Server.** It accepts connections and gives each socket a random id. It keeps a list of connected sockets.
- **Messages.** Each inbound message `[evt, ...args]` goes through a chain of middlewares. Then `evt` is emitted on the server's event table.
- **Rooms.** Sockets gather in named rooms, held by a room registry. A room tells its members when someone joins or leaves. The registry drops a room that becomes empty unless the room is kept alive.
- **Events.** An event emitter maps event names to ordered lists of listeners. It has `on`, `only`, `once`, `off` and `emit`, plus the count queries.
- **Middleware.** A middleware runs and then decides whether to call `next`. That decides whether the rest of the chain runs.

The model follows the program's structure, one module per source file:

| module | file | models |
|---|---|---|
| `Protocol` | `protocol.dfy` | wire values and frames, the connected socket (`Client`), and the lookups by id that everything else uses |
| `Events` | `events.dfy` | `EventEmitter` |
| `MiddlewareChain` | `middleware.dfy` | `MiddleWareManager` |
| `Rooms` | `rooms.dfy` | `Room` |
| `Registry` | `registry.dfy` | `RoomManager` |
| `Server` | `server.dfy` | `WebSocketServer`: configuration and start-up, the connection registry, the connect, message and close handlers, and the per-socket closures `to`, `broadcast` and `leaveAll` |

Objects that the source updates in place are classes with `modifies` frames:

- the emitter;
- the middleware manager;
- each room and its member list;
- the registry;
- the server;
- each socket, with its `rooms` list and its outbox.

A socket's outbox is the sequence of every frame sent to it so far, so every `sendJSON`, `send` and `invoke` becomes a visible state change. The lookups and the table transformations are pure functions.

How the model represents the rest:

- **Listeners** are identities, not code. `Plain(cb)` is a callback passed to `on` or `only`. `Once(token, cb)` is the self-removing wrapper closure that `once` creates. A new `token` per call models that each call makes a new closure.
- **Emit** returns the list of callback invocations it made, in order, with their arguments.
- **A middleware** is a pair of functions: the change it makes to the shared context, and whether it then calls `next`.
- **A socket's fresh id** (`crypto.randomUUID()`) is a parameter of `Connected`. The parameter must differ from every connected id.
- **The TLS/TCP listener** is a `Listening` value. `start()` throwing is a `Failure` result.
- **The event table** is a plain object, so a name it does not own reads what it inherits from `Object.prototype` (`constructor`, `toString`, …). Deno removes the `__proto__` accessor, so `__proto__` is an ordinary name here. On such a name `on`, `once`, `off` and `emit` throw and change nothing. `only` installs nothing. `listenerCount` gives the length of the inherited property, which is the arity of the inherited function. The methods return a `threw` flag for these cases.
- **Default arguments** are Dafny default parameter values: `{ hostname: "localhost", port: 8000 }` for the server, `("", false)` for a room, and `keepAlive = false` for `create`.
- **The registry's liveness rule** is the predicate `RoomManager.Live`: every registered room has a member or is kept alive. `join` and `leave` preserve it. `create` of a new id breaks it, and so does `disconnected`, which bypasses the registry.
- **Two `RoomManager` operations are split by case.** `join` and `leave` are each split into one method per case: room registered or not. This keeps each proof small. Each case runs the source's statements in the source's order.

## Model

| member | source | states |
|---|---|---|
| Protocol.Client.constructor | src/WebSocketServer.ts:121-125 | a socket starts with its id, an empty room list and nothing sent |
| Protocol.Client.Invoke | src/WebSocketServer.ts:156-158 | `invoke(evt, ...args)` appends exactly the frame `[evt, ...args]` to that socket's outbox |
| Protocol.IndexOfId | src/WebSocketServer.ts:214 | `findIndex` gives -1 exactly when no client has the id; otherwise it gives the FIRST position holding it |
| Protocol.FindById | src/WebSocketServer.ts:163-165 | `find` by id gives none exactly when the id is absent; otherwise the first listed client with that id |
| Protocol.WithoutId | src/rooms/Room.ts:37-39 | the id filter never lengthens the list |
| Protocol.InWithoutId | src/rooms/Room.ts:37-39 | a client survives the filter if and only if it was listed and has a different id |
| Protocol.WithoutIdDistinct | src/rooms/Room.ts:37-39 | filtering keeps member ids pairwise distinct |
| Protocol.WithoutIdSplit | src/rooms/Room.ts:37-39 | the filter keeps member order: filtering a concatenation filters each part |
| Protocol.WithoutIdTwice | src/rooms/Room.ts:36-41 | leaving twice is leaving once: the filter is idempotent |
| Protocol.WithoutAbsentId | src/rooms/Room.ts:37-39 | filtering an id that nobody has changes nothing |
| Protocol.WithoutAppended | src/rooms/Room.ts:26-41 | a new socket that joins and then leaves restores the member list exactly |
| Protocol.InvokeAll | src/rooms/Room.ts:48-52 | a `forEach` send: every listed socket receives exactly one more frame `[evt, ...args]` |
| Events.Registered | src/tools/EventDispatcher.ts:27-35 | `on` appends the listener to the event's list, creating the list if absent; other events are untouched |
| Events.Installed | src/tools/EventDispatcher.ts:43-51 | `only` installs `[l]` only when the event has no entry at all (an existing, even empty, entry blocks it) |
| Events.Without | src/tools/EventDispatcher.ts:81-83 | the identity filter keeps exactly the other listeners and drops every occurrence of `l` |
| Events.WithoutSplit | src/tools/EventDispatcher.ts:81-83 | the filter keeps the remaining listeners in registration order: filtering a concatenation filters each part |
| Events.WithoutCount | src/tools/EventDispatcher.ts:81-83 | every other listener stays as many times as it was registered; `l` stays zero times |
| Events.Deregistered | src/tools/EventDispatcher.ts:76-85 | `off` removes every occurrence of the listener from that event only; the key set is unchanged |
| Events.WithoutOnce | src/tools/EventDispatcher.ts:94-103 | what remains after each once-wrapper removed itself is exactly the plain listeners |
| Events.WithoutOnceSplit | src/tools/EventDispatcher.ts:59-103 | the plain listeners that remain after an emit keep their order and multiplicity |
| Events.Emitted | src/tools/EventDispatcher.ts:59-68 | after `emit(e)` only plain listeners that were there remain under `e`; other events are untouched |
| Events.TotalRemove | src/tools/EventDispatcher.ts:129-138 | the total listener count does not depend on which key is summed first |
| Events.TotalUpdate | src/tools/EventDispatcher.ts:129-138 | replacing one list changes the total by the difference of the two lengths |
| Events.TotalRegistered | src/tools/EventDispatcher.ts:27-35 | `on` raises the total listener count by exactly one |
| Events.TotalDeregistered | src/tools/EventDispatcher.ts:76-85 | `off` lowers the total by the number of times the listener was registered under that event |
| Events.TotalBoundsCount | src/tools/EventDispatcher.ts:119-138 | one event's count never exceeds the total |
| Events.OnlyBlockedByEmptiedEntry | src/tools/EventDispatcher.ts:43-51 | after `on(e, a)` then `off(e, a)` on a new event, `only(e, b)` registers nothing |
| Events.PurgedNothing | src/tools/EventDispatcher.ts:59-68 | before any listener has run, the table is the one emit started from |
| Events.PurgedStep | src/tools/EventDispatcher.ts:59-103 | running one more listener removes it if it is a once-wrapper, and nothing otherwise |
| Events.PurgedAll | src/tools/EventDispatcher.ts:59-68 | once every listener of the list has run, only its plain listeners remain |
| Events.EventEmitter.constructor | src/tools/EventDispatcher.ts:19 | a new emitter has an empty table |
| Events.EventEmitter.On | src/tools/EventDispatcher.ts:27-35 | throws exactly on an inherited name, leaving the table as it was; otherwise the table becomes `Registered(old, e, l)` |
| Events.EventEmitter.Only | src/tools/EventDispatcher.ts:43-51 | an inherited name installs nothing; otherwise the table becomes `Installed(old, e, Plain(cb))` |
| Events.EventEmitter.Off | src/tools/EventDispatcher.ts:76-85 | throws exactly on an inherited name; the table becomes `Deregistered(old, e, l)`, which is the old table on an inherited name since none is ever an own key |
| Events.EventEmitter.Once | src/tools/EventDispatcher.ts:94-103 | makes a wrapper whose identity no listener had before; throws exactly on an inherited name and changes nothing then; otherwise the table becomes `Registered` with the wrapper |
| Events.EventEmitter.Emit | src/tools/EventDispatcher.ts:59-68 | throws exactly on an inherited name, before any listener runs; otherwise calls each listener present at the start in registration order, each once with the same arguments, and every once-wrapper removes itself, as `Emitted` says |
| Events.EventEmitter.EmitOwn | src/tools/EventDispatcher.ts:63-67 | the loop over an own list: every listener of the snapshot is called in order with the arguments; the table ends as `Emitted` |
| Events.EventEmitter.RunListener | src/tools/EventDispatcher.ts:59-103 | calling one listener of the snapshot: a once-wrapper takes itself off the current list before forwarding |
| Events.EventEmitter.RemoveAllListeners | src/tools/EventDispatcher.ts:108-111 | the table becomes empty; the total is 0, and so is the count of every name that is not inherited |
| Events.EventEmitter.ListenerCount | src/tools/EventDispatcher.ts:119-122 | an inherited name gives the inherited function's arity; any other name gives its own list's length (0 without an entry), never more than the total |
| Events.EventEmitter.TotalListenerCount | src/tools/EventDispatcher.ts:129-138 | the loop's sum equals `Total` of the table |
| Events.OnceFiresOnce | src/tools/EventDispatcher.ts:87-103 | a `once` callback fires on the first of two emits and not on the second; on an inherited name the `once` itself throws |
| Events.InheritedCountAboveTotal | src/tools/EventDispatcher.ts:119-138 | on a new emitter `listenerCount("constructor")` is 1 while `totalListenerCount()` is 0 |
| MiddlewareChain.ReachedStep | src/middleware/MiddleWareManager.ts:19-29 | each middleware sees the shared context as changed by exactly the middlewares before it |
| MiddlewareChain.AllPassedShift | src/middleware/MiddleWareManager.ts:26-28 | the rest of the chain is reached if and only if the first middleware calls `next` and the rest passes on |
| MiddlewareChain.Iterate | src/middleware/MiddleWareManager.ts:19-29 | an empty chain returns at once; middleware i runs if and only if every earlier one called `next`; each runs on the context as changed so far; the final context is the last entered one's change |
| MiddlewareChain.MiddleWareManager.constructor | src/middleware/MiddleWareManager.ts:5-7 | the list starts empty |
| MiddlewareChain.MiddleWareManager.Use | src/middleware/MiddleWareManager.ts:12-14 | appends the middlewares in argument order |
| MiddlewareChain.MiddleWareManager.ExecuteMiddleware | src/middleware/MiddleWareManager.ts:34-36 | runs `Iterate` over the current list; an empty list leaves the context as it is |
| Rooms.Room.constructor | src/rooms/Room.ts:16-20 | a room has its id and keep-alive flag, by default `""` and not kept alive, and no members |
| Rooms.Room.Invoke | src/rooms/Room.ts:48-52 | every member receives one frame `[evt, ...args]` |
| Rooms.Room.Join | src/rooms/Room.ts:26-30 | a member id already present changes nothing and sends nothing; otherwise the earlier members get the join notice, then the socket is appended, and it gets no notice |
| Rooms.Room.Leave | src/rooms/Room.ts:36-41 | the list becomes the id filter (membership both ways); every earlier member except the leaver gets the leave notice, even when the socket was not a member |
| Rooms.Room.Clients | src/rooms/Room.ts:58-60 | the member list, ids pairwise distinct |
| Registry.FindRoom | src/rooms/RoomManager.ts:30-32 | none exactly when no room has the id; with distinct ids, the only room with it |
| Registry.WithoutRoom | src/rooms/RoomManager.ts:71 | exactly the rooms with another id remain |
| Registry.WithoutRoomSplit | src/rooms/RoomManager.ts:71 | dropping a room keeps the other rooms in registry order |
| Registry.WithoutRoomDistinct | src/rooms/RoomManager.ts:71 | dropping a room keeps room ids distinct |
| Registry.WithoutRoomRemovesOne | src/rooms/RoomManager.ts:70-72 | with distinct ids, dropping a registered id shrinks the registry by exactly one |
| Registry.WithoutAbsentRoom | src/rooms/RoomManager.ts:71 | dropping an unregistered id changes nothing |
| Registry.Pruned | src/rooms/RoomManager.ts:66-74 | after leaving rooms `ids`, exactly the rooms that did not die remain; their order is stated by `PrunedSplit` and `PrunedStep` |
| Registry.PrunedSplit | src/rooms/RoomManager.ts:66-74 | pruning a concatenation prunes each part, so the surviving rooms keep their order |
| Registry.PrunedNone | src/WebSocketServer.ts:140-144 | leaving no room drops nothing |
| Registry.PrunedStep | src/rooms/RoomManager.ts:66-74 | leaving one more room drops that room when it dies, and nothing else |
| Registry.FindInPruned | src/rooms/RoomManager.ts:66-74 | after the leaves, a lookup finds the room unless it died |
| Registry.NoticesSnoc | src/WebSocketServer.ts:140-144 | leaving one more room adds that room's notice after the earlier ones |
| Registry.RoomManager.constructor | src/rooms/RoomManager.ts:13-15 | the registry starts empty |
| Registry.RoomManager.AllRooms | src/rooms/RoomManager.ts:21-23 | the registered rooms, ids pairwise distinct |
| Registry.RoomManager.GetRoom | src/rooms/RoomManager.ts:30-32 | the room with that id, none exactly when it is absent |
| Registry.RoomManager.Create | src/rooms/RoomManager.ts:41-48 | an existing room comes back unchanged, with its own keep-alive flag; otherwise a new empty room is appended, not kept alive by default; either way the registry then finds it by id, and nobody becomes a member; consistency is preserved |
| Registry.RoomManager.Join | src/rooms/RoomManager.ts:55-59 | creates a not-kept-alive room if absent; pushes the id onto the socket's list even when it is already a member; the room's members become `old` plus the socket unless its id was there; only the earlier members are notified; other rooms are untouched; `Live` is preserved |
| Registry.RoomManager.JoinRegistered | src/rooms/RoomManager.ts:55-59 | `join` on a registered id: no room is added; the members and notices are as `Join` says; `Live` is preserved |
| Registry.RoomManager.JoinNew | src/rooms/RoomManager.ts:55-59 | `join` on a new id: one fresh room, not kept alive, is appended; the socket is its only member; nobody is notified; `Live` is preserved |
| Registry.RoomManager.Enter | src/rooms/RoomManager.ts:57-58 | the push then the room join: the id goes onto the socket's list; the room gains the socket unless its id was there, and only then are the earlier members told; other rooms are untouched; every member's room list stays consistent |
| Registry.RoomManager.EnterEmpty | src/rooms/RoomManager.ts:57-58 | entering a registered room with no members makes the socket its only member and sends nothing |
| Registry.RoomManager.Leave | src/rooms/RoomManager.ts:66-74 | an unknown id changes nothing; otherwise the socket is filtered out, the room is dropped exactly when it is then empty and not kept alive, and its other earlier members are told; the socket's own room list is kept; `Live` is preserved |
| Registry.RoomManager.LeaveFound | src/rooms/RoomManager.ts:68-73 | the found room loses the socket by the id filter; it is dropped exactly when it is then empty and not kept alive; its earlier members other than the leaver are told; `Live` is preserved |
| Registry.RoomManager.Depart | src/rooms/RoomManager.ts:69 | the room's `leave` on a registered room keeps the registry valid and consistent, and adds no member |
| Registry.RoomManager.DropRoom | src/rooms/RoomManager.ts:71 | the registry becomes `WithoutRoom` of the id; it stays valid and consistent and loses rooms and members only |
| Registry.CreateThenGet | tests/RoomManager_test.ts:8-26 | a new registry has no room; after `create` it has one, which `getRoom` finds with no clients |
| Registry.CreateBreaksLive | src/rooms/RoomManager.ts:41-48 | `create` of a new id on an empty registry, which satisfies `Live`, leaves a registry that does not: an empty room, not kept alive |
| Registry.JoinThenLeave | src/rooms/RoomManager.ts:55-74 | join then leave by the only member drops the not-kept-alive room; the socket keeps the id on its own list and receives no notice |
| Server.Listen | src/WebSocketServer.ts:70-84 | fails with "certfile or keyFile are not defined" if and only if secure and a file path is missing or empty; a secure start listens over TLS with the configured host, port and files; otherwise it serves the listener bound at construction |
| Server.SpliceStart | src/WebSocketServer.ts:219 | a negative start counts back from the end; a start past the end gives the length, and one before the front gives 0 |
| Server.SpliceOne | src/WebSocketServer.ts:219 | `splice(start, 1)`: one element goes at the start position and the later ones shift down |
| Server.SpliceFound | src/WebSocketServer.ts:214-219 | with distinct ids, splicing out the found index removes exactly the client with that id |
| Server.SpliceNotFound | src/WebSocketServer.ts:214-219 | with the id not listed, the splice at -1 removes the LAST client, whose id is different |
| Server.SpliceDistinct | src/WebSocketServer.ts:219 | splicing keeps connection ids distinct |
| Server.Unlisted | src/WebSocketServer.ts:213-220 | the corrected removal: a socket that is not listed removes nothing; with distinct ids, exactly that socket goes |
| Server.WebSocketServer.constructor | src/WebSocketServer.ts:51-64 | by default `localhost:8000`, not secure; a plain listener on the configured host and port; fresh empty registry, chain and event table; no connections |
| Server.WebSocketServer.Start | src/WebSocketServer.ts:70-84 | the outcome is `Listen(config, old listener)`; on success the server listens on exactly the listener it returns; on failure the listener is kept |
| Server.WebSocketServer.SetConfig | src/WebSocketServer.ts:273-277 | the configuration is replaced; the listener bound at construction stays |
| Server.WebSocketServer.Connected | src/WebSocketServer.ts:121-183 | a fresh socket with the new id and no rooms is appended; "onConnect" listeners are called in order with the socket and the headers |
| Server.WebSocketServer.To | src/WebSocketServer.ts:163-165 | the connected socket with that id, none exactly when it is not connected |
| Server.WebSocketServer.Broadcast | src/WebSocketServer.ts:284-288 | every connected socket receives exactly one frame `[evt, ...args]` |
| Server.WebSocketServer.Message | src/WebSocketServer.ts:190-199 | the chain runs on `{evt, ws, data}`; then `evt`'s listeners are called with the socket and the data as the chain left it, whether or not the chain finished; the handler throws exactly when `evt` is an inherited name |
| Server.WebSocketServer.LeaveAll | src/WebSocketServer.ts:140-144 | the registry becomes `Pruned` by the socket's room list; each listed room loses the socket, the others are unchanged; each member gets the leave notices in room order |
| Server.WebSocketServer.LeaveOneRoom | src/WebSocketServer.ts:141-143 | one round of `leaveAll` extends the prune, the member lists and the notices by that room: a registered room loses the socket and dies when emptied and not kept alive; an id no longer registered changes nothing and tells nobody |
| Server.WebSocketServer.LeaveRegistered | src/rooms/RoomManager.ts:66-74 | `rooms.leave(x, socket)` on a registered room: it loses the socket and is dropped when then empty and not kept alive; only its earlier members other than the leaver are told; every other room keeps its list |
| Server.WebSocketServer.LeaveUnregistered | src/rooms/RoomManager.ts:66-68 | `rooms.leave(x, socket)` when no room `x` is registered: no list, room or outbox changes |
| Server.WebSocketServer.Disconnected | src/WebSocketServer.ts:213-220 | as written: reports "not found" if and only if the id is absent; the socket leaves each listed room directly, so no room is dropped; the list becomes the splice at the lookup's index |
| Server.WebSocketServer.DisconnectedGuarded | src/WebSocketServer.ts:213-220 | corrected: same room effects, and the list loses exactly the socket, or nothing when it is absent |
| Server.WebSocketServer.LeaveListedRooms | src/WebSocketServer.ts:218 | each listed room that is registered loses the socket; every member gets the notices in order; the registry is unchanged and stays consistent |
| Server.WebSocketServer.LeaveEachListed | src/WebSocketServer.ts:218 | the loop over the socket's room list, against the member lists it started from |
| Server.WebSocketServer.LeaveListedRoom | src/WebSocketServer.ts:218 | one `getRoom(r)?.leave(client)`: that room's list is filtered and its other members are told |
| Server.ConstructorFrameThrows | src/WebSocketServer.ts:190-199 | a message `["constructor"]` from any socket makes the handler throw |
| Server.DisconnectedBreaksLive | src/WebSocketServer.ts:213-220 | a socket joins a room through the registry, so `Live` holds; when it closes, every room it emptied stays registered, so `Live` fails |
| Server.StartAfterSetConfig | src/WebSocketServer.ts:70-84 | after the setter, a plain start serves the listener bound to the construction-time address, and a secure start fails exactly when a file path is missing |

## Left out

- The HTTP side is not modelled: `reqHandler`, the upgrade check with its 501 response, and `serve`. `Deno.listen`/`listenTls` only record the address.
- `stop()` is not modelled: closing a listener is I/O.
- Server.Listen: the constructor binds a plain listener on the configured host and port (src/WebSocketServer.ts:56-59), and nothing closes it before `start()` binds TLS on the same address (:75-80). Read as text, a secure start on a fixed port would therefore fail with "address in use", but the model reports a successful TLS start, because it records addresses and does not model sockets. Nothing was executed.
- `handleError` and `logError` only write to the console. `Disconnected` reports the "user not found" case as its `notFound` result.
- `JSON.parse` of an inbound message and `JSON.stringify` of outbound frames are left out. `Message` takes the parsed `evt` and arguments.
- A message that is not a JSON array is not handled. Neither is a frame passed to `sendJSON` that is not of the form `[evt, ...args]`.
- `crypto.randomUUID()` is the `id` parameter of `Connected`. Its uniqueness is a precondition.
- Asynchrony and interleaving are left out. Each handler runs to completion, and so does each middleware's `next`.
- A listener's own side effects are not modelled: a nested `emit`, or an `on`/`off` from inside a listener.
- Symbol event names are not modelled; event names are strings.
- The code a middleware runs after `await next()` is not modelled, and neither is calling `next` twice.
- Server.WebSocketServer.Message: the listeners get `Payloads(run.final.data)`, the `data` as the chain left it. The source builds `arg` (src/WebSocketServer.ts:192), passes that same array to the chain as `data` and emits `arg` (:198), so a middleware's change shows only when it mutates `data` in place, not when it rebinds `context.data`. The model treats both alike.
- Changes to `context.evt` and `context.ws` are ignored, as the source does: it emits the original `evt` and socket.
- The getters `clients`, `rooms` and `roomManager` hand out the live arrays, so a caller could edit them. That aliasing is not modelled; reads go through the functions.
- The server's `use` and `event` methods are not modelled. They delegate directly to `MiddleWareManager.Use` and `EventEmitter.On`.
- Server.WebSocketServer.SetConfig: the setter ignores a falsy argument (`if (config)` at src/WebSocketServer.ts:274); a `Config` value is never falsy, so that branch is not modelled.
- Events.EventEmitter.EmitOwn: a listener that throws stops the loop at src/tools/EventDispatcher.ts:65, and the later listeners do not run. Listeners are identities here and never throw, so every listener of the snapshot is called.
- Server.WebSocketServer.Message: a middleware that throws rejects `message` before the emit at src/WebSocketServer.ts:198. Middlewares are total functions here, so the emit always happens.
- Rooms.Room: `id` and `keepAlive` are public mutable fields in the source, but the model makes them `const`. No code in the core reassigns them; application code that did would break the registry's lookups by id.
- Protocol.Value: JSON numbers are modelled as integers. Fractions and exponents are left out.
- Server.WebSocketServer.Disconnected: accepts any socket. In the source, a socket whose `onopen` never ran has no `rooms` array, so the handler throws at src/WebSocketServer.ts:218 before the splice.
- The per-socket `join`, `leave` and `room` closures are not modelled separately. They call `RoomManager.Join`, `RoomManager.Leave` and `RoomManager.GetRoom`, which are.
- The server extends `EventEmitter` in the source. The model uses composition: an `events` field.
- `src/tools/Sleep.ts` and `src/WebSocketClient.ts`, the client side, are not part of this model.
- Protocol.WithoutId: membership in its result is stated by the lemma `InWithoutId`, not in its own `ensures`.

## Findings

| source | as written | input that shows it | evidently intended | confidence | as-written member | corrected member |
|---|---|---|---|---|---|---|
| src/WebSocketServer.ts:214-219 | when the closing socket is not in the connection list, `findIndex` gives -1, only a message is logged, and `splice(-1, 1)` still runs | a close event for a socket whose id application code has removed from the live `clients` array (src/WebSocketServer.ts:241-243 hands it out), while at least one other socket is connected | skip the splice when the socket is not listed | not executed | Server.SpliceNotFound, Server.WebSocketServer.Disconnected | Server.Unlisted, Server.WebSocketServer.DisconnectedGuarded |

`splice(-1, 1)` removes the last connected socket, which is an unrelated connection.
