# Whiteboard session server, modelled in Dafny

The whiteboard's back end (`backend/server.js`) is a socket.io server that
lets several browsers share one drawing surface. It holds two pieces of
module-level state: `connectedUsers`, a JavaScript `Map` from socket id to a
user record `{id, color, cursor}`, and `drawingHistory`, the list of drawing
events replayed to every newcomer, cut back to its last 1000 entries. Six
socket handlers (`connection`, `drawing`, `cursor-move`, `color-change`,
`clear-canvas`, `disconnect`) read and update that state and emit events
either to the calling socket (`socket.emit`) or to every other connected
socket (`socket.broadcast.emit`).

The model has three modules:

- `OrderedMap` (`ordered_map.dfy`): a JavaScript `Map` as its sequence of
  `(key, value)` entries in insertion order, with `get`, `set`, `delete` and
  `values()`, and lemmas that give their meaning: `set` replaces a present
  key in place and appends a new one, `delete` removes the key, keeps the
  others in order and is a no-op on an absent key, and both keep keys unique.
- `History` (`history.dfy`): the 1000-entry bound, `slice(-1000)`, the push
  of the `drawing` handler, and the proof that any run of pushes keeps exactly
  the last `min(1000, n)` events in arrival order.
- `Whiteboard` (`whiteboard.dfy`): the payload values, the user record, the
  events, and a `Session` class whose fields are the registry, the history
  and an `outbox` of `(recipients, event)` records standing for the emits.
  There is one method per handler. Its `ensures` give the whole new state and
  the emitted events in terms of the `OrderedMap` and `History` functions. The
  class invariant `Valid()` says that the keys are unique, that every entry
  is keyed by its own user's id, and that the history is the last 1000 of the
  entries pushed since the last clear. `HistoryIsReplay` ties that invariant
  to the `History` replay lemmas, so the `min(1000, n)` property holds of the
  session's own history.

`scenarios.dfy` holds client runs built only on the handlers' contracts: a late
joiner is replayed exactly what was drawn before it joined; a departure is seen
by those who stay, followed by a roster without the one who left; a clear
leaves a later joiner a blank history; cursor and color events from a socket
with no registry entry change nothing.

What the model follows, where the code says so:

- A user is registered when the socket connects. There is no join message.
  The client's `user-info` emit has no handler on the server, so no display
  name is ever stored.
- At connect, the roster (`users-update`) goes only to the joiner. The others
  get only `user-joined`.
- `drawing` and `clear-canvas` do not look at the registry, so they act for
  any socket. Only `cursor-move` and `color-change` check `get(socket.id)`,
  and they drop the event silently when the socket has no entry.
- There is no duplicate-join error and no configurable capacity. `set` on a
  present id would reset that entry where it stands. The bound is the
  constant 1000.
- Object spread: the history entry is `{...data, userId, timestamp}`, so the
  server's stamp overrides any `userId` or `timestamp` the client sent. The
  cursor broadcast is `{userId, ...data}`, so a `userId` field in the client's
  payload is relayed in place of the sender's id (`Whiteboard.CursorPayload`).
- `Date.now()` is the `now` parameter of `OnDrawing`.

## Model

| member | source | states |
|---|---|---|
| `OrderedMap.KeysLength` | backend/server.js:39 | `values()` yields one value per entry, the i-th value being the i-th entry's |
| `OrderedMap.KeysAppend` | backend/server.js:29-39 | appending an entry appends its key to the keys and its value to `values()` |
| `OrderedMap.InValues` | backend/server.js:39 | a value is in `values()` exactly when some entry holds it |
| `OrderedMap.GetSomeIffPresent` | backend/server.js:64-65 | `get` finds a user exactly when the id has an entry |
| `OrderedMap.GetIsEntry` | backend/server.js:64-66 | what `get` returns is the value of that id's entry |
| `OrderedMap.GetSet` | backend/server.js:29-40 | after `set(id, v)`, `get(id)` is `v` |
| `OrderedMap.GetSetOther` | backend/server.js:29-33 | `set(id, v)` leaves every other id's value unchanged |
| `OrderedMap.SetFresh` | backend/server.js:29-33 | `set` of an absent id appends exactly one entry after the existing ones, which stay as they were |
| `OrderedMap.SetPresentKeys` | backend/server.js:66 | `set` of a present id keeps every key in its place |
| `OrderedMap.SetEntries` | backend/server.js:29-33 | every entry after `set(id, v)` is `(id, v)` or was there before |
| `OrderedMap.SetWellFormed` | backend/server.js:29-33 | `set` keeps the ids unique |
| `OrderedMap.DeleteRemoves` | backend/server.js:95 | after `delete(id)` the id has no entry and `get(id)` finds nothing |
| `OrderedMap.GetDeleteOther` | backend/server.js:95 | `delete(id)` leaves every other id's value unchanged |
| `OrderedMap.DeleteAbsent` | backend/server.js:95 | `delete` of an id with no entry is a no-op |
| `OrderedMap.DeleteKeys` | backend/server.js:95 | the ids left after `delete(id)` are exactly the other ids |
| `OrderedMap.DeleteEntries` | backend/server.js:95 | every entry left after `delete(id)` was there before and is not the id's |
| `OrderedMap.DeleteWellFormed` | backend/server.js:95 | `delete` keeps the ids unique |
| `OrderedMap.DeleteAt` | backend/server.js:95-97 | `delete` of the id at position i removes exactly that entry; the entries before and after it stay, in the same order, so the roster sent after a disconnect keeps join order |
| `History.Push` | backend/server.js:51-56 | after a push the history has at most 1000 entries, ends with the new event, and is the most recent part of the old history followed by it, i.e. `(h + [e]).slice(-1000)` |
| `History.LastOfLast` | backend/server.js:54-56 | cutting the history back to its last 1000 before later pushes does not change what the last 1000 will be |
| `History.ReplayKeepsLast` | backend/server.js:51-56 | any run of drawing events leaves exactly the last 1000 of the old history and the new events, in arrival order |
| `History.ReplayFromEmpty` | backend/server.js:51-56 | from an empty history, the history holds the last `min(1000, n)` of the `n` events pushed, in arrival order |
| `Whiteboard.Stamp` | backend/server.js:45-49 | the history entry keeps the client's fields, and its `userId` and `timestamp` are always the sender's id and the time |
| `Whiteboard.CursorPayload` | backend/server.js:67-70 | the cursor broadcast relays every field of the payload as sent, and carries the sender's id when the payload has no `userId` |
| `Whiteboard.HistoryIsReplay` | backend/server.js:51-56 | in every valid session the history is the replay, in arrival order, of the drawings since the start or the last clear, i.e. the last `min(1000, n)` of those `n` entries |
| `Whiteboard.Session.constructor` | backend/server.js:22-23 | the session starts with no users, an empty history and nothing emitted |
| `Whiteboard.Session.OnConnection` | backend/server.js:28-40 | one entry for the id with color `#000000` and cursor `{x: 0, y: 0}`, appended when the id is new, other entries unchanged, history unchanged; the joiner gets the history as it was, then the roster including itself; all others get `user-joined` with the new entry |
| `Whiteboard.Session.OnDrawing` | backend/server.js:43-60 | the stamped entry is pushed; the history stays the last 1000 entries since the last clear and ends with the entry, stamped with the sender's id; registry unchanged; the entry is broadcast to all but the sender |
| `Whiteboard.Session.OnCursorMove` | backend/server.js:63-72 | an unregistered sender changes nothing and emits nothing; otherwise only that user's cursor changes, in place, the history is untouched, and the move is broadcast to all but the sender |
| `Whiteboard.Session.OnColorChange` | backend/server.js:75-84 | an unregistered sender changes nothing and emits nothing; otherwise only that user's color changes, in place, the history is untouched, and `user-color-change` is broadcast to all but the sender |
| `Whiteboard.Session.UpdateUser` | backend/server.js:64-78 | the in-place update of a registered user's record keeps its position and leaves the other entries unchanged |
| `Whiteboard.Session.OnClearCanvas` | backend/server.js:87-90 | the history is empty whatever it held, the registry is unchanged, and `clear-canvas` is broadcast to all but the sender |
| `Whiteboard.Session.OnDisconnect` | backend/server.js:93-98 | the id's entry is gone (no-op if absent) and the other entries are unchanged; all but the departed get `user-left(id)`, then a roster that holds no user with that id and is the old roster without the departed's entry, in the same order |

## Left out

- Express setup, the CORS configuration, `server.listen`, the port and
  `console.log` (backend/server.js:1-19, 26, 94, 101-105): process and
  transport plumbing.
- socket.io delivery. An emit is an `outbox` record naming its recipients
  ("only this socket" or "every connected socket but this one"). Resolving
  those against the live connections, serialising the payload and at-most-once
  delivery are not modelled. The server never emits to every socket at once,
  so there is no "all" recipient.
- `Date.now()` (backend/server.js:48): a clock read, taken as the `now`
  parameter.
- Concurrency: Node runs one handler at a time, so the model runs the
  handlers one after another on one `Session`.
- Payload values: a JSON value is text, an integer, a boolean or null. JavaScript's
  floating-point numbers, nested objects and arrays are not modelled. The
  `cursor-move` and `drawing` payloads are taken to be objects: spreading a
  string, an array or `undefined` (index-keyed fields, or none) is not
  modelled. A `color-change` sent without an argument sets the color to
  `undefined` and its broadcast is serialised without a `color` field; the
  model's color is always a `Value`, so that case is not modelled. The field
  order of JavaScript objects is not modelled (a payload is a map).
- Object identity: the registry holds user records by value. JavaScript's
  in-place mutation `user.cursor = data` and `user.color = color` is modelled
  as replacing that entry where it stands, which is what any later `get` or
  `values()` observes.
- The front end (`frontend/src/context/socketcontext.jsx`,
  `frontend/src/components/canvas/canvas.jsx`,
  `frontend/src/components/whiteboard/whiteboard.jsx`,
  `frontend/src/components/sizepicker/sizepicker.jsx`): React state, canvas
  rendering, notification timers and the client's socket lifecycle.
