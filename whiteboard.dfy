/**
 The whiteboard server's session state and its socket handlers.

 The server keeps two pieces of state shared by all connections: the
 registry of connected users (a `Map` from socket id to the user's record)
 and the drawing history replayed to newcomers. Each socket handler reads
 and updates them, then emits events, either to the socket itself
 (`socket.emit`) or to every other connected socket (`socket.broadcast.emit`).
 Here the session is a `Session` object, a handler is a method on it, and
 every emit is appended to `outbox` as an `(recipients, event)` record.
 */
module Whiteboard {
  import opened OrderedMap
  import History

  /** A socket.io connection id; the registry's key and the user's id. */
  type SocketId = string

  /** A JSON value as carried in an event payload. */
  datatype Value = Text(s: string) | Num(n: int) | Bool(b: bool) | Null

  /**
   A JSON object: field name to value. Object spread `{...a, ...b}` is the
   map union `a + b`, the fields written later winning.
   */
  type Record = map<string, Value>

  /** A registry entry: `{id, color, cursor}`. */
  datatype User = User(id: SocketId, color: Value, cursor: Record)

  /** The color every user starts with. */
  const DefaultColor: Value := Text("#000000")

  /** The cursor every user starts with, `{x: 0, y: 0}`. */
  const Origin: Record := map["x" := Num(0), "y" := Num(0)]

  /** The record registered for a new connection. */
  function NewUser(id: SocketId): User
  {
    User(id, DefaultColor, Origin)
  }

  /**
   The history entry made from a `drawing` payload, `{...data, userId, timestamp}`:
   the client's fields are kept, but the server's `userId` and `timestamp`
   override any the client sent.
   */
  function Stamp(data: Record, id: SocketId, now: int): (r: Record)
    ensures r.Keys == data.Keys + {"userId", "timestamp"}
    ensures r["userId"] == Text(id) && r["timestamp"] == Num(now)
    ensures forall k :: k in data && k != "userId" && k != "timestamp" ==> r[k] == data[k]
  {
    data["userId" := Text(id)]["timestamp" := Num(now)]
  }

  /**
   The `cursor-move` broadcast, `{userId, ...data}`: the spread comes last,
   so every field of the client's payload is relayed as sent, and the sender's
   id is the `userId` only when the payload has no `userId` of its own.
   */
  function CursorPayload(id: SocketId, data: Record): (r: Record)
    ensures r.Keys == data.Keys + {"userId"}
    ensures forall k :: k in data ==> r[k] == data[k]
    ensures "userId" !in data ==> r["userId"] == Text(id)
  {
    map["userId" := Text(id)] + data
  }

  /** The events the server emits, with their payloads. */
  datatype Event =
    | DrawingHistory(entries: seq<Record>)
    | UsersUpdate(users: seq<User>)
    | UserJoined(user: User)
    | UserLeft(userId: SocketId)
    | Drawing(entry: Record)
    | CursorMove(payload: Record)
    | UserColorChange(userId: SocketId, color: Value)
    | ClearCanvas

  /**
   The addressees of an emit: `socket.emit` reaches only that socket,
   `socket.broadcast.emit` every connected socket except that one.
   */
  datatype Recipients = Only(socket: SocketId) | AllExcept(socket: SocketId)

  datatype Emit = Emit(to: Recipients, event: Event)

  /** Every registry entry is keyed by its own user's id. */
  ghost predicate KeyedById(users: seq<(SocketId, User)>)
  {
    forall e :: e in users ==> e.1.id == e.0
  }

  /**
   In any valid session the history is what the drawings since the start or
   the last clear, replayed in arrival order, leave: the last
   `min(Capacity, n)` of those `n` entries.
   */
  lemma HistoryIsReplay(s: Session)
    requires s.Valid()
    ensures s.history == History.Replay([], s.drawnSinceClear)
    ensures |s.history| == if |s.drawnSinceClear| < History.Capacity then |s.drawnSinceClear| else History.Capacity
    ensures s.history == s.drawnSinceClear[|s.drawnSinceClear| - |s.history|..]
  {
    History.ReplayKeepsLast([], s.drawnSinceClear);
    assert [] + s.drawnSinceClear == s.drawnSinceClear;
  }

  class Session {
    /** `connectedUsers`, in insertion order. */
    var users: seq<(SocketId, User)>
    /** `drawingHistory`. */
    var history: seq<Record>
    /** Every event emitted so far, in emission order. */
    var outbox: seq<Emit>
    /** Every history entry pushed since the start or the last clear, evicted or not. */
    ghost var drawnSinceClear: seq<Record>

    ghost predicate Valid()
      reads this
    {
      && WellFormed(users)
      && KeyedById(users)
      && history == History.Last(drawnSinceClear, History.Capacity)
    }

    /** The module-level state at server start: an empty `Map` and an empty history. */
    constructor ()
      ensures Valid()
      ensures users == [] && history == [] && outbox == [] && drawnSinceClear == []
    {
      users := [];
      history := [];
      outbox := [];
      drawnSinceClear := [];
    }

    /**
     The `connection` handler: register the socket with the default color
     and cursor, send the joiner the history as it stood and the roster
     (itself included), and tell everybody else who joined.
     */
    method OnConnection(id: SocketId)
      requires Valid()
      modifies this
      ensures Valid()
      ensures users == Set(old(users), id, NewUser(id))
      ensures Get(users, id) == Some(NewUser(id))
      ensures forall k :: k != id ==> Get(users, k) == Get(old(users), k)
      ensures id !in Keys(old(users)) ==> users == old(users) + [(id, NewUser(id))]
      ensures NewUser(id) in Values(users)
      ensures id !in Keys(old(users)) ==> Values(users) == Values(old(users)) + [NewUser(id)]
      ensures history == old(history) && drawnSinceClear == old(drawnSinceClear)
      ensures outbox == old(outbox) + [
                Emit(Only(id), DrawingHistory(old(history))),
                Emit(Only(id), UsersUpdate(Values(users))),
                Emit(AllExcept(id), UserJoined(NewUser(id)))]
    {
      ghost var before := users;
      users := Set(users, id, NewUser(id));
      GetSet(before, id, NewUser(id));
      SetWellFormed(before, id, NewUser(id));
      forall e | e in users ensures e.1.id == e.0 {
        SetEntries(before, id, NewUser(id), e);
      }
      forall k | k != id ensures Get(users, k) == Get(before, k) {
        GetSetOther(before, id, NewUser(id), k);
      }
      if id !in Keys(before) {
        SetFresh(before, id, NewUser(id));
        KeysAppend(before, id, NewUser(id));
      }
      GetIsEntry(users, id);
      InValues(users, NewUser(id));

      outbox := outbox + [Emit(Only(id), DrawingHistory(history))];
      outbox := outbox + [Emit(Only(id), UsersUpdate(Values(users)))];
      var joined := Get(users, id);
      outbox := outbox + [Emit(AllExcept(id), UserJoined(joined.value))];
    }

    /**
     The `drawing` handler: stamp the payload with the sender and the time,
     push it, cut the history back to the last `Capacity` entries if it grew
     past them, and relay the entry to everybody else. The registry is not
     consulted: a drawing from any socket is recorded.
     */
    method OnDrawing(id: SocketId, data: Record, now: int)
      requires Valid()
      modifies this
      ensures Valid()
      ensures users == old(users)
      ensures drawnSinceClear == old(drawnSinceClear) + [Stamp(data, id, now)]
      ensures history == History.Push(old(history), Stamp(data, id, now))
      ensures |history| <= History.Capacity
      ensures history[|history| - 1] == Stamp(data, id, now)
      ensures history[|history| - 1]["userId"] == Text(id)
      ensures outbox == old(outbox) + [Emit(AllExcept(id), Drawing(Stamp(data, id, now)))]
    {
      var entry := Stamp(data, id, now);
      history := history + [entry];
      if |history| > History.Capacity {
        history := History.Last(history, History.Capacity);
      }
      History.LastOfLast(drawnSinceClear, [entry], History.Capacity);
      drawnSinceClear := drawnSinceClear + [entry];
      outbox := outbox + [Emit(AllExcept(id), Drawing(entry))];
    }

    /**
     The `cursor-move` handler: if the sender is registered, replace its
     cursor with the payload and relay the move to everybody else; otherwise
     do nothing at all.
     */
    method OnCursorMove(id: SocketId, data: Record)
      requires Valid()
      modifies this
      ensures Valid()
      ensures history == old(history) && drawnSinceClear == old(drawnSinceClear)
      ensures Keys(users) == Keys(old(users))
      ensures forall k :: k != id ==> Get(users, k) == Get(old(users), k)
      ensures match old(Get(users, id))
                case None => users == old(users) && outbox == old(outbox)
                case Some(u) =>
                  && users == Set(old(users), id, u.(cursor := data))
                  && Get(users, id) == Some(u.(cursor := data))
                  && outbox == old(outbox) + [Emit(AllExcept(id), CursorMove(CursorPayload(id, data)))]
    {
      var user := Get(users, id);
      if user.Some? {
        GetSomeIffPresent(users, id);
        GetIsEntry(users, id);
        UpdateUser(id, user.value.(cursor := data));
        outbox := outbox + [Emit(AllExcept(id), CursorMove(CursorPayload(id, data)))];
      }
    }

    /**
     The `color-change` handler: if the sender is registered, replace its
     color and relay the change to everybody else; otherwise do nothing at all.
     */
    method OnColorChange(id: SocketId, color: Value)
      requires Valid()
      modifies this
      ensures Valid()
      ensures history == old(history) && drawnSinceClear == old(drawnSinceClear)
      ensures Keys(users) == Keys(old(users))
      ensures forall k :: k != id ==> Get(users, k) == Get(old(users), k)
      ensures match old(Get(users, id))
                case None => users == old(users) && outbox == old(outbox)
                case Some(u) =>
                  && users == Set(old(users), id, u.(color := color))
                  && Get(users, id) == Some(u.(color := color))
                  && outbox == old(outbox) + [Emit(AllExcept(id), UserColorChange(id, color))]
    {
      var user := Get(users, id);
      if user.Some? {
        GetSomeIffPresent(users, id);
        GetIsEntry(users, id);
        UpdateUser(id, user.value.(color := color));
        outbox := outbox + [Emit(AllExcept(id), UserColorChange(id, color))];
      }
    }

    /**
     The in-place update of a registered user's record (`user.cursor = …`,
     `user.color = …`): the entry keeps its place, and no other entry changes.
     */
    method UpdateUser(id: SocketId, updated: User)
      requires Valid()
      requires id in Keys(users) && updated.id == id
      modifies this`users
      ensures Valid()
      ensures users == Set(old(users), id, updated)
      ensures Keys(users) == Keys(old(users))
      ensures Get(users, id) == Some(updated)
      ensures forall k :: k != id ==> Get(users, k) == Get(old(users), k)
    {
      ghost var before := users;
      users := Set(users, id, updated);
      SetPresentKeys(before, id, updated);
      GetSet(before, id, updated);
      SetWellFormed(before, id, updated);
      forall e | e in users ensures e.1.id == e.0 {
        SetEntries(before, id, updated, e);
      }
      forall k | k != id ensures Get(users, k) == Get(before, k) {
        GetSetOther(before, id, updated, k);
      }
    }

    /**
     The `clear-canvas` handler: empty the history, whatever it held, and
     tell everybody else. The registry is not consulted.
     */
    method OnClearCanvas(id: SocketId)
      requires Valid()
      modifies this
      ensures Valid()
      ensures history == [] && drawnSinceClear == []
      ensures users == old(users)
      ensures outbox == old(outbox) + [Emit(AllExcept(id), ClearCanvas)]
    {
      history := [];
      drawnSinceClear := [];
      outbox := outbox + [Emit(AllExcept(id), ClearCanvas)];
    }

    /**
     The `disconnect` handler: drop the socket's entry (a no-op if it has
     none), then tell everybody else who left and send them the roster that
     remains.
     */
    method OnDisconnect(id: SocketId)
      requires Valid()
      modifies this
      ensures Valid()
      ensures users == Delete(old(users), id)
      ensures id !in Keys(users) && Get(users, id) == None
      ensures forall k :: k != id ==> Get(users, k) == Get(old(users), k)
      ensures id !in Keys(old(users)) ==> users == old(users)
      ensures forall i :: 0 <= i < |old(users)| && old(users)[i].0 == id ==>
                users == old(users)[..i] + old(users)[i + 1..]
      ensures forall u :: u in Values(users) ==> u.id != id
      ensures history == old(history) && drawnSinceClear == old(drawnSinceClear)
      ensures outbox == old(outbox) + [
                Emit(AllExcept(id), UserLeft(id)),
                Emit(AllExcept(id), UsersUpdate(Values(users)))]
    {
      ghost var before := users;
      users := Delete(users, id);
      DeleteRemoves(before, id);
      DeleteWellFormed(before, id);
      forall e | e in users ensures e.1.id == e.0 {
        DeleteEntries(before, id, e);
      }
      forall k | k != id ensures Get(users, k) == Get(before, k) {
        GetDeleteOther(before, id, k);
      }
      if id !in Keys(before) {
        DeleteAbsent(before, id);
      }
      forall i | 0 <= i < |before| && before[i].0 == id ensures users == before[..i] + before[i + 1..] {
        DeleteAt(before, i);
      }
      forall u | u in Values(users) ensures u.id != id {
        InValues(users, u);
        var k :| (k, u) in users;
        DeleteEntries(before, id, (k, u));
      }

      outbox := outbox + [Emit(AllExcept(id), UserLeft(id))];
      outbox := outbox + [Emit(AllExcept(id), UsersUpdate(Values(users)))];
    }
  }
}
