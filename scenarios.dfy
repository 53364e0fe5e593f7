/**
 Client runs of the session: short sequences of socket events, with what the
 handlers' specifications let a caller conclude about the emitted events.
 */
module Scenarios {
  import opened OrderedMap
  import opened Whiteboard

  /** A late joiner is replayed what was drawn before it connected, and nothing else. */
  method LateJoinerGetsHistory(stroke: Record)
  {
    var session := new Session();
    session.OnConnection("p1");
    assert session.outbox[0] == Emit(Only("p1"), DrawingHistory([]));
    session.OnConnection("p2");
    assert session.outbox[3] == Emit(Only("p2"), DrawingHistory([]));
    session.OnDrawing("p1", stroke, 42);
    assert session.history == [Stamp(stroke, "p1", 42)];
    session.OnConnection("p3");
    assert session.outbox[7] == Emit(Only("p3"), DrawingHistory([Stamp(stroke, "p1", 42)]));
    assert session.outbox[9] == Emit(AllExcept("p3"), UserJoined(NewUser("p3")));
  }

  /** Those who stay see the departure once, then a roster without the one who left. */
  method DepartureSeenByOthers()
  {
    var session := new Session();
    session.OnConnection("p1");
    session.OnConnection("p2");
    assert session.users == [("p1", NewUser("p1")), ("p2", NewUser("p2"))];
    ghost var two := session.users;
    session.OnDisconnect("p1");
    assert two[0].0 == "p1" && two[1..] == [("p2", NewUser("p2"))];
    assert session.users == two[..0] + two[1..];
    assert Values(session.users) == [NewUser("p2")];
    assert session.outbox[6..] == [
      Emit(AllExcept("p1"), UserLeft("p1")),
      Emit(AllExcept("p1"), UsersUpdate([NewUser("p2")]))];
  }

  /** A clear wipes the strokes drawn before it, so a later joiner starts blank. */
  method ClearBeforeLateJoiner(a: Record, b: Record, c: Record)
  {
    var session := new Session();
    session.OnConnection("p1");
    session.OnDrawing("p1", a, 1);
    session.OnDrawing("p1", b, 2);
    session.OnDrawing("p1", c, 3);
    assert |session.history| == 3;
    session.OnClearCanvas("p1");
    assert session.history == [];
    session.OnConnection("p3");
    assert session.outbox[|session.outbox| - 3] == Emit(Only("p3"), DrawingHistory([]));
  }

  /** Cursor and color events from a socket with no registry entry are dropped silently. */
  method StaleSenderIgnored(pos: Record)
  {
    var session := new Session();
    session.OnConnection("p1");
    session.OnDisconnect("p1");
    var emitted := session.outbox;
    session.OnCursorMove("p1", pos);
    session.OnColorChange("p1", Text("#ff0000"));
    assert session.outbox == emitted && session.users == [];
  }
}
