/**
 The drawing history that the server replays to every newcomer: drawing
 events in arrival order, cut back to the most recent `Capacity` entries
 whenever a push takes it over that bound.
 */
module History {

  /** The bound the `drawing` handler keeps the history under. */
  const Capacity: nat := 1000

  /** `s.slice(-n)` for a positive `n`: the last `n` elements, or all of `s` when it is shorter. */
  function Last<T>(s: seq<T>, n: nat): seq<T>
  {
    if |s| <= n then s else s[|s| - n..]
  }

  /**
   The history update of the `drawing` handler: push the event, and if the
   history is then longer than `Capacity`, keep only its last `Capacity`
   entries. Whatever it is given, the result is within the bound, ends with
   the new event, and is the most recent part of the old history followed by
   the new event.
   */
  function Push<T>(h: seq<T>, e: T): (r: seq<T>)
    ensures |r| <= Capacity
    ensures |r| == if |h| < Capacity then |h| + 1 else Capacity
    ensures r[|r| - 1] == e
    ensures r[..|r| - 1] == h[|h| + 1 - |r|..]
    ensures r == Last(h + [e], Capacity)
  {
    var pushed := h + [e];
    if |pushed| > Capacity then Last(pushed, Capacity) else pushed
  }

  /** The history after a run of `drawing` events, one `Push` per event, in arrival order. */
  function Replay<T>(h: seq<T>, es: seq<T>): seq<T>
    decreases |es|
  {
    if es == [] then h else Push(Replay(h, es[..|es| - 1]), es[|es| - 1])
  }

  /** Cutting a sequence back before appending more does not change its last `n` elements. */
  lemma LastOfLast<T>(s: seq<T>, t: seq<T>, n: nat)
    ensures Last(Last(s, n) + t, n) == Last(s + t, n)
  {
  }

  /**
   Whatever run of drawing events arrives, the history keeps exactly the last
   `min(Capacity, |h| + |es|)` of the old entries and the new ones, in arrival
   order: eviction only ever drops from the front.
   */
  lemma {:induction false} ReplayKeepsLast<T>(h: seq<T>, es: seq<T>)
    requires |h| <= Capacity
    ensures Replay(h, es) == Last(h + es, Capacity)
    decreases |es|
  {
    if es == [] {
      assert h + es == h;
    } else {
      var init, e := es[..|es| - 1], es[|es| - 1];
      ReplayKeepsLast(h, init);
      LastOfLast(h + init, [e], Capacity);
      assert (h + init) + [e] == h + es;
    }
  }

  /**
   Starting from an empty history (the server's start, or a `clear-canvas`),
   the history after `es` is the last `min(Capacity, |es|)` events of `es`,
   in arrival order.
   */
  lemma ReplayFromEmpty<T>(es: seq<T>)
    ensures |Replay([], es)| == if |es| < Capacity then |es| else Capacity
    ensures Replay([], es) == es[|es| - |Replay([], es)|..]
  {
    ReplayKeepsLast([], es);
    assert [] + es == es;
  }
}
