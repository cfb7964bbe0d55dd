/** Touch input: swipe classification as a small state machine over the
    optional touch origin recorded at touch-start. */
module MobileControls {

  import opened Wrappers
  import opened Geometry

  /** A touch position in client coordinates; `y` grows downwards. */
  datatype Point = Point(x: real, y: real)

  /** A swipe must travel strictly more than this along its dominant axis. */
  const MinSwipeDistance: real := 30.0

  function Abs(r: real): real {
    if r < 0.0 then -r else r
  }

  /** Classifies a displacement: horizontal when `|dx| > |dy|` (ties go to
      the vertical axis), and only beyond the minimum swipe distance. */
  function Classify(dx: real, dy: real): (r: Option<Direction>)
    ensures r == Some(Right) <==> Abs(dx) > Abs(dy) && dx > MinSwipeDistance
    ensures r == Some(Left) <==> Abs(dx) > Abs(dy) && -dx > MinSwipeDistance
    ensures r == Some(Down) <==> Abs(dx) <= Abs(dy) && dy > MinSwipeDistance
    ensures r == Some(Up) <==> Abs(dx) <= Abs(dy) && -dy > MinSwipeDistance
    ensures r == None <==> Abs(dx) <= MinSwipeDistance && Abs(dy) <= MinSwipeDistance
  {
    if Abs(dx) > Abs(dy) then
      if Abs(dx) > MinSwipeDistance then
        if dx > 0.0 then Some(Right) else Some(Left)
      else None
    else
      if Abs(dy) > MinSwipeDistance then
        if dy > 0.0 then Some(Down) else Some(Up)
      else None
  }

  /** The touch events the controls listen to. */
  datatype TouchEvent = TouchStart(at: Point) | TouchMove(to: Point)

  /** The recorded origin after an event, and the direction it emitted. */
  datatype Reaction = Reaction(origin: Option<Point>, emitted: Option<Direction>)

  /** One touch event: a start records its point; a move measures from the
      recorded origin, and a move that fires a swipe clears the origin. */
  function HandleTouch(origin: Option<Point>, e: TouchEvent): (r: Reaction)
    ensures e.TouchStart? ==> r == Reaction(Some(e.at), None)
    ensures e.TouchMove? && origin.None? ==> r == Reaction(None, None)
    ensures r.emitted.Some? ==> e.TouchMove? && origin.Some? && r.origin.None?
    ensures e.TouchMove? && r.emitted.None? ==> r.origin == origin
    ensures e.TouchMove? && origin.Some? ==>
      r.emitted == Classify(e.to.x - origin.value.x, e.to.y - origin.value.y)
  {
    match e
    case TouchStart(p) => Reaction(Some(p), None)
    case TouchMove(p) =>
      if origin.None? then Reaction(None, None)
      else
        var swipe := Classify(p.x - origin.value.x, p.y - origin.value.y);
        if swipe.Some? then Reaction(None, swipe) else Reaction(origin, None)
  }

  /** Feeds a sequence of events and collects the emitted directions. */
  function Emitted(origin: Option<Point>, events: seq<TouchEvent>): seq<Direction>
    decreases |events|
  {
    if |events| == 0 then []
    else
      var r := HandleTouch(origin, events[0]);
      (if r.emitted.Some? then [r.emitted.value] else []) + Emitted(r.origin, events[1..])
  }

  predicate AllMoves(events: seq<TouchEvent>) {
    forall i :: 0 <= i < |events| ==> events[i].TouchMove?
  }

  /** Without a recorded origin, moves alone emit nothing. */
  lemma {:induction false} MovesWithoutOriginEmitNothing(events: seq<TouchEvent>)
    requires AllMoves(events)
    ensures Emitted(None, events) == []
  {
    if |events| > 0 {
      MovesWithoutOriginEmitNothing(events[1..]);
    }
  }

  /** At most one direction per touch-start: however many moves follow, a
      single origin fires at most one swipe. */
  lemma {:induction false} AtMostOneSwipePerTouch(origin: Option<Point>, events: seq<TouchEvent>)
    requires AllMoves(events)
    ensures |Emitted(origin, events)| <= 1
    ensures origin.None? ==> |Emitted(origin, events)| == 0
  {
    if |events| > 0 {
      var r := HandleTouch(origin, events[0]);
      if r.emitted.Some? {
        MovesWithoutOriginEmitNothing(events[1..]);
      } else {
        AtMostOneSwipePerTouch(r.origin, events[1..]);
      }
    }
  }

  /** Below the threshold the origin is kept, so every later move is
      measured from the touch-start point rather than the previous move. */
  lemma {:induction false} ShortMovesKeepOrigin(p: Point, events: seq<TouchEvent>, q: Point)
    requires AllMoves(events)
    requires Emitted(Some(p), events) == []
    ensures Emitted(Some(p), events + [TouchMove(q)])
      == (match Classify(q.x - p.x, q.y - p.y) case Some(d) => [d] case None => [])
  {
    if |events| == 0 {
      assert events + [TouchMove(q)] == [TouchMove(q)];
    } else {
      var r := HandleTouch(Some(p), events[0]);
      assert r.emitted == None;
      assert (events + [TouchMove(q)])[1..] == events[1..] + [TouchMove(q)];
      ShortMovesKeepOrigin(p, events[1..], q);
    }
  }

}
