/**
 * The replay of one round: the recorded points are turned into pixels of the
 * current surface and clicked in recorded order. The value of the script's
 * `isPlaying` flag at each check, and whether the synthesized-event dispatch
 * throws for a point, are inputs of the model.
 */
module Replay {
  import opened Options
  import opened Geometry
  import opened Locator

  /** What one click does to the surface. */
  datatype Action =
    | Dispatched(at: Pos)   // mousedown, mouseup and click synthesized at `at`
    | FallbackClick         // dispatch threw; a plain `click()` on the surface instead

  /** The outcome of `clickAt`: its boolean result and what it did to the surface. */
  datatype ClickResult = ClickResult(ok: bool, action: Option<Action>)

  /**
   * `clickAt`: without a surface nothing is clicked and the result is false;
   * with one the result is true whether the synthesized events went out or the
   * fallback `click()` was used.
   */
  function ClickAt(canvas: Option<Canvas>, at: Pos, dispatchThrows: bool): (r: ClickResult)
    ensures !r.ok <==> canvas.None?
    ensures r.action.Some? <==> r.ok
    ensures r.ok && !dispatchThrows ==> r.action == Some(Dispatched(at))
    ensures r.ok && dispatchThrows ==> r.action == Some(FallbackClick)
  {
    if canvas.None? then ClickResult(false, None)
    else if dispatchThrows then ClickResult(true, Some(FallbackClick))
    else ClickResult(true, Some(Dispatched(at)))
  }

  /** What replaying point `p` on `canvas` does, the dispatch throwing or not. */
  function PointAction(p: Point, canvas: Canvas, dispatchThrows: bool): (a: Action)
    ensures !dispatchThrows ==> a == Dispatched(Denormalize(p, canvas.width, canvas.height))
    ensures dispatchThrows ==> a == FallbackClick
  {
    ClickAt(Some(canvas), Denormalize(p, canvas.width, canvas.height), dispatchThrows).action.value
  }

  /**
   * The actions of one round over `points`: point i is clicked when the flag was
   * seen set before it and before every earlier point; the round ends at the
   * first check that sees it cleared.
   */
  function Replayed(points: seq<Point>, canvas: Canvas, playing: seq<bool>, throws: seq<bool>): (r: seq<Action>)
    requires |playing| >= |points| && |throws| >= |points|
    ensures |r| <= |points|
    decreases |points|
  {
    if points == [] || !playing[0] then []
    else [PointAction(points[0], canvas, throws[0])] + Replayed(points[1..], canvas, playing[1..], throws[1..])
  }

  /**
   * A round clicks exactly the points before the first check that sees the
   * flag cleared (all of them when it stays set), each at its own position
   * and in recorded order.
   */
  lemma {:induction false} ReplayedStopsAtFirstStop(points: seq<Point>, canvas: Canvas, playing: seq<bool>, throws: seq<bool>, k: nat)
    requires |playing| >= |points| && |throws| >= |points|
    requires k <= |points|
    requires forall j :: 0 <= j < k ==> playing[j]
    requires k == |points| || !playing[k]
    ensures |Replayed(points, canvas, playing, throws)| == k
    ensures forall j :: 0 <= j < k ==> Replayed(points, canvas, playing, throws)[j] == PointAction(points[j], canvas, throws[j])
  {
    if k > 0 {
      ReplayedStopsAtFirstStop(points[1..], canvas, playing[1..], throws[1..], k - 1);
      assert playing[0];
      var rest := Replayed(points[1..], canvas, playing[1..], throws[1..]);
      assert Replayed(points, canvas, playing, throws) == [PointAction(points[0], canvas, throws[0])] + rest;
    }
  }

  /** The index of the first of the checks from..n-1 that sees the flag cleared, or n when none does. */
  function FirstStop(n: nat, playing: seq<bool>, from: nat): (k: nat)
    requires from <= n <= |playing|
    ensures from <= k <= n
    ensures forall j :: from <= j < k ==> playing[j]
    ensures k == n || !playing[k]
    decreases n - from
  {
    if from == n || !playing[from] then from else FirstStop(n, playing, from + 1)
  }

  /**
   * The loop of `playOnce` over the recorded points, on a located surface:
   * before point i it stops when the flag is seen cleared, and after a click
   * that returned false.
   */
  method PlayPoints(points: seq<Point>, canvas: Option<Canvas>, playing: seq<bool>, throws: seq<bool>)
    returns (actions: seq<Action>)
    requires canvas.Some?
    requires |playing| >= |points| && |throws| >= |points|
    ensures actions == Replayed(points, canvas.value, playing, throws)
    ensures |actions| == FirstStop(|points|, playing, 0)
  {
    actions := [];
    var i := 0;
    while i < |points|
      invariant 0 <= i <= |points|
      invariant forall j :: 0 <= j < i ==> playing[j]
      invariant |actions| == i
      invariant forall j :: 0 <= j < i ==> actions[j] == PointAction(points[j], canvas.value, throws[j])
    {
      if !playing[i] {
        break;
      }
      var at := Denormalize(points[i], canvas.value.width, canvas.value.height);
      var success := ClickAt(canvas, at, throws[i]);
      if success.action.Some? {
        actions := actions + [success.action.value];
      }
      if !success.ok {
        break;
      }
      i := i + 1;
    }
    ReplayedStopsAtFirstStop(points, canvas.value, playing, throws, i);
    ReplayedStopsAtFirstStop(points, canvas.value, playing, throws, FirstStop(|points|, playing, 0));
  }
}
