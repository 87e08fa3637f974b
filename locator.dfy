/**
 * Target selection: among the canvas elements of the page, in document order,
 * the one the recorder and the player work against.
 */
module Locator {
  import opened Options

  /** A canvas element, by its intrinsic size in pixels. */
  datatype Canvas = Canvas(width: nat, height: nat)

  /** Candidates of this area or less (0x0 placeholders) are never chosen. */
  const MinArea: nat := 100

  /** `c.width * c.height`; it is positive exactly when both sides are. */
  function Area(c: Canvas): (area: nat)
    ensures area > 0 <==> c.width > 0 && c.height > 0
  {
    c.width * c.height
  }

  /**
   * `findCanvas`: the index of the first candidate of largest area among those of
   * area greater than MinArea, or None when there is none (an empty page included).
   */
  method FindCanvas(candidates: seq<Canvas>) returns (r: Option<nat>)
    ensures r.None? <==> forall i :: 0 <= i < |candidates| ==> Area(candidates[i]) <= MinArea
    ensures r.Some? ==> r.value < |candidates| && Area(candidates[r.value]) > MinArea
    ensures r.Some? ==> forall i :: 0 <= i < |candidates| ==> Area(candidates[i]) <= Area(candidates[r.value])
    ensures r.Some? ==> forall i :: 0 <= i < r.value ==> Area(candidates[i]) < Area(candidates[r.value])
  {
    if |candidates| == 0 {
      return None;
    }
    var largest: Option<nat> := None;
    var maxArea: nat := 0;
    for i := 0 to |candidates|
      invariant largest.None? ==> maxArea == 0
      invariant largest.None? ==> forall j :: 0 <= j < i ==> Area(candidates[j]) <= MinArea
      invariant largest.Some? ==> largest.value < i && maxArea == Area(candidates[largest.value]) > MinArea
      invariant forall j :: 0 <= j < i ==> Area(candidates[j]) <= MinArea || Area(candidates[j]) <= maxArea
      invariant largest.Some? ==> forall j :: 0 <= j < largest.value ==> Area(candidates[j]) < maxArea
    {
      var area := Area(candidates[i]);
      if area > MinArea && area > maxArea {
        maxArea := area;
        largest := Some(i);
      }
    }
    return largest;
  }
}
