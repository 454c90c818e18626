/**
 * Rectangle primitives of the tiler: the Rect record, the overlap of two
 * rectangles, and the classification of a point into a monitor.
 */
module Geometry {

  /** An axis-aligned rectangle in screen pixels; `valid == false` means "no region". */
  datatype Rect = Rect(x: int, y: int, width: int, height: int, valid: bool)

  /** The all-zero rectangle the source returns when two rectangles do not overlap. */
  const NoRegion: Rect := Rect(0, 0, 0, 0, false)

  function Max(a: int, b: int): int { if a > b then a else b }
  function Min(a: int, b: int): int { if a < b then a else b }

  /** Half-open membership: `x <= px < x + width` and `y <= py < y + height`. */
  predicate ContainsPoint(r: Rect, px: int, py: int)
  {
    r.x <= px < r.x + r.width && r.y <= py < r.y + r.height
  }

  /** `inner` lies within the bounds of `outer` (validity flags are not consulted). */
  predicate Inside(inner: Rect, outer: Rect)
  {
    outer.x <= inner.x && inner.x + inner.width <= outer.x + outer.width &&
    outer.y <= inner.y && inner.y + inner.height <= outer.y + outer.height
  }

  /**
   * The overlap of `a` and `b`: a rectangle of at least one pixel inside
   * both, or `NoRegion` when they share no pixel (see `IntersectionPixels`).
   */
  function Intersection(a: Rect, b: Rect): (r: Rect)
    ensures r.valid ==> r.width >= 1 && r.height >= 1 && Inside(r, a) && Inside(r, b)
    ensures !r.valid ==> r == NoRegion
    ensures r.valid <==> ContainsPoint(a, r.x, r.y) && ContainsPoint(b, r.x, r.y)
  {
    var x1 := if a.x > b.x then a.x else b.x;
    var y1 := if a.y > b.y then a.y else b.y;
    var x2 := if a.x + a.width < b.x + b.width then a.x + a.width else b.x + b.width;
    var y2 := if a.y + a.height < b.y + b.height then a.y + a.height else b.y + b.height;
    if x2 <= x1 || y2 <= y1 then NoRegion else Rect(x1, y1, x2 - x1, y2 - y1, true)
  }

  /** The pixels the overlap covers are exactly the pixels both inputs cover. */
  lemma IntersectionPixels(a: Rect, b: Rect)
    ensures forall px, py :: ContainsPoint(Intersection(a, b), px, py) <==> ContainsPoint(a, px, py) && ContainsPoint(b, px, py)
  {
  }

  /**
   * The overlap is non-empty exactly when some point lies in both inputs;
   * the valid overlap spans [max x, min right) by [max y, min bottom).
   */
  lemma IntersectionValidIff(a: Rect, b: Rect, px: int, py: int)
    requires ContainsPoint(a, px, py) && ContainsPoint(b, px, py)
    ensures Intersection(a, b).valid
    ensures Intersection(a, b) == Rect(Max(a.x, b.x), Max(a.y, b.y),
                                       Min(a.x + a.width, b.x + b.width) - Max(a.x, b.x),
                                       Min(a.y + a.height, b.y + b.height) - Max(a.y, b.y), true)
  {
    IntersectionPixels(a, b);
    assert ContainsPoint(Intersection(a, b), px, py);
  }

  /** Index of the first rectangle at or after `i` that contains the point, or `|mons|`. */
  function FirstContaining(mons: seq<Rect>, px: int, py: int, i: nat): (k: nat)
    requires i <= |mons|
    ensures i <= k <= |mons|
    ensures k < |mons| ==> ContainsPoint(mons[k], px, py)
    ensures forall j :: i <= j < k ==> !ContainsPoint(mons[j], px, py)
    decreases |mons| - i
  {
    if i == |mons| then i
    else if ContainsPoint(mons[i], px, py) then i
    else FirstContaining(mons, px, py, i + 1)
  }

  /**
   * The monitor a point belongs to: the lowest index whose half-open
   * rectangle contains it, or 0 when no monitor does.
   */
  function MonitorIndexForPoint(mons: seq<Rect>, px: int, py: int): (m: nat)
    ensures |mons| > 0 ==> m < |mons|
    ensures || (m < |mons| && ContainsPoint(mons[m], px, py) &&
                forall j :: 0 <= j < m ==> !ContainsPoint(mons[j], px, py))
            || (m == 0 && forall j :: 0 <= j < |mons| ==> !ContainsPoint(mons[j], px, py))
  {
    var k := FirstContaining(mons, px, py, 0);
    if k < |mons| then k else 0
  }
}
