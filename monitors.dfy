/**
 * Work-area and monitor resolution. The X property reads are replaced by
 * their results: a cardinal array is a sequence of 32-bit values, and an
 * empty sequence stands for a property that could not be read (absent,
 * wrong type or format, or zero items). The Xinerama screen list is a
 * sequence of rectangles, empty when the extension is inactive.
 */
module Monitors {
  import opened Geometry

  /** At most this many monitors are reported. */
  const MaxMonitors: nat := 16

  /** A 32-bit X CARDINAL as delivered in a property. */
  type Card32 = v: int | 0 <= v < 0x1_0000_0000

  /** The `(int)` cast of a cardinal: 32-bit two's complement. */
  function AsInt(v: Card32): (r: int)
    ensures -0x8000_0000 <= r < 0x8000_0000
    ensures (r - v) % 0x1_0000_0000 == 0
  {
    if v < 0x8000_0000 then v else v - 0x1_0000_0000
  }

  /** The whole display, the fallback work area. */
  function FullDisplay(displayWidth: int, displayHeight: int): Rect
  {
    Rect(0, 0, displayWidth, displayHeight, true)
  }

  /** The 4-tuple of desktop `d` in a flat `_NET_WORKAREA` array. */
  function Quad(workareas: seq<Card32>, d: nat): Rect
    requires 4 * d + 3 < |workareas|
  {
    Rect(AsInt(workareas[4 * d]), AsInt(workareas[4 * d + 1]),
         AsInt(workareas[4 * d + 2]), AsInt(workareas[4 * d + 3]), true)
  }

  /** The desktop whose work area is used: `_NET_CURRENT_DESKTOP`, or 0 when absent or out of range. */
  function SelectedDesktop(workareas: seq<Card32>, current: seq<Card32>): (d: nat)
    requires |workareas| >= 4
    ensures 4 * d + 3 < |workareas|
    ensures |current| > 0 && current[0] < |workareas| / 4 ==> d == current[0]
    ensures |current| == 0 || current[0] >= |workareas| / 4 ==> d == 0
  {
    var desktop: nat := if |current| > 0 then current[0] else 0;
    if desktop >= |workareas| / 4 then 0 else desktop
  }

  /**
   * The current desktop's work area. It is the full display when the work-area
   * array is missing or shorter than one 4-tuple, or when the selected tuple
   * has a non-positive width or height; otherwise it is that tuple.
   */
  function GetWorkarea(displayWidth: int, displayHeight: int,
                       workareas: seq<Card32>, current: seq<Card32>): (wa: Rect)
    ensures wa.valid
    ensures |workareas| < 4 ==> wa == FullDisplay(displayWidth, displayHeight)
    ensures wa == FullDisplay(displayWidth, displayHeight) ||
            (wa.width > 0 && wa.height > 0 && wa == Quad(workareas, SelectedDesktop(workareas, current)))
    ensures |workareas| >= 4 && Quad(workareas, SelectedDesktop(workareas, current)).width > 0 &&
            Quad(workareas, SelectedDesktop(workareas, current)).height > 0
            ==> wa == Quad(workareas, SelectedDesktop(workareas, current))
    ensures displayWidth > 0 && displayHeight > 0 ==> wa.width > 0 && wa.height > 0
  {
    var full := FullDisplay(displayWidth, displayHeight);
    if |workareas| == 0 then full
    else
      var desktop: nat := if |current| > 0 then current[0] else 0;
      var areas := |workareas| / 4;
      if areas == 0 then full
      else
        var d: nat := if desktop >= areas then 0 else desktop;
        var idx := d * 4;
        var wa := Rect(AsInt(workareas[idx]), AsInt(workareas[idx + 1]),
                       AsInt(workareas[idx + 2]), AsInt(workareas[idx + 3]), true);
        if wa.width <= 0 || wa.height <= 0 then full else wa
  }

  /** A current-desktop value past the last 4-tuple behaves like desktop 0 (and like an absent property). */
  lemma OutOfRangeDesktopIsFirst(w: int, h: int, workareas: seq<Card32>, current: seq<Card32>)
    requires |current| > 0 && current[0] >= |workareas| / 4
    ensures GetWorkarea(w, h, workareas, current) == GetWorkarea(w, h, workareas, [0])
    ensures GetWorkarea(w, h, workareas, current) == GetWorkarea(w, h, workareas, [])
  {
  }

  /** The overlap of each physical screen with the work area, in screen order. */
  function Overlaps(wa: Rect, screens: seq<Rect>): (ov: seq<Rect>)
    ensures |ov| == |screens|
    ensures forall i :: 0 <= i < |screens| ==> ov[i] == Intersection(wa, screens[i])
  {
    seq(|screens|, i requires 0 <= i < |screens| => Intersection(wa, screens[i]))
  }

  /** The valid rectangles of `rs`, in order. */
  function Valids(rs: seq<Rect>): (r: seq<Rect>)
    ensures |r| <= |rs|
    ensures forall k :: 0 <= k < |r| ==> r[k].valid && r[k] in rs
  {
    if rs == [] then []
    else
      var last := rs[|rs| - 1];
      Valids(rs[..|rs| - 1]) + (if last.valid then [last] else [])
  }

  /** The positions in `rs` of the rectangles `Valids` keeps. */
  function ValidIndices(rs: seq<Rect>): (o: seq<nat>)
    ensures |o| == |Valids(rs)|
    ensures forall k :: 0 <= k < |o| ==> o[k] < |rs|
  {
    if rs == [] then []
    else
      ValidIndices(rs[..|rs| - 1]) + (if rs[|rs| - 1].valid then [|rs| - 1] else [])
  }

  /** Kept entry `k` is entry `ValidIndices(rs)[k]` of the input. */
  lemma {:induction false} ValidsAt(rs: seq<Rect>)
    ensures forall k :: 0 <= k < |ValidIndices(rs)| ==> Valids(rs)[k] == rs[ValidIndices(rs)[k]]
  {
    if rs != [] {
      var init := rs[..|rs| - 1];
      ValidsAt(init);
      var r, o, r0, o0 := Valids(rs), ValidIndices(rs), Valids(init), ValidIndices(init);
      forall k | 0 <= k < |o|
        ensures r[k] == rs[o[k]]
      {
        if k < |o0| {
          assert r[k] == r0[k] && o[k] == o0[k];
          assert rs[o0[k]] == init[o0[k]];
        }
      }
    }
  }

  /** The kept positions strictly increase: filtering keeps the input order. */
  lemma {:induction false} ValidIndicesIncrease(rs: seq<Rect>)
    ensures Increasing(ValidIndices(rs))
  {
    if rs != [] {
      var init := rs[..|rs| - 1];
      ValidIndicesIncrease(init);
      if rs[|rs| - 1].valid {
        IncreasingSnoc(ValidIndices(init), |init|);
      }
    }
  }

  predicate Increasing(o: seq<nat>)
  {
    forall k, l :: 0 <= k < l < |o| ==> o[k] < o[l]
  }

  lemma IncreasingSnoc(o: seq<nat>, x: nat)
    requires Increasing(o) && forall k :: 0 <= k < |o| ==> o[k] < x
    ensures Increasing(o + [x])
  {
  }

  /** Every position that is not kept holds an invalid rectangle. */
  lemma {:induction false} ValidIndicesCover(rs: seq<Rect>)
    ensures forall i :: 0 <= i < |rs| && i !in ValidIndices(rs) ==> !rs[i].valid
  {
    if rs != [] {
      var init := rs[..|rs| - 1];
      ValidIndicesCover(init);
      var o, o0 := ValidIndices(rs), ValidIndices(init);
      forall i | 0 <= i < |rs| && i !in o
        ensures !rs[i].valid
      {
        if i < |init| {
          assert o0 <= o;
          assert rs[i] == init[i];
        }
      }
    }
  }

  /** With no valid entry, nothing is kept. */
  lemma {:induction false} NoValidKeepsNothing(rs: seq<Rect>)
    requires forall i :: 0 <= i < |rs| ==> !rs[i].valid
    ensures Valids(rs) == []
  {
    if rs != [] {
      NoValidKeepsNothing(rs[..|rs| - 1]);
    }
  }

  /** Filtering a prefix yields a prefix of the filtered whole. */
  lemma {:induction false} ValidsPrefix(rs: seq<Rect>, i: nat)
    requires i <= |rs|
    ensures Valids(rs[..i]) <= Valids(rs)
  {
    if i < |rs| {
      ValidsPrefix(rs[..|rs| - 1], i);
      assert rs[..|rs| - 1][..i] == rs[..i];
    } else {
      assert rs[..i] == rs;
    }
  }

  /** The physical screens' overlaps with the work area, in screen order, empty overlaps dropped. */
  function Clipped(wa: Rect, screens: seq<Rect>): (r: seq<Rect>)
    ensures |r| <= |screens|
    ensures forall k :: 0 <= k < |r| ==> r[k].valid && r[k].width >= 1 && r[k].height >= 1 && Inside(r[k], wa)
  {
    var ov := Overlaps(wa, screens);
    var r := Valids(ov);
    assert forall k :: 0 <= k < |r| ==> r[k] in ov;
    r
  }

  /** The screen each entry of `Clipped` came from. */
  function Origins(wa: Rect, screens: seq<Rect>): (o: seq<nat>)
    ensures |o| == |Clipped(wa, screens)|
    ensures forall k :: 0 <= k < |o| ==> o[k] < |screens|
  {
    ValidIndices(Overlaps(wa, screens))
  }

  /**
   * `Clipped` keeps the input order and drops exactly the screens that miss
   * the work area: entry k is the overlap of screen `Origins[k]`, the origins
   * strictly increase, and every screen not among them has no overlap.
   */
  lemma ClippedKeepsOrder(wa: Rect, screens: seq<Rect>)
    ensures var c, o := Clipped(wa, screens), Origins(wa, screens);
            && (forall k :: 0 <= k < |o| ==> c[k] == Intersection(wa, screens[o[k]]))
            && (forall k, l :: 0 <= k < l < |o| ==> o[k] < o[l])
            && (forall i :: 0 <= i < |screens| && i !in o ==> !Intersection(wa, screens[i]).valid)
  {
    var ov := Overlaps(wa, screens);
    ValidsAt(ov);
    ValidIndicesIncrease(ov);
    ValidIndicesCover(ov);
  }

  /** When no screen overlaps the work area, nothing survives the clipping. */
  lemma NoOverlapClipsNothing(wa: Rect, screens: seq<Rect>)
    requires forall i :: 0 <= i < |screens| ==> !Intersection(wa, screens[i]).valid
    ensures Clipped(wa, screens) == []
  {
    NoValidKeepsNothing(Overlaps(wa, screens));
  }

  /** Clipping one more screen appends its overlap, if any. */
  lemma ClippedSnoc(wa: Rect, screens: seq<Rect>, i: nat)
    requires i < |screens|
    ensures Clipped(wa, screens[..i + 1]) ==
            Clipped(wa, screens[..i]) + (if Intersection(wa, screens[i]).valid then [Intersection(wa, screens[i])] else [])
  {
    var ov := Overlaps(wa, screens[..i + 1]);
    assert ov[..i] == Overlaps(wa, screens[..i]);
  }

  /** Clipping a longer screen list extends the clipping of a shorter prefix. */
  lemma ClippedPrefix(wa: Rect, screens: seq<Rect>, i: nat)
    requires i <= |screens|
    ensures Clipped(wa, screens[..i]) <= Clipped(wa, screens)
  {
    var ov := Overlaps(wa, screens);
    ValidsPrefix(ov, i);
    assert ov[..i] == Overlaps(wa, screens[..i]);
  }

  /**
   * Once a prefix of the screens has yielded `MaxMonitors` overlaps (or the
   * prefix is the whole list), the monitor list is decided by that prefix.
   */
  lemma CappedPrefix(wa: Rect, screens: seq<Rect>, i: nat)
    requires i <= |screens|
    requires |Clipped(wa, screens[..i])| <= MaxMonitors
    requires i == |screens| || |Clipped(wa, screens[..i])| == MaxMonitors
    ensures VisibleMonitors(wa, screens) ==
            var c := Clipped(wa, screens[..i]); if c == [] then [wa] else c
  {
    ClippedPrefix(wa, screens, i);
    if i == |screens| {
      assert screens[..i] == screens;
    }
  }

  /**
   * The monitor list: the first `MaxMonitors` clipped screens, or the work
   * area alone when no screen overlaps it.
   */
  function VisibleMonitors(wa: Rect, screens: seq<Rect>): (mons: seq<Rect>)
  {
    var c := Clipped(wa, screens);
    if |c| == 0 then [wa] else c[..Min(|c|, MaxMonitors)]
  }

  /**
   * Between one and `MaxMonitors` monitors, each inside the work area; the
   * work area alone exactly when no screen overlaps it, otherwise overlaps
   * of at least one pixel each.
   */
  lemma VisibleMonitorsShape(wa: Rect, screens: seq<Rect>)
    ensures var mons := VisibleMonitors(wa, screens);
            && 1 <= |mons| <= MaxMonitors
            && (forall k :: 0 <= k < |mons| ==> Inside(mons[k], wa))
            && (wa.valid ==> forall k :: 0 <= k < |mons| ==> mons[k].valid)
            && ((forall i :: 0 <= i < |screens| ==> !Intersection(wa, screens[i]).valid) ==> mons == [wa])
            && (mons != [wa] ==> forall k :: 0 <= k < |mons| ==> mons[k].width >= 1 && mons[k].height >= 1)
  {
    if forall i :: 0 <= i < |screens| ==> !Intersection(wa, screens[i]).valid {
      NoOverlapClipsNothing(wa, screens);
    }
  }

  /** Writing `x` at `n` extends an array prefix `p` to `p + [x]`. */
  lemma ArraySnoc(out: array<Rect>, n: nat, p: seq<Rect>, x: Rect)
    requires n < out.Length && out[..n] == p && out[n] == x
    ensures out[..n + 1] == p + [x]
  {
  }

  /**
   * `get_visible_monitors`: walks the screens, keeps each non-empty overlap
   * with the work area until `MaxMonitors` are kept, and falls back to the
   * work area itself when none was kept.
   */
  method GetVisibleMonitors(wa: Rect, screens: seq<Rect>) returns (mons: seq<Rect>)
    ensures mons == VisibleMonitors(wa, screens)
  {
    var out := new Rect[MaxMonitors](_ => NoRegion);
    var n := 0;
    var i := 0;
    while i < |screens| && n < MaxMonitors
      invariant 0 <= i <= |screens|
      invariant n == |Clipped(wa, screens[..i])| <= MaxMonitors
      invariant out[..n] == Clipped(wa, screens[..i])
    {
      var mon := screens[i];
      var clipped := Intersection(wa, mon);
      ClippedSnoc(wa, screens, i);
      if clipped.valid {
        out[n] := clipped;
        n := n + 1;
        assert out[..n] == Clipped(wa, screens[..i + 1]) by {
          ArraySnoc(out, n - 1, Clipped(wa, screens[..i]), clipped);
        }
      }
      i := i + 1;
    }
    CappedPrefix(wa, screens, i);
    if n == 0 {
      out[n] := wa;
      n := n + 1;
      ArraySnoc(out, 0, [], wa);
    }
    mons := out[..n];
  }
}
