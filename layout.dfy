/**
 * The column tiler of one monitor bucket (`layout_bucket`): up to three
 * columns whose widths share the usable width, windows dealt round-robin
 * into the columns, and each column stacked into rows whose heights share
 * the usable height, with a fixed gap around and between all items.
 */
module Layout {
  import opened Geometry

  /** An X window id. */
  type Window = nat

  /** One placement request: move and resize `window` to `rect` (what `apply_rect` sends). */
  datatype Placement = Placement(window: Window, rect: Rect)

  function WindowsOf(ps: seq<Placement>): (ws: seq<Window>)
    ensures |ws| == |ps|
    ensures forall k :: 0 <= k < |ps| ==> ws[k] == ps[k].window
  {
    seq(|ps|, k requires 0 <= k < |ps| => ps[k].window)
  }

  // ---------------------------------------------------------------------
  // Integer remainder distribution, shared by the columns and the rows
  // ---------------------------------------------------------------------

  /** The size of part `k` when `total` pixels are shared by `parts` parts: the first `total % parts` parts get one extra pixel. */
  function PartSize(total: int, parts: nat, k: nat): int
    requires parts > 0
  {
    total / parts + (if k < total % parts then 1 else 0)
  }

  /** The sum of the sizes of parts `0 .. k-1`. */
  function PartOffset(total: int, parts: nat, k: nat): int
    requires parts > 0
  {
    if k == 0 then 0 else PartOffset(total, parts, k - 1) + PartSize(total, parts, k - 1)
  }

  /** Closed form of the running sum: every part gets the quotient, the first `total % parts` one pixel more. */
  lemma {:induction false} PartOffsetClosed(total: int, parts: nat, k: nat)
    requires parts > 0
    ensures PartOffset(total, parts, k) == k * (total / parts) + Min(k, total % parts)
  {
    if k > 0 {
      PartOffsetClosed(total, parts, k - 1);
    }
  }

  /** The parts share the total exactly: no pixel gained or lost to rounding. */
  lemma PartsFill(total: int, parts: nat)
    requires parts > 0
    ensures PartOffset(total, parts, parts) == total
  {
    PartOffsetClosed(total, parts, parts);
  }

  /** Part sizes are balanced and, when every part can get a pixel, at least one pixel. */
  lemma PartSizes(total: int, parts: nat, k: nat, l: nat)
    requires parts > 0 && k < parts && l < parts
    ensures PartSize(total, parts, k) == total / parts + 1 <==> k < total % parts
    ensures -1 <= PartSize(total, parts, k) - PartSize(total, parts, l) <= 1
    ensures total >= parts ==> PartSize(total, parts, k) >= 1
  {
    if total >= parts {
      assert total / parts >= 1 by {
        assert total == parts * (total / parts) + total % parts;
        assert total % parts < parts;
      }
    }
  }

  // ---------------------------------------------------------------------
  // Segments: one axis of the layout
  // ---------------------------------------------------------------------

  /** The pixels left for `parts` items along an extent after the outer gaps and the gaps between items, at least one per item. */
  function Usable(extent: int, gap: int, parts: nat): (u: int)
    ensures u >= parts
    ensures u >= extent - 2 * gap - (parts - 1) * gap
    ensures extent - 2 * gap - (parts - 1) * gap >= parts ==> u == extent - 2 * gap - (parts - 1) * gap
    ensures extent - 2 * gap - (parts - 1) * gap < parts ==> u == parts
  {
    var u := extent - 2 * gap - (parts - 1) * gap;
    if u < parts then parts else u
  }

  /** The length of item `k` of `parts` along the axis. */
  function SegmentSize(extent: int, gap: int, parts: nat, k: nat): int
    requires parts > 0
  {
    PartSize(Usable(extent, gap, parts), parts, k)
  }

  /** Where item `k` of `parts` starts along an axis beginning at `origin`: one gap in, then one gap after each earlier item. */
  function SegmentStart(origin: int, extent: int, gap: int, parts: nat, k: nat): int
    requires parts > 0
  {
    if k == 0 then origin + gap
    else SegmentStart(origin, extent, gap, parts, k - 1) + SegmentSize(extent, gap, parts, k - 1) + gap
  }

  /** Closed form of the running position: the outer gap, the sizes of the earlier items and one gap per earlier item. */
  lemma {:induction false} SegmentStartClosed(origin: int, extent: int, gap: int, parts: nat, k: nat)
    requires parts > 0
    ensures SegmentStart(origin, extent, gap, parts, k) == origin + gap + PartOffset(Usable(extent, gap, parts), parts, k) + k * gap
  {
    if k > 0 {
      SegmentStartClosed(origin, extent, gap, parts, k - 1);
      assert k * gap == (k - 1) * gap + gap;
    }
  }

  /**
   * The segments along one axis: the first starts one gap after the origin,
   * each next one starts exactly one gap after the previous one ends, the
   * sizes sum to the usable length, so the last one ends one gap before the
   * far edge whenever the extent was not clamped.
   */
  lemma SegmentsTile(origin: int, extent: int, gap: int, parts: nat)
    requires parts > 0
    ensures SegmentStart(origin, extent, gap, parts, 0) == origin + gap
    ensures forall k :: 0 <= k < parts ==>
              SegmentStart(origin, extent, gap, parts, k + 1) ==
              SegmentStart(origin, extent, gap, parts, k) + SegmentSize(extent, gap, parts, k) + gap
    ensures SegmentStart(origin, extent, gap, parts, parts - 1) + SegmentSize(extent, gap, parts, parts - 1)
            == origin + gap + Usable(extent, gap, parts) + (parts - 1) * gap
    ensures extent - 2 * gap - (parts - 1) * gap >= parts ==>
              SegmentStart(origin, extent, gap, parts, parts - 1) + SegmentSize(extent, gap, parts, parts - 1)
              == origin + extent - gap
  {
    PartsFill(Usable(extent, gap, parts), parts);
    SegmentStartClosed(origin, extent, gap, parts, parts);
    assert SegmentStart(origin, extent, gap, parts, parts) ==
           SegmentStart(origin, extent, gap, parts, parts - 1) + SegmentSize(extent, gap, parts, parts - 1) + gap;
  }

  /** Segments do not overlap and keep their order: with a non-negative gap, segment `k` ends at least one gap before segment `l > k` starts. */
  lemma {:induction false} SegmentsOrdered(origin: int, extent: int, gap: int, parts: nat, k: nat, l: nat)
    requires parts > 0 && gap >= 0 && k < l < parts
    ensures SegmentStart(origin, extent, gap, parts, k) + SegmentSize(extent, gap, parts, k) + gap
            <= SegmentStart(origin, extent, gap, parts, l)
  {
    var u := Usable(extent, gap, parts);
    PartSizes(u, parts, l - 1, l - 1);
    if k < l - 1 {
      SegmentsOrdered(origin, extent, gap, parts, k, l - 1);
    }
  }

  /** With a non-negative gap and an unclamped extent, every segment lies between the two outer gaps. */
  lemma SegmentInside(origin: int, extent: int, gap: int, parts: nat, k: nat)
    requires parts > 0 && gap >= 0 && k < parts
    requires extent - 2 * gap - (parts - 1) * gap >= parts
    ensures origin + gap <= SegmentStart(origin, extent, gap, parts, k)
    ensures SegmentStart(origin, extent, gap, parts, k) + SegmentSize(extent, gap, parts, k) <= origin + extent - gap
  {
    SegmentsTile(origin, extent, gap, parts);
    PartSizes(Usable(extent, gap, parts), parts, k, k);
    if k > 0 {
      SegmentsOrdered(origin, extent, gap, parts, 0, k);
      PartSizes(Usable(extent, gap, parts), parts, 0, 0);
    }
    if k < parts - 1 {
      SegmentsOrdered(origin, extent, gap, parts, k, parts - 1);
      PartSizes(Usable(extent, gap, parts), parts, parts - 1, parts - 1);
    }
  }

  // ---------------------------------------------------------------------
  // Dealing windows into columns
  // ---------------------------------------------------------------------

  /** Number of columns for `n` windows: `min(n, 3)`. */
  function Columns(n: nat): nat
  {
    if n <= 3 then n else 3
  }

  /** The column window `i` of `n` is dealt into. */
  function ColumnOf(n: nat, i: nat): nat
  {
    if n <= 3 then i else i % 3
  }

  /** Dealing is plain round-robin: window `i` lands in column `i % 3`, a column below `Columns(n)`. */
  lemma ColumnOfIsRoundRobin(n: nat, i: nat)
    requires i < n
    ensures ColumnOf(n, i) == i % 3 < Columns(n)
  {
  }

  /** The windows dealt into column `c`, in bucket order. */
  function Dealt(ws: seq<Window>, c: nat): seq<Window>
  {
    if ws == [] then []
    else Dealt(ws[..|ws| - 1], c) + (if (|ws| - 1) % 3 == c then [ws[|ws| - 1]] else [])
  }

  /** Column `c` holds windows `c, c + 3, c + 6, …` of the bucket, in that order. */
  lemma {:induction false} DealtAt(ws: seq<Window>, c: nat)
    requires c < 3
    ensures |Dealt(ws, c)| == (|ws| + 2 - c) / 3
    ensures forall j :: 0 <= j < |Dealt(ws, c)| ==> 3 * j + c < |ws| && Dealt(ws, c)[j] == ws[3 * j + c]
  {
    if ws != [] {
      DealtAt(ws[..|ws| - 1], c);
      DealtAtStep(ws, c);
    }
  }

  lemma DealtAtStep(ws: seq<Window>, c: nat)
    requires c < 3 && ws != []
    requires var init := ws[..|ws| - 1];
             && |Dealt(init, c)| == (|init| + 2 - c) / 3
             && forall j :: 0 <= j < |Dealt(init, c)| ==> 3 * j + c < |init| && Dealt(init, c)[j] == init[3 * j + c]
    ensures |Dealt(ws, c)| == (|ws| + 2 - c) / 3
    ensures forall j :: 0 <= j < |Dealt(ws, c)| ==> 3 * j + c < |ws| && Dealt(ws, c)[j] == ws[3 * j + c]
  {
    var n, init := |ws|, ws[..|ws| - 1];
    var d0, d := Dealt(init, c), Dealt(ws, c);
    DealCount(n, c);
    assert d == d0 + (if (n - 1) % 3 == c then [ws[n - 1]] else []);
    forall j | 0 <= j < |d|
      ensures 3 * j + c < n && d[j] == ws[3 * j + c]
    {
      if j < |d0| {
        assert d[j] == d0[j] == init[3 * j + c] == ws[3 * j + c];
      } else {
        assert 3 * j + c == n - 1;
      }
    }
  }

  /** Window `n - 1` adds one to column `c` exactly when it is dealt there. */
  lemma DealCount(n: nat, c: nat)
    requires n > 0 && c < 3
    ensures (n + 2 - c) / 3 == (n + 1 - c) / 3 + (if (n - 1) % 3 == c then 1 else 0)
    ensures (n - 1) % 3 == c ==> 3 * ((n + 1 - c) / 3) + c == n - 1
  {
  }

  /** Each of the `Columns(n)` columns receives at least one window, and no column beyond them receives any. */
  lemma DealtNonEmpty(ws: seq<Window>, c: nat)
    requires c < 3
    ensures c < Columns(|ws|) <==> |Dealt(ws, c)| >= 1
  {
    DealtAt(ws, c);
  }

  /** Dealing neither loses nor duplicates a window: the three columns together are a permutation of the bucket. */
  lemma {:induction false} DealtPermutation(ws: seq<Window>)
    ensures multiset(Dealt(ws, 0)) + multiset(Dealt(ws, 1)) + multiset(Dealt(ws, 2)) == multiset(ws)
  {
    if ws != [] {
      var init, last := ws[..|ws| - 1], ws[|ws| - 1];
      DealtPermutation(init);
      assert ws == init + [last];
      assert multiset(ws) == multiset(init) + multiset{last};
      DealtLast(ws, 0);
      DealtLast(ws, 1);
      DealtLast(ws, 2);
      AddToOneColumn(multiset(Dealt(init, 0)), multiset(Dealt(init, 1)), multiset(Dealt(init, 2)),
                     multiset(Dealt(ws, 0)), multiset(Dealt(ws, 1)), multiset(Dealt(ws, 2)),
                     last, (|ws| - 1) % 3);
    }
  }

  /** Adding one window to exactly one of three columns adds it once to their union. */
  lemma AddToOneColumn(a0: multiset<Window>, a1: multiset<Window>, a2: multiset<Window>,
                       b0: multiset<Window>, b1: multiset<Window>, b2: multiset<Window>,
                       w: Window, m: nat)
    requires m < 3
    requires b0 == a0 + (if m == 0 then multiset{w} else multiset{})
    requires b1 == a1 + (if m == 1 then multiset{w} else multiset{})
    requires b2 == a2 + (if m == 2 then multiset{w} else multiset{})
    ensures b0 + b1 + b2 == a0 + a1 + a2 + multiset{w}
  {
  }

  lemma DealtLast(ws: seq<Window>, c: nat)
    requires ws != []
    ensures multiset(Dealt(ws, c)) ==
            multiset(Dealt(ws[..|ws| - 1], c)) + (if (|ws| - 1) % 3 == c then multiset{ws[|ws| - 1]} else multiset{})
  {
  }

  // ---------------------------------------------------------------------
  // The layout of one bucket
  // ---------------------------------------------------------------------

  /** The rectangle of row `j` of column `c` when the bucket holds `ws`. */
  function Cell(gap: int, a: Rect, ws: seq<Window>, c: nat, j: nat): Rect
    requires |ws| > 0 && |Dealt(ws, c)| > 0
  {
    var n, k := |ws|, |Dealt(ws, c)|;
    Rect(SegmentStart(a.x, a.width, gap, Columns(n), c),
         SegmentStart(a.y, a.height, gap, k, j),
         SegmentSize(a.width, gap, Columns(n), c),
         SegmentSize(a.height, gap, k, j),
         true)
  }

  /** The placements of column `c`, top to bottom. */
  function ColumnPlacements(gap: int, a: Rect, ws: seq<Window>, c: nat): (ps: seq<Placement>)
    requires |ws| > 0
    ensures |ps| == |Dealt(ws, c)|
    ensures forall j :: 0 <= j < |ps| ==> ps[j] == Placement(Dealt(ws, c)[j], Cell(gap, a, ws, c, j))
  {
    var col := Dealt(ws, c);
    seq(|col|, j requires 0 <= j < |col| => Placement(col[j], Cell(gap, a, ws, c, j)))
  }

  /** The placements of columns `0 .. c-1`, column by column. */
  function Emitted(gap: int, a: Rect, ws: seq<Window>, c: nat): seq<Placement>
    requires |ws| > 0
  {
    if c == 0 then [] else Emitted(gap, a, ws, c - 1) + ColumnPlacements(gap, a, ws, c - 1)
  }

  /** Every placement `layout_bucket` emits for a bucket holding `ws`, in emission order. */
  function BucketLayout(gap: int, a: Rect, ws: seq<Window>): seq<Placement>
  {
    if |ws| == 0 then [] else Emitted(gap, a, ws, Columns(|ws|))
  }

  /** Where column `c`'s placements begin in the emitted sequence. */
  function ColumnStart(ws: seq<Window>, c: nat): nat
  {
    if c == 0 then 0 else ColumnStart(ws, c - 1) + |Dealt(ws, c - 1)|
  }

  lemma {:induction false} EmittedLength(gap: int, a: Rect, ws: seq<Window>, c: nat)
    requires |ws| > 0
    ensures |Emitted(gap, a, ws, c)| == ColumnStart(ws, c)
  {
    if c > 0 {
      EmittedLength(gap, a, ws, c - 1);
    }
  }

  /** Row `j` of column `d` sits at position `ColumnStart(ws, d) + j` of the emitted sequence. */
  lemma EmittedAt(gap: int, a: Rect, ws: seq<Window>, c: nat, d: nat, j: nat)
    requires |ws| > 0 && d < c && j < |Dealt(ws, d)|
    ensures ColumnStart(ws, d) + j < |Emitted(gap, a, ws, c)|
    ensures Emitted(gap, a, ws, c)[ColumnStart(ws, d) + j] == ColumnPlacements(gap, a, ws, d)[j]
  {
    EmittedLength(gap, a, ws, d);
    EmittedLast(gap, a, ws, d, ColumnStart(ws, d), j);
    EmittedPrefix(gap, a, ws, d + 1, c);
    IndexPrefix(Emitted(gap, a, ws, d + 1), Emitted(gap, a, ws, c), ColumnStart(ws, d) + j,
                ColumnPlacements(gap, a, ws, d)[j]);
  }

  /** What is emitted for the first columns is a prefix of what is emitted for more columns. */
  lemma {:induction false} EmittedPrefix(gap: int, a: Rect, ws: seq<Window>, d: nat, c: nat)
    requires |ws| > 0 && d <= c
    ensures Emitted(gap, a, ws, d) <= Emitted(gap, a, ws, c)
  {
    if d < c {
      EmittedPrefix(gap, a, ws, d, c - 1);
      PrefixAppend(Emitted(gap, a, ws, d), Emitted(gap, a, ws, c - 1), ColumnPlacements(gap, a, ws, c - 1));
    }
  }

  /** Column `d` is emitted right after the columns before it. */
  lemma EmittedLast(gap: int, a: Rect, ws: seq<Window>, d: nat, k: nat, j: nat)
    requires |ws| > 0 && k == |Emitted(gap, a, ws, d)| && j < |Dealt(ws, d)|
    ensures k + j < |Emitted(gap, a, ws, d + 1)| && Emitted(gap, a, ws, d + 1)[k + j] == ColumnPlacements(gap, a, ws, d)[j]
  {
    var q := ColumnPlacements(gap, a, ws, d);
    IndexRight(Emitted(gap, a, ws, d + 1), Emitted(gap, a, ws, d), q, k, j, q[j]);
  }

  lemma PrefixAppend(p: seq<Placement>, q: seq<Placement>, r: seq<Placement>)
    requires p <= q
    ensures p <= q + r
  {
    assert forall i :: 0 <= i < |p| ==> (q + r)[i] == q[i];
  }

  lemma IndexPrefix(p: seq<Placement>, s: seq<Placement>, i: nat, x: Placement)
    requires p <= s && i < |p| && p[i] == x
    ensures i < |s| && s[i] == x
  {
  }

  /** An element of the right part of a concatenation is shifted by the left part's length. */
  lemma IndexRight(s: seq<Placement>, p: seq<Placement>, q: seq<Placement>, k: nat, j: nat, x: Placement)
    requires s == p + q && k == |p| && j < |q| && q[j] == x
    ensures k + j < |s| && s[k + j] == x
  {
  }

  lemma WindowsOfAppend(p: seq<Placement>, q: seq<Placement>)
    ensures WindowsOf(p + q) == WindowsOf(p) + WindowsOf(q)
  {
  }

  /** The windows of columns `0 .. c-1`, column after column. */
  function Flattened(ws: seq<Window>, c: nat): seq<Window>
  {
    if c == 0 then [] else Flattened(ws, c - 1) + Dealt(ws, c - 1)
  }

  lemma {:induction false} EmittedWindows(gap: int, a: Rect, ws: seq<Window>, c: nat)
    requires |ws| > 0
    ensures WindowsOf(Emitted(gap, a, ws, c)) == Flattened(ws, c)
  {
    if c > 0 {
      EmittedWindows(gap, a, ws, c - 1);
      ColumnWindows(gap, a, ws, c - 1);
      EmittedWindowsStep(gap, a, ws, c);
    }
  }

  lemma EmittedWindowsStep(gap: int, a: Rect, ws: seq<Window>, c: nat)
    requires |ws| > 0 && c > 0
    requires WindowsOf(Emitted(gap, a, ws, c - 1)) == Flattened(ws, c - 1)
    requires WindowsOf(ColumnPlacements(gap, a, ws, c - 1)) == Dealt(ws, c - 1)
    ensures WindowsOf(Emitted(gap, a, ws, c)) == Flattened(ws, c)
  {
    WindowsOfAppend(Emitted(gap, a, ws, c - 1), ColumnPlacements(gap, a, ws, c - 1));
  }

  /** The placements of one column carry that column's windows, in order. */
  lemma ColumnWindows(gap: int, a: Rect, ws: seq<Window>, c: nat)
    requires |ws| > 0
    ensures WindowsOf(ColumnPlacements(gap, a, ws, c)) == Dealt(ws, c)
  {
    var p := ColumnPlacements(gap, a, ws, c);
    assert forall j :: 0 <= j < |p| ==> WindowsOf(p)[j] == Dealt(ws, c)[j];
  }

  /**
   * Every window of the bucket receives exactly one placement: the emitted
   * windows are columns 0, 1 and 2 one after the other, a permutation of the
   * bucket.
   */
  lemma {:induction false} LayoutPlacesEachWindowOnce(gap: int, a: Rect, ws: seq<Window>)
    ensures WindowsOf(BucketLayout(gap, a, ws)) == Dealt(ws, 0) + Dealt(ws, 1) + Dealt(ws, 2)
    ensures |BucketLayout(gap, a, ws)| == |ws|
    ensures multiset(WindowsOf(BucketLayout(gap, a, ws))) == multiset(ws)
  {
    LayoutWindowsAreColumns(gap, a, ws);
    var all := Dealt(ws, 0) + Dealt(ws, 1) + Dealt(ws, 2);
    DealtPermutation(ws);
    assert |all| == |multiset(all)| == |multiset(ws)| == |ws|;
  }

  lemma {:induction false} LayoutWindowsAreColumns(gap: int, a: Rect, ws: seq<Window>)
    ensures WindowsOf(BucketLayout(gap, a, ws)) == Dealt(ws, 0) + Dealt(ws, 1) + Dealt(ws, 2)
  {
    var d0, d1, d2 := Dealt(ws, 0), Dealt(ws, 1), Dealt(ws, 2);
    var n := |ws|;
    DealtNonEmpty(ws, 0);
    DealtNonEmpty(ws, 1);
    DealtNonEmpty(ws, 2);
    if n > 0 {
      EmittedWindows(gap, a, ws, Columns(n));
      assert Flattened(ws, 0) == [];
      assert Flattened(ws, 1) == [] + d0 == d0;
      assert Flattened(ws, 2) == d0 + d1;
      assert Flattened(ws, 3) == d0 + d1 + d2;
      if n == 1 {
        assert d1 == [] && d2 == [];
        assert d0 + d1 + d2 == d0;
      } else if n == 2 {
        assert d2 == [];
        assert d0 + d1 + d2 == d0 + d1;
      }
    } else {
      assert d0 == [] && d1 == [] && d2 == [];
    }
  }

  /**
   * Window `i` of the bucket is placed in column `i % 3`, row `i / 3`; the
   * columns are emitted one after the other, each top to bottom.
   */
  lemma LayoutPlacementOf(gap: int, a: Rect, ws: seq<Window>, i: nat)
    requires i < |ws|
    ensures |Dealt(ws, i % 3)| > i / 3
    ensures ColumnStart(ws, i % 3) + i / 3 < |BucketLayout(gap, a, ws)|
    ensures BucketLayout(gap, a, ws)[ColumnStart(ws, i % 3) + i / 3]
            == Placement(ws[i], Cell(gap, a, ws, i % 3, i / 3))
  {
    var c, j := i % 3, i / 3;
    assert 3 * j + c == i && c < 3;
    PlacementAt(gap, a, ws, c, j);
  }

  /** Row `j` of column `c` holds window `3 * j + c` at position `ColumnStart(ws, c) + j`. */
  lemma PlacementAt(gap: int, a: Rect, ws: seq<Window>, c: nat, j: nat)
    requires c < 3 && 3 * j + c < |ws|
    ensures |Dealt(ws, c)| > j
    ensures ColumnStart(ws, c) + j < |BucketLayout(gap, a, ws)|
    ensures BucketLayout(gap, a, ws)[ColumnStart(ws, c) + j] == Placement(ws[3 * j + c], Cell(gap, a, ws, c, j))
  {
    DealtIndex(ws, c, j);
    assert c < Columns(|ws|);
    EmittedAt(gap, a, ws, Columns(|ws|), c, j);
  }

  /** Entry `j` of column `c` is window `3 * j + c`, whenever that window exists. */
  lemma DealtIndex(ws: seq<Window>, c: nat, j: nat)
    requires c < 3 && 3 * j + c < |ws|
    ensures j < |Dealt(ws, c)| && Dealt(ws, c)[j] == ws[3 * j + c]
  {
    DealtAt(ws, c);
  }

  /** Cells that share neither column nor row never overlap (for a non-negative gap). */
  lemma CellsDisjoint(gap: int, a: Rect, ws: seq<Window>, c1: nat, j1: nat, c2: nat, j2: nat, px: int, py: int)
    requires gap >= 0 && |ws| > 0
    requires c1 < Columns(|ws|) && c2 < Columns(|ws|)
    requires j1 < |Dealt(ws, c1)| && j2 < |Dealt(ws, c2)|
    requires (c1, j1) != (c2, j2)
    ensures !(ContainsPoint(Cell(gap, a, ws, c1, j1), px, py) && ContainsPoint(Cell(gap, a, ws, c2, j2), px, py))
  {
    var n := |ws|;
    if c1 < c2 {
      SegmentsOrdered(a.x, a.width, gap, Columns(n), c1, c2);
    } else if c2 < c1 {
      SegmentsOrdered(a.x, a.width, gap, Columns(n), c2, c1);
    } else if j1 < j2 {
      SegmentsOrdered(a.y, a.height, gap, |Dealt(ws, c1)|, j1, j2);
    } else {
      SegmentsOrdered(a.y, a.height, gap, |Dealt(ws, c1)|, j2, j1);
    }
  }

  /**
   * When the bucket's area is large enough that no clamping happens, every
   * cell lies inside it, at least one gap from each edge.
   */
  lemma CellInsideArea(gap: int, a: Rect, ws: seq<Window>, c: nat, j: nat)
    requires gap >= 0 && |ws| > 0 && c < Columns(|ws|) && j < |Dealt(ws, c)|
    requires a.width - 2 * gap - (Columns(|ws|) - 1) * gap >= Columns(|ws|)
    requires a.height - 2 * gap - (|Dealt(ws, c)| - 1) * gap >= |Dealt(ws, c)|
    ensures Inside(Cell(gap, a, ws, c, j), a)
    ensures Cell(gap, a, ws, c, j).width >= 1 && Cell(gap, a, ws, c, j).height >= 1
  {
    var n, k := |ws|, |Dealt(ws, c)|;
    SegmentInside(a.x, a.width, gap, Columns(n), c);
    SegmentInside(a.y, a.height, gap, k, j);
    PartSizes(Usable(a.width, gap, Columns(n)), Columns(n), c, c);
    PartSizes(Usable(a.height, gap, k), k, j, j);
  }

  lemma TakeSnoc<T>(s: seq<T>, i: nat)
    requires i < |s|
    ensures s[..i + 1] == s[..i] + [s[i]]
  {
  }

  lemma TakeAll<T>(s: seq<T>)
    ensures s[..|s|] == s
  {
  }

  /**
   * The first phase of `layout_bucket`: the usable width, clamped to at
   * least one pixel per column, shared out as `col_w`, and the left edges
   * `col_x`, each one gap after the previous column.
   */
  method ColumnGeometry(gap: int, a: Rect, n: nat) returns (colW: array<int>, colX: array<int>)
    requires n > 0
    ensures fresh(colW) && fresh(colX) && colW.Length == 3 && colX.Length == 3
    ensures forall c :: 0 <= c < Columns(n) ==>
              colW[c] == SegmentSize(a.width, gap, Columns(n), c) &&
              colX[c] == SegmentStart(a.x, a.width, gap, Columns(n), c)
  {
    var innerX := gap;
    var columns := if n <= 3 then n else 3;
    var usableW := a.width - (2 * gap) - ((columns - 1) * innerX);
    if usableW < columns {
      usableW := columns;
    }
    assert usableW == Usable(a.width, gap, columns);

    colW := new int[3](_ => 0);
    for c := 0 to columns
      invariant forall k :: 0 <= k < c ==> colW[k] == SegmentSize(a.width, gap, columns, k)
    {
      colW[c] := usableW / columns + (if c < usableW % columns then 1 else 0);
      assert colW[c] == SegmentSize(a.width, gap, columns, c);
    }

    colX := new int[3](_ => 0);
    colX[0] := a.x + gap;
    for c := 1 to columns
      invariant colX[0] == a.x + gap
      invariant forall k :: 0 <= k < c ==> colX[k] == SegmentStart(a.x, a.width, gap, columns, k)
      invariant forall k :: 0 <= k < columns ==> colW[k] == SegmentSize(a.width, gap, columns, k)
    {
      colX[c] := colX[c - 1] + colW[c - 1] + innerX;
      assert colX[c] == SegmentStart(a.x, a.width, gap, columns, c);
    }
  }

  /**
   * The second phase of `layout_bucket`: window `i` is appended to column
   * `i` when there are at most three windows and to column `i % 3`
   * otherwise; `ncol` counts each column's windows.
   */
  method DealColumns(windows: seq<Window>) returns (cols: array2<Window>, ncol: array<nat>)
    ensures fresh(cols) && fresh(ncol)
    ensures cols.Length0 == 3 && cols.Length1 == |windows| && ncol.Length == 3
    ensures forall d :: 0 <= d < 3 ==> ncol[d] == |Dealt(windows, d)| <= |windows|
    ensures forall d, j :: 0 <= d < 3 && 0 <= j < ncol[d] ==> cols[d, j] == Dealt(windows, d)[j]
  {
    var n := |windows|;
    cols := new Window[3, n];
    ncol := new nat[3](_ => 0);
    for i := 0 to n
      invariant ncol[0] == (i + 2) / 3 && ncol[1] == (i + 1) / 3 && ncol[2] == i / 3
      invariant forall d, j :: 0 <= d < 3 && 0 <= j && 3 * j + d < i ==> cols[d, j] == windows[3 * j + d]
    {
      var c := ColumnOf(n, i);
      DealStep(i);
      cols[c, ncol[c]] := windows[i];
      ncol[c] := ncol[c] + 1;
    }
    DealtColumns(windows, cols, ncol);
  }

  /** Arrays holding windows `d, d + 3, d + 6, …` in row `d` hold the dealt columns. */
  lemma DealtColumns(windows: seq<Window>, cols: array2<Window>, ncol: array<nat>)
    requires cols.Length0 == 3 && cols.Length1 == |windows| && ncol.Length == 3
    requires ncol[0] == (|windows| + 2) / 3 && ncol[1] == (|windows| + 1) / 3 && ncol[2] == |windows| / 3
    requires forall d, j :: 0 <= d < 3 && 0 <= j && 3 * j + d < |windows| ==> cols[d, j] == windows[3 * j + d]
    ensures forall d :: 0 <= d < 3 ==> ncol[d] == |Dealt(windows, d)| <= |windows|
    ensures forall d, j :: 0 <= d < 3 && 0 <= j < ncol[d] ==> cols[d, j] == Dealt(windows, d)[j]
  {
    forall d | 0 <= d < 3
      ensures ncol[d] == |Dealt(windows, d)| <= |windows|
      ensures forall j :: 0 <= j < ncol[d] ==> cols[d, j] == Dealt(windows, d)[j]
    {
      DealtAt(windows, d);
      assert forall j :: 0 <= j < ncol[d] ==> 3 * j + d < |windows|;
    }
  }

  /** Window `i` goes to column `i % 3` as its entry `i / 3`, and only that column's count grows. */
  lemma DealStep(i: nat)
    ensures i < 3 ==> i % 3 == i
    ensures 3 * (i / 3) + i % 3 == i
    ensures (i + 3) / 3 == (i + 2) / 3 + (if i % 3 == 0 then 1 else 0)
    ensures (i + 2) / 3 == (i + 1) / 3 + (if i % 3 == 1 then 1 else 0)
    ensures (i + 1) / 3 == i / 3 + (if i % 3 == 2 then 1 else 0)
    ensures i % 3 == 0 ==> (i + 2) / 3 == i / 3
    ensures i % 3 == 1 ==> (i + 1) / 3 == i / 3
  {
  }

  /**
   * The last phase of `layout_bucket` for one non-empty column: the usable
   * height, clamped to at least one pixel per row, shared out top to bottom
   * along a running `y`, each placement appended to `out` as `apply_rect`
   * would send it.
   */
  method StackColumn(gap: int, a: Rect, windows: seq<Window>, c: nat, x: int, w: int,
                     cols: array2<Window>, k: nat, out: seq<Placement>) returns (out': seq<Placement>)
    requires |windows| > 0 && c < 3 && k == |Dealt(windows, c)| > 0
    requires x == SegmentStart(a.x, a.width, gap, Columns(|windows|), c)
    requires w == SegmentSize(a.width, gap, Columns(|windows|), c)
    requires cols.Length0 == 3 && cols.Length1 >= k
    requires forall j :: 0 <= j < k ==> cols[c, j] == Dealt(windows, c)[j]
    ensures out' == out + ColumnPlacements(gap, a, windows, c)
  {
    var innerY := gap;
    var usableH := a.height - (2 * gap) - ((k - 1) * innerY);
    if usableH < k {
      usableH := k;
    }
    var y := a.y + gap;
    var baseH := usableH / k;
    var rem := usableH % k;
    ghost var col := ColumnPlacements(gap, a, windows, c);
    out' := out;
    for i := 0 to k
      invariant out' == out + col[..i]
      invariant y == SegmentStart(a.y, a.height, gap, k, i)
    {
      var h := baseH + (if i < rem then 1 else 0);
      var r := Rect(x, y, w, h, true);
      assert r == Cell(gap, a, windows, c, i);
      TakeSnoc(col, i);
      out' := out' + [Placement(cols[c, i], r)];
      y := y + h + innerY;
    }
    TakeAll(col);
  }

  /**
   * `layout_bucket`: nothing for an empty bucket; otherwise `min(n, 3)`
   * columns, the round-robin deal, and each column stacked in turn, the
   * placements emitted column by column.
   */
  method LayoutBucket(gap: int, a: Rect, windows: seq<Window>) returns (out: seq<Placement>)
    ensures out == BucketLayout(gap, a, windows)
  {
    var n := |windows|;
    if n <= 0 {
      return [];
    }
    var columns := if n <= 3 then n else 3;
    var colW, colX := ColumnGeometry(gap, a, n);
    var cols, ncol := DealColumns(windows);
    out := [];
    for c := 0 to columns
      invariant out == Emitted(gap, a, windows, c)
      invariant forall d :: 0 <= d < 3 ==> ncol[d] == |Dealt(windows, d)|
      invariant forall d, j :: 0 <= d < 3 && 0 <= j < ncol[d] ==> cols[d, j] == Dealt(windows, d)[j]
      invariant forall d :: 0 <= d < columns ==>
                  colW[d] == SegmentSize(a.width, gap, columns, d) &&
                  colX[d] == SegmentStart(a.x, a.width, gap, columns, d)
    {
      if ncol[c] == 0 {
        continue;
      }
      out := StackColumn(gap, a, windows, c, colX[c], colW[c], cols, ncol[c], out);
    }
  }
}
