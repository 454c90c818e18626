/**
 * The top level of the tiler: every managed window is put into the bucket
 * of the monitor holding its centre, and every bucket is laid out on its
 * monitor. The client list, the window centres and the property arrays are
 * inputs; the placements `apply_rect` would send are the output.
 */
module Tiling {
  import opened Geometry
  import opened Monitors
  import opened Layout
  import opened Wrappers

  /** At most this many windows are managed, and at most this many go into one bucket. */
  const MaxManaged: nat := 1024

  /** A point in root-window coordinates. */
  datatype Point = Point(x: int, y: int)

  /**
   * A managed window and the root coordinates of its centre; `None` when its
   * attributes could not be read.
   */
  datatype Client = Client(window: Window, centre: Option<Point>)

  /** A window together with the monitor it was classified onto. */
  datatype Tag = Tag(window: Window, monitor: nat)

  /** The window ids of the clients, in client-list order. */
  function Ids(clients: seq<Client>): (ids: seq<Window>)
    ensures |ids| == |clients|
    ensures forall i :: 0 <= i < |clients| ==> ids[i] == clients[i].window
  {
    seq(|clients|, i requires 0 <= i < |clients| => clients[i].window)
  }

  /** The monitor a client is bucketed on: the one holding its centre, monitor 0 when its centre is unknown. */
  function MonitorOf(mons: seq<Rect>, cl: Client): (m: nat)
    ensures |mons| > 0 ==> m < |mons|
    ensures cl.centre.None? ==> m == 0
    ensures cl.centre.Some? && |mons| > 0 ==>
              var p := cl.centre.value;
              || (ContainsPoint(mons[m], p.x, p.y) && forall j :: 0 <= j < m ==> !ContainsPoint(mons[j], p.x, p.y))
              || (m == 0 && forall j :: 0 <= j < |mons| ==> !ContainsPoint(mons[j], p.x, p.y))
  {
    match cl.centre
    case None => 0
    case Some(p) => MonitorIndexForPoint(mons, p.x, p.y)
  }

  /** Every client tagged with its monitor. */
  function Tagged(mons: seq<Rect>, clients: seq<Client>): (ts: seq<Tag>)
    ensures |ts| == |clients|
    ensures forall i :: 0 <= i < |clients| ==> ts[i] == Tag(clients[i].window, MonitorOf(mons, clients[i]))
  {
    seq(|clients|, i requires 0 <= i < |clients| => Tag(clients[i].window, MonitorOf(mons, clients[i])))
  }

  /**
   * The windows of a tag sequence, in order. This is `Ids` read off tags
   * rather than clients: bucketing works on the tags, and for
   * `Tagged(mons, clients)` the two agree (see `BucketsPlaceEachClientOnce`).
   */
  function TagWindows(ts: seq<Tag>): (ws: seq<Window>)
    ensures |ws| == |ts|
    ensures forall i :: 0 <= i < |ts| ==> ws[i] == ts[i].window
  {
    seq(|ts|, i requires 0 <= i < |ts| => ts[i].window)
  }

  /** The windows tagged with monitor `m`, in order, before any cap. */
  function Assigned(ts: seq<Tag>, m: nat): (ws: seq<Window>)
    ensures |ws| <= |ts|
  {
    if ts == [] then []
    else
      var last := ts[|ts| - 1];
      Assigned(ts[..|ts| - 1], m) + (if last.monitor == m then [last.window] else [])
  }

  /** The first `MaxManaged` entries of a sequence. */
  function Capped(ws: seq<Window>): seq<Window>
  {
    ws[..Min(|ws|, MaxManaged)]
  }

  /** The content of bucket `m` after the bucketing loop. */
  function Bucket(ts: seq<Tag>, m: nat): seq<Window>
  {
    Capped(Assigned(ts, m))
  }

  /**
   * A window is in the uncapped bucket of `m` exactly when some tag carries
   * that window and monitor `m`.
   */
  lemma {:induction false} AssignedMembers(ts: seq<Tag>, m: nat, w: Window)
    ensures w in Assigned(ts, m) <==> exists i :: 0 <= i < |ts| && ts[i] == Tag(w, m)
  {
    if ts != [] {
      AssignedMembers(ts[..|ts| - 1], m, w);
      AssignedMembersStep(ts, m, w);
    }
  }

  lemma AssignedMembersStep(ts: seq<Tag>, m: nat, w: Window)
    requires ts != []
    requires var init := ts[..|ts| - 1];
             w in Assigned(init, m) <==> exists i :: 0 <= i < |init| && init[i] == Tag(w, m)
    ensures w in Assigned(ts, m) <==> exists i :: 0 <= i < |ts| && ts[i] == Tag(w, m)
  {
    var init, last := ts[..|ts| - 1], ts[|ts| - 1];
    assert Assigned(ts, m) == Assigned(init, m) + (if last.monitor == m then [last.window] else []);
    if exists i :: 0 <= i < |init| && init[i] == Tag(w, m) {
      var i :| 0 <= i < |init| && init[i] == Tag(w, m);
      assert ts[i] == init[i];
    }
    if exists i :: 0 <= i < |ts| && ts[i] == Tag(w, m) {
      var i :| 0 <= i < |ts| && ts[i] == Tag(w, m);
      if i < |init| {
        assert init[i] == ts[i];
      }
    }
  }

  /**
   * A bucket never holds more than `MaxManaged` windows, and the windows the
   * cap turns away are the latest ones: the bucket is a prefix of the
   * uncapped, order-preserving assignment, and all of it when that fits.
   */
  lemma BucketCap(ts: seq<Tag>, m: nat)
    ensures |Bucket(ts, m)| <= MaxManaged
    ensures Bucket(ts, m) <= Assigned(ts, m)
    ensures |Assigned(ts, m)| <= MaxManaged ==> Bucket(ts, m) == Assigned(ts, m)
    ensures |Assigned(ts, m)| >= MaxManaged ==> |Bucket(ts, m)| == MaxManaged
  {
  }

  /** One more tag adds its window to the uncapped bucket of its own monitor only. */
  lemma AssignedSnoc(ts: seq<Tag>, i: nat, m: nat)
    requires i < |ts|
    ensures Assigned(ts[..i + 1], m) == Assigned(ts[..i], m) + (if ts[i].monitor == m then [ts[i].window] else [])
  {
    assert ts[..i + 1][..i] == ts[..i];
  }

  /** Appending to a capped sequence takes effect only while it is below the cap. */
  lemma CappedSnoc(ws: seq<Window>, w: Window)
    ensures Capped(ws + [w]) == if |Capped(ws)| < MaxManaged then Capped(ws) + [w] else Capped(ws)
  {
    if |ws| < MaxManaged {
      assert Capped(ws + [w]) == ws + [w];
    } else {
      assert (ws + [w])[..MaxManaged] == ws[..MaxManaged];
    }
  }

  /** One more tag is appended to its own monitor's bucket if that bucket is below the cap, and changes no other bucket. */
  lemma BucketSnoc(ts: seq<Tag>, i: nat, m: nat)
    requires i < |ts|
    ensures Bucket(ts[..i + 1], m) ==
            if m == ts[i].monitor && |Bucket(ts[..i], m)| < MaxManaged
            then Bucket(ts[..i], m) + [ts[i].window]
            else Bucket(ts[..i], m)
  {
    AssignedSnoc(ts, i, m);
    CappedSnoc(Assigned(ts[..i], m), ts[i].window);
  }

  /** All `n` buckets after the first `i` tags. */
  function BucketsAfter(ts: seq<Tag>, i: nat, n: nat): (bs: seq<seq<Window>>)
    requires i <= |ts|
    ensures |bs| == n
    ensures forall m :: 0 <= m < n ==> bs[m] == Bucket(ts[..i], m)
  {
    seq(n, m requires 0 <= m < n => Bucket(ts[..i], m))
  }

  /**
   * One bucketing step: tag `i` is appended to the bucket of its monitor
   * when that bucket is below the cap; every other bucket is unchanged.
   */
  lemma BucketsStep(ts: seq<Tag>, i: nat, n: nat)
    requires i < |ts| && ts[i].monitor < n
    ensures var before, m := BucketsAfter(ts, i, n), ts[i].monitor;
            BucketsAfter(ts, i + 1, n) ==
            if |before[m]| < MaxManaged then before[m := before[m] + [ts[i].window]] else before
  {
    var before, after, m := BucketsAfter(ts, i, n), BucketsAfter(ts, i + 1, n), ts[i].monitor;
    forall k | 0 <= k < n
      ensures after[k] == if |before[m]| < MaxManaged then before[m := before[m] + [ts[i].window]][k] else before[k]
    {
      BucketSnoc(ts, i, k);
    }
  }

  /**
   * The bucketing loop of `tile_all_windows`: each client goes to the bucket
   * of `MonitorOf`, appended while that bucket holds fewer than `MaxManaged`
   * windows and dropped otherwise.
   */
  method BucketWindows(mons: seq<Rect>, clients: seq<Client>) returns (buckets: seq<seq<Window>>)
    requires 1 <= |mons| <= MaxMonitors
    ensures |buckets| == |mons|
    ensures forall m :: 0 <= m < |mons| ==> buckets[m] == Bucket(Tagged(mons, clients), m)
  {
    ghost var ts := Tagged(mons, clients);
    var windows := new seq<Window>[|mons|](_ => []);
    assert windows[..] == BucketsAfter(ts, 0, |mons|);
    for i := 0 to |clients|
      invariant windows[..] == BucketsAfter(ts, i, |mons|)
    {
      var mon := 0;
      match clients[i].centre {
        case Some(p) => mon := MonitorIndexForPoint(mons, p.x, p.y);
        case None =>
      }
      assert mon == ts[i].monitor && clients[i].window == ts[i].window;
      BucketsStep(ts, i, |mons|);
      if |windows[mon]| < MaxManaged {
        windows[mon] := windows[mon] + [clients[i].window];
      }
    }
    assert ts[..|clients|] == ts;
    buckets := windows[..];
  }

  // ---------------------------------------------------------------------
  // Every client lands in exactly one bucket
  // ---------------------------------------------------------------------

  /** The uncapped buckets of monitors `0 .. k-1`, one after the other. */
  function Gathered(ts: seq<Tag>, k: nat): seq<Window>
  {
    if k == 0 then [] else Gathered(ts, k - 1) + Assigned(ts, k - 1)
  }

  lemma {:induction false} GatheredSnoc(ts: seq<Tag>, t: Tag, k: nat)
    ensures multiset(Gathered(ts + [t], k)) ==
            multiset(Gathered(ts, k)) + (if t.monitor < k then multiset{t.window} else multiset{})
  {
    if k > 0 {
      GatheredSnoc(ts, t, k - 1);
      AssignedAppend(ts, t, k - 1);
      GatheredStep(ts, t, k);
    }
  }

  lemma GatheredStep(ts: seq<Tag>, t: Tag, k: nat)
    requires k > 0
    requires multiset(Gathered(ts + [t], k - 1)) ==
             multiset(Gathered(ts, k - 1)) + (if t.monitor < k - 1 then multiset{t.window} else multiset{})
    requires multiset(Assigned(ts + [t], k - 1)) ==
             multiset(Assigned(ts, k - 1)) + (if t.monitor == k - 1 then multiset{t.window} else multiset{})
    ensures multiset(Gathered(ts + [t], k)) ==
            multiset(Gathered(ts, k)) + (if t.monitor < k then multiset{t.window} else multiset{})
  {
    AddToBucket(multiset(Gathered(ts, k - 1)), multiset(Assigned(ts, k - 1)),
                multiset(Gathered(ts + [t], k - 1)), multiset(Assigned(ts + [t], k - 1)),
                t.window, t.monitor < k - 1, t.monitor == k - 1);
  }

  lemma AssignedAppend(ts: seq<Tag>, t: Tag, m: nat)
    ensures multiset(Assigned(ts + [t], m)) ==
            multiset(Assigned(ts, m)) + (if t.monitor == m then multiset{t.window} else multiset{})
  {
    assert (ts + [t])[..|ts|] == ts;
  }

  /** Bookkeeping for `GatheredSnoc`: a window added to the earlier buckets or to the next one is added once. */
  lemma AddToBucket(g: multiset<Window>, s: multiset<Window>, g': multiset<Window>, s': multiset<Window>,
                    w: Window, before: bool, here: bool)
    requires !(before && here)
    requires g' == g + (if before then multiset{w} else multiset{})
    requires s' == s + (if here then multiset{w} else multiset{})
    ensures g' + s' == g + s + (if before || here then multiset{w} else multiset{})
  {
  }

  /**
   * Bucketing partitions the clients: when every tag names one of the first
   * `k` monitors, those monitors' uncapped buckets hold every window exactly
   * once.
   */
  lemma {:induction false} BucketsPartition(ts: seq<Tag>, k: nat)
    requires forall i :: 0 <= i < |ts| ==> ts[i].monitor < k
    ensures multiset(Gathered(ts, k)) == multiset(TagWindows(ts))
  {
    if ts == [] {
      GatheredEmpty(k);
    } else {
      var init, last := ts[..|ts| - 1], ts[|ts| - 1];
      BucketsPartition(init, k);
      GatheredSnoc(init, last, k);
      assert ts == init + [last];
      assert TagWindows(ts) == TagWindows(init) + [last.window];
    }
  }

  lemma {:induction false} GatheredEmpty(k: nat)
    ensures Gathered([], k) == []
  {
    if k > 0 {
      GatheredEmpty(k - 1);
    }
  }

  // ---------------------------------------------------------------------
  // Tiling every monitor
  // ---------------------------------------------------------------------

  /** The placements of buckets `0 .. k-1`, each laid out on its monitor, in monitor order. */
  function AllLayouts(gap: int, mons: seq<Rect>, buckets: seq<seq<Window>>, k: nat): seq<Placement>
    requires |buckets| == |mons| && k <= |mons|
  {
    if k == 0 then [] else AllLayouts(gap, mons, buckets, k - 1) + BucketLayout(gap, mons[k - 1], buckets[k - 1])
  }

  lemma {:induction false} AllLayoutsWindows(gap: int, mons: seq<Rect>, buckets: seq<seq<Window>>, ts: seq<Tag>, k: nat)
    requires |buckets| == |mons| && k <= |mons|
    requires forall m :: 0 <= m < k ==> buckets[m] == Assigned(ts, m)
    ensures multiset(WindowsOf(AllLayouts(gap, mons, buckets, k))) == multiset(Gathered(ts, k))
  {
    if k > 0 {
      AllLayoutsWindows(gap, mons, buckets, ts, k - 1);
      AllLayoutsWindowsStep(gap, mons, buckets, ts, k);
    }
  }

  lemma AllLayoutsWindowsStep(gap: int, mons: seq<Rect>, buckets: seq<seq<Window>>, ts: seq<Tag>, k: nat)
    requires |buckets| == |mons| && 0 < k <= |mons| && buckets[k - 1] == Assigned(ts, k - 1)
    requires multiset(WindowsOf(AllLayouts(gap, mons, buckets, k - 1))) == multiset(Gathered(ts, k - 1))
    ensures multiset(WindowsOf(AllLayouts(gap, mons, buckets, k))) == multiset(Gathered(ts, k))
  {
    LayoutPlacesEachWindowOnce(gap, mons[k - 1], buckets[k - 1]);
    WindowsMultisetAppend(AllLayouts(gap, mons, buckets, k - 1), BucketLayout(gap, mons[k - 1], buckets[k - 1]),
                          multiset(Gathered(ts, k - 1)), multiset(Assigned(ts, k - 1)));
    assert Gathered(ts, k) == Gathered(ts, k - 1) + Assigned(ts, k - 1);
  }

  lemma WindowsMultisetAppend(p: seq<Placement>, q: seq<Placement>, u: multiset<Window>, v: multiset<Window>)
    requires multiset(WindowsOf(p)) == u && multiset(WindowsOf(q)) == v
    ensures multiset(WindowsOf(p + q)) == u + v
  {
    WindowsOfAppend(p, q);
  }

  /** Everything `tile_all_windows` sends for the given display state. */
  function Tiled(gap: int, displayWidth: int, displayHeight: int, workareas: seq<Card32>, current: seq<Card32>,
                 screens: seq<Rect>, clients: seq<Client>): seq<Placement>
  {
    if |clients| == 0 then []
    else
      var mons := VisibleMonitors(GetWorkarea(displayWidth, displayHeight, workareas, current), screens);
      AllLayouts(gap, mons, Buckets(mons, clients), |mons|)
  }

  /** The buckets of all monitors. */
  function Buckets(mons: seq<Rect>, clients: seq<Client>): (bs: seq<seq<Window>>)
    ensures |bs| == |mons|
    ensures forall m :: 0 <= m < |mons| ==> bs[m] == Bucket(Tagged(mons, clients), m)
  {
    var ts := Tagged(mons, clients);
    seq(|mons|, m requires 0 <= m < |mons| => Bucket(ts, m))
  }

  /**
   * When no more than `MaxManaged` clients are given, the buckets hold every
   * client exactly once, and laying them out places every client window
   * exactly once.
   */
  lemma BucketsPlaceEachClientOnce(gap: int, mons: seq<Rect>, clients: seq<Client>)
    requires |mons| >= 1 && |clients| <= MaxManaged
    ensures multiset(WindowsOf(AllLayouts(gap, mons, Buckets(mons, clients), |mons|))) == multiset(Ids(clients))
    ensures |AllLayouts(gap, mons, Buckets(mons, clients), |mons|)| == |clients|
  {
    var ts := Tagged(mons, clients);
    var buckets := Buckets(mons, clients);
    forall m | 0 <= m < |mons|
      ensures buckets[m] == Assigned(ts, m)
    {
      BucketCap(ts, m);
    }
    AllLayoutsWindows(gap, mons, buckets, ts, |mons|);
    BucketsPartition(ts, |mons|);
    assert TagWindows(ts) == Ids(clients);
    var placed := WindowsOf(AllLayouts(gap, mons, buckets, |mons|));
    assert |placed| == |multiset(placed)| == |multiset(Ids(clients))| == |clients|;
  }

  /** `tile_all_windows` places every client window exactly once (the client list holds at most `MaxManaged` windows). */
  lemma TiledPlacesEachClientOnce(gap: int, displayWidth: int, displayHeight: int, workareas: seq<Card32>,
                                  current: seq<Card32>, screens: seq<Rect>, clients: seq<Client>)
    requires |clients| <= MaxManaged
    ensures multiset(WindowsOf(Tiled(gap, displayWidth, displayHeight, workareas, current, screens, clients)))
            == multiset(Ids(clients))
    ensures |Tiled(gap, displayWidth, displayHeight, workareas, current, screens, clients)| == |clients|
  {
    if |clients| > 0 {
      var wa := GetWorkarea(displayWidth, displayHeight, workareas, current);
      VisibleMonitorsShape(wa, screens);
      BucketsPlaceEachClientOnce(gap, VisibleMonitors(wa, screens), clients);
    }
  }

  /** The last loop of `tile_all_windows`: every bucket laid out in monitor order. */
  method LayoutMonitors(gap: int, mons: seq<Rect>, buckets: seq<seq<Window>>) returns (placements: seq<Placement>)
    requires |buckets| == |mons|
    ensures placements == AllLayouts(gap, mons, buckets, |mons|)
  {
    placements := [];
    for m := 0 to |mons|
      invariant placements == AllLayouts(gap, mons, buckets, m)
    {
      var p := LayoutBucket(gap, mons[m], buckets[m]);
      placements := placements + p;
    }
  }

  /**
   * `tile_all_windows`: nothing happens without clients; otherwise the work
   * area and the monitors are resolved, the clients bucketed and every
   * bucket laid out in monitor order. When the client list is within the
   * managed limit, every client window is placed exactly once.
   */
  method TileAllWindows(gap: int, displayWidth: int, displayHeight: int, workareas: seq<Card32>,
                        current: seq<Card32>, screens: seq<Rect>, clients: seq<Client>)
    returns (placements: seq<Placement>)
    requires |clients| <= MaxManaged
    ensures placements == Tiled(gap, displayWidth, displayHeight, workareas, current, screens, clients)
    ensures multiset(WindowsOf(placements)) == multiset(Ids(clients))
    ensures |placements| == |clients|
  {
    TiledPlacesEachClientOnce(gap, displayWidth, displayHeight, workareas, current, screens, clients);
    if |clients| == 0 {
      return [];
    }
    var wa := GetWorkarea(displayWidth, displayHeight, workareas, current);
    var mons := GetVisibleMonitors(wa, screens);
    VisibleMonitorsShape(wa, screens);
    var buckets := BucketWindows(mons, clients);
    assert buckets == Buckets(mons, clients);
    placements := LayoutMonitors(gap, mons, buckets);
  }
}
