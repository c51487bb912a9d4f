/** The route transition logic of the application shell
    (src/layout/AppLayout.jsx): the rank of a route, the slide direction
    derived from rank changes, the curtain that opens on every route change
    and the `markReady` guard that schedules its closing once per route.
    Timers are modelled as counts of scheduled callbacks. */
module AppLayout {
  import opened JsValues

  const StreamPrefix := "/stream"
  const GlobePrefix := "/globe"
  const DashboardPrefix := "/dashboard"

  /** Position of a route in the stepper: stream, globe, dashboard; anything else counts as the first. */
  function RouteRank(path: string): (r: nat)
    ensures r <= 2
    ensures r == 2 <==> StartsWith(path, DashboardPrefix)
    ensures r == 1 <==> StartsWith(path, GlobePrefix)
    ensures r == 0 <==> !StartsWith(path, GlobePrefix) && !StartsWith(path, DashboardPrefix)
  {
    PrefixesExclusive(path);
    if StartsWith(path, StreamPrefix) then 0
    else if StartsWith(path, GlobePrefix) then 1
    else if StartsWith(path, DashboardPrefix) then 2
    else 0
  }

  /** The three route prefixes differ in their second character, so at most one applies. */
  lemma PrefixesExclusive(path: string)
    ensures StartsWith(path, StreamPrefix) ==> !StartsWith(path, GlobePrefix) && !StartsWith(path, DashboardPrefix)
    ensures StartsWith(path, GlobePrefix) ==> !StartsWith(path, DashboardPrefix)
  {
    if StartsWith(path, StreamPrefix) {
      assert path[1] == 's';
    }
    if StartsWith(path, GlobePrefix) {
      assert path[1] == 'g';
    }
  }

  /** The layout's refs and curtain state.  `closesScheduled` counts the
      delayed curtain closes `markReady` has queued; `fallbackArmed` is the
      safety timer of the current route. */
  datatype Layout = Layout(
    prevRank: nat,
    dir: int,
    ready: bool,
    curtainOpen: bool,
    closesScheduled: nat,
    fallbackArmed: bool)

  /** First render: the previous rank is the starting route's, direction
      forward, curtain closed, not ready. */
  function Mount(path: string): (l: Layout)
    ensures l.prevRank == RouteRank(path) && l.dir == 1
    ensures !l.ready && !l.curtainOpen && l.closesScheduled == 0 && !l.fallbackArmed
  {
    Layout(RouteRank(path), 1, false, false, 0, false)
  }

  /** The route effect also runs on mount, so the first committed state has
      the curtain open, the fallback armed, the direction forward and the
      starting route's rank. */
  lemma MountRunsRouteEffect(path: string)
    ensures var l := Navigate(Mount(path), path);
      && l.curtainOpen && l.fallbackArmed && !l.ready && l.dir == 1
      && l.prevRank == RouteRank(path) && l.closesScheduled == 0
  {
  }

  /** The direction computed during render: forward for a higher rank,
      backward for a lower one, unchanged for the same rank. */
  function Direction(prevRank: nat, currRank: nat, dir: int): (d: int)
    ensures currRank > prevRank ==> d == 1
    ensures currRank < prevRank ==> d == -1
    ensures currRank == prevRank ==> d == dir
  {
    if currRank != prevRank then (if currRank > prevRank then 1 else -1) else dir
  }

  /** Rendering a new path and running the route-change effect: update the
      direction, drop readiness, open the curtain, re-arm the fallback timer
      and commit the rank. */
  function Navigate(l: Layout, path: string): (r: Layout)
    ensures r.dir == Direction(l.prevRank, RouteRank(path), l.dir)
    ensures !r.ready && r.curtainOpen && r.fallbackArmed
    ensures r.prevRank == RouteRank(path)
    ensures r.closesScheduled == l.closesScheduled
  {
    var curr := RouteRank(path);
    Layout(curr, Direction(l.prevRank, curr, l.dir), false, true, l.closesScheduled, true)
  }

  /** Called by a page once its main view is ready; a second call while ready is a no-op. */
  function MarkReady(l: Layout): (r: Layout)
    ensures l.ready ==> r == l
    ensures !l.ready ==> r.ready && r.closesScheduled == l.closesScheduled + 1
    ensures r.prevRank == l.prevRank && r.dir == l.dir && r.curtainOpen == l.curtainOpen
    ensures r.fallbackArmed == l.fallbackArmed
  {
    if l.ready then l else l.(ready := true, closesScheduled := l.closesScheduled + 1)
  }

  /** A scheduled close or the fallback timer firing closes the curtain. */
  function CloseCurtain(l: Layout): (r: Layout)
    ensures !r.curtainOpen
    ensures r.ready == l.ready && r.prevRank == l.prevRank && r.dir == l.dir
    ensures r.closesScheduled == l.closesScheduled && r.fallbackArmed == l.fallbackArmed
  {
    l.(curtainOpen := false)
  }

  /** `n` calls of `markReady` in a row. */
  function MarkReadyTimes(l: Layout, n: nat): Layout
    decreases n
  {
    if n == 0 then l else MarkReadyTimes(MarkReady(l), n - 1)
  }

  /** However often a page calls `markReady` after a route change, exactly
      one curtain close is scheduled. */
  lemma {:induction false} MarkReadyOncePerRoute(l: Layout, path: string, n: nat)
    requires n >= 1
    ensures MarkReadyTimes(Navigate(l, path), n).closesScheduled == l.closesScheduled + 1
    ensures MarkReadyTimes(Navigate(l, path), n).ready
  {
    var l1 := MarkReady(Navigate(l, path));
    assert l1.ready && l1.closesScheduled == l.closesScheduled + 1;
    MarkReadyStable(l1, n - 1);
  }

  /** Once ready, further calls change nothing. */
  lemma {:induction false} MarkReadyStable(l: Layout, n: nat)
    requires l.ready
    ensures MarkReadyTimes(l, n) == l
    decreases n
  {
    if n > 0 {
      MarkReadyStable(MarkReady(l), n - 1);
    }
  }

  /** The direction is always a unit step. */
  ghost predicate DirIsUnit(l: Layout) {
    l.dir == 1 || l.dir == -1
  }

  /** Navigating through any sequence of paths keeps the direction a unit
      step. */
  lemma {:induction false} NavigateKeepsDirection(l: Layout, paths: seq<string>)
    requires DirIsUnit(l)
    ensures DirIsUnit(NavigateAll(l, paths))
    decreases |paths|
  {
    if paths != [] {
      NavigateKeepsDirection(Navigate(l, paths[0]), paths[1..]);
    }
  }

  function NavigateAll(l: Layout, paths: seq<string>): Layout
    decreases |paths|
  {
    if paths == [] then l else NavigateAll(Navigate(l, paths[0]), paths[1..])
  }

  /** After a sequence of navigations the committed rank is the last path's,
      and when the last step changed the rank the direction points from the
      rank before it to that rank. */
  lemma {:induction false} DirectionOfLastRankChange(l: Layout, paths: seq<string>)
    requires paths != []
    ensures var r := NavigateAll(l, paths);
      var before := if |paths| == 1 then l.prevRank else RouteRank(paths[|paths| - 2]);
      var last := RouteRank(paths[|paths| - 1]);
      r.prevRank == last && (last > before ==> r.dir == 1) && (last < before ==> r.dir == -1)
    decreases |paths|
  {
    if |paths| > 1 {
      DirectionOfLastRankChange(Navigate(l, paths[0]), paths[1..]);
      assert paths[1..][|paths| - 2] == paths[|paths| - 1];
      if |paths| > 2 {
        assert paths[1..][|paths| - 3] == paths[|paths| - 2];
      } else {
        assert Navigate(l, paths[0]).prevRank == RouteRank(paths[0]);
      }
    }
  }
}
