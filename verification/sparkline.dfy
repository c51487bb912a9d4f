/** The sparkline path builder (src/utils/sparkline.js): one SVG command per
    drawable point, a Move at the start of every run of drawable points and a
    Line inside a run. The scale functions stand for the panel's x and y
    scales and return None when their result is not finite. */
module Sparkline {
  import opened Wrappers
  import opened DetailPanel

  /** `M x y` and ` L x y`; number formatting is left abstract. */
  datatype Cmd = Move(x: real, y: real) | Line(x: real, y: real)

  /** A point is drawn when its value is finite and both scaled coordinates are
      finite (its year, an integer, always is). */
  predicate Valid(p: Point, xScale: int -> Option<real>, yScale: real -> Option<real>) {
    p.value.Some? && xScale(p.year).Some? && yScale(p.value.value).Some?
  }

  /** The command a point contributes, given whether the point before it was drawn. */
  function Emit(p: Point, afterDrawn: bool, xScale: int -> Option<real>, yScale: real -> Option<real>): seq<Cmd>
  {
    if !Valid(p, xScale, yScale) then []
    else
      var x := xScale(p.year).value;
      var y := yScale(p.value.value).value;
      if afterDrawn then [Line(x, y)] else [Move(x, y)]
  }

  /** Reference definition: walk the points and look one point back. */
  function Commands(s: seq<Point>, xScale: int -> Option<real>, yScale: real -> Option<real>): seq<Cmd>
  {
    if s == [] then []
    else
      var n := |s| - 1;
      Commands(s[..n], xScale, yScale)
        + Emit(s[n], n > 0 && Valid(s[n - 1], xScale, yScale), xScale, yScale)
  }

  /** `buildSparkPath`: the loop with its `started` flag, which any undrawable
      point resets. */
  method BuildSparkPath(series: seq<Point>, xScale: int -> Option<real>, yScale: real -> Option<real>)
    returns (path: seq<Cmd>)
    ensures path == Commands(series, xScale, yScale)
    ensures series == [] ==> path == []
  {
    path := [];
    var started := false;
    var i := 0;
    while i < |series|
      invariant 0 <= i <= |series|
      invariant path == Commands(series[..i], xScale, yScale)
      invariant started <==> i > 0 && Valid(series[i - 1], xScale, yScale)
    {
      var p := series[i];
      assert series[..i + 1][..i] == series[..i];
      if !Valid(p, xScale, yScale) {
        started := false;
      } else {
        var x := xScale(p.year).value;
        var y := yScale(p.value.value).value;
        if !started {
          path := path + [Move(x, y)];
          started := true;
        } else {
          path := path + [Line(x, y)];
        }
      }
      i := i + 1;
    }
    assert series[..i] == series;
  }

  // ----- Properties of the path ------------------------------------------------

  /** The indices of the drawable points. */
  ghost function ValidIndices(s: seq<Point>, xScale: int -> Option<real>, yScale: real -> Option<real>): set<int> {
    set i | 0 <= i < |s| && Valid(s[i], xScale, yScale)
  }

  /** Index `i` is drawable and its predecessor (if any) is not. */
  ghost predicate StartsRun(s: seq<Point>, i: int, xScale: int -> Option<real>, yScale: real -> Option<real>)
    requires 0 <= i < |s|
  {
    Valid(s[i], xScale, yScale) && (i == 0 || !Valid(s[i - 1], xScale, yScale))
  }

  /** The indices where a maximal run of drawable points starts. */
  ghost function RunStarts(s: seq<Point>, xScale: int -> Option<real>, yScale: real -> Option<real>): set<int> {
    set i | 0 <= i < |s| && StartsRun(s, i, xScale, yScale)
  }

  function MoveCount(cmds: seq<Cmd>): nat {
    if cmds == [] then 0 else MoveCount(cmds[..|cmds| - 1]) + (if cmds[|cmds| - 1].Move? then 1 else 0)
  }

  lemma MoveCountAppend(a: seq<Cmd>, b: seq<Cmd>)
    requires |b| <= 1
    ensures MoveCount(a + b) == MoveCount(a) + MoveCount(b)
  {
    if b != [] {
      assert (a + b)[..|a + b| - 1] == a;
      assert (a + b)[|a + b| - 1] == b[0];
      assert b[..0] == [];
    } else {
      assert a + b == a;
    }
  }

  lemma ValidIndicesSnoc(s: seq<Point>, xScale: int -> Option<real>, yScale: real -> Option<real>)
    requires s != []
    ensures var n := |s| - 1;
      ValidIndices(s, xScale, yScale) ==
        ValidIndices(s[..n], xScale, yScale) + (if Valid(s[n], xScale, yScale) then {n} else {})
  {
    var n := |s| - 1;
    assert forall i :: 0 <= i < n ==> s[..n][i] == s[i];
  }

  lemma RunStartsSnoc(s: seq<Point>, xScale: int -> Option<real>, yScale: real -> Option<real>)
    requires s != []
    ensures var n := |s| - 1;
      RunStarts(s, xScale, yScale) ==
        RunStarts(s[..n], xScale, yScale) + (if StartsRun(s, n, xScale, yScale) then {n} else {})
  {
    var n := |s| - 1;
    forall i | 0 <= i < n ensures StartsRun(s[..n], i, xScale, yScale) == StartsRun(s, i, xScale, yScale) {
      assert s[..n][i] == s[i];
      if i > 0 { assert s[..n][i - 1] == s[i - 1]; }
    }
  }

  /** Exactly one command per drawable point. */
  lemma {:induction false} CommandPerPoint(s: seq<Point>, xScale: int -> Option<real>, yScale: real -> Option<real>)
    ensures |Commands(s, xScale, yScale)| == |ValidIndices(s, xScale, yScale)|
  {
    if s != [] {
      var n := |s| - 1;
      CommandPerPoint(s[..n], xScale, yScale);
      ValidIndicesSnoc(s, xScale, yScale);
      assert n !in ValidIndices(s[..n], xScale, yScale);
    }
  }

  /** The number of Moves is the number of maximal runs of drawable points. */
  lemma {:induction false} MovePerRun(s: seq<Point>, xScale: int -> Option<real>, yScale: real -> Option<real>)
    ensures MoveCount(Commands(s, xScale, yScale)) == |RunStarts(s, xScale, yScale)|
  {
    if s != [] {
      var n := |s| - 1;
      var e := Emit(s[n], n > 0 && Valid(s[n - 1], xScale, yScale), xScale, yScale);
      assert Commands(s, xScale, yScale) == Commands(s[..n], xScale, yScale) + e;
      MovePerRun(s[..n], xScale, yScale);
      MoveCountAppend(Commands(s[..n], xScale, yScale), e);
      RunStartsSnoc(s, xScale, yScale);
      EmitMoves(s, xScale, yScale);
      assert n !in RunStarts(s[..n], xScale, yScale);
    }
  }

  /** The last point contributes a Move exactly when it starts a run. */
  lemma EmitMoves(s: seq<Point>, xScale: int -> Option<real>, yScale: real -> Option<real>)
    requires s != []
    ensures var n := |s| - 1;
      MoveCount(Emit(s[n], n > 0 && Valid(s[n - 1], xScale, yScale), xScale, yScale))
        == (if StartsRun(s, n, xScale, yScale) then 1 else 0)
  {
    var n := |s| - 1;
    var e := Emit(s[n], n > 0 && Valid(s[n - 1], xScale, yScale), xScale, yScale);
    if e != [] { assert e[..0] == []; }
  }

  /** The path is empty exactly when no point is drawable. */
  lemma EmptyIffNothingDrawable(s: seq<Point>, xScale: int -> Option<real>, yScale: real -> Option<real>)
    ensures Commands(s, xScale, yScale) == [] <==> forall i :: 0 <= i < |s| ==> !Valid(s[i], xScale, yScale)
  {
    CommandPerPoint(s, xScale, yScale);
    if exists i :: 0 <= i < |s| && Valid(s[i], xScale, yScale) {
      var i :| 0 <= i < |s| && Valid(s[i], xScale, yScale);
      assert i in ValidIndices(s, xScale, yScale);
    } else {
      assert ValidIndices(s, xScale, yScale) == {};
    }
  }

  /** The first command of a non-empty path is a Move. */
  lemma {:induction false} FirstIsMove(s: seq<Point>, xScale: int -> Option<real>, yScale: real -> Option<real>)
    requires Commands(s, xScale, yScale) != []
    ensures Commands(s, xScale, yScale)[0].Move?
  {
    var n := |s| - 1;
    var pre := s[..n];
    if Commands(pre, xScale, yScale) != [] {
      FirstIsMove(pre, xScale, yScale);
    } else {
      EmptyIffNothingDrawable(pre, xScale, yScale);
      assert n > 0 ==> pre[n - 1] == s[n - 1];
    }
  }

  /** After an undrawable point the next drawable one starts with a Move; after
      a drawable one it continues with a Line. */
  lemma NextCommand(s: seq<Point>, i: nat, xScale: int -> Option<real>, yScale: real -> Option<real>)
    requires 0 < i < |s| && Valid(s[i], xScale, yScale)
    ensures var c := Commands(s[..i + 1], xScale, yScale); |c| > 0
    ensures var c := Commands(s[..i + 1], xScale, yScale);
      c[|c| - 1].Move? <==> !Valid(s[i - 1], xScale, yScale)
  {
    assert s[..i + 1][..i] == s[..i];
  }
}
