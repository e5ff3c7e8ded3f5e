/**
 * The two paths `write` builds (src/main.rs:193-216 and 236-282): the
 * outline of the triangle with rounded corners, and the shadow polygon
 * that crosses the red and blue badges. The corners and badge centres
 * come from `sin`/`cos` of fractions of a turn, which is not modelled:
 * they and the offset `[dx, dy]` are parameters.
 */
module Icon {
  import opened Wrappers
  import opened Geometry
  import opened Path

  /** `ROUND_START` and `ROUND_END` (src/main.rs:114-115). */
  const RoundStart: real := 0.3
  const RoundEnd: real := 1.0 - RoundStart

  /** How much further along the edge the Bezier control points sit (src/main.rs:205-206). */
  const ControlOffset: real := 0.125

  /** The fractions of an edge at which the outline places its points, in order along the edge. */
  lemma FractionsOrdered()
    ensures 0.0 <= RoundStart - ControlOffset < RoundStart < RoundEnd < RoundEnd + ControlOffset <= 1.0
  {
  }

  /** The corner before corner `i`: `(i + 3 - 1) % 3` (src/main.rs:196). */
  function Before(i: nat): (j: nat)
    requires i < 3
    ensures j < 3 && j != i
  {
    (i + 3 - 1) % 3
  }

  /** The corner after corner `i`: `(i + 1) % 3` (src/main.rs:198). */
  function After(i: nat): (j: nat)
    requires i < 3
    ensures j < 3 && j != i && j != Before(i)
    ensures Before(j) == i
  {
    (i + 1) % 3
  }

  /** Walking `After` from corner 0 visits every corner once and comes back. */
  lemma CyclicOrder()
    ensures After(0) == 1 && After(1) == 2 && After(2) == 0
    ensures Before(0) == 2
  {
  }

  // ---------------------------------------------------------------------
  // The rounded triangle (src/main.rs:193-216)

  /** The calls iteration `i` of the loop makes on the builder. */
  function CornerCommands(corners: seq<Point>, i: nat): seq<Command>
    requires |corners| == 3 && i < 3
  {
    var before, current, after := corners[Before(i)], corners[i], corners[After(i)];
    (if i == 0 then [Move(LerpVec(before, current, RoundEnd))] else [])
    + [Cubic(LerpVec(before, current, RoundEnd + ControlOffset),
             LerpVec(current, after, RoundStart - ControlOffset),
             LerpVec(current, after, RoundStart))]
    + (if i != 2 then [Line(LerpVec(current, after, RoundEnd))] else [])
  }

  /** The calls the first `n` iterations make. */
  function OutlineUpTo(corners: seq<Point>, n: nat): seq<Command>
    requires |corners| == 3 && n <= 3
  {
    if n == 0 then [] else OutlineUpTo(corners, n - 1) + CornerCommands(corners, n - 1)
  }

  /** All calls that build the outline: the three iterations, then `close`. */
  function Outline(corners: seq<Point>): seq<Command>
    requires |corners| == 3
  {
    OutlineUpTo(corners, 3) + [Close]
  }

  /** The loop at src/main.rs:193-216: returns the `d` attribute of the outline. */
  method RoundedTriangle(corners: seq<Point>) returns (d: string)
    requires |corners| == 3
    ensures d == Serialize(Outline(corners))
  {
    var tri := new PathBuilder();
    for i := 0 to 3
      invariant tri.Valid()
      invariant tri.cmds == OutlineUpTo(corners, i)
    {
      var before := corners[(i + 3 - 1) % 3];
      var current := corners[i];
      var after := corners[(i + 1) % 3];
      ghost var done := tri.cmds;

      if i == 0 {
        var from := LerpVec(before, current, RoundEnd);
        tri.MoveTo(from);
      }
      ghost var moved := tri.cmds;

      var p1 := LerpVec(before, current, RoundEnd + ControlOffset);
      var p2 := LerpVec(current, after, RoundStart - ControlOffset);
      var end := LerpVec(current, after, RoundStart);
      tri.CubicTo(p1, p2, end);
      ghost var curved := tri.cmds;

      if i != 2 {
        var to := LerpVec(current, after, RoundEnd);
        tri.LineTo(to);
      }
      CornerCommandsSplit(corners, i, before, current, after, done, moved, curved, tri.cmds);
      OutlineUpToStep(corners, i);
    }
    tri.Close();
    d := tri.buf;
  }

  lemma OutlineUpToStep(corners: seq<Point>, n: nat)
    requires |corners| == 3 && n < 3
    ensures OutlineUpTo(corners, n + 1) == OutlineUpTo(corners, n) + CornerCommands(corners, n)
  {
  }

  /**
   * The three steps of one iteration append exactly `CornerCommands(corners, i)`.
   * The builder's successive command lists are parameters, and the steps between
   * them are requires, so that this sequence equality is proved apart from the
   * loop's heap and frame facts; proved inside the loop body, it costs the solver
   * far more.
   */
  lemma CornerCommandsSplit(corners: seq<Point>, i: nat, before: Point, current: Point, after: Point,
                            done: seq<Command>, moved: seq<Command>, curved: seq<Command>, lined: seq<Command>)
    requires |corners| == 3 && i < 3
    requires before == corners[(i + 3 - 1) % 3] && current == corners[i] && after == corners[(i + 1) % 3]
    requires i == 0 ==> moved == done + [Move(LerpVec(before, current, RoundEnd))]
    requires i != 0 ==> moved == done
    requires curved == moved + [Cubic(LerpVec(before, current, RoundEnd + ControlOffset),
                                      LerpVec(current, after, RoundStart - ControlOffset),
                                      LerpVec(current, after, RoundStart))]
    requires i != 2 ==> lined == curved + [Line(LerpVec(current, after, RoundEnd))]
    requires i == 2 ==> lined == curved
    ensures lined == done + CornerCommands(corners, i)
  {
  }

  /** The rounded corner `i`: from the end of the incoming edge's straight part to the start of the outgoing one's. */
  function CornerCurve(corners: seq<Point>, i: nat): Piece
    requires |corners| == 3 && i < 3
  {
    var before, current, after := corners[Before(i)], corners[i], corners[After(i)];
    Bezier(LerpVec(before, current, RoundEnd), LerpVec(before, current, RoundEnd + ControlOffset),
           LerpVec(current, after, RoundStart - ControlOffset), LerpVec(current, after, RoundStart))
  }

  /** The straight middle part of the edge from corner `i` to the next. */
  function EdgeLine(corners: seq<Point>, i: nat): Piece
    requires |corners| == 3 && i < 3
  {
    var current, after := corners[i], corners[After(i)];
    Segment(LerpVec(current, after, RoundStart), LerpVec(current, after, RoundEnd))
  }

  lemma OutlineUpToAll(corners: seq<Point>)
    requires |corners| == 3
    ensures OutlineUpTo(corners, 3) == CornerCommands(corners, 0) + CornerCommands(corners, 1) + CornerCommands(corners, 2)
  {
    assert OutlineUpTo(corners, 1) == CornerCommands(corners, 0);
    assert OutlineUpTo(corners, 2) == CornerCommands(corners, 0) + CornerCommands(corners, 1);
  }

  lemma CornerZero(corners: seq<Point>)
    requires |corners| == 3
    ensures var c0, c1, c2 := corners[0], corners[1], corners[2];
      CornerCommands(corners, 0) == [
        Move(LerpVec(c2, c0, RoundEnd)),
        Cubic(LerpVec(c2, c0, RoundEnd + ControlOffset), LerpVec(c0, c1, RoundStart - ControlOffset), LerpVec(c0, c1, RoundStart)),
        Line(LerpVec(c0, c1, RoundEnd))]
  {
  }

  lemma CornerOne(corners: seq<Point>)
    requires |corners| == 3
    ensures var c0, c1, c2 := corners[0], corners[1], corners[2];
      CornerCommands(corners, 1) == [
        Cubic(LerpVec(c0, c1, RoundEnd + ControlOffset), LerpVec(c1, c2, RoundStart - ControlOffset), LerpVec(c1, c2, RoundStart)),
        Line(LerpVec(c1, c2, RoundEnd))]
  {
  }

  lemma CornerTwo(corners: seq<Point>)
    requires |corners| == 3
    ensures var c0, c1, c2 := corners[0], corners[1], corners[2];
      CornerCommands(corners, 2) == [
        Cubic(LerpVec(c1, c2, RoundEnd + ControlOffset), LerpVec(c2, c0, RoundStart - ControlOffset), LerpVec(c2, c0, RoundStart))]
  {
  }

  /** The outline's commands, written out: `M C L C L C Z`, with a move only before corner 0 and no line after corner 2. */
  lemma OutlineIs(corners: seq<Point>)
    requires |corners| == 3
    ensures var c0, c1, c2 := corners[0], corners[1], corners[2];
      Outline(corners) == [
        Move(LerpVec(c2, c0, RoundEnd)),
        Cubic(LerpVec(c2, c0, RoundEnd + ControlOffset), LerpVec(c0, c1, RoundStart - ControlOffset), LerpVec(c0, c1, RoundStart)),
        Line(LerpVec(c0, c1, RoundEnd)),
        Cubic(LerpVec(c0, c1, RoundEnd + ControlOffset), LerpVec(c1, c2, RoundStart - ControlOffset), LerpVec(c1, c2, RoundStart)),
        Line(LerpVec(c1, c2, RoundEnd)),
        Cubic(LerpVec(c1, c2, RoundEnd + ControlOffset), LerpVec(c2, c0, RoundStart - ControlOffset), LerpVec(c2, c0, RoundStart)),
        Close]
  {
    OutlineUpToAll(corners);
    CornerZero(corners);
    CornerOne(corners);
    CornerTwo(corners);
  }

  /** What a path of the outline's shape `M C L C L C Z` draws. */
  lemma TraceOutlineShape(m: Point, a0: Point, b0: Point, e0: Point, l0: Point,
                          a1: Point, b1: Point, e1: Point, l1: Point, a2: Point, b2: Point, e2: Point)
    ensures Pieces([Move(m), Cubic(a0, b0, e0), Line(l0), Cubic(a1, b1, e1), Line(l1), Cubic(a2, b2, e2), Close])
         == [Bezier(m, a0, b0, e0), Segment(e0, l0), Bezier(l0, a1, b1, e1), Segment(e1, l1),
             Bezier(l1, a2, b2, e2), Segment(e2, m)]
  {
    var cmds := [Move(m), Cubic(a0, b0, e0), Line(l0), Cubic(a1, b1, e1), Line(l1), Cubic(a2, b2, e2), Close];
    assert Trace(cmds[6..], e2, m) == [Segment(e2, m)];
    assert Trace(cmds[5..], l1, m) == [Bezier(l1, a2, b2, e2), Segment(e2, m)];
    assert Trace(cmds[4..], e1, m) == [Segment(e1, l1), Bezier(l1, a2, b2, e2), Segment(e2, m)];
    assert Trace(cmds[3..], l0, m) == [Bezier(l0, a1, b1, e1)] + Trace(cmds[4..], e1, m);
    assert Trace(cmds[2..], e0, m) == [Segment(e0, l0)] + Trace(cmds[3..], l0, m);
    assert Trace(cmds[1..], m, m) == [Bezier(m, a0, b0, e0)] + Trace(cmds[2..], e0, m);
  }

  /**
   * What the outline draws: around each corner in turn a Bezier curve, then
   * the straight middle of the edge to the next corner. The last straight
   * part is the one `close` draws, which is why the loop skips `line_to`
   * for corner 2.
   */
  lemma OutlinePieces(corners: seq<Point>)
    requires |corners| == 3
    ensures Pieces(Outline(corners)) == [
      CornerCurve(corners, 0), EdgeLine(corners, 0),
      CornerCurve(corners, 1), EdgeLine(corners, 1),
      CornerCurve(corners, 2), EdgeLine(corners, 2)]
  {
    OutlineIs(corners);
    CyclicOrder();
    var c0, c1, c2 := corners[0], corners[1], corners[2];
    TraceOutlineShape(
      LerpVec(c2, c0, RoundEnd),
      LerpVec(c2, c0, RoundEnd + ControlOffset), LerpVec(c0, c1, RoundStart - ControlOffset), LerpVec(c0, c1, RoundStart),
      LerpVec(c0, c1, RoundEnd),
      LerpVec(c0, c1, RoundEnd + ControlOffset), LerpVec(c1, c2, RoundStart - ControlOffset), LerpVec(c1, c2, RoundStart),
      LerpVec(c1, c2, RoundEnd),
      LerpVec(c1, c2, RoundEnd + ControlOffset), LerpVec(c2, c0, RoundStart - ControlOffset), LerpVec(c2, c0, RoundStart));
  }

  /** The outline's command letters. */
  lemma OutlineCodes(corners: seq<Point>)
    requires |corners| == 3
    ensures Codes(Outline(corners)) == "MCLCLCZ"
  {
    OutlineIs(corners);
  }

  /** The outline's text: starts with `M`, ends with `Z`, with command letters `MCLCLCZ`, and it decodes to the rounded commands. */
  lemma OutlineText(corners: seq<Point>)
    requires |corners| == 3
    ensures var d := Serialize(Outline(corners));
      |d| > 0 && d[0] == 'M' && d[|d| - 1] == 'Z' &&
      Letters(d) == "MCLCLCZ" &&
      Decode(d) == Some(RoundAll(Outline(corners)))
  {
    var cmds := Outline(corners);
    OutlineCodes(corners);
    assert cmds[0].Move? && cmds[|cmds| - 1].Close?;
    SerializeShape(cmds);
    LettersOfSerialize(cmds);
    DecodeSerialize(cmds);
  }

  /**
   * Every point of the rounded corner `i` lies on one of the two edges that
   * meet there, and its control points lie between its end points and the corner.
   */
  lemma CornerCurveOnEdges(corners: seq<Point>, i: nat)
    requires |corners| == 3 && i < 3
    ensures var before, current, after := corners[Before(i)], corners[i], corners[After(i)];
      var b := CornerCurve(corners, i);
      OnSegment(before, current, b.from) && OnSegment(before, current, b.c1) &&
      OnSegment(current, after, b.c2) && OnSegment(current, after, b.to)
  {
    var before, current, after := corners[Before(i)], corners[i], corners[After(i)];
    FractionsOrdered();
    LerpVecOnSegment(before, current, RoundEnd);
    LerpVecOnSegment(before, current, RoundEnd + ControlOffset);
    LerpVecOnSegment(current, after, RoundStart - ControlOffset);
    LerpVecOnSegment(current, after, RoundStart);
  }

  /**
   * The closing piece has length: the path starts where the straight part
   * of edge 2-0 ends, which is not where it begins, so the figure does not
   * end where it started before `close`.
   */
  lemma OutlineCloses(corners: seq<Point>)
    requires |corners| == 3 && corners[2] != corners[0]
    ensures Outline(corners)[0] == Move(EdgeLine(corners, 2).to)
    ensures EdgeLine(corners, 2).from != EdgeLine(corners, 2).to
  {
    OutlineIs(corners);
    var a, b := corners[2], corners[0];
    var p, q := LerpVec(a, b, RoundEnd), LerpVec(a, b, RoundStart);
    LerpProportional(a.x, b.x, RoundEnd);
    LerpProportional(a.x, b.x, RoundStart);
    LerpProportional(a.y, b.y, RoundEnd);
    LerpProportional(a.y, b.y, RoundStart);
    assert p.x - q.x == 0.4 * (b.x - a.x);
    assert p.y - q.y == 0.4 * (b.y - a.y);
  }

  // ---------------------------------------------------------------------
  // The shadow polygon (src/main.rs:236-282)

  /** `top_intersect` (src/main.rs:242-248): the tangent line at `red + [dx, dy]` against edge 0-1. */
  function TopIntersect(corners: seq<Point>, red: Point, dx: real, dy: real): Option<Point>
    requires |corners| == 3
  {
    Intersect(Point(red.x + dx, red.y + dy), Point(red.x + dx - dy, red.y + dy + dx), corners[0], corners[1])
  }

  /** `bottom_intersect` (src/main.rs:261-267): the tangent line at `blue - [dx, dy]` against edge 1-2. */
  function BottomIntersect(corners: seq<Point>, blue: Point, dx: real, dy: real): Option<Point>
    requires |corners| == 3
  {
    Intersect(Point(blue.x - dx, blue.y - dy), Point(blue.x - dx - dy, blue.y - dy + dx), corners[1], corners[2])
  }

  /** The calls that build the shadow once both intersections are known. */
  function ShadowCommands(corners: seq<Point>, red: Point, blue: Point, dx: real, dy: real, top: Point, bottom: Point): seq<Command>
    requires |corners| == 3
  {
    var before, current, after := corners[2], corners[1], corners[0];
    [ Move(top),
      Line(Point(red.x + dx, red.y + dy)),
      Line(Point(red.x - dx, red.y - dy)),
      Line(Point(red.x - dx - 2.0 * dy, red.y - dy + 2.0 * dx)),
      Line(Point(blue.x + dx - 1.5 * dy, blue.y + dy + 1.5 * dx)),
      Line(Point(blue.x + dx, blue.y + dy)),
      Line(Point(blue.x - dx, blue.y - dy)),
      Line(bottom),
      Line(LerpVec(before, current, RoundEnd)),
      Cubic(LerpVec(before, current, RoundEnd + ControlOffset),
            LerpVec(current, after, RoundStart - ControlOffset),
            LerpVec(current, after, RoundStart)),
      Close ]
  }

  /** The shadow's calls, or None when an intersection is degenerate and the source's `unwrap` panics. */
  function Shadow(corners: seq<Point>, red: Point, blue: Point, dx: real, dy: real): Option<seq<Command>>
    requires |corners| == 3
  {
    match (TopIntersect(corners, red, dx, dy), BottomIntersect(corners, blue, dx, dy))
    case (Some(top), Some(bottom)) => Some(ShadowCommands(corners, red, blue, dx, dy, top, bottom))
    case _ => None
  }

  /**
   * The construction aborts exactly when one of the two tangent lines is
   * (nearly) parallel to the edge it is meant to cross.
   */
  lemma ShadowAborts(corners: seq<Point>, red: Point, blue: Point, dx: real, dy: real)
    requires |corners| == 3
    ensures Shadow(corners, red, blue, dx, dy).None? <==>
      Abs(Det(Point(red.x + dx, red.y + dy), Point(red.x + dx - dy, red.y + dy + dx), corners[0], corners[1])) < Epsilon ||
      Abs(Det(Point(blue.x - dx, blue.y - dy), Point(blue.x - dx - dy, blue.y - dy + dx), corners[1], corners[2])) < Epsilon
  {
  }

  /**
   * The straight-line construction at src/main.rs:236-282: the `d`
   * attribute of the shadow, or None where the source aborts.
   */
  method ShadowPath(corners: seq<Point>, red: Point, blue: Point, dx: real, dy: real) returns (d: Option<string>)
    requires |corners| == 3
    ensures d.None? <==> Shadow(corners, red, blue, dx, dy).None?
    ensures d.Some? ==> d.value == Serialize(Shadow(corners, red, blue, dx, dy).value)
  {
    var shadow := new PathBuilder();

    var topIntersect := TopIntersect(corners, red, dx, dy);
    if topIntersect.None? {
      return None;
    }

    shadow.MoveTo(topIntersect.value);
    shadow.LineTo(Point(red.x + dx, red.y + dy));
    shadow.LineTo(Point(red.x - dx, red.y - dy));
    shadow.LineTo(Point(red.x - dx - 2.0 * dy, red.y - dy + 2.0 * dx));
    shadow.LineTo(Point(blue.x + dx - 1.5 * dy, blue.y + dy + 1.5 * dx));
    shadow.LineTo(Point(blue.x + dx, blue.y + dy));
    shadow.LineTo(Point(blue.x - dx, blue.y - dy));

    var bottomIntersect := BottomIntersect(corners, blue, dx, dy);
    if bottomIntersect.None? {
      return None;
    }
    shadow.LineTo(bottomIntersect.value);

    var before := corners[2];
    var current := corners[1];
    var after := corners[0];

    var from := LerpVec(before, current, RoundEnd);
    shadow.LineTo(from);

    var p1 := LerpVec(before, current, RoundEnd + ControlOffset);
    var p2 := LerpVec(current, after, RoundStart - ControlOffset);
    var end := LerpVec(current, after, RoundStart);
    shadow.CubicTo(p1, p2, end);

    shadow.Close();
    ShadowCalls(corners, red, blue, dx, dy, topIntersect.value, bottomIntersect.value, shadow.cmds);
    d := Some(shadow.buf);
  }

  /**
   * The calls `ShadowPath` makes, one after the other, are `ShadowCommands`.
   * The requires list the builder's command list after each call; the lemma
   * exists so that the eleven-element sequence equality is proved apart from
   * the method's heap and frame facts, where it is far cheaper for the solver.
   */
  lemma ShadowCalls(corners: seq<Point>, red: Point, blue: Point, dx: real, dy: real, top: Point, bottom: Point,
                    cmds: seq<Command>)
    requires |corners| == 3
    requires var before, current, after := corners[2], corners[1], corners[0];
      cmds == [] + [Move(top)]
        + [Line(Point(red.x + dx, red.y + dy))]
        + [Line(Point(red.x - dx, red.y - dy))]
        + [Line(Point(red.x - dx - 2.0 * dy, red.y - dy + 2.0 * dx))]
        + [Line(Point(blue.x + dx - 1.5 * dy, blue.y + dy + 1.5 * dx))]
        + [Line(Point(blue.x + dx, blue.y + dy))]
        + [Line(Point(blue.x - dx, blue.y - dy))]
        + [Line(bottom)]
        + [Line(LerpVec(before, current, RoundEnd))]
        + [Cubic(LerpVec(before, current, RoundEnd + ControlOffset),
                 LerpVec(current, after, RoundStart - ControlOffset),
                 LerpVec(current, after, RoundStart))]
        + [Close]
    ensures cmds == ShadowCommands(corners, red, blue, dx, dy, top, bottom)
  {
  }

  /** The shadow's command letters: a move, eight lines, one curve and a close. */
  lemma ShadowCodes(corners: seq<Point>, red: Point, blue: Point, dx: real, dy: real, top: Point, bottom: Point)
    requires |corners| == 3
    ensures Codes(ShadowCommands(corners, red, blue, dx, dy, top, bottom)) == "MLLLLLLLLCZ"
  {
  }

  /** The shadow's text: `M`, eight `L`, one `C`, then `Z`, and it decodes to the rounded commands. */
  lemma ShadowText(corners: seq<Point>, red: Point, blue: Point, dx: real, dy: real, top: Point, bottom: Point)
    requires |corners| == 3
    ensures var cmds := ShadowCommands(corners, red, blue, dx, dy, top, bottom);
      var d := Serialize(cmds);
      |d| > 0 && d[0] == 'M' && d[|d| - 1] == 'Z' &&
      Letters(d) == "MLLLLLLLLCZ" &&
      Decode(d) == Some(RoundAll(cmds))
  {
    var cmds := ShadowCommands(corners, red, blue, dx, dy, top, bottom);
    ShadowCodes(corners, red, blue, dx, dy, top, bottom);
    SerializeShape(cmds);
    LettersOfSerialize(cmds);
    DecodeSerialize(cmds);
  }

  function Dot(u: Point, v: Point): real
  {
    u.x * v.x + u.y * v.y
  }

  /** A point on the line through `a` in direction `[-dy, dx]` is reached from `a` perpendicular to `[dx, dy]`. */
  lemma PerpendicularLine(a: Point, dx: real, dy: real, p: Point)
    requires OnLine(a, Point(a.x - dy, a.y + dx), p)
    ensures Dot(Sub(p, a), Point(dx, dy)) == 0.0
  {
    assert Cross(Sub(Point(a.x - dy, a.y + dx), a), Sub(p, a)) == -Dot(Sub(p, a), Point(dx, dy));
  }

  /**
   * Where the shadow meets the triangle: the top point is on the line of
   * edge 0-1 and on the tangent to the red badge at `red + [dx, dy]`
   * (perpendicular to the offset); the bottom point is on the line of
   * edge 1-2 and on the tangent to the blue badge at `blue - [dx, dy]`.
   */
  lemma ShadowIntersections(corners: seq<Point>, red: Point, blue: Point, dx: real, dy: real)
    requires |corners| == 3 && Shadow(corners, red, blue, dx, dy).Some?
    ensures var top := TopIntersect(corners, red, dx, dy).value;
      var bottom := BottomIntersect(corners, blue, dx, dy).value;
      OnLine(corners[0], corners[1], top) &&
      Dot(Sub(top, Point(red.x + dx, red.y + dy)), Point(dx, dy)) == 0.0 &&
      OnLine(corners[1], corners[2], bottom) &&
      Dot(Sub(bottom, Point(blue.x - dx, blue.y - dy)), Point(dx, dy)) == 0.0
  {
    var top := TopIntersect(corners, red, dx, dy).value;
    PerpendicularLine(Point(red.x + dx, red.y + dy), dx, dy, top);
    var bottom := BottomIntersect(corners, blue, dx, dy).value;
    PerpendicularLine(Point(blue.x - dx, blue.y - dy), dx, dy, bottom);
  }

  /** What a path of the shadow's shape `M L L L L L L L L C Z` draws. */
  lemma TraceShadowShape(m: Point, l1: Point, l2: Point, l3: Point, l4: Point, l5: Point, l6: Point, l7: Point,
                         l8: Point, a: Point, b: Point, e: Point)
    ensures Pieces([Move(m), Line(l1), Line(l2), Line(l3), Line(l4), Line(l5), Line(l6), Line(l7), Line(l8),
                    Cubic(a, b, e), Close])
         == [Segment(m, l1), Segment(l1, l2), Segment(l2, l3), Segment(l3, l4), Segment(l4, l5), Segment(l5, l6),
             Segment(l6, l7), Segment(l7, l8), Bezier(l8, a, b, e), Segment(e, m)]
  {
    var cmds := [Move(m), Line(l1), Line(l2), Line(l3), Line(l4), Line(l5), Line(l6), Line(l7), Line(l8),
                 Cubic(a, b, e), Close];
    assert Trace(cmds[10..], e, m) == [Segment(e, m)];
    assert Trace(cmds[9..], l8, m) == [Bezier(l8, a, b, e)] + Trace(cmds[10..], e, m);
    assert Trace(cmds[8..], l7, m) == [Segment(l7, l8)] + Trace(cmds[9..], l8, m);
    assert Trace(cmds[7..], l6, m) == [Segment(l6, l7)] + Trace(cmds[8..], l7, m);
    assert Trace(cmds[6..], l5, m) == [Segment(l5, l6)] + Trace(cmds[7..], l6, m);
    assert Trace(cmds[5..], l4, m) == [Segment(l4, l5)] + Trace(cmds[6..], l5, m);
    assert Trace(cmds[4..], l3, m) == [Segment(l3, l4)] + Trace(cmds[5..], l4, m);
    assert Trace(cmds[3..], l2, m) == [Segment(l2, l3)] + Trace(cmds[4..], l3, m);
    assert Trace(cmds[2..], l1, m) == [Segment(l1, l2)] + Trace(cmds[3..], l2, m);
    assert Trace(cmds[1..], m, m) == [Segment(m, l1)] + Trace(cmds[2..], l1, m);
  }

  /**
   * The shadow follows the outline around corner 1: its straight piece from
   * the bottom point runs along edge 1-2, the curve is the rounded corner 1
   * taken in the opposite direction, and the closing piece back to the top
   * point runs along edge 0-1.
   */
  lemma ShadowFollowsOutline(corners: seq<Point>, red: Point, blue: Point, dx: real, dy: real, top: Point, bottom: Point)
    requires |corners| == 3
    requires OnLine(corners[0], corners[1], top) && OnLine(corners[1], corners[2], bottom)
    ensures var pieces := Pieces(ShadowCommands(corners, red, blue, dx, dy, top, bottom));
      var c0, c1, c2 := corners[0], corners[1], corners[2];
      var corner := CornerCurve(corners, 1);
      |pieces| == 10 &&
      pieces[7].Segment? && OnLine(c1, c2, pieces[7].from) && OnLine(c1, c2, pieces[7].to) &&
      pieces[8] == Bezier(corner.to, corner.c2, corner.c1, corner.from) &&
      pieces[9].Segment? && OnLine(c0, c1, pieces[9].from) && OnLine(c0, c1, pieces[9].to)
  {
    var c0, c1, c2 := corners[0], corners[1], corners[2];
    var from := LerpVec(c2, c1, RoundEnd);
    var end := LerpVec(c1, c0, RoundStart);
    TraceShadowShape(top, Point(red.x + dx, red.y + dy), Point(red.x - dx, red.y - dy),
      Point(red.x - dx - 2.0 * dy, red.y - dy + 2.0 * dx), Point(blue.x + dx - 1.5 * dy, blue.y + dy + 1.5 * dx),
      Point(blue.x + dx, blue.y + dy), Point(blue.x - dx, blue.y - dy), bottom, from,
      LerpVec(c2, c1, RoundEnd + ControlOffset), LerpVec(c1, c0, RoundStart - ControlOffset), end);
    LerpVecOnSegment(c2, c1, RoundEnd);
    LerpVecOnSegment(c1, c0, RoundStart);
    OnLineSwap(c2, c1, from);
    OnLineSwap(c1, c0, end);
    LerpVecSwap(c1, c2, RoundStart);
    LerpVecSwap(c1, c2, RoundStart - ControlOffset);
    LerpVecSwap(c0, c1, RoundEnd + ControlOffset);
    LerpVecSwap(c0, c1, RoundEnd);
  }

  /** A line does not depend on the order of the two points that give it. */
  lemma OnLineSwap(a: Point, b: Point, p: Point)
    requires OnLine(a, b, p)
    ensures OnLine(b, a, p)
  {
    assert Cross(Sub(a, b), Sub(p, b)) == Cross(Sub(b, a), Sub(p, a));
  }
}
