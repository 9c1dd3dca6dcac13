/** Paths of move, line and close elements, their winding count and their reversal
    (Source/NSBezierPath.m).  Coordinates are exact. */
module BezierPaths {
  import opened Options

  datatype Point = Point(x: real, y: real)

  datatype ElementType = MoveToType | LineToType | CloseType

  datatype Element = MoveTo(p: Point) | LineTo(p: Point) | ClosePath {
    function Type(): ElementType {
      match this
      case MoveTo(_) => MoveToType
      case LineTo(_) => LineToType
      case ClosePath => CloseType
    }
  }

  /** `winding_line`: twice the signed crossing of the edge with the ray from `p` to the left,
      counted once when the ray meets an endpoint. */
  function WindingLine(from: Point, to: Point, p: Point): int {
    if from.y == to.y then 0
    else if to.y < from.y && (p.y < to.y || p.y > from.y) then 0
    else if !(to.y < from.y) && (p.y < from.y || p.y > to.y) then 0
    else
      var whole := if to.y < from.y then -2 else 2;
      var dir := if p.y == from.y || p.y == to.y then (if whole < 0 then -1 else 1) else whole;
      if to.x < from.x && p.x < to.x then 0
      else if to.x < from.x && p.x > from.x then dir
      else if !(to.x < from.x) && p.x < from.x then 0
      else if !(to.x < from.x) && p.x > to.x then dir
      else if Crossing(from, to, p.y) < p.x then dir else 0
  }

  /** The abscissa at which the line through two points meets a height. */
  function Crossing(from: Point, to: Point, y: real): real
    requires from.y != to.y
  {
    to.x + (from.x - to.x) / (from.y - to.y) * (y - to.y)
  }

  /** C division of an `int` by two. */
  function Half(total: int): int {
    if total >= 0 then total / 2 else -(-total / 2)
  }

  /** The body of `windingCountAtPoint:` from some element on; `None` is an invalid path. */
  function Scan(elements: seq<Element>, last: Point, start: Point, first: bool, p: Point): Option<int> {
    if elements == [] then Some(if first then 0 else WindingLine(last, start, p))
    else
      match elements[0]
      case MoveTo(q) =>
        Plus(if first then 0 else WindingLine(last, start, p), Scan(elements[1..], q, q, false, p))
      case LineTo(q) =>
        if first then None else Plus(WindingLine(last, q, p), Scan(elements[1..], q, start, false, p))
      case ClosePath =>
        if first then None else Plus(WindingLine(last, start, p), Scan(elements[1..], last, start, true, p))
  }

  function Plus(k: int, t: Option<int>): Option<int> {
    if t.None? then None else Some(k + t.value)
  }

  function WindingTotal(elements: seq<Element>, p: Point): Option<int> {
    if elements == [] then Some(0)
    else if !elements[0].MoveTo? then None
    else Scan(elements[1..], elements[0].p, elements[0].p, false, p)
  }

  function WindingCount(elements: seq<Element>, p: Point): int {
    var total := WindingTotal(elements, p);
    if total.None? then 0 else Half(total.value)
  }

  // ---- paths as lists of subpaths

  datatype Subpath = Subpath(points: seq<Point>, closed: bool)

  predicate Proper(subs: seq<Subpath>) {
    forall s <- subs :: s.points != []
  }

  function Lines(points: seq<Point>): seq<Element> {
    seq(|points|, i requires 0 <= i < |points| => LineTo(points[i]))
  }

  function Elements(s: Subpath): seq<Element>
    requires s.points != []
  {
    [MoveTo(s.points[0])] + Lines(s.points[1..]) + if s.closed then [ClosePath] else []
  }

  function Flatten(subs: seq<Subpath>): seq<Element>
    requires Proper(subs)
  {
    if subs == [] then [] else Elements(subs[0]) + Flatten(subs[1..])
  }

  /** The windings along the points, and back from the last to the first. */
  function PolyTotal(points: seq<Point>, p: Point): int {
    if |points| < 2 then 0
    else PolyTotal(points[..|points| - 1], p) + WindingLine(points[|points| - 2], points[|points| - 1], p)
  }

  function LoopTotal(points: seq<Point>, p: Point): int
    requires points != []
  {
    PolyTotal(points, p) + WindingLine(points[|points| - 1], points[0], p)
  }

  function LoopTotals(subs: seq<Subpath>, p: Point): int
    requires Proper(subs)
  {
    if subs == [] then 0 else LoopTotal(subs[0].points, p) + LoopTotals(subs[1..], p)
  }

  /** Running along lines. */
  lemma {:induction false} ScanLines(points: seq<Point>, rest: seq<Element>, last: Point, start: Point, p: Point)
    ensures var along := [last] + points;
            Scan(Lines(points) + rest, last, start, false, p)
            == Plus(PolyTotal(along, p), Scan(rest, along[|along| - 1], start, false, p))
    decreases |points|
  {
    hide WindingLine;
    var all := Lines(points) + rest;
    if points == [] {
      assert all == rest;
    } else {
      assert all[1..] == Lines(points[1..]) + rest;
      assert [last] + points == [last] + ([points[0]] + points[1..]);
      PolyFront(last, points, p);
      assert points == [points[0]] + points[1..];
      ScanLines(points[1..], rest, points[0], start, p);
    }
  }

  lemma {:induction false} PolyFront(a: Point, points: seq<Point>, p: Point)
    requires points != []
    ensures PolyTotal([a] + points, p) == WindingLine(a, points[0], p) + PolyTotal(points, p)
    decreases |points|
  {
    hide WindingLine;
    var n := |points|;
    if n == 1 {
      assert ([a] + points)[..1] == [a];
    } else {
      assert ([a] + points)[..n] == [a] + points[..n - 1];
      PolyFront(a, points[..n - 1], p);
    }
  }

  /** A path made of subpaths is valid, and its total is the sum over its loops. */
  lemma {:induction false} FlattenTotals(subs: seq<Subpath>, last: Point, start: Point, first: bool, p: Point)
    requires Proper(subs)
    ensures Scan(Flatten(subs), last, start, first, p)
         == Some((if first then 0 else WindingLine(last, start, p)) + LoopTotals(subs, p))
    decreases |subs|
  {
    hide WindingLine;
    hide PolyTotal;
    hide Elements;
    if subs != [] {
      var s := subs[0];
      var rest := Flatten(subs[1..]);
      ScanSubpath(s, rest, last, start, first, p);
      FlattenTotals(subs[1..], s.points[|s.points| - 1], s.points[0], s.closed, p);
    }
  }

  /** Running along one subpath; an open one is closed by what comes next. */
  lemma ScanSubpath(s: Subpath, rest: seq<Element>, last: Point, start: Point, first: bool, p: Point)
    requires s.points != []
    ensures var q, e := s.points[0], s.points[|s.points| - 1];
            Scan(Elements(s) + rest, last, start, first, p)
            == Plus((if first then 0 else WindingLine(last, start, p)) + PolyTotal(s.points, p)
                    + (if s.closed then WindingLine(e, q, p) else 0),
                    Scan(rest, e, q, s.closed, p))
  {
    hide WindingLine;
    hide PolyTotal;
    var q := s.points[0];
    var tail := (if s.closed then [ClosePath] else []) + rest;
    assert Elements(s) + rest == [MoveTo(q)] + (Lines(s.points[1..]) + tail);
    assert ([MoveTo(q)] + (Lines(s.points[1..]) + tail))[1..] == Lines(s.points[1..]) + tail;
    ScanLines(s.points[1..], tail, q, q, p);
    assert [q] + s.points[1..] == s.points;
    if s.closed {
      assert tail[1..] == rest;
    } else {
      assert tail == rest;
    }
  }

  /** Every path `windingCountAtPoint:` accepts is made of subpaths, in one way. */
  predicate Valid(elements: seq<Element>) {
    && (elements != [] ==> elements[0].MoveTo?)
    && forall i :: 0 < i < |elements| && elements[i - 1].ClosePath? ==> elements[i].MoveTo?
  }

  lemma {:induction false} ValidIsFlat(elements: seq<Element>) returns (subs: seq<Subpath>)
    requires Valid(elements)
    ensures Proper(subs) && Flatten(subs) == elements
    decreases |elements|
  {
    if elements == [] {
      return [];
    }
    var n := |elements| - 1;
    assert Valid(elements[..n]);
    var before := ValidIsFlat(elements[..n]);
    assert elements == elements[..n] + [elements[n]];
    match elements[n]
    case MoveTo(q) =>
      subs := before + [Subpath([q], false)];
      FlattenSnoc(before, Subpath([q], false));
    case LineTo(q) =>
      LastIsOpen(before, elements[..n]);
      subs := ExtendLast(before, elements[n]);
    case ClosePath =>
      LastIsOpen(before, elements[..n]);
      subs := ExtendLast(before, elements[n]);
  }

  lemma ExtendLast(before: seq<Subpath>, e: Element) returns (subs: seq<Subpath>)
    requires Proper(before) && before != [] && !before[|before| - 1].closed && !e.MoveTo?
    ensures Proper(subs) && Flatten(subs) == Flatten(before) + [e]
  {
    hide Flatten;
    var s, rest := before[|before| - 1], before[..|before| - 1];
    var more := if e.LineTo? then Subpath(s.points + [e.p], false) else Subpath(s.points, true);
    subs := rest + [more];
    assert before == rest + [s];
    FlattenSnoc(rest, s);
    FlattenSnoc(rest, more);
    if e.LineTo? {
      assert more.points[1..] == s.points[1..] + [e.p];
    }
    assert Elements(more) == Elements(s) + [e];
  }

  lemma {:induction false} FlattenSnoc(subs: seq<Subpath>, s: Subpath)
    requires Proper(subs) && s.points != []
    ensures Proper(subs + [s]) && Flatten(subs + [s]) == Flatten(subs) + Elements(s)
    decreases |subs|
  {
    hide Elements;
    if subs == [] {
      assert subs + [s] == [s] && [s][1..] == [];
      assert Elements(s) + [] == Elements(s) == [] + Elements(s);
    } else {
      assert (subs + [s])[1..] == subs[1..] + [s];
      FlattenSnoc(subs[1..], s);
    }
  }

  lemma LastIsOpen(subs: seq<Subpath>, elements: seq<Element>)
    requires Proper(subs) && Flatten(subs) == elements
    requires elements != [] && !elements[|elements| - 1].ClosePath?
    ensures subs != [] && !subs[|subs| - 1].closed
  {
    hide Flatten;
    if subs == [] {
      FlattenNone();
    } else {
      var n := |subs| - 1;
      assert subs == subs[..n] + [subs[n]];
      FlattenSnoc(subs[..n], subs[n]);
      var e := Elements(subs[n]);
      assert elements[|elements| - 1] == e[|e| - 1];
    }
  }

  lemma FlattenNone()
    ensures Flatten([]) == []
  {}

  /** A valid path's winding total is the sum of the totals of its loops. */
  lemma TotalIsLoops(subs: seq<Subpath>, p: Point)
    requires Proper(subs)
    ensures WindingTotal(Flatten(subs), p) == Some(LoopTotals(subs, p))
  {
    hide WindingLine;
    if subs != [] {
      var origin := Point(0.0, 0.0);
      FlattenTotals(subs, origin, origin, true, p);
    }
  }

  // ---- reversal

  /** The point `elementAtIndex:associatedPoints:` gives for the last element: a close takes
      that of the last move before it; without one the buffer keeps what it held. */
  function Associated(elements: seq<Element>, held: Point): Point
    requires elements != []
  {
    match elements[|elements| - 1]
    case MoveTo(q) => q
    case LineTo(q) => q
    case ClosePath => LastMove(elements, held)
  }

  function LastMove(elements: seq<Element>, held: Point): Point {
    if elements == [] then held
    else if elements[|elements| - 1].MoveTo? then elements[|elements| - 1].p
    else LastMove(elements[..|elements| - 1], held)
  }

  /** What the loop of `bezierPathByReversingPath` still emits for the elements not yet met. */
  function Rewind(elements: seq<Element>, lastType: ElementType, closed: bool, held: Point): seq<Element> {
    if elements == [] then if closed then [ClosePath] else []
    else
      var n := |elements| - 1;
      var q := Associated(elements, held);
      match lastType
      case MoveToType =>
        (if closed then [ClosePath] else []) + [MoveTo(q)] + Rewind(elements[..n], elements[n].Type(), false, q)
      case LineToType => [LineTo(q)] + Rewind(elements[..n], elements[n].Type(), closed, q)
      case CloseType => Rewind(elements[..n], elements[n].Type(), true, q)
  }

  function Reversed(elements: seq<Element>, held: Point): seq<Element> {
    Rewind(elements, MoveToType, false, held)
  }

  function Rev(points: seq<Point>): (r: seq<Point>)
    ensures |r| == |points|
  {
    if points == [] then [] else [points[|points| - 1]] + Rev(points[..|points| - 1])
  }

  /** A closed subpath loses its last point. */
  function ReversedSubpath(s: Subpath): Subpath
    requires s.points != []
  {
    if s.closed then Subpath([s.points[0]] + Rev(s.points[..|s.points| - 1]), true)
    else Subpath(Rev(s.points), false)
  }

  function ReversedSubpaths(subs: seq<Subpath>): (r: seq<Subpath>)
    requires Proper(subs)
    ensures Proper(r)
  {
    if subs == [] then []
    else [ReversedSubpath(subs[|subs| - 1])] + ReversedSubpaths(subs[..|subs| - 1])
  }

  lemma {:induction false} LastMoveFound(prefix: seq<Element>, q: Point, points: seq<Point>, held: Point)
    ensures LastMove(prefix + [MoveTo(q)] + Lines(points), held) == q
    decreases |points|
  {
    var all := prefix + [MoveTo(q)] + Lines(points);
    if points != [] {
      var n := |points| - 1;
      assert all[..|all| - 1] == prefix + [MoveTo(q)] + Lines(points[..n]);
      LastMoveFound(prefix, q, points[..n], held);
    }
  }

  lemma OpenButLast(prefix: seq<Element>, points: seq<Point>)
    requires |points| > 1
    ensures var all, n := prefix + Elements(Subpath(points, false)), |points| - 1;
            && all != [] && all[|all| - 1] == LineTo(points[n])
            && all[..|all| - 1] == prefix + Elements(Subpath(points[..n], false))
  {
    var all, n := prefix + Elements(Subpath(points, false)), |points| - 1;
    assert points[1..] == points[..n][1..] + [points[n]];
    assert all == prefix + Elements(Subpath(points[..n], false)) + [LineTo(points[n])];
  }

  lemma RewindLine(elements: seq<Element>, q: Point, closed: bool, held: Point)
    requires elements != [] && elements[|elements| - 1] == LineTo(q)
    ensures Rewind(elements, LineToType, closed, held)
         == [LineTo(q)] + Rewind(elements[..|elements| - 1], LineToType, closed, q)
  {}

  lemma LinesFirst(q: Point, points: seq<Point>)
    ensures Lines([q] + points) == [LineTo(q)] + Lines(points)
  {}

  lemma {:induction false} LinesReversed(points: seq<Point>)
    requires points != []
    ensures Lines(Rev(points)) == [LineTo(points[|points| - 1])] + Lines(Rev(points[..|points| - 1]))
  {
    hide Lines;
    LinesFirst(points[|points| - 1], Rev(points[..|points| - 1]));
  }

  /** The elements of an open subpath after the pen has been put down at its end. */
  lemma {:induction false} RewindLines(prefix: seq<Element>, points: seq<Point>, closed: bool, held: Point)
    returns (now: Point)
    requires points != []
    ensures Rewind(prefix + Elements(Subpath(points, false)), LineToType, closed, held)
         == Lines(Rev(points)) + Rewind(prefix, MoveToType, closed, now)
    decreases |points|
  {
    var all := prefix + Elements(Subpath(points, false));
    var n := |points| - 1;
    var q := points[n];
    LinesReversed(points);
    if n == 0 {
      assert all[..|all| - 1] == prefix;
      now := q;
    } else {
      OpenButLast(prefix, points);
      hide Elements;
      RewindLine(all, q, closed, held);
      hide Rewind;
      hide Rev;
      hide Lines;
      now := RewindLines(prefix, points[..n], closed, q);
      assert [LineTo(q)] + (Lines(Rev(points[..n])) + Rewind(prefix, MoveToType, closed, now))
        == [LineTo(q)] + Lines(Rev(points[..n])) + Rewind(prefix, MoveToType, closed, now);
    }
  }

  lemma {:induction false} RewindSubpath(prefix: seq<Element>, s: Subpath, closed: bool, held: Point)
    returns (now: Point)
    requires s.points != []
    ensures Rewind(prefix + Elements(s), MoveToType, closed, held)
         == (if closed then [ClosePath] else []) + Elements(ReversedSubpath(s).(closed := false))
            + Rewind(prefix, MoveToType, s.closed, now)
  {
    hide Rev;
    var all, open := prefix + Elements(s), Subpath(s.points, false);
    var n := |s.points| - 1;
    var q := s.points[n];
    if s.closed {
      var body := prefix + Elements(open);
      assert all[..|all| - 1] == body;
      LastMoveFound(prefix, s.points[0], s.points[1..], held);
      assert body == prefix + [MoveTo(s.points[0])] + Lines(s.points[1..]);
      now := RewindClosed(prefix, s.points, s.points[0]);
      assert Elements(ReversedSubpath(s).(closed := false)) == [MoveTo(s.points[0])] + Lines(Rev(s.points[..n]));
    } else {
      now := RewindOpen(prefix, s.points, closed, held);
    }
  }

  lemma RewindOpen(prefix: seq<Element>, points: seq<Point>, closed: bool, held: Point) returns (now: Point)
    requires points != []
    ensures Rewind(prefix + Elements(Subpath(points, false)), MoveToType, closed, held)
         == (if closed then [ClosePath] else []) + Elements(Subpath(Rev(points), false))
           + Rewind(prefix, MoveToType, false, now)
  {
    var all := prefix + Elements(Subpath(points, false));
    var n := |points| - 1;
    var q := points[n];
    if n == 0 {
      assert all[..|all| - 1] == prefix;
      now := q;
    } else {
      OpenButLast(prefix, points);
      now := RewindLines(prefix, points[..n], false, q);
      assert Elements(Subpath(Rev(points), false)) == [MoveTo(q)] + Lines(Rev(points[..n]));
    }
  }

  /** After a close the last point of the subpath is passed over. */
  lemma RewindClosed(prefix: seq<Element>, points: seq<Point>, held: Point) returns (now: Point)
    requires points != []
    ensures Rewind(prefix + Elements(Subpath(points, false)), CloseType, false, held)
         == Lines(Rev(points[..|points| - 1])) + Rewind(prefix, MoveToType, true, now)
  {
    var all := prefix + Elements(Subpath(points, false));
    var n := |points| - 1;
    var q := points[n];
    if n == 0 {
      assert all[..|all| - 1] == prefix;
      now := q;
    } else {
      OpenButLast(prefix, points);
      now := RewindLines(prefix, points[..n], true, q);
    }
  }

  /** Reversal works subpath by subpath. */
  lemma {:induction false} RewindFlat(subs: seq<Subpath>, closed: bool, held: Point)
    requires Proper(subs)
    ensures Rewind(Flatten(subs), MoveToType, closed, held)
         == (if closed then [ClosePath] else []) + Flatten(ReversedSubpaths(subs))
    decreases |subs|
  {
    hide Elements;
    hide Flatten;
    hide Rewind;
    hide ReversedSubpath;
    if subs == [] {
      RewindNone(closed, held);
      FlattenNone();
    } else {
      var s, rest := subs[|subs| - 1], subs[..|subs| - 1];
      assert subs == rest + [s];
      FlattenSnoc(rest, s);
      var now := RewindSubpath(Flatten(rest), s, closed, held);
      RewindFlat(rest, s.closed, now);
      var r := ReversedSubpath(s);
      assert r.points != [] && r.closed == s.closed by { ReversedKeepsKind(s); }
      ClosedAgain(r);
      FlattenCons(r, ReversedSubpaths(rest));
    }
  }

  lemma RewindNone(closed: bool, held: Point)
    ensures Rewind([], MoveToType, closed, held) == if closed then [ClosePath] else []
  {}

  lemma ReversedKeepsKind(s: Subpath)
    requires s.points != []
    ensures ReversedSubpath(s).points != [] && ReversedSubpath(s).closed == s.closed
  {}

  lemma FlattenCons(s: Subpath, subs: seq<Subpath>)
    requires s.points != [] && Proper(subs)
    ensures Proper([s] + subs) && Flatten([s] + subs) == Elements(s) + Flatten(subs)
  {
    assert ([s] + subs)[1..] == subs;
  }

  lemma ClosedAgain(s: Subpath)
    requires s.points != []
    ensures Elements(s) == Elements(s.(closed := false)) + if s.closed then [ClosePath] else []
  {}

  /** `bezierPathByReversingPath` on a path made of subpaths. */
  lemma ReversedFlat(subs: seq<Subpath>, held: Point)
    requires Proper(subs)
    ensures Reversed(Flatten(subs), held) == Flatten(ReversedSubpaths(subs))
  {
    RewindFlat(subs, false, held);
  }

  // ---- what reversal does to the winding count

  lemma CrossingSymmetric(a: Point, b: Point, y: real)
    requires a.y != b.y
    ensures Crossing(a, b, y) == Crossing(b, a, y)
    ensures Crossing(a, b, a.y) == a.x && Crossing(a, b, b.y) == b.x
  {
    var k := (a.x - b.x) / (a.y - b.y);
    assert k * (a.y - b.y) == a.x - b.x;
    assert (b.x - a.x) / (b.y - a.y) == k by {
      var j := (b.x - a.x) / (b.y - a.y);
      assert j * (b.y - a.y) == b.x - a.x;
      if j != k { SlopeUnique(j, k, b.y - a.y); }
    }
    assert k * (y - b.y) == k * (y - a.y) + k * (a.y - b.y);
  }

  lemma SlopeUnique(j: real, k: real, d: real)
    requires d != 0.0 && j * d == k * d
    ensures j == k
  {
    assert (j - k) * d == 0.0;
  }

  /** Walking an edge backwards counts the other way, at every point. */
  lemma WindingAntisymmetric(a: Point, b: Point, p: Point)
    ensures WindingLine(a, b, p) == -WindingLine(b, a, p)
  {
    if a.y != b.y {
      CrossingSymmetric(a, b, p.y);
    }
  }

  lemma {:induction false} PolyReversed(points: seq<Point>, p: Point)
    ensures PolyTotal(Rev(points), p) == -PolyTotal(points, p)
    decreases |points|
  {
    hide WindingLine;
    var n := |points|;
    if n >= 2 {
      var init := points[..n - 1];
      PolyFront(points[n - 1], Rev(init), p);
      PolyReversed(init, p);
      WindingAntisymmetric(points[n - 2], points[n - 1], p);
    }
  }

  /** The windings of the triangle a closed subpath loses with its last point. */
  function Gap(points: seq<Point>, p: Point): int {
    var n := |points|;
    if n < 2 then 0
    else WindingLine(points[n - 2], points[n - 1], p) + WindingLine(points[n - 1], points[0], p)
         + WindingLine(points[0], points[n - 2], p)
  }

  function Gaps(subs: seq<Subpath>, p: Point): int {
    if subs == [] then 0
    else (if subs[0].closed then Gap(subs[0].points, p) else 0) + Gaps(subs[1..], p)
  }

  lemma RevEnds(points: seq<Point>)
    requires points != []
    ensures Rev(points)[0] == points[|points| - 1] && Rev(points)[|points| - 1] == points[0]
    decreases |points|
  {
    if |points| > 1 {
      RevEnds(points[..|points| - 1]);
    }
  }

  lemma LoopReversed(s: Subpath, p: Point)
    requires s.points != []
    ensures LoopTotal(ReversedSubpath(s).points, p)
         == -LoopTotal(s.points, p) + if s.closed then Gap(s.points, p) else 0
  {
    hide WindingLine;
    hide Rev;
    var n := |s.points| - 1;
    RevEnds(s.points);
    if s.closed && n >= 1 {
      var init := s.points[..n];
      RevEnds(init);
      PolyFront(s.points[0], Rev(init), p);
      PolyReversed(init, p);
      Still(s.points[0], p);
      WindingAntisymmetric(s.points[n - 1], s.points[0], p);
    } else if s.closed {
      assert ReversedSubpath(s).points == s.points by { assert Rev([]) == []; }
      Still(s.points[0], p);
    } else {
      PolyReversed(s.points, p);
      WindingAntisymmetric(s.points[n], s.points[0], p);
    }
  }

  lemma Still(a: Point, p: Point)
    ensures WindingLine(a, a, p) == 0
  {}

  lemma {:induction false} TotalsSnoc(subs: seq<Subpath>, s: Subpath, p: Point)
    requires Proper(subs) && s.points != []
    ensures LoopTotals(subs + [s], p) == LoopTotals(subs, p) + LoopTotal(s.points, p)
    ensures Gaps(subs + [s], p) == Gaps(subs, p) + if s.closed then Gap(s.points, p) else 0
    decreases |subs|
  {
    hide LoopTotal;
    hide Gap;
    if subs == [] {
      assert [s][1..] == [];
    } else {
      assert (subs + [s])[1..] == subs[1..] + [s];
      TotalsSnoc(subs[1..], s, p);
    }
  }

  lemma {:induction false} LoopsReversed(subs: seq<Subpath>, p: Point)
    requires Proper(subs)
    ensures LoopTotals(ReversedSubpaths(subs), p) == -LoopTotals(subs, p) + Gaps(subs, p)
    decreases |subs|
  {
    hide LoopTotal;
    hide Gap;
    if subs != [] {
      var s, rest := subs[|subs| - 1], subs[..|subs| - 1];
      assert subs == rest + [s];
      TotalsSnoc(rest, s, p);
      LoopReversed(s, p);
      LoopsReversed(rest, p);
      assert ReversedSubpaths(subs)[1..] == ReversedSubpaths(rest);
    }
  }

  /** The main law: the total of the reversed path is the negated total, up to the triangles
      lost at the ends of closed subpaths.  It holds at every point. */
  lemma ReversedTotal(subs: seq<Subpath>, held: Point, p: Point)
    requires Proper(subs)
    ensures WindingTotal(Flatten(subs), p) == Some(LoopTotals(subs, p))
    ensures WindingTotal(Reversed(Flatten(subs), held), p) == Some(-LoopTotals(subs, p) + Gaps(subs, p))
  {
    ReversedFlat(subs, held);
    TotalIsLoops(subs, p);
    TotalIsLoops(ReversedSubpaths(subs), p);
    LoopsReversed(subs, p);
  }

  // ---- points off the path

  predicate Between(u: real, v: real, x: real) {
    (u <= x <= v) || (v <= x <= u)
  }

  /** Twice the signed area of the triangle `a`, `b`, `p`. */
  function Cross(a: Point, b: Point, p: Point): real {
    (b.x - a.x) * (p.y - a.y) - (b.y - a.y) * (p.x - a.x)
  }

  predicate On(a: Point, b: Point, p: Point) {
    Between(a.x, b.x, p.x) && Between(a.y, b.y, p.y) && Cross(a, b, p) == 0.0
  }

  predicate OffLoop(points: seq<Point>, p: Point)
    requires points != []
  {
    && (forall i :: 0 < i < |points| ==> !On(points[i - 1], points[i], p))
    && !On(points[|points| - 1], points[0], p)
  }

  predicate OffPath(subs: seq<Subpath>, p: Point)
    requires Proper(subs)
  {
    forall s <- subs :: OffLoop(s.points, p)
  }

  /** One when the ray to the left of `p` runs through `a`. */
  function Touches(a: Point, p: Point): int {
    if a.y == p.y && a.x < p.x then 1 else 0
  }

  /** An edge counts an odd number exactly when the ray runs through one of its ends. */
  lemma EdgeParity(a: Point, b: Point, p: Point)
    requires !On(a, b, p)
    ensures WindingLine(a, b, p) % 2 == (Touches(a, p) + Touches(b, p)) % 2
  {
    if a.y != b.y {
      CrossingSymmetric(a, b, p.y);
    } else if a.y == p.y {
      MulByZero(b.x - a.x);
      MulByZero(p.x - a.x);
    }
  }

  lemma MulByZero(a: real)
    ensures a * 0.0 == 0.0 && 0.0 * a == 0.0
  {}

  lemma {:induction false} PolyParity(points: seq<Point>, p: Point)
    requires points != [] && forall i :: 0 < i < |points| ==> !On(points[i - 1], points[i], p)
    ensures PolyTotal(points, p) % 2 == (Touches(points[0], p) + Touches(points[|points| - 1], p)) % 2
    decreases |points|
  {
    hide WindingLine;
    hide On;
    var n := |points| - 1;
    if n > 0 {
      PolyParity(points[..n], p);
      EdgeParity(points[n - 1], points[n], p);
    }
  }

  /** Off the path the doubled count is even, so nothing is lost in halving it. */
  lemma {:induction false} TotalEven(subs: seq<Subpath>, p: Point)
    requires Proper(subs) && OffPath(subs, p)
    ensures LoopTotals(subs, p) % 2 == 0
    decreases |subs|
  {
    hide WindingLine;
    hide On;
    if subs != [] {
      var points := subs[0].points;
      PolyParity(points, p);
      EdgeParity(points[|points| - 1], points[0], p);
      TotalEven(subs[1..], p);
    }
  }

  /** Off both paths, reversing negates the winding count exactly where the lost triangles
      do not wind. */
  lemma ReversalNegates(subs: seq<Subpath>, held: Point, p: Point)
    requires Proper(subs) && OffPath(subs, p) && OffPath(ReversedSubpaths(subs), p)
    ensures WindingCount(Reversed(Flatten(subs), held), p) == -WindingCount(Flatten(subs), p) <==> Gaps(subs, p) == 0
  {
    hide Flatten;
    hide Reversed;
    hide Gaps;
    hide LoopTotals;
    hide OffPath;
    hide WindingTotal;
    ReversedTotal(subs, held, p);
    LoopsReversed(subs, p);
    TotalEven(subs, p);
    TotalEven(ReversedSubpaths(subs), p);
  }

  lemma {:induction false} OpenHasNoGaps(subs: seq<Subpath>, p: Point)
    requires forall s <- subs :: !s.closed || |s.points| < 3
    ensures Gaps(subs, p) == 0
    decreases |subs|
  {
    hide WindingLine;
    if subs != [] {
      var points := subs[0].points;
      if |points| == 2 {
        WindingAntisymmetric(points[0], points[1], p);
        Still(points[0], p);
      }
      OpenHasNoGaps(subs[1..], p);
    }
  }

  // ---- when the lost triangle is none

  /** How much an edge from height `u` to height `v` crosses height zero. */
  function Weight(u: real, v: real): int {
    if u == v || !Between(u, v, 0.0) then 0 else if u == 0.0 || v == 0.0 then 1 else 2
  }

  /** The winding of an edge, by the side `p` lies on. */
  lemma WindingBySide(a: Point, b: Point, p: Point)
    ensures WindingLine(a, b, p) ==
      if a.y < b.y && Cross(a, b, p) < 0.0 then Weight(a.y - p.y, b.y - p.y)
      else if b.y < a.y && Cross(a, b, p) > 0.0 then -Weight(a.y - p.y, b.y - p.y)
      else 0
  {
    if a.y != b.y && Between(a.y, b.y, p.y) {
      hide Crossing;
      hide Cross;
      CrossingSide(a, b, p);
    }
  }

  /** The crossing lies on the edge, and its side of `p` is told by the area. */
  lemma CrossingSide(a: Point, b: Point, p: Point)
    requires a.y != b.y && Between(a.y, b.y, p.y)
    ensures var x := Crossing(a, b, p.y);
            && Between(a.x, b.x, x)
            && (x < p.x <==> (a.y < b.y && Cross(a, b, p) < 0.0) || (b.y < a.y && Cross(a, b, p) > 0.0))
  {
    var h := b.y - a.y;
    var t := (p.y - a.y) / h;
    assert t * h == p.y - a.y;
    FractionBounded(t, h, p.y - a.y);
    var x := Crossing(a, b, p.y);
    CrossingAt(a, b, p.y, t);
    Blend(a.x, b.x, t);
    assert (x - p.x) * h == Cross(a, b, p) by {
      assert (a.x + t * (b.x - a.x) - p.x) * h == (a.x - p.x) * h + (t * h) * (b.x - a.x);
    }
    SameSign(x - p.x, h);
  }

  lemma FractionBounded(t: real, h: real, d: real)
    requires h != 0.0 && t * h == d && (0.0 <= d <= h || h <= d <= 0.0)
    ensures 0.0 <= t <= 1.0
  {
    if t < 0.0 { SameSign(t, h); }
    if t > 1.0 { SameSign(t - 1.0, h); }
  }

  lemma SameSign(a: real, h: real)
    ensures h > 0.0 ==> ((a < 0.0 <==> a * h < 0.0) && (a > 0.0 <==> a * h > 0.0))
    ensures h < 0.0 ==> ((a < 0.0 <==> a * h > 0.0) && (a > 0.0 <==> a * h < 0.0))
  {}

  lemma Blend(u: real, v: real, t: real)
    requires 0.0 <= t <= 1.0
    ensures Between(u, v, u + t * (v - u))
  {
    Portion(t, u, v);
    Portion(1.0 - t, u, v);
    Shifted(t, u, v);
  }

  lemma Portion(t: real, u: real, v: real)
    requires t >= 0.0
    ensures (v >= u ==> t * (v - u) >= 0.0) && (v <= u ==> t * (v - u) <= 0.0)
  {}

  lemma Shifted(t: real, u: real, v: real)
    ensures (1.0 - t) * (v - u) == v - (u + t * (v - u))
  {}

  lemma CrossingAt(a: Point, b: Point, y: real, t: real)
    requires a.y != b.y && t * (b.y - a.y) == y - a.y
    ensures Crossing(a, b, y) == a.x + t * (b.x - a.x)
  {
    CrossingSymmetric(a, b, y);
    var k := (b.x - a.x) / (b.y - a.y);
    assert k * (b.y - a.y) == b.x - a.x;
    assert k * (y - a.y) == (k * (b.y - a.y)) * t;
  }

  predicate Collinear(a: Point, b: Point, c: Point) {
    Cross(a, b, c) == 0.0
  }

  /** `p` lies strictly inside the triangle: its three edges turn the same way around it. */
  predicate Inner(a: Point, b: Point, c: Point, p: Point) {
    || (Cross(a, b, p) > 0.0 && Cross(b, c, p) > 0.0 && Cross(c, a, p) > 0.0)
    || (Cross(a, b, p) < 0.0 && Cross(b, c, p) < 0.0 && Cross(c, a, p) < 0.0)
  }

  /** The point of the plane with the coordinates `u` and `v` along two edges. */
  function Place(a: Point, b: Point, c: Point, u: real, v: real): Point {
    Point(a.x + u * (b.x - a.x) + v * (c.x - a.x), a.y + u * (b.y - a.y) + v * (c.y - a.y))
  }

  lemma PlaceCross(a: Point, b: Point, c: Point, u: real, v: real)
    ensures var p, d := Place(a, b, c, u, v), Cross(a, b, c);
            Cross(a, b, p) == v * d && Cross(b, c, p) == (1.0 - u - v) * d && Cross(c, a, p) == u * d
  {
    Areas(b.x - a.x, b.y - a.y, c.x - a.x, c.y - a.y, u, v);
  }

  lemma Areas(b0: real, b1: real, c0: real, c1: real, u: real, v: real)
    ensures var d, px, py := b0 * c1 - b1 * c0, u * b0 + v * c0, u * b1 + v * c1;
            && b0 * py - b1 * px == v * d
            && (c0 - b0) * (py - b1) - (c1 - b1) * (px - b0) == (1.0 - u - v) * d
            && -c0 * (py - c1) - -c1 * (px - c0) == u * d
  {}

  /** The three areas at a placed point have the sign of the whole, by their shares of it. */
  lemma PlaceSign(k: real, d: real, area: real)
    requires area == k * d && k > 0.0
    ensures (d > 0.0 ==> area > 0.0) && (d < 0.0 ==> area < 0.0)
  {}

  lemma FirstSign(a: Point, b: Point, c: Point, u: real, v: real)
    requires v > 0.0
    ensures var area, d := Cross(a, b, Place(a, b, c, u, v)), Cross(a, b, c);
            (d > 0.0 ==> area > 0.0) && (d < 0.0 ==> area < 0.0)
  {
    hide Cross;
    hide Place;
    PlaceCross(a, b, c, u, v);
    PlaceSign(v, Cross(a, b, c), Cross(a, b, Place(a, b, c, u, v)));
  }

  lemma SecondSign(a: Point, b: Point, c: Point, u: real, v: real)
    requires u + v < 1.0
    ensures var area, d := Cross(b, c, Place(a, b, c, u, v)), Cross(a, b, c);
            (d > 0.0 ==> area > 0.0) && (d < 0.0 ==> area < 0.0)
  {
    hide Cross;
    hide Place;
    PlaceCross(a, b, c, u, v);
    PlaceSign(1.0 - u - v, Cross(a, b, c), Cross(b, c, Place(a, b, c, u, v)));
  }

  lemma ThirdSign(a: Point, b: Point, c: Point, u: real, v: real)
    requires u > 0.0
    ensures var area, d := Cross(c, a, Place(a, b, c, u, v)), Cross(a, b, c);
            (d > 0.0 ==> area > 0.0) && (d < 0.0 ==> area < 0.0)
  {
    hide Cross;
    hide Place;
    PlaceCross(a, b, c, u, v);
    PlaceSign(u, Cross(a, b, c), Cross(c, a, Place(a, b, c, u, v)));
  }

  lemma PlacedInside(a: Point, b: Point, c: Point, u: real, v: real)
    requires !Collinear(a, b, c) && u > 0.0 && v > 0.0 && u + v < 1.0
    ensures Inner(a, b, c, Place(a, b, c, u, v))
  {
    hide Cross;
    hide Place;
    FirstSign(a, b, c, u, v);
    SecondSign(a, b, c, u, v);
    ThirdSign(a, b, c, u, v);
  }

  /** From the inside the three heights are not all on one side. */
  lemma InnerHeights(a: Point, b: Point, c: Point, p: Point)
    requires Inner(a, b, c, p)
    ensures a.y < p.y || b.y < p.y || c.y < p.y
    ensures a.y > p.y || b.y > p.y || c.y > p.y
  {
    var i, j, k := Cross(b, c, p), Cross(c, a, p), Cross(a, b, p);
    assert i * (a.y - p.y) + j * (b.y - p.y) + k * (c.y - p.y) == 0.0 by {
      Moments(a.x - p.x, a.y - p.y, b.x - p.x, b.y - p.y, c.x - p.x, c.y - p.y);
    }
    if a.y >= p.y && b.y >= p.y && c.y >= p.y {
      SumOfSigns(i, j, k, a.y - p.y, b.y - p.y, c.y - p.y);
    }
    if a.y <= p.y && b.y <= p.y && c.y <= p.y {
      SumOfSigns(i, j, k, p.y - a.y, p.y - b.y, p.y - c.y);
    }
    if a.y == p.y && b.y == p.y && c.y == p.y {
      MulByZero(b.x - a.x);
      MulByZero(p.x - a.x);
    }
  }

  /** The areas seen from a point balance the heights. */
  lemma Moments(a0: real, a1: real, b0: real, b1: real, c0: real, c1: real)
    ensures ((c0 - b0) * -b1 - (c1 - b1) * -b0) * a1 + ((a0 - c0) * -c1 - (a1 - c1) * -c0) * b1
          + ((b0 - a0) * -a1 - (b1 - a1) * -a0) * c1 == 0.0
  {}

  lemma SumOfSigns(i: real, j: real, k: real, u: real, v: real, w: real)
    requires (i > 0.0 && j > 0.0 && k > 0.0) || (i < 0.0 && j < 0.0 && k < 0.0)
    requires u >= 0.0 && v >= 0.0 && w >= 0.0
    ensures i * u + j * v + k * w == 0.0 <==> u == v == w == 0.0
    ensures i * -u + j * -v + k * -w == -(i * u + j * v + k * w)
  {
    SameSign(u, i);
    SameSign(v, j);
    SameSign(w, k);
  }

  /** A proper triangle winds once around every point inside. */
  lemma TriangleWinds(a: Point, b: Point, c: Point, p: Point)
    requires Inner(a, b, c, p)
    ensures Gap([c, a, b], p) == if Cross(a, b, p) < 0.0 then 2 else -2
  {
    hide WindingLine;
    hide Cross;
    hide Weight;
    InnerHeights(a, b, c, p);
    WindingBySide(a, b, p);
    WindingBySide(b, c, p);
    WindingBySide(c, a, p);
    WeightsBalance(a.y - p.y, b.y - p.y, c.y - p.y);
    assert Gap([c, a, b], p) == WindingLine(a, b, p) + WindingLine(b, c, p) + WindingLine(c, a, p);
  }

  /** A closed walk over three heights that are not all on one side goes up through zero once,
      and down once. */
  lemma WeightsBalance(u: real, v: real, w: real)
    requires (u < 0.0 || v < 0.0 || w < 0.0) && (u > 0.0 || v > 0.0 || w > 0.0)
    ensures (if u < v then Weight(u, v) else 0) + (if v < w then Weight(v, w) else 0)
      + (if w < u then Weight(w, u) else 0) == 2
    ensures (if v < u then Weight(u, v) else 0) + (if w < v then Weight(v, w) else 0)
      + (if u < w then Weight(w, u) else 0) == 2
  {}

  lemma {:induction false} GapAtEnds(points: seq<Point>, p: Point)
    requires |points| >= 3
    ensures var n := |points|; Gap(points, p) == Gap([points[0], points[n - 2], points[n - 1]], p)
  {}

  /** An edge of a line with slope `m` against the vertical, seen from `p`. */
  lemma EdgeOnLine(u: Point, v: Point, p: Point, m: real, k: real)
    requires v.x - u.x == m * (v.y - u.y) && k == m * (p.y - u.y) - (p.x - u.x)
    ensures Cross(u, v, p) == (v.y - u.y) * k
    ensures k == m * (p.y - v.y) - (p.x - v.x)
  {}

  lemma Slope(a: Point, b: Point, c: Point) returns (m: real)
    requires Collinear(a, b, c) && (a.y != b.y || b.y != c.y)
    ensures b.x - a.x == m * (b.y - a.y) && c.x - b.x == m * (c.y - b.y) && a.x - c.x == m * (a.y - c.y)
  {
    if a.y != b.y {
      m := (b.x - a.x) / (b.y - a.y);
      assert m * (b.y - a.y) == b.x - a.x;
      SlopeUnique(m * (c.y - a.y), c.x - a.x, b.y - a.y) by {
        assert m * (c.y - a.y) * (b.y - a.y) == (m * (b.y - a.y)) * (c.y - a.y);
      }
    } else {
      m := (c.x - a.x) / (c.y - a.y);
      assert m * (c.y - a.y) == c.x - a.x;
      SlopeUnique(b.x - a.x, 0.0, c.y - a.y);
    }
  }

  /** A closed walk over three heights goes up as much as it goes down. */
  lemma WeightsCancel(u: real, v: real, w: real)
    ensures (if u < v then Weight(u, v) else if v < u then -Weight(u, v) else 0)
          + (if v < w then Weight(v, w) else if w < v then -Weight(v, w) else 0)
          + (if w < u then Weight(w, u) else if u < w then -Weight(w, u) else 0) == 0
  {}

  lemma LineWinding(u: Point, v: Point, p: Point, m: real, k: real)
    requires v.x - u.x == m * (v.y - u.y) && k == m * (p.y - u.y) - (p.x - u.x)
    ensures WindingLine(u, v, p) ==
      if k >= 0.0 then 0
      else if u.y < v.y then Weight(u.y - p.y, v.y - p.y)
      else if v.y < u.y then -Weight(u.y - p.y, v.y - p.y)
      else 0
    ensures k == m * (p.y - v.y) - (p.x - v.x)
  {
    hide WindingLine;
    hide Weight;
    EdgeOnLine(u, v, p, m, k);
    WindingBySide(u, v, p);
    SameSign(k, v.y - u.y);
    hide Cross;
  }

  /** Three points on a line wind around nothing. */
  lemma FlatHasNoGap(a: Point, b: Point, c: Point, p: Point)
    requires Collinear(a, b, c)
    ensures WindingLine(a, b, p) + WindingLine(b, c, p) + WindingLine(c, a, p) == 0
  {
    if a.y != b.y || b.y != c.y {
      hide WindingLine;
      hide Weight;
      var m := Slope(a, b, c);
      hide Collinear;
      var k := m * (p.y - a.y) - (p.x - a.x);
      LineWinding(a, b, p, m, k);
      LineWinding(b, c, p, m, k);
      LineWinding(c, a, p, m, k);
      WeightsCancel(a.y - p.y, b.y - p.y, c.y - p.y);
    }
  }

  lemma {:induction false} FlatEndsHaveNoGaps(subs: seq<Subpath>, p: Point)
    requires forall s <- subs :: s.closed && |s.points| >= 3 ==>
      Collinear(s.points[|s.points| - 2], s.points[|s.points| - 1], s.points[0])
    ensures Gaps(subs, p) == 0
    decreases |subs|
  {
    hide WindingLine;
    hide Collinear;
    if subs != [] {
      var points := subs[0].points;
      if |points| >= 3 && subs[0].closed {
        FlatHasNoGap(points[|points| - 2], points[|points| - 1], points[0], p);
      } else {
        OpenHasNoGaps([subs[0]], p);
      }
      FlatEndsHaveNoGaps(subs[1..], p);
    }
  }

  // ---- a point off the path

  function Square(t: real): real { t * t }

  function Fraction(k: nat): real { 1.0 / (k + 2) as real }

  /** Points on a parabola inside the triangle: no line meets three of them. */
  function Bend(a: Point, b: Point, c: Point, k: nat): Point {
    Place(a, b, c, Fraction(k), Square(Fraction(k)))
  }

  lemma BendInside(a: Point, b: Point, c: Point, k: nat)
    requires !Collinear(a, b, c)
    ensures Inner(a, b, c, Bend(a, b, c, k))
  {
    hide Fraction;
    hide Square;
    FractionBounds(k);
    PlacedInside(a, b, c, Fraction(k), Square(Fraction(k)));
  }

  lemma FractionBounds(k: nat)
    ensures Fraction(k) > 0.0 && Square(Fraction(k)) > 0.0 && Fraction(k) + Square(Fraction(k)) < 1.0
  {
    InverseIs(Fraction(k), (k + 2) as real);
    SmallFraction(Fraction(k), (k + 2) as real);
  }

  lemma InverseIs(t: real, n: real)
    requires n != 0.0 && t == 1.0 / n
    ensures t * n == 1.0
  {}

  lemma SmallFraction(t: real, n: real)
    requires t * n == 1.0 && n >= 2.0
    ensures t > 0.0 && t * t > 0.0 && t + t * t < 1.0
  {
    SameSign(t, n);
    assert t * (n - 2.0) == 1.0 - 2.0 * t;
    SameSign(t, n - 2.0);
    SameSign(t, t);
    assert t * (0.5 - t) >= 0.0;
  }

  lemma BendsApart(i: nat, j: nat)
    requires i != j
    ensures Fraction(i) != Fraction(j)
  {
    var n, m := (i + 2) as real, (j + 2) as real;
    InverseIs(Fraction(i), n);
    InverseIs(Fraction(j), m);
    if Fraction(i) == Fraction(j) {
      OneInverse(Fraction(i), n, m);
    }
  }

  lemma OneInverse(s: real, n: real, m: real)
    requires s * n == 1.0 && s * m == 1.0
    ensures n == m
  {
    assert n == n * (s * m) == (s * n) * m;
  }

  lemma BendsBend(a: Point, b: Point, c: Point, i: nat, j: nat, k: nat)
    requires !Collinear(a, b, c) && i != j && i != k && j != k
    ensures !Collinear(Bend(a, b, c, i), Bend(a, b, c, j), Bend(a, b, c, k))
  {
    hide Fraction;
    hide Square;
    hide Collinear;
    hide Place;
    BendsApart(i, j);
    BendsApart(i, k);
    BendsApart(j, k);
    ParabolaBends(a, b, c, Fraction(i), Fraction(j), Fraction(k));
  }

  lemma ParabolaBends(a: Point, b: Point, c: Point, s: real, t: real, r: real)
    requires !Collinear(a, b, c) && s != t && s != r && t != r
    ensures !Collinear(Place(a, b, c, s, Square(s)), Place(a, b, c, t, Square(t)), Place(a, b, c, r, Square(r)))
  {
    hide Cross;
    hide Place;
    hide Square;
    PlacesBend(a, b, c, s, Square(s), t, Square(t), r, Square(r));
    Vandermonde(s, t, r);
    var u, v, w := t - s, r - s, r - t;
    NoZeroFactors(u * (Square(r) - Square(s)) - (Square(t) - Square(s)) * v, u, v, w, Cross(a, b, c));
  }

  lemma Vandermonde(s: real, t: real, r: real)
    ensures (t - s) * (Square(r) - Square(s)) - (Square(t) - Square(s)) * (r - s) == ((t - s) * (r - s)) * (r - t)
  {}

  lemma PlacesBend(a: Point, b: Point, c: Point, s: real, ss: real, t: real, tt: real, r: real, rr: real)
    ensures Cross(Place(a, b, c, s, ss), Place(a, b, c, t, tt), Place(a, b, c, r, rr))
         == ((t - s) * (rr - ss) - (tt - ss) * (r - s)) * Cross(a, b, c)
  {
    var p, q, o := Place(a, b, c, s, ss), Place(a, b, c, t, tt), Place(a, b, c, r, rr);
    PlacesApart(b.x - a.x, c.x - a.x, s, ss, t, tt);
    PlacesApart(b.y - a.y, c.y - a.y, s, ss, t, tt);
    PlacesApart(b.x - a.x, c.x - a.x, s, ss, r, rr);
    PlacesApart(b.y - a.y, c.y - a.y, s, ss, r, rr);
    PlacesCross(b.x - a.x, b.y - a.y, c.x - a.x, c.y - a.y, t - s, tt - ss, r - s, rr - ss);
  }

  lemma PlacesApart(b0: real, c0: real, s: real, ss: real, t: real, tt: real)
    ensures (t * b0 + tt * c0) - (s * b0 + ss * c0) == (t - s) * b0 + (tt - ss) * c0
  {}

  lemma PlacesCross(b0: real, b1: real, c0: real, c1: real, u: real, v: real, w: real, z: real)
    ensures (u * b0 + v * c0) * (w * b1 + z * c1) - (u * b1 + v * c1) * (w * b0 + z * c0)
         == (u * z - v * w) * (b0 * c1 - b1 * c0)
  {}

  lemma NoZeroProduct(x: real, y: real)
    requires x != 0.0 && y != 0.0
    ensures x * y != 0.0
  {}

  lemma NoZeroFactors(x: real, u: real, v: real, w: real, d: real)
    requires x == (u * v) * w && u != 0.0 && v != 0.0 && w != 0.0 && d != 0.0
    ensures x * d != 0.0
  {
    NoZeroProduct(u, v);
    NoZeroProduct(u * v, w);
    NoZeroProduct(x, d);
  }

  /** Three points of one edge lie on a line. */
  lemma OnOneEdge(a: Point, b: Point, p: Point, q: Point, r: Point)
    requires On(a, b, p) && On(a, b, q) && On(a, b, r)
    ensures Collinear(p, q, r)
  {
    var dx, dy := b.x - a.x, b.y - a.y;
    Parallel(dx, dy, q.x - p.x, q.y - p.y, r.x - p.x, r.y - p.y);
  }

  lemma Parallel(dx: real, dy: real, ux: real, uy: real, vx: real, vy: real)
    requires dx * uy == dy * ux && dx * vy == dy * vx
    requires dx == 0.0 && dy == 0.0 ==> ux == 0.0 && uy == 0.0
    ensures ux * vy - uy * vx == 0.0
  {
    if dx != 0.0 {
      assert dx * (ux * vy - uy * vx) == ux * (dx * vy) - (dx * uy) * vx;
      assert dx * (ux * vy - uy * vx) == 0.0;
    } else if dy != 0.0 {
      assert dy * (ux * vy - uy * vx) == (dy * ux) * vy - uy * (dy * vx);
      assert dy * (ux * vy - uy * vx) == 0.0;
    }
  }

  datatype Edge = Edge(from: Point, to: Point)

  /** Among enough of these points one lies on none of the edges. */
  lemma {:induction false} BendOffEdges(a: Point, b: Point, c: Point, edges: seq<Edge>, bends: set<nat>)
    returns (k: nat)
    requires !Collinear(a, b, c) && |bends| > 2 * |edges|
    ensures k in bends && forall e <- edges :: !On(e.from, e.to, Bend(a, b, c, k))
    decreases |edges|
  {
    hide On;
    hide Bend;
    hide Collinear;
    if edges == [] {
      k :| k in bends;
    } else {
      var e := edges[0];
      var met := set i | i in bends && On(e.from, e.to, Bend(a, b, c, i));
      if |met| > 2 {
        var i, j, l := ThreeOf(met);
        BendsBend(a, b, c, i, j, l);
        OnOneEdge(e.from, e.to, Bend(a, b, c, i), Bend(a, b, c, j), Bend(a, b, c, l));
        assert false;
      }
      k := BendOffEdges(a, b, c, edges[1..], bends - met);
      assert edges == [e] + edges[1..];
    }
  }

  lemma ThreeOf(s: set<nat>) returns (i: nat, j: nat, l: nat)
    requires |s| > 2
    ensures i in s && j in s && l in s && i != j && i != l && j != l
  {
    i :| i in s;
    var t := s - {i};
    assert |t| == |s| - 1;
    j :| j in t;
    assert |t - {j}| == |t| - 1;
    l :| l in t - {j};
  }

  function LoopEdges(points: seq<Point>): seq<Edge>
    requires points != []
  {
    seq(|points|, i requires 0 <= i < |points| => Edge(points[i], points[if i + 1 < |points| then i + 1 else 0]))
  }

  lemma OffEdgesIsOff(points: seq<Point>, p: Point)
    requires points != [] && forall e <- LoopEdges(points) :: !On(e.from, e.to, p)
    ensures OffLoop(points, p)
  {
    hide On;
    forall i | 0 < i < |points| ensures !On(points[i - 1], points[i], p) {
      assert LoopEdges(points)[i - 1] in LoopEdges(points);
    }
    assert LoopEdges(points)[|points| - 1] in LoopEdges(points);
  }

  lemma {:induction false} Counting(n: nat) returns (s: set<nat>)
    ensures |s| == n && forall i <- s :: i < n
  {
    if n == 0 {
      s := {};
    } else {
      s := Counting(n - 1);
      s := s + {n - 1};
    }
  }

  /** A point inside the triangle that lies on neither of two loops. */
  lemma InnerPointOff(a: Point, b: Point, c: Point, one: seq<Point>, other: seq<Point>) returns (p: Point)
    requires !Collinear(a, b, c) && one != [] && other != []
    ensures Inner(a, b, c, p) && OffLoop(one, p) && OffLoop(other, p)
  {
    hide On;
    hide OffLoop;
    var edges := LoopEdges(one) + LoopEdges(other);
    var bends := Counting(2 * |edges| + 1);
    var k := BendOffEdges(a, b, c, edges, bends);
    p := Bend(a, b, c, k);
    BendInside(a, b, c, k);
    OffEdgesIsOff(one, p);
    OffEdgesIsOff(other, p);
  }

  /** For one closed subpath: reversal negates the winding count at every point off both paths
      exactly when its last two points and its first lie on a line.  Then it negates the total
      at every point whatever. */
  lemma ClosedReversal(points: seq<Point>, held: Point)
    requires |points| >= 3
    ensures var n, subs := |points|, [Subpath(points, true)];
            (forall p | OffPath(subs, p) && OffPath(ReversedSubpaths(subs), p) ::
               WindingCount(Reversed(Flatten(subs), held), p) == -WindingCount(Flatten(subs), p)) <==>
            Collinear(points[n - 2], points[n - 1], points[0])
    ensures var n, path := |points|, Flatten([Subpath(points, true)]);
            Collinear(points[n - 2], points[n - 1], points[0]) ==>
            forall p :: WindingTotal(Reversed(path, held), p) == Some(-LoopTotal(points, p))
  {
    hide WindingLine;
    hide WindingTotal;
    hide WindingCount;
    hide Flatten;
    hide Reversed;
    hide Inner;
    hide Collinear;
    hide OffLoop;
    hide Rev;
    var n := |points|;
    var subs := [Subpath(points, true)];
    var a, b, c := points[n - 2], points[n - 1], points[0];
    if Collinear(a, b, c) {
      forall p | OffPath(subs, p) && OffPath(ReversedSubpaths(subs), p)
        ensures WindingCount(Reversed(Flatten(subs), held), p) == -WindingCount(Flatten(subs), p)
      {
        FlatEndsHaveNoGaps(subs, p);
        ReversalNegates(subs, held, p);
      }
      forall p ensures WindingTotal(Reversed(Flatten(subs), held), p) == Some(-LoopTotal(points, p)) {
        FlatEndsHaveNoGaps(subs, p);
        ReversedTotal(subs, held, p);
        assert LoopTotals(subs, p) == LoopTotal(points, p) by { assert subs[1..] == []; }
      }
    } else {
      var p := InnerPointOff(a, b, c, points, ReversedSubpath(subs[0]).points);
      OneSubpathOff(subs[0], p);
      TriangleWinds(a, b, c, p);
      GapAtEnds(points, p);
      assert Gaps(subs, p) != 0 by { assert subs[1..] == []; }
      ReversalNegates(subs, held, p);
    }
  }

  lemma OneSubpathOff(s: Subpath, p: Point)
    requires s.points != [] && OffLoop(s.points, p) && OffLoop(ReversedSubpath(s).points, p)
    ensures OffPath([s], p) && OffPath(ReversedSubpaths([s]), p)
  {
    hide OffLoop;
    hide ReversedSubpath;
    assert [s][..0] == [];
    assert ReversedSubpaths([s]) == [ReversedSubpath(s)];
  }

  // ---- appending

  lemma FlattenFirst(subs: seq<Subpath>)
    requires Proper(subs) && subs != []
    ensures Flatten(subs) == Elements(subs[0]) + Flatten(subs[1..])
  {}

  lemma {:induction false} FlattenAppend(a: seq<Subpath>, b: seq<Subpath>)
    requires Proper(a) && Proper(b)
    ensures Proper(a + b) && Flatten(a + b) == Flatten(a) + Flatten(b)
    decreases |a|
  {
    hide Elements;
    if a == [] {
      assert a + b == b;
    } else {
      assert (a + b)[1..] == a[1..] + b && (a + b)[0] == a[0];
      FlattenAppend(a[1..], b);
      FlattenFirst(a);
      FlattenFirst(a + b);
      hide Flatten;
      assert Elements(a[0]) + (Flatten(a[1..]) + Flatten(b)) == Elements(a[0]) + Flatten(a[1..]) + Flatten(b);
    }
  }

  lemma {:induction false} TotalsAppend(a: seq<Subpath>, b: seq<Subpath>, p: Point)
    requires Proper(a) && Proper(b)
    ensures LoopTotals(a + b, p) == LoopTotals(a, p) + LoopTotals(b, p)
    decreases |a|
  {
    hide LoopTotal;
    if a == [] {
      assert a + b == b;
    } else {
      assert (a + b)[1..] == a[1..] + b;
      TotalsAppend(a[1..], b, p);
    }
  }

  /** Appending a path adds the totals, and off both paths the winding counts. */
  lemma AppendAdds(a: seq<Subpath>, b: seq<Subpath>, p: Point)
    requires Proper(a) && Proper(b)
    ensures WindingTotal(Flatten(a) + Flatten(b), p) == Some(LoopTotals(a, p) + LoopTotals(b, p))
    ensures OffPath(a, p) && OffPath(b, p) ==>
      WindingCount(Flatten(a) + Flatten(b), p) == WindingCount(Flatten(a), p) + WindingCount(Flatten(b), p)
  {
    hide LoopTotals;
    hide Flatten;
    hide WindingTotal;
    hide OffPath;
    FlattenAppend(a, b);
    TotalsAppend(a, b, p);
    TotalIsLoops(a + b, p);
    TotalIsLoops(a, p);
    TotalIsLoops(b, p);
    if OffPath(a, p) && OffPath(b, p) {
      TotalEven(a, p);
      TotalEven(b, p);
    }
  }

  // ---- validity

  predicate Resumes(elements: seq<Element>, first: bool) {
    && (elements != [] && first ==> elements[0].MoveTo?)
    && forall i :: 0 < i < |elements| && elements[i - 1].ClosePath? ==> elements[i].MoveTo?
  }

  lemma {:induction false} ScanDefined(elements: seq<Element>, last: Point, start: Point, first: bool, p: Point)
    ensures Scan(elements, last, start, first, p).Some? <==> Resumes(elements, first)
    decreases |elements|
  {
    hide WindingLine;
    if elements != [] {
      var rest := elements[1..];
      var closed := elements[0].ClosePath?;
      match elements[0] {
        case MoveTo(q) => ScanDefined(rest, q, q, false, p);
        case LineTo(q) => ScanDefined(rest, q, start, false, p);
        case ClosePath => ScanDefined(rest, last, start, true, p);
      }
      if Resumes(elements, first) {
        assert forall i :: 0 < i < |rest| ==> rest[i] == elements[i + 1] && rest[i - 1] == elements[i];
      }
      if Resumes(rest, closed) && (first ==> elements[0].MoveTo?) {
        forall i | 0 < i < |elements| && elements[i - 1].ClosePath? ensures elements[i].MoveTo? {
          if i > 1 {
            assert rest[i - 2].ClosePath? && rest[i - 1] == elements[i];
          }
        }
      }
    }
  }

  /** The paths `windingCountAtPoint:` counts are exactly the valid ones. */
  lemma TotalDefined(elements: seq<Element>, p: Point)
    ensures WindingTotal(elements, p).Some? <==> Valid(elements)
  {
    if elements != [] && elements[0].MoveTo? {
      var rest := elements[1..];
      ScanDefined(rest, elements[0].p, elements[0].p, false, p);
      assert forall i :: 0 < i < |rest| ==> rest[i] == elements[i + 1] && rest[i - 1] == elements[i];
      if Resumes(rest, false) {
        forall i | 0 < i < |elements| && elements[i - 1].ClosePath? ensures elements[i].MoveTo? {
          assert i > 1 && rest[i - 2].ClosePath? && rest[i - 1] == elements[i];
        }
      }
    }
  }

  // ---- containment

  datatype WindingRule = NonZero | EvenOdd

  predicate Inside(rule: WindingRule, count: int) {
    match rule
    case NonZero => count != 0
    case EvenOdd => count % 2 != 0
  }

  /** The two rules tell a count and its negative apart only if it is even and not zero. */
  predicate RulesAgree(rule: WindingRule, other: WindingRule, count: int) {
    rule == other || count == 0 || count % 2 != 0
  }

  /** Where the count is negated, a path under its rule and the reversed path under its own
      give the same answer exactly when the rules agree about the count. */
  lemma ReversalKeepsInside(subs: seq<Subpath>, held: Point, p: Point, rule: WindingRule, other: WindingRule)
    requires Proper(subs) && OffPath(subs, p) && OffPath(ReversedSubpaths(subs), p) && Gaps(subs, p) == 0
    ensures (Inside(other, WindingCount(Reversed(Flatten(subs), held), p)) <==>
             Inside(rule, WindingCount(Flatten(subs), p))) <==>
            RulesAgree(rule, other, WindingCount(Flatten(subs), p))
  {
    hide WindingCount;
    hide Flatten;
    hide Reversed;
    hide Gaps;
    hide OffPath;
    ReversalNegates(subs, held, p);
  }

  /** `bounds`, from the points of the move and line elements. */
  ghost predicate IsBounds(elements: seq<Element>, min: Point, max: Point) {
    && (forall e <- elements :: !e.ClosePath? ==> min.x <= e.p.x <= max.x && min.y <= e.p.y <= max.y)
    && (exists e <- elements :: !e.ClosePath? && e.p.x == min.x)
    && (exists e <- elements :: !e.ClosePath? && e.p.x == max.x)
    && (exists e <- elements :: !e.ClosePath? && e.p.y == min.y)
    && (exists e <- elements :: !e.ClosePath? && e.p.y == max.y)
  }

  predicate HasPoint(elements: seq<Element>, q: Point) {
    exists e <- elements :: !e.ClosePath? && e.p == q
  }

  lemma ElementsPoints(s: Subpath, q: Point)
    requires s.points != []
    ensures HasPoint(Elements(s), q) <==> q in s.points
  {
    var e := Elements(s);
    assert s.points == [s.points[0]] + s.points[1..];
    forall i | 0 <= i < |s.points| ensures !e[i].ClosePath? && e[i].p == s.points[i] {
    }
    if q in s.points {
      var i :| 0 <= i < |s.points| && s.points[i] == q;
      assert e[i] in e;
    }
  }

  lemma {:induction false} FlattenPoints(subs: seq<Subpath>, q: Point)
    requires Proper(subs)
    ensures HasPoint(Flatten(subs), q) <==> exists s <- subs :: q in s.points
    decreases |subs|
  {
    hide Elements;
    if subs != [] {
      ElementsPoints(subs[0], q);
      FlattenPoints(subs[1..], q);
      assert subs == [subs[0]] + subs[1..];
    }
  }

  lemma {:induction false} RevSame(points: seq<Point>, q: Point)
    ensures q in Rev(points) <==> q in points
    decreases |points|
  {
    if points != [] {
      RevSame(points[..|points| - 1], q);
      assert points == points[..|points| - 1] + [points[|points| - 1]];
    }
  }

  lemma {:induction false} ReversedSubpathsPoints(subs: seq<Subpath>, q: Point)
    requires Proper(subs) && forall s <- subs :: !s.closed
    ensures (exists s <- ReversedSubpaths(subs) :: q in s.points) <==> exists s <- subs :: q in s.points
    decreases |subs|
  {
    if subs != [] {
      var s, rest := subs[|subs| - 1], subs[..|subs| - 1];
      assert subs == rest + [s];
      RevSame(s.points, q);
      ReversedSubpathsPoints(rest, q);
    }
  }

  /** A path of open subpaths has the same bounds when reversed; a closed subpath may lose a
      corner of its bounds with its last point. */
  lemma OpenReversalKeepsBounds(subs: seq<Subpath>, held: Point, min: Point, max: Point)
    requires Proper(subs) && forall s <- subs :: !s.closed
    ensures IsBounds(Reversed(Flatten(subs), held), min, max) <==> IsBounds(Flatten(subs), min, max)
  {
    ReversedFlat(subs, held);
    forall q ensures HasPoint(Reversed(Flatten(subs), held), q) <==> HasPoint(Flatten(subs), q) {
      FlattenPoints(subs, q);
      FlattenPoints(ReversedSubpaths(subs), q);
      ReversedSubpathsPoints(subs, q);
    }
    hide Flatten;
    hide Reversed;
    BoundsByPoints(Reversed(Flatten(subs), held), Flatten(subs), min, max);
    BoundsByPoints(Flatten(subs), Reversed(Flatten(subs), held), min, max);
  }

  lemma BoundsByPoints(a: seq<Element>, b: seq<Element>, min: Point, max: Point)
    requires forall q :: HasPoint(a, q) <==> HasPoint(b, q)
    ensures IsBounds(a, min, max) ==> IsBounds(b, min, max)
  {
    if IsBounds(a, min, max) {
      forall e | e in b && !e.ClosePath? ensures min.x <= e.p.x <= max.x && min.y <= e.p.y <= max.y {
        assert HasPoint(b, e.p);
      }
      forall e | e in a && !e.ClosePath? ensures exists f <- b :: !f.ClosePath? && f.p == e.p {
        assert HasPoint(a, e.p);
      }
    }
  }

  /** `NSPointInRect` of Foundation: the left and lower sides belong to a rectangle, the
      right and upper sides do not. */
  predicate InRect(p: Point, min: Point, max: Point) {
    min.x <= p.x < max.x && min.y <= p.y < max.y
  }

  /** What `containsPoint:` answers. */
  ghost predicate Contains(elements: seq<Element>, p: Point, rule: WindingRule) {
    exists min, max :: IsBounds(elements, min, max) && InRect(p, min, max) && Inside(rule, WindingCount(elements, p))
  }

  predicate Within(a: Point, min: Point, max: Point) {
    min.x <= a.x <= max.x && min.y <= a.y <= max.y
  }

  /** The side of the height of `p` on which a point lies. */
  function Level(a: Point, p: Point): int {
    if a.y < p.y then -1 else if a.y == p.y then 0 else 1
  }

  /** Seen from outside the rectangle, an edge counts the difference of this value. */
  function Outlook(a: Point, p: Point, max: Point): int {
    if p.x >= max.x then Level(a, p) else Touches(a, p)
  }

  lemma EdgeFromOutside(a: Point, b: Point, p: Point, min: Point, max: Point)
    requires Within(a, min, max) && Within(b, min, max) && !InRect(p, min, max) && !On(a, b, p)
    ensures WindingLine(a, b, p) == Outlook(b, p, max) - Outlook(a, p, max)
  {
    if p.x >= max.x {
      EdgeFromTheRight(a, b, p);
    } else if a.y != b.y {
      CrossingSymmetric(a, b, p.y);
    } else if a.y == p.y {
      MulByZero(b.x - a.x);
      MulByZero(p.x - a.x);
    }
  }

  lemma EdgeFromTheRight(a: Point, b: Point, p: Point)
    requires a.x <= p.x && b.x <= p.x && !On(a, b, p)
    ensures WindingLine(a, b, p) == Level(b, p) - Level(a, p)
  {
    hide WindingLine;
    WindingBySide(a, b, p);
    var u, v := p.x - a.x, p.x - b.x;
    assert Cross(a, b, p) == -(v * (p.y - a.y)) - (b.y - p.y) * u by {
      SideArea(b.x - a.x, b.y - a.y, u, p.y - a.y);
    }
    if Between(a.y, b.y, p.y) && a.y != b.y {
      SideSign(u, v, p.y - a.y, b.y - p.y);
    }
  }

  /** The area is zero only where the point meets the edge. */
  lemma SideSign(u: real, v: real, w: real, z: real)
    requires u >= 0.0 && v >= 0.0 && ((w >= 0.0 && z >= 0.0) || (w <= 0.0 && z <= 0.0))
    ensures w >= 0.0 && z >= 0.0 ==> -(v * w) - z * u <= 0.0
    ensures w <= 0.0 && z <= 0.0 ==> -(v * w) - z * u >= 0.0
    ensures -(v * w) - z * u == 0.0 ==> (v == 0.0 || w == 0.0) && (u == 0.0 || z == 0.0)
  {
    ProductSign(v, w);
    ProductSign(u, z);
  }

  lemma ProductSign(u: real, w: real)
    requires u >= 0.0
    ensures (w >= 0.0 ==> u * w >= 0.0) && (w <= 0.0 ==> u * w <= 0.0)
    ensures u * w == 0.0 ==> u == 0.0 || w == 0.0
  {}

  lemma SideArea(dx: real, dy: real, ux: real, uy: real)
    ensures dx * uy - dy * ux == -((ux - dx) * uy) - (dy - uy) * ux
  {}

  lemma {:induction false} PolyFromOutside(points: seq<Point>, p: Point, min: Point, max: Point)
    requires points != [] && !InRect(p, min, max)
    requires forall q <- points :: Within(q, min, max)
    requires forall i :: 0 < i < |points| ==> !On(points[i - 1], points[i], p)
    ensures PolyTotal(points, p) == Outlook(points[|points| - 1], p, max) - Outlook(points[0], p, max)
    decreases |points|
  {
    hide WindingLine;
    hide On;
    hide Outlook;
    hide InRect;
    var n := |points| - 1;
    if n > 0 {
      PolyFromOutside(points[..n], p, min, max);
      EdgeFromOutside(points[n - 1], points[n], p, min, max);
    }
  }

  lemma {:induction false} LoopsFromOutside(subs: seq<Subpath>, p: Point, min: Point, max: Point)
    requires Proper(subs) && OffPath(subs, p) && !InRect(p, min, max)
    requires forall s <- subs, q <- s.points :: Within(q, min, max)
    ensures LoopTotals(subs, p) == 0
    decreases |subs|
  {
    hide WindingLine;
    hide On;
    hide Outlook;
    hide InRect;
    if subs != [] {
      var points := subs[0].points;
      PolyFromOutside(points, p, min, max);
      EdgeFromOutside(points[|points| - 1], points[0], p, min, max);
      LoopsFromOutside(subs[1..], p, min, max);
    }
  }

  /** Off the path, a point outside the bounds has the winding count zero. */
  lemma OutsideCountsZero(subs: seq<Subpath>, p: Point, min: Point, max: Point)
    requires Proper(subs) && OffPath(subs, p) && IsBounds(Flatten(subs), min, max) && !InRect(p, min, max)
    ensures WindingTotal(Flatten(subs), p) == Some(0)
  {
    hide Flatten;
    hide OffLoop;
    forall s, q | s in subs && q in s.points ensures Within(q, min, max) {
      FlattenPoints(subs, q);
      assert HasPoint(Flatten(subs), q);
    }
    LoopsFromOutside(subs, p, min, max);
    TotalIsLoops(subs, p);
  }

  lemma {:induction false} BoundsExist(elements: seq<Element>) returns (min: Point, max: Point)
    requires elements != [] && !elements[0].ClosePath?
    ensures IsBounds(elements, min, max)
    decreases |elements|
  {
    var n := |elements| - 1;
    assert elements == elements[..n] + [elements[n]];
    if n == 0 {
      min, max := elements[0].p, elements[0].p;
    } else {
      min, max := BoundsExist(elements[..n]);
      if !elements[n].ClosePath? {
        var q := elements[n].p;
        max := Point(if q.x > max.x then q.x else max.x, if q.y > max.y then q.y else max.y);
        min := Point(if q.x < min.x then q.x else min.x, if q.y < min.y then q.y else min.y);
      }
    }
  }

  /** Off the path the test against the bounds changes nothing: `containsPoint:` answers by the
      winding count alone. */
  lemma ContainsIsInside(subs: seq<Subpath>, p: Point, rule: WindingRule)
    requires Proper(subs) && OffPath(subs, p)
    ensures Contains(Flatten(subs), p, rule) <==> Inside(rule, WindingCount(Flatten(subs), p))
  {
    hide OffPath;
    hide IsBounds;
    hide InRect;
    hide WindingTotal;
    if subs == [] {
      TotalIsLoops(subs, p);
    } else {
      FlattenStarts(subs);
      hide Flatten;
      var min, max := BoundsExist(Flatten(subs));
      if !InRect(p, min, max) {
        OutsideCountsZero(subs, p, min, max);
      }
    }
  }

  /** The answer by the total itself: off the path a point is inside by the non-zero rule where
      the total is not zero, and by the even-odd rule where it is no multiple of four. */
  lemma ContainsByTotal(subs: seq<Subpath>, p: Point)
    requires Proper(subs) && OffPath(subs, p)
    ensures Contains(Flatten(subs), p, NonZero) <==> LoopTotals(subs, p) != 0
    ensures Contains(Flatten(subs), p, EvenOdd) <==> LoopTotals(subs, p) % 4 != 0
  {
    hide OffPath;
    hide Contains;
    hide WindingTotal;
    hide Flatten;
    hide LoopTotals;
    ContainsIsInside(subs, p, NonZero);
    ContainsIsInside(subs, p, EvenOdd);
    TotalIsLoops(subs, p);
    TotalEven(subs, p);
  }

  /** Inside the rectangle and anywhere, also on the path: a total of one either way counts as
      nothing, and the even-odd rule looks at the total without its sign and its last bit.  The
      rectangle has its left and lower sides but not the other two. */
  lemma ContainsInBounds(subs: seq<Subpath>, p: Point, min: Point, max: Point)
    requires Proper(subs) && IsBounds(Flatten(subs), min, max)
    ensures Contains(Flatten(subs), p, NonZero) <==>
      min.x <= p.x < max.x && min.y <= p.y < max.y && !(-1 <= LoopTotals(subs, p) <= 1)
    ensures Contains(Flatten(subs), p, EvenOdd) <==>
      var total := LoopTotals(subs, p);
      min.x <= p.x < max.x && min.y <= p.y < max.y && (if total < 0 then -total else total) % 4 >= 2
  {
    hide WindingTotal;
    hide Flatten;
    hide LoopTotals;
    hide Contains;
    TotalIsLoops(subs, p);
    ContainsWithin(Flatten(subs), p, NonZero, min, max);
    ContainsWithin(Flatten(subs), p, EvenOdd, min, max);
  }

  lemma ContainsWithin(elements: seq<Element>, p: Point, rule: WindingRule, min: Point, max: Point)
    requires IsBounds(elements, min, max)
    ensures Contains(elements, p, rule) <==> InRect(p, min, max) && Inside(rule, WindingCount(elements, p))
  {
    hide InRect;
    hide Inside;
    hide WindingCount;
    forall low, high | IsBounds(elements, low, high) ensures low == min && high == max {
      BoundsUnique(elements, low, high, min, max);
    }
    hide IsBounds;
  }

  /** A proper triangle contains the points inside it, whichever way round it is walked and
      whichever the rule. */
  lemma TriangleContains(a: Point, b: Point, c: Point, p: Point, closed: bool, rule: WindingRule)
    requires Inner(a, b, c, p)
    ensures Contains(Flatten([Subpath([a, b, c], closed)]), p, rule)
  {
    hide WindingLine;
    hide Cross;
    hide Contains;
    hide Flatten;
    var subs := [Subpath([a, b, c], closed)];
    InnerIsOff(a, b, c, p);
    ContainsByTotal(subs, p);
    TriangleWinds(a, b, c, p);
    assert [a, b, c][..2] == [a, b] && [a, b][..1] == [a];
    assert PolyTotal([a, b], p) == WindingLine(a, b, p);
    assert PolyTotal([a, b, c], p) == WindingLine(a, b, p) + WindingLine(b, c, p);
    assert LoopTotal([a, b, c], p) == Gap([c, a, b], p);
    assert subs[1..] == [];
  }

  lemma InnerIsOff(a: Point, b: Point, c: Point, p: Point)
    requires Inner(a, b, c, p)
    ensures OffLoop([a, b, c], p)
  {
    OnIsFlat(a, b, p);
    OnIsFlat(b, c, p);
    OnIsFlat(c, a, p);
    hide On;
    hide Cross;
    var points := [a, b, c];
    forall i | 0 < i < |points| ensures !On(points[i - 1], points[i], p) {
      assert i == 1 || i == 2;
    }
  }

  lemma OnIsFlat(a: Point, b: Point, p: Point)
    ensures On(a, b, p) ==> Cross(a, b, p) == 0.0
  {}

  lemma FlattenStarts(subs: seq<Subpath>)
    requires Proper(subs) && subs != []
    ensures Flatten(subs) != [] && Flatten(subs)[0].MoveTo?
  {
  }

  /** Off both paths, where the lost triangles do not wind, a path under `rule` and its reversal
      under `other` contain the same exactly when the rules agree.  The reversed path has the
      default rule, whatever the path has. */
  lemma ReversalKeepsContains(subs: seq<Subpath>, held: Point, p: Point, rule: WindingRule, other: WindingRule)
    requires Proper(subs) && OffPath(subs, p) && OffPath(ReversedSubpaths(subs), p) && Gaps(subs, p) == 0
    ensures (Contains(Reversed(Flatten(subs), held), p, other) <==> Contains(Flatten(subs), p, rule)) <==>
            RulesAgree(rule, other, WindingCount(Flatten(subs), p))
  {
    hide Contains;
    hide WindingCount;
    hide Reversed;
    hide OffPath;
    hide Flatten;
    ReversedFlat(subs, held);
    ContainsIsInside(subs, p, rule);
    ContainsIsInside(ReversedSubpaths(subs), p, other);
    ReversalKeepsInside(subs, held, p, rule, other);
  }

  /** A square of side `2 * r` around the origin. */
  function Square4(r: real): Subpath {
    Subpath([Point(-r, -r), Point(-r, r), Point(r, r), Point(r, -r)], false)
  }

  /** Two nested squares walked the same way, under the even-odd rule: the origin is wound twice
      and not contained, but the reversed path, which has the rule NonZero, contains it. */
  lemma ReversalFillsHole(held: Point)
    ensures var path, origin := Flatten([Square4(1.0), Square4(2.0)]), Point(0.0, 0.0);
            && WindingCount(path, origin) == 2
            && !Contains(path, origin, EvenOdd) && Contains(Reversed(path, held), origin, NonZero)
  {
    hide Contains;
    hide Flatten;
    hide Reversed;
    var subs, origin := [Square4(1.0), Square4(2.0)], Point(0.0, 0.0);
    SquareAtOrigin(1.0);
    SquareAtOrigin(2.0);
    TotalIsLoops(subs, origin);
    assert subs[1..] == [Square4(2.0)] && [Square4(2.0)][1..] == [];
    OpenHasNoGaps(subs, origin);
    SquaresReversed();
    ContainsIsInside(subs, origin, EvenOdd);
    ReversalKeepsContains(subs, held, origin, EvenOdd, NonZero);
  }

  lemma SquareAtOrigin(r: real)
    requires r > 0.0
    ensures LoopTotal(Square4(r).points, Point(0.0, 0.0)) == 2
    ensures OffLoop(Square4(r).points, Point(0.0, 0.0)) && OffLoop(Rev(Square4(r).points), Point(0.0, 0.0))
  {
    hide Cross;
    var a, b, c, d := Point(-r, -r), Point(-r, r), Point(r, r), Point(r, -r);
    FourPoints(a, b, c, d, Point(0.0, 0.0));
  }

  lemma FourPoints(a: Point, b: Point, c: Point, d: Point, p: Point)
    ensures LoopTotal([a, b, c, d], p) ==
      WindingLine(a, b, p) + WindingLine(b, c, p) + WindingLine(c, d, p) + WindingLine(d, a, p)
    ensures Rev([a, b, c, d]) == [d, c, b, a]
  {
    hide WindingLine;
    assert [a, b, c, d][..3] == [a, b, c] && [a, b, c][..2] == [a, b] && [a, b][..1] == [a] && [a][..0] == [];
    assert PolyTotal([a], p) == 0 && Rev([a]) == [a] + Rev([]);
    assert PolyTotal([a, b], p) == WindingLine(a, b, p) && Rev([a, b]) == [b] + Rev([a]);
    assert PolyTotal([a, b, c], p) == PolyTotal([a, b], p) + WindingLine(b, c, p)
      && Rev([a, b, c]) == [c] + Rev([a, b]);
  }

  lemma SquaresReversed()
    ensures OffPath(ReversedSubpaths([Square4(1.0), Square4(2.0)]), Point(0.0, 0.0))
  {
    SquareAtOrigin(1.0);
    SquareAtOrigin(2.0);
    hide OffLoop;
    hide Rev;
    var a, b := Square4(1.0), Square4(2.0);
    assert ReversedSubpath(a).points == Rev(a.points) && ReversedSubpath(b).points == Rev(b.points);
    hide ReversedSubpath;
    assert [a, b][..1] == [a] && [a][..0] == [];
    assert ReversedSubpaths([a]) == [ReversedSubpath(a)];
    assert ReversedSubpaths([a, b]) == [ReversedSubpath(b), ReversedSubpath(a)];
  }

  /** The rectangle that `_recalculateBounds` finds, with the point it starts from, decides. */
  lemma ContainsByBounds(elements: seq<Element>, p: Point, rule: WindingRule, held: Point, min: Point, max: Point)
    requires elements != [] && IsBounds([MoveTo(Associated(elements[..1], held))] + elements, min, max)
    ensures Contains(elements, p, rule) <==> InRect(p, min, max) && Inside(rule, WindingCount(elements, p))
  {
    hide InRect;
    if elements[0].ClosePath? {
      assert WindingCount(elements, p) == 0;
    } else {
      hide WindingCount;
      hide Inside;
      SameBounds(elements, Associated(elements[..1], held), min, max);
      forall low, high | IsBounds(elements, low, high) ensures low == min && high == max {
        BoundsUnique(elements, low, high, min, max);
      }
    }
  }

  lemma BoundsUnique(elements: seq<Element>, low: Point, high: Point, min: Point, max: Point)
    requires IsBounds(elements, low, high) && IsBounds(elements, min, max)
    ensures low == min && high == max
  {}

  lemma SameBounds(elements: seq<Element>, start: Point, min: Point, max: Point)
    requires elements != [] && !elements[0].ClosePath? && start == elements[0].p
    requires IsBounds([MoveTo(start)] + elements, min, max)
    ensures IsBounds(elements, min, max)
  {
    var more := [MoveTo(start)] + elements;
    forall q ensures HasPoint(more, q) <==> HasPoint(elements, q) {
      if HasPoint(more, q) {
        var e :| e in more && !e.ClosePath? && e.p == q;
        if e !in elements {
          assert elements[0] in elements;
        }
      }
    }
    hide HasPoint;
    BoundsByPoints(more, elements, min, max);
  }

  lemma RewindNext(elements: seq<Element>, i: nat, lastType: ElementType, closed: bool, held: Point)
    requires 0 < i <= |elements|
    ensures var q, next := Associated(elements[..i], held), elements[i - 1].Type();
            Rewind(elements[..i], lastType, closed, held) ==
            Emitted(lastType, closed, q) +
            Rewind(elements[..i - 1], next, !lastType.MoveToType? && (closed || lastType.CloseType?), q)
  {
    assert elements[..i][..i - 1] == elements[..i - 1];
  }

  /** What one turn of the reversing loop appends. */
  function Emitted(lastType: ElementType, closed: bool, p: Point): seq<Element> {
    match lastType
    case MoveToType => (if closed then [ClosePath] else []) + [MoveTo(p)]
    case LineToType => [LineTo(p)]
    case CloseType => []
  }

  lemma RewindEmpty(none: seq<Element>, lastType: ElementType, closed: bool, held: Point)
    requires none == []
    ensures Rewind(none, lastType, closed, held) == if closed then [ClosePath] else []
  {}

  lemma BoundsGrow(elements: seq<Element>, e: Element, min: Point, max: Point)
    requires IsBounds(elements, min, max)
    ensures e.ClosePath? ==> IsBounds(elements + [e], min, max)
    ensures !e.ClosePath? ==>
      IsBounds(elements + [e], Point(if e.p.x < min.x then e.p.x else min.x, if e.p.y < min.y then e.p.y else min.y),
               Point(if e.p.x > max.x then e.p.x else max.x, if e.p.y > max.y then e.p.y else max.y))
  {}

  class BezierPath {
    var elements: seq<Element>
    var windingRule: WindingRule

    /** `init`; the default rule is a variable of the class, NonZero unless the program sets it. */
    constructor (defaultRule: WindingRule)
      ensures elements == [] && windingRule == defaultRule
    {
      elements, windingRule := [], defaultRule;
    }

    method SetWindingRule(rule: WindingRule)
      modifies this`windingRule
      ensures windingRule == rule
    {
      windingRule := rule;
    }

    method MoveToPoint(p: Point)
      modifies this`elements
      ensures elements == old(elements) + [MoveTo(p)]
    {
      elements := elements + [MoveTo(p)];
    }

    method LineToPoint(p: Point)
      modifies this`elements
      ensures elements == old(elements) + [LineTo(p)]
    {
      elements := elements + [LineTo(p)];
    }

    method Close()
      modifies this`elements
      ensures elements == old(elements) + [ClosePath]
    {
      elements := elements + [ClosePath];
    }

    /** `elementAtIndex:associatedPoints:`; `held` is what the caller's buffer holds. */
    method ElementAtIndex(index: nat, held: Point) returns (kind: ElementType, point: Point)
      requires index < |elements|
      ensures kind == elements[index].Type() && point == Associated(elements[..index + 1], held)
    {
      kind, point := elements[index].Type(), held;
      if !elements[index].ClosePath? {
        point := elements[index].p;
        return;
      }
      var i := index;
      assert elements[..index + 1][..index] == elements[..index];
      while i > 0
        invariant 0 <= i <= index
        invariant LastMove(elements[..index + 1], held) == LastMove(elements[..i], held)
      {
        assert elements[..i][..i - 1] == elements[..i - 1];
        if elements[i - 1].MoveTo? {
          point := elements[i - 1].p;
          return;
        }
        i := i - 1;
      }
    }

    /** `appendBezierPath:`, which may be given the path itself. */
    method AppendBezierPath(path: BezierPath, held: Point)
      modifies this`elements
      ensures elements == old(elements) + old(path.elements)
    {
      var count := |path.elements|;
      for i := 0 to count
        invariant count <= |path.elements| && path.elements[..count] == old(path.elements)
        invariant elements == old(elements) + old(path.elements)[..i]
      {
        var next, point := path.ElementAtIndex(i, held);
        match next {
          case MoveToType => MoveToPoint(point);
          case LineToType => LineToPoint(point);
          case CloseType => Close();
        }
      }
    }

    /** The second switch of `bezierPathByReversingPath`. */
    method Emit(lastType: ElementType, closed: bool, p: Point) returns (now: bool)
      modifies this`elements
      ensures now <==> !lastType.MoveToType? && (closed || lastType.CloseType?)
      ensures elements == old(elements) + Emitted(lastType, closed, p)
    {
      now := closed;
      match lastType {
        case MoveToType =>
          if closed {
            Close();
            now := false;
          }
          MoveToPoint(p);
        case LineToType => LineToPoint(p);
        case CloseType => now := true;
      }
    }

    /** `bezierPathByReversingPath`; the new path starts from the defaults and stays there. */
    method ByReversingPath(held: Point, defaultRule: WindingRule) returns (path: BezierPath)
      ensures fresh(path) && path.elements == Reversed(elements, held) && path.windingRule == defaultRule
      ensures elements == old(elements) && windingRule == old(windingRule)
    {
      hide LastMove;
      hide Rewind;
      hide Emitted;
      hide Associated;
      path := new BezierPath(defaultRule);
      var closed, lastType, p := false, MoveToType, held;
      var i := |elements|;
      assert elements[..i] == elements;
      while i > 0
        invariant fresh(path) && elements == old(elements) && path.windingRule == defaultRule
        invariant 0 <= i <= |elements|
        invariant path.elements + Rewind(elements[..i], lastType, closed, p) == Reversed(elements, held)
      {
        var next, q := ElementAtIndex(i - 1, p);
        RewindNext(elements, i, lastType, closed, p);
        p := q;
        ghost var done, emitted := path.elements, Emitted(lastType, closed, p);
        closed := path.Emit(lastType, closed, p);
        assert path.elements + Rewind(elements[..i - 1], next, closed, p)
            == done + (emitted + Rewind(elements[..i - 1], next, closed, p));
        lastType := next;
        i := i - 1;
      }
      RewindEmpty(elements[..0], lastType, closed, p);
      if closed {
        path.Close();
      }
    }

    /** `windingCountAtPoint:` */
    method WindingCountAtPoint(p: Point) returns (count: int)
      ensures count == WindingCount(elements, p)
    {
      if |elements| == 0 || !elements[0].MoveTo? {
        return 0;
      }
      var total, last, start, first := 0, elements[0].p, elements[0].p, false;
      for i := 1 to |elements|
        invariant WindingTotal(elements, p) == Plus(total, Scan(elements[i..], last, start, first, p))
      {
        assert elements[i..][1..] == elements[i + 1..];
        match elements[i] {
          case MoveTo(q) =>
            if !first {
              total := total + WindingLine(last, start, p);
            }
            last, start, first := q, q, false;
          case LineTo(q) =>
            if first {
              return 0;
            }
            total := total + WindingLine(last, q, p);
            last := q;
          case ClosePath =>
            if first {
              return 0;
            }
            first := true;
            total := total + WindingLine(last, start, p);
        }
      }
      if !first {
        total := total + WindingLine(last, start, p);
      }
      count := Half(total);
    }

    /** `_recalculateBounds` without curves; `None` stands for the zero rectangle.  A path that
        starts with a close takes what the caller's buffer held for its first point. */
    method RecalculateBounds(held: Point) returns (bounds: Option<(Point, Point)>)
      ensures bounds.None? <==> elements == []
      ensures bounds.Some? ==>
        IsBounds([MoveTo(Associated(elements[..1], held))] + elements, bounds.value.0, bounds.value.1)
    {
      if |elements| == 0 {
        return None;
      }
      var kind, start := ElementAtIndex(0, held);
      var min, max := start, start;
      for i := 0 to |elements|
        invariant IsBounds([MoveTo(start)] + elements[..i], min, max)
      {
        hide IsBounds;
        ghost var low, high := min, max;
        if !elements[i].ClosePath? {
          var q := elements[i].p;
          max := Point(if q.x > max.x then q.x else max.x, if q.y > max.y then q.y else max.y);
          min := Point(if q.x < min.x then q.x else min.x, if q.y < min.y then q.y else min.y);
        }
        assert [MoveTo(start)] + elements[..i + 1] == ([MoveTo(start)] + elements[..i]) + [elements[i]];
        BoundsGrow([MoveTo(start)] + elements[..i], elements[i], low, high);
      }
      assert elements[..|elements|] == elements;
      bounds := Some((min, max));
    }

    /** `containsPoint:` */
    method ContainsPoint(p: Point, held: Point) returns (contains: bool)
      ensures contains <==> Contains(elements, p, windingRule)
    {
      if |elements| == 0 {
        return false;
      }
      var bounds := RecalculateBounds(held);
      ContainsByBounds(elements, p, windingRule, held, bounds.value.0, bounds.value.1);
      if !InRect(p, bounds.value.0, bounds.value.1) {
        return false;
      }
      var sum := WindingCountAtPoint(p);
      contains := if windingRule.NonZero? then sum != 0 else sum % 2 != 0;
    }
  }
}
