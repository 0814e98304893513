/** A node of the chart: the connector lines drawn from it down to its
    children, computed from the measured rectangles, and the subordinate
    count shown on its badge. */
module EmployeeNodes {
  import opened Wrappers
  import opened EmployeeTypes

  /** A measured bounding rectangle, in page coordinates. */
  datatype Rect = Rect(left: real, top: real, width: real, bottom: real)

  /** The children container: its rectangle and its integral client size. */
  datatype Container = Container(rect: Rect, clientWidth: int, clientHeight: int)

  /** A straight connector from (x1, y1) to (x2, y2), in container coordinates. */
  datatype Line = Line(x1: real, y1: real, x2: real, y2: real)

  datatype SvgSize = SvgSize(width: int, height: int)

  /** Distance from the parent's bottom edge down to the bar joining the children. */
  const MID_OFFSET: real := 36.0

  /** The horizontal centre of `r`, relative to the container's left edge. */
  function CenterX(r: Rect, container: Rect): real {
    r.left + r.width / 2.0 - container.left
  }

  function MidY(parent: Rect, container: Rect): real {
    parent.bottom - container.top + MID_OFFSET
  }

  /** The vertical line from the parent's bottom centre down to the bar. */
  function Trunk(parent: Rect, container: Rect): Line {
    var x := CenterX(parent, container);
    Line(x, parent.bottom - container.top, x, MidY(parent, container))
  }

  /** The vertical line from the bar down to the top centre of `child`. */
  function Drop(child: Rect, container: Rect, midY: real): Line {
    var x := CenterX(child, container);
    Line(x, midY, x, child.top - container.top)
  }

  function ChildCenters(children: seq<Rect>, container: Rect): (xs: seq<real>)
    ensures |xs| == |children|
  {
    seq(|children|, i requires 0 <= i < |children| => CenterX(children[i], container))
  }

  function Drops(children: seq<Rect>, container: Rect, midY: real): (ls: seq<Line>)
    ensures |ls| == |children|
  {
    seq(|children|, i requires 0 <= i < |children| => Drop(children[i], container, midY))
  }

  /** `Math.min(...xs)` for a non-empty list. */
  function MinOf(xs: seq<real>): (m: real)
    requires |xs| >= 1
    ensures m in xs && forall x | x in xs :: m <= x
  {
    if |xs| == 1 then xs[0]
    else
      var rest := MinOf(xs[..|xs| - 1]);
      assert xs == xs[..|xs| - 1] + [xs[|xs| - 1]];
      if xs[|xs| - 1] < rest then xs[|xs| - 1] else rest
  }

  /** `Math.max(...xs)` for a non-empty list. */
  function MaxOf(xs: seq<real>): (m: real)
    requires |xs| >= 1
    ensures m in xs && forall x | x in xs :: x <= m
  {
    if |xs| == 1 then xs[0]
    else
      var rest := MaxOf(xs[..|xs| - 1]);
      assert xs == xs[..|xs| - 1] + [xs[|xs| - 1]];
      if xs[|xs| - 1] > rest then xs[|xs| - 1] else rest
  }

  /** The lines for a node with at least one child: the trunk, one drop per
      child in order, and, with two or more children, the bar at `midY`
      from the leftmost to the rightmost child centre. */
  function ConnectorLines(parent: Rect, container: Rect, children: seq<Rect>): seq<Line>
    requires |children| >= 1
  {
    var midY := MidY(parent, container);
    var centers := ChildCenters(children, container);
    [Trunk(parent, container)] + Drops(children, container, midY) +
    (if |children| > 1 then [Line(MinOf(centers), midY, MaxOf(centers), midY)] else [])
  }

  /** One child gives two lines and n >= 2 children give n + 2; the first
      line runs straight down from the parent's bottom centre by 36; each
      child's line runs straight down from the bar to that child's top
      centre; the bar spans the child centres from left to right. */
  lemma ConnectorLinesShape(parent: Rect, container: Rect, children: seq<Rect>)
    requires |children| >= 1
    ensures var lines := ConnectorLines(parent, container, children);
      var n := |children|;
      var midY := parent.bottom - container.top + 36.0;
      && |lines| == (if n == 1 then 2 else n + 2)
      && lines[0].x1 == lines[0].x2 == parent.left + parent.width / 2.0 - container.left
      && lines[0].y1 == parent.bottom - container.top && lines[0].y2 == midY
      && (forall i | 0 <= i < n ::
            && lines[i + 1].x1 == lines[i + 1].x2 == children[i].left + children[i].width / 2.0 - container.left
            && lines[i + 1].y1 == midY && lines[i + 1].y2 == children[i].top - container.top)
      && (n > 1 ==>
            && lines[n + 1].y1 == lines[n + 1].y2 == midY
            && lines[n + 1].x1 <= lines[n + 1].x2
            && (forall i | 0 <= i < n ::
                  lines[n + 1].x1 <= children[i].left + children[i].width / 2.0 - container.left <= lines[n + 1].x2)
            && (exists i | 0 <= i < n :: lines[n + 1].x1 == children[i].left + children[i].width / 2.0 - container.left)
            && (exists i | 0 <= i < n :: lines[n + 1].x2 == children[i].left + children[i].width / 2.0 - container.left))
  {
    var lines := ConnectorLines(parent, container, children);
    var n := |children|;
    var centers := ChildCenters(children, container);
    forall i | 0 <= i < n ensures lines[i + 1] == Drop(children[i], container, MidY(parent, container)) {
    }
    if n > 1 {
      var lo, hi := MinOf(centers), MaxOf(centers);
      assert lines[n + 1] == Line(lo, MidY(parent, container), hi, MidY(parent, container));
      forall i | 0 <= i < n ensures lo <= CenterX(children[i], container) <= hi {
        assert centers[i] in centers;
      }
      var j :| 0 <= j < n && centers[j] == lo;
      assert lo == CenterX(children[j], container);
      var k :| 0 <= k < n && centers[k] == hi;
      assert hi == CenterX(children[k], container);
    }
  }

  /** `Math.max(a, b)`. */
  function Max(a: int, b: int): (m: int)
    ensures m >= a && m >= b && (m == a || m == b)
  {
    if a >= b then a else b
  }

  /** The line state of one node and the size last written to its SVG. */
  class Connectors {
    var lines: seq<Line>
    var svgSize: Option<SvgSize>

    constructor ()
      ensures lines == [] && svgSize == None
    {
      lines := [];
      svgSize := None;
    }

    /** `calculateLines`: no lines when the parent or container element is
        missing or there is no child node; otherwise the trunk, a drop per
        child, the bar for two or more children, and, when the SVG element
        exists, its size set to the container's client size, at least 1. */
    method CalculateLines(parent: Option<Rect>, container: Option<Container>, children: seq<Rect>, hasSvg: bool)
      modifies this
      ensures parent.None? || container.None? || children == [] ==>
        lines == [] && svgSize == old(svgSize)
      ensures parent.Some? && container.Some? && children != [] ==>
        && lines == ConnectorLines(parent.value, container.value.rect, children)
        && svgSize == if hasSvg then Some(SvgSize(Max(1, container.value.clientWidth), Max(1, container.value.clientHeight)))
                      else old(svgSize)
    {
      if parent.None? || container.None? {
        lines := [];
        return;
      }
      var parentRect := parent.value;
      var containerRect := container.value.rect;
      if |children| == 0 {
        lines := [];
        return;
      }
      var newLines: seq<Line> := [];
      var parentBottomX := parentRect.left + parentRect.width / 2.0 - containerRect.left;
      var parentBottomY := parentRect.bottom - containerRect.top;
      var midY := parentBottomY + MID_OFFSET;
      newLines := newLines + [Line(parentBottomX, parentBottomY, parentBottomX, midY)];
      var childPositions: seq<real> := [];
      for k := 0 to |children|
        invariant childPositions == ChildCenters(children[..k], containerRect)
        invariant newLines == [Trunk(parentRect, containerRect)] + Drops(children[..k], containerRect, midY)
      {
        var childRect := children[k];
        var childTopX := childRect.left + childRect.width / 2.0 - containerRect.left;
        var childTopY := childRect.top - containerRect.top;
        assert children[..k + 1] == children[..k] + [childRect];
        childPositions := childPositions + [childTopX];
        newLines := newLines + [Line(childTopX, midY, childTopX, childTopY)];
      }
      assert children[..|children|] == children;
      if |childPositions| > 1 {
        var leftMost := MinOf(childPositions);
        var rightMost := MaxOf(childPositions);
        newLines := newLines + [Line(leftMost, midY, rightMost, midY)];
      }
      lines := newLines;
      if hasSvg {
        var w := Max(1, container.value.clientWidth);
        var h := Max(1, container.value.clientHeight);
        svgSize := Some(SvgSize(w, h));
      }
    }
  }

  // ---------------------------------------------------------------------
  // Subordinate count
  // ---------------------------------------------------------------------

  /** The badge count: a reduce over the children adding one plus each
      child's own count; it is the number of nodes below `n`. */
  function SubordinateCount(n: TreeNode): (count: nat)
    ensures count == |Flatten(n)| - 1
    decreases n
  {
    ChildrenCount(n.children)
  }

  /** The reduce over `ts`, from 0, left to right. */
  function ChildrenCount(ts: seq<TreeNode>): (count: nat)
    ensures count == |FlattenAll(ts)|
    decreases ts
  {
    if ts == [] then 0
    else ChildrenCount(ts[..|ts| - 1]) + 1 + SubordinateCount(ts[|ts| - 1])
  }
}
