/** Where a socket sits on its node. The placement is derived, never stored:
    it is a function of the socket's index, its side/anchor and the node's
    dimensions. Coordinates are exact reals. */
module Layout {

  import opened Kinds

  datatype Point = Point(x: real, y: real)

  /** The dimensions of a node's widget that socket placement depends on. */
  datatype NodeGeometry = NodeGeometry(width: real, height: real, edgeSize: real, titleHeight: real, padding: real)

  /** The node widget's dimensions (width 180, height 240, rounded-edge size 10,
      title bar 24, padding 4.0). */
  const DEFAULT_GEOMETRY: NodeGeometry := NodeGeometry(180.0, 240.0, 10.0, 24.0, 4.0)

  /** Vertical distance between two consecutive sockets on one side. */
  const SOCKET_SPACING: real := 22.0

  /** `getSocketPosition(index, position)`, relative to the node's top-left corner. */
  function SocketPosition(g: NodeGeometry, index: int, position: int): Point
  {
    var x := if IsLeft(position) then 0.0 else g.width;
    var y := if IsBottom(position)
             then g.height - g.edgeSize - g.padding - index as real * SOCKET_SPACING
             else g.titleHeight + g.padding + g.edgeSize + index as real * SOCKET_SPACING;
    Point(x, y)
  }

  /** The x coordinate depends only on the side: the left border or the right one. */
  lemma SocketX(g: NodeGeometry, index: int, position: int)
    ensures IsLeft(position) ==> SocketPosition(g, index, position).x == 0.0
    ensures !IsLeft(position) ==> SocketPosition(g, index, position).x == g.width
    ensures forall i :: SocketPosition(g, i, position).x == SocketPosition(g, index, position).x
  {
  }

  /** Index 0 sits just inside the bottom or just below the title bar; each
      further index moves one spacing up (bottom-anchored) or down (top-anchored). */
  lemma SocketY(g: NodeGeometry, index: int, position: int)
    ensures IsBottom(position) ==> SocketPosition(g, 0, position).y == g.height - g.edgeSize - g.padding
    ensures !IsBottom(position) ==> SocketPosition(g, 0, position).y == g.titleHeight + g.padding + g.edgeSize
    ensures IsBottom(position) ==> SocketPosition(g, index + 1, position).y == SocketPosition(g, index, position).y - SOCKET_SPACING
    ensures !IsBottom(position) ==> SocketPosition(g, index + 1, position).y == SocketPosition(g, index, position).y + SOCKET_SPACING
  {
  }

  /** Two sockets on the same side with different indices never overlap, and
      their vertical distance is the spacing times the index difference. */
  lemma SocketsApart(g: NodeGeometry, i: int, j: int, position: int)
    ensures SocketPosition(g, i, position) == SocketPosition(g, j, position) <==> i == j
    ensures var d := SocketPosition(g, i, position).y - SocketPosition(g, j, position).y;
            d == (if IsBottom(position) then (j - i) as real else (i - j) as real) * SOCKET_SPACING
  {
  }

  /** With the widget's own dimensions, inputs (left-bottom) start at y = 226 and
      outputs (right-top) at y = 38, on x = 0 and x = 180 respectively. */
  lemma DefaultPlacement()
    ensures SocketPosition(DEFAULT_GEOMETRY, 0, LEFT_BOTTOM) == Point(0.0, 226.0)
    ensures SocketPosition(DEFAULT_GEOMETRY, 0, RIGHT_TOP) == Point(180.0, 38.0)
    ensures SocketPosition(DEFAULT_GEOMETRY, 1, LEFT_BOTTOM) == Point(0.0, 204.0)
    ensures SocketPosition(DEFAULT_GEOMETRY, 1, RIGHT_TOP) == Point(180.0, 60.0)
  {
  }

  /** Moving by an offset, as edge endpoints are placed: socket offset plus node position. */
  function Translate(p: Point, dx: real, dy: real): Point
  {
    Point(p.x + dx, p.y + dy)
  }
}
