/** The small enumerations of the node editor: the scene's interaction mode,
    the side/anchor of a socket and the shape of an edge, together with the
    integers the source stores for them. */
module Kinds {

  import opened Wrappers

  /** The interaction mode held by a scene (NONE, EDGE_DRAG, NODE_EDIT, EDGE_CUT). */
  datatype Mode = Idle | EdgeDrag | NodeEdit | EdgeCut

  /** The integer the source uses for each mode. */
  function ModeCode(m: Mode): int
  {
    match m
    case Idle => 0
    case EdgeDrag => 1
    case NodeEdit => 2
    case EdgeCut => 3
  }

  /** Reading a stored mode integer back. */
  function ModeOfCode(c: int): Option<Mode>
  {
    if c == 0 then Some(Idle)
    else if c == 1 then Some(EdgeDrag)
    else if c == 2 then Some(NodeEdit)
    else if c == 3 then Some(EdgeCut)
    else None
  }

  /** The four mode codes are distinct and each decodes to its own mode. */
  lemma ModeCodesDistinct(m: Mode, m': Mode)
    ensures 0 <= ModeCode(m) <= 3
    ensures ModeOfCode(ModeCode(m)) == Some(m)
    ensures ModeCode(m) == ModeCode(m') ==> m == m'
  {
  }

  // Socket positions are stored as plain integers; these are the four named ones.
  const LEFT_TOP: int := 1
  const LEFT_BOTTOM: int := 2
  const RIGHT_TOP: int := 3
  const RIGHT_BOTTOM: int := 4

  /** A socket drawn on the node's left border. Every other integer counts as right. */
  predicate IsLeft(position: int)
  {
    position == LEFT_TOP || position == LEFT_BOTTOM
  }

  /** A socket stacked upward from the node's bottom. Every other integer counts as top-anchored. */
  predicate IsBottom(position: int)
  {
    position == LEFT_BOTTOM || position == RIGHT_BOTTOM
  }

  // Edge shapes, stored as integers.
  const DIRECT: int := 1
  const BEZIER: int := 2

  // The socket kind (a colour index for the presentation) every socket gets by default.
  const DEFAULT_SOCKET_TYPE: int := 0
}
