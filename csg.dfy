/** The node model of the Z-cut engine: a CSG tree of Geant4-style solids held in an
    arena (a sequence of nodes addressed by index), with the accessors ZSolid uses to
    walk it. A node's children always sit at smaller indices, which is how the arena
    stands for the pointer tree and gives every recursion a measure. */
module Csg {

  /** Why the engine aborts: each case is one of its assertions failing. */
  datatype Fault =
    | NonIdentityRotation     // a rotation that the engine assumes to be the identity is not
    | LeftTransformed         // a left operand carries a translation
    | UnsupportedPrimitive    // a solid kind outside Ellipsoid, Tubs and Polycone
    | DegenerateZRange        // a Z range whose top is not above its bottom
    | CutOutOfRange           // an ellipsoid cut outside [bottom, top)
    | NotTwoZPlanes           // a polycone cut with other than two Z planes
    | MissingDisplacement     // a tube is cut but has no displacement wrapper to re-centre
    | NoZPlanes               // a polycone with no Z plane at all
    | MovedOffset             // the solid a node moves has a frame offset of its own

  datatype Result<+T> = Ok(value: T) | Fatal(fault: Fault) {
    predicate IsFailure() { Fatal? }
    function PropagateFailure<U>(): Result<U> requires Fatal? { Fatal(fault) }
    function Extract(): T requires Ok? { value }
  }

  datatype Option<+T> = None | Some(value: T)

  datatype Vec3 = Vec3(x: real, y: real, z: real)

  const Zero: Vec3 := Vec3(0.0, 0.0, 0.0)

  function Add(a: Vec3, b: Vec3): Vec3 {
    Vec3(a.x + b.x, a.y + b.y, a.z + b.z)
  }

  /** A 3x3 rotation matrix, row by row. */
  datatype Rotation = Rotation(xx: real, xy: real, xz: real,
                               yx: real, yy: real, yz: real,
                               zx: real, zy: real, zz: real)

  const Identity: Rotation := Rotation(1.0, 0.0, 0.0, 0.0, 1.0, 0.0, 0.0, 0.0, 1.0)

  predicate IsIdentity(r: Rotation) { r == Identity }

  datatype BoolOp = Union | Intersection | Subtraction

  /** The primitive solids, with the parameters the engine reads or writes. */
  datatype Shape =
    | Ellipsoid(xSemiAxis: real, ySemiAxis: real, zSemiAxis: real, zBottomCut: real, zTopCut: real)
    | Tubs(rMin: real, rMax: real, zHalfLength: real, sPhi: real, dPhi: real)
    | Polycone(sPhi: real, dPhi: real, zPlanes: seq<real>, rInner: seq<real>, rOuter: seq<real>)
    | OtherShape(entityType: string)

  datatype Node =
    | Boolean(op: BoolOp, left: int, right: int)
    | Displaced(moved: int, rot: Rotation, tla: Vec3)
    | Primitive(shape: Shape)

  /** The children of every node sit at smaller, non-negative indices. */
  predicate WellFormed(nodes: seq<Node>) {
    forall i :: 0 <= i < |nodes| ==>
      && (nodes[i].Boolean? ==> 0 <= nodes[i].left < i && 0 <= nodes[i].right < i)
      && (nodes[i].Displaced? ==> 0 <= nodes[i].moved < i)
  }

  predicate Ref(nodes: seq<Node>, node: Option<int>) {
    node.Some? ==> 0 <= node.value < |nodes|
  }

  /** A measure for recursions over a nullable node. */
  function Rank(node: Option<int>): nat {
    if node.Some? && node.value >= 0 then node.value + 1 else 0
  }

  /** The first constituent of a boolean solid; no node for anything else, a
      displacement wrapper included. */
  function Left(nodes: seq<Node>, n: int): (r: Option<int>)
    requires WellFormed(nodes) && 0 <= n < |nodes|
    ensures r.Some? <==> nodes[n].Boolean?
    ensures r.Some? ==> 0 <= r.value < n
  {
    if nodes[n].Boolean? then Some(nodes[n].left) else None
  }

  /** The second constituent of a boolean solid; no node for anything else. */
  function Right(nodes: seq<Node>, n: int): (r: Option<int>)
    requires WellFormed(nodes) && 0 <= n < |nodes|
    ensures r.Some? <==> nodes[n].Boolean?
    ensures r.Some? ==> 0 <= r.value < n
  {
    if nodes[n].Boolean? then Some(nodes[n].right) else None
  }

  /** The solid a displacement wrapper moves, or the node itself. */
  function Moved(nodes: seq<Node>, n: int): (m: int)
    requires WellFormed(nodes) && 0 <= n < |nodes|
    ensures 0 <= m <= n
    ensures m < n <==> nodes[n].Displaced?
  {
    if nodes[n].Displaced? then nodes[n].moved else n
  }

  /** The frame rotation and object translation a wrapper carries; the identity and
      the zero vector for any other node. */
  function MovedTransform(nodes: seq<Node>, n: int): (Rotation, Vec3)
    requires 0 <= n < |nodes|
  {
    if nodes[n].Displaced? then (nodes[n].rot, nodes[n].tla) else (Identity, Zero)
  }

  /** Every node of the subtree at n, looking through displacement wrappers. */
  function Sub(nodes: seq<Node>, n: int): (s: set<int>)
    requires WellFormed(nodes) && 0 <= n < |nodes|
    ensures n in s
    ensures forall k :: k in s ==> 0 <= k <= n
    decreases n
  {
    match nodes[n]
    case Boolean(_, l, r) => {n} + Sub(nodes, l) + Sub(nodes, r)
    case Displaced(c, _, _) => {n} + Sub(nodes, c)
    case Primitive(_) => {n}
  }

  /** The nodes the traversals reach from n: Left and Right stop at anything that is
      not a boolean solid, so a displacement wrapper is a leaf here. */
  function Visible(nodes: seq<Node>, n: int): (s: set<int>)
    requires WellFormed(nodes) && 0 <= n < |nodes|
    ensures n in s && s <= Sub(nodes, n)
    decreases n
  {
    match nodes[n]
    case Boolean(_, l, r) => {n} + Visible(nodes, l) + Visible(nodes, r)
    case _ => {n}
  }

  /** The subtree at n is a tree: the two operands of every boolean solid share no node. */
  predicate TreeAt(nodes: seq<Node>, n: int)
    requires WellFormed(nodes) && 0 <= n < |nodes|
    decreases n
  {
    match nodes[n]
    case Boolean(_, l, r) => Sub(nodes, l) !! Sub(nodes, r) && TreeAt(nodes, l) && TreeAt(nodes, r)
    case Displaced(c, _, _) => TreeAt(nodes, c)
    case Primitive(_) => true
  }

  /** Two arenas of the same shape: same length, same node kinds and same children;
      only parameters and translations may differ. */
  predicate SameShape(a: seq<Node>, b: seq<Node>) {
    && |a| == |b|
    && forall i :: 0 <= i < |a| ==> SameKind(a[i], b[i])
  }

  predicate SameKind(x: Node, y: Node) {
    match x
    case Boolean(op, l, r) => y == Boolean(op, l, r)
    case Displaced(c, _, _) => y.Displaced? && y.moved == c
    case Primitive(_) => y.Primitive?
  }

  lemma SameShapeWellFormed(a: seq<Node>, b: seq<Node>)
    requires WellFormed(a) && SameShape(a, b)
    ensures WellFormed(b)
  {
    assert forall i :: 0 <= i < |b| ==> SameKind(a[i], b[i]);
  }

  lemma {:induction false} SameShapeSub(a: seq<Node>, b: seq<Node>, n: int)
    requires WellFormed(a) && SameShape(a, b) && 0 <= n < |a|
    ensures WellFormed(b)
    ensures Sub(b, n) == Sub(a, n) && Visible(b, n) == Visible(a, n)
    ensures TreeAt(b, n) == TreeAt(a, n)
    decreases n
  {
    assert forall i :: 0 <= i < |b| ==> SameKind(a[i], b[i]);
    match a[n]
    case Boolean(_, l, r) =>
      SameShapeSub(a, b, l);
      SameShapeSub(a, b, r);
    case Displaced(c, _, _) =>
      SameShapeSub(a, b, c);
    case Primitive(_) =>
  }

  /** A visible node that is not a boolean solid is a leaf of the traversals. */
  predicate IsLeaf(nodes: seq<Node>, root: int, x: int)
    requires WellFormed(nodes) && 0 <= root < |nodes|
  {
    x in Visible(nodes, root) && !nodes[x].Boolean?
  }

  /** In a tree, two distinct visible leaves share neither themselves nor the solids
      they move: the wrapper and the solid it wraps belong to one leaf only. */
  lemma {:induction false} LeavesApart(nodes: seq<Node>, n: int, x: int, y: int)
    requires WellFormed(nodes) && 0 <= n < |nodes| && TreeAt(nodes, n)
    requires x in Visible(nodes, n) && y in Visible(nodes, n) && x != y
    requires !nodes[x].Boolean?
    ensures Moved(nodes, x) != y && Moved(nodes, x) != Moved(nodes, y)
    decreases n
  {
    MovedInSub(nodes, x);
    MovedInSub(nodes, y);
    match nodes[n]
    case Boolean(_, l, r) =>
      VisibleInSub(nodes, l);
      VisibleInSub(nodes, r);
      if x in Visible(nodes, l) && y in Visible(nodes, l) {
        LeavesApart(nodes, l, x, y);
      } else if x in Visible(nodes, r) && y in Visible(nodes, r) {
        LeavesApart(nodes, r, x, y);
      } else if y == n {
        assert Moved(nodes, x) <= x < n;
      } else if x in Visible(nodes, l) {
        assert y in Visible(nodes, r);
        SubTransitive(nodes, l, x);
        SubTransitive(nodes, r, y);
      } else {
        assert x in Visible(nodes, r) && y in Visible(nodes, l);
        SubTransitive(nodes, r, x);
        SubTransitive(nodes, l, y);
      }
    case _ =>
  }

  lemma MovedInSub(nodes: seq<Node>, x: int)
    requires WellFormed(nodes) && 0 <= x < |nodes|
    ensures Moved(nodes, x) in Sub(nodes, x)
  {
  }

  lemma {:induction false} VisibleInSub(nodes: seq<Node>, n: int)
    requires WellFormed(nodes) && 0 <= n < |nodes|
    ensures forall k :: k in Visible(nodes, n) ==> 0 <= k < |nodes| && Sub(nodes, k) <= Sub(nodes, n)
    decreases n
  {
    if nodes[n].Boolean? {
      VisibleInSub(nodes, nodes[n].left);
      VisibleInSub(nodes, nodes[n].right);
    }
  }

  lemma {:induction false} SubTransitive(nodes: seq<Node>, n: int, k: int)
    requires WellFormed(nodes) && 0 <= n < |nodes| && k in Visible(nodes, n)
    ensures 0 <= k < |nodes| && Sub(nodes, k) <= Sub(nodes, n)
  {
    VisibleInSub(nodes, n);
  }
}
