/** ZSolid::DeepClone: an independent copy of a CSG tree of supported solids, built
    bottom-up into an arena. Each boolean clone takes its left operand bare and wraps
    its right operand in a fresh displacement that carries the translation the source
    right operand had, as the boolean-solid constructor does when it is given a
    transform. */
module Clone {
  import opened Csg
  import opened ZCut

  /** The solid a node describes, independent of where its nodes sit in an arena. */
  datatype Solid =
    | Prim(shape: Shape)
    | Combo(op: BoolOp, left: Solid, right: Solid)
    | Placed(rot: Rotation, tla: Vec3, solid: Solid)

  function Read(nodes: seq<Node>, n: int): Solid
    requires WellFormed(nodes) && 0 <= n < |nodes|
    decreases n
  {
    match nodes[n]
    case Boolean(op, l, r) => Combo(op, Read(nodes, l), Read(nodes, r))
    case Displaced(m, rot, tla) => Placed(rot, tla, Read(nodes, m))
    case Primitive(shape) => Prim(shape)
  }

  /** A placement by the identity rotation and the zero translation moves nothing:
      Norm drops it, so two descriptions of one geometry compare equal. */
  function Norm(s: Solid): Solid {
    match s
    case Prim(_) => s
    case Combo(op, a, b) => Combo(op, Norm(a), Norm(b))
    case Placed(rot, tla, t) => if rot == Identity && tla == Zero then Norm(t) else Placed(rot, tla, Norm(t))
  }

  /** big starts with small: what the clone appends never disturbs what is there. */
  predicate Extends(big: seq<Node>, small: seq<Node>) {
    |small| <= |big| && big[..|small|] == small
  }

  /** The subset the clone supports: below any wrapper, each solid is a boolean whose
      left operand carries no transform and whose right operand carries no rotation, or
      an Ellipsoid, Tubs or Polycone. */
  predicate Clonable(src: seq<Node>, n: int)
    requires WellFormed(src) && 0 <= n < |src|
    decreases n
  {
    var m := Moved(src, n);
    match src[m]
    case Boolean(_, l, r) =>
      && Clonable(src, l) && Clonable(src, r)
      && MovedTransform(src, l) == (Identity, Zero)
      && IsIdentity(MovedTransform(src, r).0)
    case Primitive(shape) => CanZ(shape)
    case Displaced(_, _, _) => false
  }

  /** PrimitiveClone: a copy of a supported primitive; anything else, a wrapper under a
      wrapper included, aborts. */
  function PrimitiveClone(src: seq<Node>, m: int, dst: seq<Node>): (r: Result<seq<Node>>)
    requires 0 <= m < |src|
    ensures r.Ok? <==> src[m].Primitive? && CanZ(src[m].shape)
    ensures r.Ok? ==> r.value == dst + [src[m]]
  {
    match src[m]
    case Primitive(shape) => if CanZ(shape) then Ok(dst + [Primitive(shape)]) else Fatal(UnsupportedPrimitive)
    case _ => Fatal(UnsupportedPrimitive)
  }

  /** DeepClone_r: unwraps n, clones the solid below, and returns the grown arena with
      the index of the clone. The transform the unwrapping reads is MovedTransform. */
  function DeepCloneR(src: seq<Node>, n: int, dst: seq<Node>): (r: Result<(seq<Node>, int)>)
    requires WellFormed(src) && 0 <= n < |src| && WellFormed(dst)
    ensures r.Ok? ==> Extends(r.value.0, dst) && WellFormed(r.value.0)
    ensures r.Ok? ==> |dst| <= r.value.1 < |r.value.0|
    ensures r.Ok? ==> !r.value.0[r.value.1].Displaced?
    decreases n
  {
    var m := Moved(src, n);
    if src[m].Boolean? then BooleanClone(src, m, dst)
    else
      var out :- PrimitiveClone(src, m, dst);
      Ok((out, |dst|))
  }

  /** BooleanClone: clones the left operand, then the right one, checks the assumed
      transforms in the order the code asserts them, and appends the right operand's
      wrapper followed by the boolean. */
  function BooleanClone(src: seq<Node>, m: int, dst: seq<Node>): (r: Result<(seq<Node>, int)>)
    requires WellFormed(src) && 0 <= m < |src| && src[m].Boolean? && WellFormed(dst)
    ensures r.Ok? ==> Extends(r.value.0, dst) && WellFormed(r.value.0)
    ensures r.Ok? ==> |dst| <= r.value.1 < |r.value.0| && r.value.0[r.value.1].Boolean?
    decreases m, 1
  {
    var l, r := src[m].left, src[m].right;
    var left :- DeepCloneR(src, l, dst);
    var right :- DeepCloneR(src, r, left.0);
    var (lrot, ltra) := MovedTransform(src, l);
    var (rrot, rtra) := MovedTransform(src, r);
    if !IsIdentity(lrot) then Fatal(NonIdentityRotation)
    else if ltra != Zero then Fatal(LeftTransformed)
    else if !IsIdentity(rrot) then Fatal(NonIdentityRotation)
    else
      var dst2 := right.0;
      var out := dst2 + [Displaced(right.1, rrot, rtra), Boolean(src[m].op, left.1, |dst2|)];
      assert out[..|dst|] == dst2[..|dst|];
      assert out[..|dst2|] == dst2;
      Ok((out, |dst2| + 1))
  }

  /** DeepClone: the clone of a whole tree into an empty arena. */
  function DeepClone(src: seq<Node>, root: int): (r: Result<(seq<Node>, int)>)
    requires WellFormed(src) && 0 <= root < |src|
    ensures r.Ok? <==> Clonable(src, root)
    ensures r.Ok? ==> WellFormed(r.value.0) && 0 <= r.value.1 < |r.value.0| && TreeAt(r.value.0, r.value.1)
    ensures r.Ok? ==> Norm(Read(r.value.0, r.value.1)) == Norm(Read(src, Moved(src, root)))
  {
    CloneSucceedsIffClonable(src, root, []);
    var r := DeepCloneR(src, root, []);
    if r.Ok? then
      CloneIsFreshTree(src, root, []);
      ClonePreservesGeometry(src, root, []);
      r
    else r
  }

  /** An arena grown from one that extends small still extends small. */
  lemma Appended(mid: seq<Node>, big: seq<Node>, small: seq<Node>)
    requires Extends(mid, small) && |mid| <= |big| && big[..|mid|] == mid
    ensures Extends(big, mid) && Extends(big, small)
  {
    assert big[..|small|] == mid[..|small|];
  }

  lemma {:induction false} PrefixReads(small: seq<Node>, big: seq<Node>, n: int)
    requires WellFormed(big) && Extends(big, small) && 0 <= n < |small|
    ensures WellFormed(small)
    ensures Read(big, n) == Read(small, n)
    ensures Sub(big, n) == Sub(small, n) && TreeAt(big, n) == TreeAt(small, n)
    decreases n
  {
    assert forall i :: 0 <= i < |small| ==> small[i] == big[i];
    match small[n]
    case Boolean(_, l, r) =>
      PrefixReads(small, big, l);
      PrefixReads(small, big, r);
    case Displaced(c, _, _) =>
      PrefixReads(small, big, c);
    case Primitive(_) =>
  }

  /** A node reads as its wrapper's transform applied to the solid it moves; a node
      that is no wrapper reads as the identity placement of itself. */
  lemma ReadUnwraps(nodes: seq<Node>, k: int)
    requires WellFormed(nodes) && 0 <= k < |nodes|
    ensures Norm(Read(nodes, k)) ==
      Norm(Placed(MovedTransform(nodes, k).0, MovedTransform(nodes, k).1, Read(nodes, Moved(nodes, k))))
  {
  }

  /** What a successful clone of a boolean solid returns: the clones of both operands,
      then the right operand's fresh wrapper and the boolean itself. */
  lemma BooleanCloneShape(src: seq<Node>, m: int, dst: seq<Node>)
    requires WellFormed(src) && 0 <= m < |src| && src[m].Boolean? && WellFormed(dst)
    requires BooleanClone(src, m, dst).Ok?
    ensures var left := DeepCloneR(src, src[m].left, dst);
      && left.Ok? && DeepCloneR(src, src[m].right, left.value.0).Ok?
      && MovedTransform(src, src[m].left) == (Identity, Zero)
      && IsIdentity(MovedTransform(src, src[m].right).0)
      && (var right := DeepCloneR(src, src[m].right, left.value.0).value;
          BooleanClone(src, m, dst).value ==
            (right.0 + [Displaced(right.1, Identity, MovedTransform(src, src[m].right).1),
                        Boolean(src[m].op, left.value.1, |right.0|)], |right.0| + 1))
  {
  }

  /** The clone succeeds exactly on the supported subset. */
  lemma {:induction false} CloneSucceedsIffClonable(src: seq<Node>, n: int, dst: seq<Node>)
    requires WellFormed(src) && 0 <= n < |src| && WellFormed(dst)
    ensures DeepCloneR(src, n, dst).Ok? <==> Clonable(src, n)
    decreases n
  {
    var m := Moved(src, n);
    if src[m].Boolean? {
      var l, r := src[m].left, src[m].right;
      CloneSucceedsIffClonable(src, l, dst);
      if DeepCloneR(src, l, dst).Ok? {
        CloneSucceedsIffClonable(src, r, DeepCloneR(src, l, dst).value.0);
      }
    }
  }

  /** The clone describes the solid below the top wrapper of the source: the same
      geometry, whatever transforms the source carried on its right operands. The top
      wrapper's own transform is not carried over. */
  lemma {:induction false} ClonePreservesGeometry(src: seq<Node>, n: int, dst: seq<Node>)
    requires WellFormed(src) && 0 <= n < |src| && WellFormed(dst)
    requires DeepCloneR(src, n, dst).Ok?
    ensures var (out, c) := DeepCloneR(src, n, dst).value;
      Norm(Read(out, c)) == Norm(Read(src, Moved(src, n)))
    decreases n
  {
    var m := Moved(src, n);
    if src[m].Boolean? {
      var l, r := src[m].left, src[m].right;
      BooleanCloneShape(src, m, dst);
      var left := DeepCloneR(src, l, dst).value;
      var right := DeepCloneR(src, r, left.0).value;
      var tla := MovedTransform(src, r).1;
      var out := right.0 + [Displaced(right.1, Identity, tla), Boolean(src[m].op, left.1, |right.0|)];
      assert DeepCloneR(src, n, dst) == BooleanClone(src, m, dst);
      Appended(right.0, out, left.0);
      ClonePreservesGeometry(src, l, dst);
      ClonePreservesGeometry(src, r, left.0);
      PrefixReads(left.0, out, left.1);
      PrefixReads(right.0, out, right.1);
      ReadUnwraps(src, l);
      ReadUnwraps(src, r);
      JoinedReads(out, |right.0| + 1, left.1, right.1);
      NormPlaced(Identity, tla, Read(out, right.1), Read(src, Moved(src, r)));
      assert Norm(Read(out, left.1)) == Norm(Read(src, l));
      assert Norm(Placed(Identity, tla, Read(out, right.1))) == Norm(Read(src, r));
    }
  }

  /** A placement of two solids that normalise alike normalises alike. */
  lemma NormPlaced(rot: Rotation, tla: Vec3, s: Solid, t: Solid)
    requires Norm(s) == Norm(t)
    ensures Norm(Placed(rot, tla, s)) == Norm(Placed(rot, tla, t))
  {
  }

  /** How the boolean at the end of a clone reads: its first operand, and the wrapper
      just below it applied to what the wrapper moves. */
  lemma JoinedReads(nodes: seq<Node>, c: int, a: int, b: int)
    requires WellFormed(nodes) && 1 <= c < |nodes|
    requires nodes[c].Boolean? && nodes[c].left == a && nodes[c].right == c - 1
    requires nodes[c - 1].Displaced? && nodes[c - 1].moved == b
    ensures Read(nodes, c) == Combo(nodes[c].op, Read(nodes, a), Placed(nodes[c - 1].rot, nodes[c - 1].tla, Read(nodes, b)))
  {
  }

  /** Every node of the clone is a fresh node: the subtree at the clone lies in what
      was appended, and its operands share no node. */
  lemma {:induction false} CloneIsFreshTree(src: seq<Node>, n: int, dst: seq<Node>)
    requires WellFormed(src) && 0 <= n < |src| && WellFormed(dst)
    requires DeepCloneR(src, n, dst).Ok?
    ensures var (out, c) := DeepCloneR(src, n, dst).value;
      && (forall k :: k in Sub(out, c) ==> |dst| <= k)
      && TreeAt(out, c)
    decreases n
  {
    var m := Moved(src, n);
    if src[m].Boolean? {
      var l, r := src[m].left, src[m].right;
      BooleanCloneShape(src, m, dst);
      var left := DeepCloneR(src, l, dst).value;
      var right := DeepCloneR(src, r, left.0).value;
      var out := right.0 + [Displaced(right.1, Identity, MovedTransform(src, r).1), Boolean(src[m].op, left.1, |right.0|)];
      assert DeepCloneR(src, n, dst) == BooleanClone(src, m, dst);
      Appended(right.0, out, left.0);
      CloneIsFreshTree(src, l, dst);
      CloneIsFreshTree(src, r, left.0);
      PrefixReads(left.0, out, left.1);
      PrefixReads(right.0, out, right.1);
      JoinedTree(out, |right.0| + 1, left.1, right.1, |dst|, |left.0|);
    }
  }

  /** Every wrapper of the arena carries no rotation and moves a solid that is not a
      wrapper itself. */
  predicate PlainWrappers(nodes: seq<Node>)
    requires WellFormed(nodes)
  {
    forall k :: 0 <= k < |nodes| && nodes[k].Displaced? ==>
      IsIdentity(nodes[k].rot) && !nodes[nodes[k].moved].Displaced?
  }

  /** The clone adds only plain wrappers: the one a boolean clone puts round its right
      operand is unrotated, and what it moves is a clone, never a wrapper. */
  lemma {:induction false} ClonePlainWrappers(src: seq<Node>, n: int, dst: seq<Node>)
    requires WellFormed(src) && 0 <= n < |src| && WellFormed(dst) && PlainWrappers(dst)
    requires DeepCloneR(src, n, dst).Ok?
    ensures PlainWrappers(DeepCloneR(src, n, dst).value.0)
    decreases n
  {
    var m := Moved(src, n);
    if src[m].Boolean? {
      var l, r := src[m].left, src[m].right;
      BooleanCloneShape(src, m, dst);
      var left := DeepCloneR(src, l, dst).value;
      ClonePlainWrappers(src, l, dst);
      ClonePlainWrappers(src, r, left.0);
      var right := DeepCloneR(src, r, left.0).value;
      var out := right.0 + [Displaced(right.1, Identity, MovedTransform(src, r).1), Boolean(src[m].op, left.1, |right.0|)];
      assert DeepCloneR(src, n, dst) == BooleanClone(src, m, dst);
      forall k | 0 <= k < |out| && out[k].Displaced?
        ensures IsIdentity(out[k].rot) && !out[out[k].moved].Displaced?
      {
        if k < |right.0| {
          assert out[k] == right.0[k] && out[out[k].moved] == right.0[right.0[k].moved];
        } else {
          assert k == |right.0| && out[right.1] == right.0[right.1];
        }
      }
    }
  }

  /** A boolean at the end of an arena, over a first operand below mid and a wrapper
      just under it that moves a subtree lying at or above mid, is a tree when both
      operands are. */
  lemma JoinedTree(nodes: seq<Node>, c: int, a: int, b: int, lo: int, mid: int)
    requires WellFormed(nodes) && c == |nodes| - 1 && c >= 1
    requires nodes[c].Boolean? && nodes[c].left == a && nodes[c].right == c - 1
    requires nodes[c - 1].Displaced? && nodes[c - 1].moved == b
    requires 0 <= a < mid && TreeAt(nodes, a) && TreeAt(nodes, b)
    requires forall k :: k in Sub(nodes, a) ==> lo <= k
    requires forall k :: k in Sub(nodes, b) ==> mid <= k
    ensures forall k :: k in Sub(nodes, c) ==> lo <= k
    ensures TreeAt(nodes, c)
  {
    assert Sub(nodes, c - 1) == {c - 1} + Sub(nodes, b);
    assert Sub(nodes, c) == {c} + Sub(nodes, a) + Sub(nodes, c - 1);
    assert forall k :: k in Sub(nodes, a) ==> k < mid;
  }

  /** The clone root is never a wrapper, so the checks that the cloned operands are not
      displaced can never fail; every boolean of the clone wraps its right operand. */
  lemma CloneRootBare(src: seq<Node>, root: int)
    requires WellFormed(src) && 0 <= root < |src| && DeepClone(src, root).Ok?
    ensures var (out, c) := DeepClone(src, root).value;
      !out[c].Displaced? && (out[c].Boolean? ==> out[out[c].right].Displaced?)
  {
    var m := Moved(src, root);
    if src[m].Boolean? {
      var l, r := src[m].left, src[m].right;
      assert DeepClone(src, root) == BooleanClone(src, m, []);
      var left := DeepCloneR(src, l, []);
      assert left.Ok?;
      var right := DeepCloneR(src, r, left.value.0);
      assert right.Ok?;
      var out := DeepClone(src, root).value.0;
      assert out == right.value.0 + [Displaced(right.value.1, Identity, MovedTransform(src, r).1),
        Boolean(src[m].op, left.value.1, |right.value.0|)];
    }
  }
}
