/** The tree frame and the classification pass of ZSolid as functions of the arena,
    the parent table and the class table: getTreeTransform and getZ climb the parent
    table, classifyTree_r labels every reached node bottom-up and records the labels
    under the unwrapped identity of each node. */
module Classify {
  import opened Csg
  import opened ZCut
  import opened Traversal

  /** The parent recorded for k; a key the table lacks reads as no parent, as the
      default value of a map lookup does. */
  function ParentOf(pm: map<int, Option<int>>, k: int): Option<int> {
    if k in pm then pm[k] else None
  }

  /** The class recorded for k; UNDEFINED when the table has none (zcls). */
  function ClassOf(zm: map<int, Mask>, k: int): Mask {
    if k in zm then zm[k] else UNDEFINED
  }

  /** The sum of the object translations met when climbing the parent table from nd to
      a node without parent (getTreeTransform). A rotation other than the identity on
      the way aborts. */
  function TreeTranslation(nodes: seq<Node>, pm: map<int, Option<int>>, nd: int): (r: Result<Vec3>)
    requires WellFormed(nodes) && 0 <= nd < |nodes| && ParentOrdered(pm, |nodes|)
    ensures r.Ok? ==> IsIdentity(MovedTransform(nodes, nd).0)
    decreases |nodes| - nd
  {
    var (rot, tla) := MovedTransform(nodes, nd);
    if !IsIdentity(rot) then Fatal(NonIdentityRotation)
    else
      match ParentOf(pm, nd)
      case None => Ok(tla)
      case Some(p) =>
        var up :- TreeTranslation(nodes, pm, p);
        Ok(Add(tla, up))
  }

  /** The Z offset of nd's frame within the tree frame (getZ). */
  function TreeZ(nodes: seq<Node>, pm: map<int, Option<int>>, nd: int): Result<real>
    requires WellFormed(nodes) && 0 <= nd < |nodes| && ParentOrdered(pm, |nodes|)
  {
    var t :- TreeTranslation(nodes, pm, nd);
    Ok(t.z)
  }

  /** When every recorded parent is a boolean solid, which never carries a transform of
      its own, the climb adds nothing to the node's own wrapper translation. */
  lemma {:induction false} TreeTranslationIsOwn(nodes: seq<Node>, pm: map<int, Option<int>>, nd: int)
    requires WellFormed(nodes) && 0 <= nd < |nodes| && ParentOrdered(pm, |nodes|)
    requires ParentsBoolean(nodes, pm)
    ensures TreeTranslation(nodes, pm, nd) ==
      if IsIdentity(MovedTransform(nodes, nd).0) then Ok(MovedTransform(nodes, nd).1)
      else Fatal(NonIdentityRotation)
    decreases |nodes| - nd
  {
    var up := ParentOf(pm, nd);
    if up.Some? {
      TreeTranslationIsOwn(nodes, pm, up.value);
      assert MovedTransform(nodes, up.value) == (Identity, Zero);
    }
  }

  /** The solid at m is a primitive whose Z range the engine can read (CanZ). */
  predicate CanZAt(nodes: seq<Node>, m: int)
    requires 0 <= m < |nodes|
  {
    nodes[m].Primitive? && CanZ(nodes[m].shape)
  }

  /** The Z range of leaf x in the tree frame: the range of the solid it moves, shifted
      by the offset of x's frame. */
  function LeafZRange(nodes: seq<Node>, pm: map<int, Option<int>>, x: int): Result<(real, real)>
    requires WellFormed(nodes) && 0 <= x < |nodes| && ParentOrdered(pm, |nodes|)
    requires CanZAt(nodes, Moved(nodes, x))
  {
    var zd :- TreeZ(nodes, pm, x);
    var z :- ZRange(nodes[Moved(nodes, x)].shape);
    Ok((z.0 + zd, z.1 + zd))
  }

  /** What dumpTree_r asserts at a reached node: the solid it moves sits at no offset
      of its own, its own frame offset can be read, and a solid that CanZ accepts has a
      Z range. */
  predicate DumpsAt(nodes: seq<Node>, pm: map<int, Option<int>>, x: int)
    requires WellFormed(nodes) && 0 <= x < |nodes| && ParentOrdered(pm, |nodes|)
  {
    var m := Moved(nodes, x);
    && TreeZ(nodes, pm, m) == Ok(0.0)
    && TreeZ(nodes, pm, x).Ok?
    && (CanZAt(nodes, m) ==> ZRange(nodes[m].shape).Ok?)
  }

  /** The dump that construction runs (dumpTree) passes: its assertions hold at every
      node reached from n. */
  predicate DumpsPass(nodes: seq<Node>, pm: map<int, Option<int>>, n: int)
    requires WellFormed(nodes) && 0 <= n < |nodes| && ParentOrdered(pm, |nodes|)
  {
    forall x :: x in Visible(nodes, n) ==> DumpsAt(nodes, pm, x)
  }

  /** The classification of a node that is not a boolean solid (the leaf branch of
      classifyTree_r): its frame offset is read first, then a solid that CanZ rejects
      gets no class, and any other is classified by its range in the tree frame. */
  function LeafClass(nodes: seq<Node>, pm: map<int, Option<int>>, x: int, zcut: real): (r: Result<Option<Mask>>)
    requires WellFormed(nodes) && 0 <= x < |nodes| && ParentOrdered(pm, |nodes|)
    ensures r.Ok? ==> TreeZ(nodes, pm, x).Ok?
    ensures r.Ok? ==> (r.value.Some? <==> CanZAt(nodes, Moved(nodes, x)))
    ensures r.Ok? && r.value.Some? ==>
      && LeafZRange(nodes, pm, x).Ok?
      && LeafZRange(nodes, pm, x).value.0 < LeafZRange(nodes, pm, x).value.1
      && (r.value.value == INCLUDE <==> zcut <= LeafZRange(nodes, pm, x).value.0)
      && (r.value.value == STRADDLE <==> LeafZRange(nodes, pm, x).value.0 < zcut < LeafZRange(nodes, pm, x).value.1)
      && (r.value.value == EXCLUDE <==> LeafZRange(nodes, pm, x).value.1 <= zcut)
  {
    var zd :- TreeZ(nodes, pm, x);
    var m := Moved(nodes, x);
    if !CanZAt(nodes, m) then Ok(None)
    else
      var z :- ZRange(nodes[m].shape);
      var c :- ClassifyZCut(z.0 + zd, z.1 + zd, zcut);
      Ok(Some(c))
  }

  /** The value classifyTree_r returns for n: a leaf's class, UNDEFINED for a leaf
      without one, and for a boolean solid the bitwise OR of its operands' values,
      whatever the operator. */
  function TreeClass(nodes: seq<Node>, pm: map<int, Option<int>>, n: int, zcut: real): Result<Mask>
    requires WellFormed(nodes) && 0 <= n < |nodes| && ParentOrdered(pm, |nodes|)
    decreases n
  {
    if nodes[n].Boolean? then
      var lc :- TreeClass(nodes, pm, nodes[n].left, zcut);
      var rc :- TreeClass(nodes, pm, nodes[n].right, zcut);
      Ok(lc | rc)
    else
      var c :- LeafClass(nodes, pm, n, zcut);
      Ok(if c.Some? then c.value else UNDEFINED)
  }

  /** classifyTree_r with its writes to the class table: the left operand, then the
      right, then the node itself, each recorded under its unwrapped identity; a leaf
      without a class records nothing. */
  function ClassifyInto(nodes: seq<Node>, pm: map<int, Option<int>>, n: int, zcut: real, zm: map<int, Mask>)
    : Result<(Mask, map<int, Mask>)>
    requires WellFormed(nodes) && 0 <= n < |nodes| && ParentOrdered(pm, |nodes|)
    decreases n
  {
    if nodes[n].Boolean? then
      var left :- ClassifyInto(nodes, pm, nodes[n].left, zcut, zm);
      var right :- ClassifyInto(nodes, pm, nodes[n].right, zcut, left.1);
      var zcl := left.0 | right.0;
      Ok((zcl, right.1[n := zcl]))
    else
      var c :- LeafClass(nodes, pm, n, zcut);
      if c.Some? then Ok((c.value, zm[Moved(nodes, n) := c.value])) else Ok((UNDEFINED, zm))
  }

  /** The pass writes only under identities inside the subtree. */
  lemma {:induction false} ClassifyIntoFrame(nodes: seq<Node>, pm: map<int, Option<int>>, n: int, zcut: real, zm: map<int, Mask>)
    requires WellFormed(nodes) && 0 <= n < |nodes| && ParentOrdered(pm, |nodes|)
    requires ClassifyInto(nodes, pm, n, zcut, zm).Ok?
    ensures forall k :: k !in Sub(nodes, n) ==> ClassOf(ClassifyInto(nodes, pm, n, zcut, zm).value.1, k) == ClassOf(zm, k)
    decreases n
  {
    if nodes[n].Boolean? {
      var l, r := nodes[n].left, nodes[n].right;
      var left := ClassifyInto(nodes, pm, l, zcut, zm).value;
      ClassifyIntoFrame(nodes, pm, l, zcut, zm);
      ClassifyIntoFrame(nodes, pm, r, zcut, left.1);
    } else {
      MovedInSub(nodes, n);
    }
  }

  /** The pass succeeds exactly when the value it computes is defined, and returns it. */
  lemma {:induction false} ClassifyIntoComputes(nodes: seq<Node>, pm: map<int, Option<int>>, n: int, zcut: real, zm: map<int, Mask>)
    requires WellFormed(nodes) && 0 <= n < |nodes| && ParentOrdered(pm, |nodes|)
    ensures ClassifyInto(nodes, pm, n, zcut, zm).Ok? <==> TreeClass(nodes, pm, n, zcut).Ok?
    ensures ClassifyInto(nodes, pm, n, zcut, zm).Ok? ==>
      ClassifyInto(nodes, pm, n, zcut, zm).value.0 == TreeClass(nodes, pm, n, zcut).value
    decreases n
  {
    if nodes[n].Boolean? {
      var l, r := nodes[n].left, nodes[n].right;
      ClassifyIntoComputes(nodes, pm, l, zcut, zm);
      if ClassifyInto(nodes, pm, l, zcut, zm).Ok? {
        ClassifyIntoComputes(nodes, pm, r, zcut, ClassifyInto(nodes, pm, l, zcut, zm).value.1);
      }
    }
  }

  /** After the pass a reached boolean solid holds the value the pass computes for it. */
  lemma {:induction false} ClassifyRecordsBoolean(nodes: seq<Node>, pm: map<int, Option<int>>, n: int, zcut: real, zm: map<int, Mask>, b: int)
    requires WellFormed(nodes) && 0 <= n < |nodes| && ParentOrdered(pm, |nodes|) && TreeAt(nodes, n)
    requires ClassifyInto(nodes, pm, n, zcut, zm).Ok?
    requires b in Visible(nodes, n) && nodes[b].Boolean?
    ensures TreeClass(nodes, pm, b, zcut).Ok?
    ensures ClassOf(ClassifyInto(nodes, pm, n, zcut, zm).value.1, b) == TreeClass(nodes, pm, b, zcut).value
    decreases n
  {
    ClassifyIntoComputes(nodes, pm, n, zcut, zm);
    if b != n {
      var l, r := nodes[n].left, nodes[n].right;
      var left := ClassifyInto(nodes, pm, l, zcut, zm).value;
      assert b in Visible(nodes, l) || b in Visible(nodes, r);
      if b in Visible(nodes, l) {
        ClassifyRecordsBoolean(nodes, pm, l, zcut, zm, b);
        ClassifyIntoFrame(nodes, pm, r, zcut, left.1);
        VisibleInSub(nodes, l);
        assert b in Sub(nodes, l) && b !in Sub(nodes, r);
      } else {
        ClassifyRecordsBoolean(nodes, pm, r, zcut, left.1, b);
      }
    }
  }

  /** After the pass a reached leaf with a class holds it under the solid it moves; a
      leaf without class leaves the entry it had. */
  lemma {:induction false} ClassifyRecordsLeaf(nodes: seq<Node>, pm: map<int, Option<int>>, n: int, zcut: real, zm: map<int, Mask>, x: int)
    requires WellFormed(nodes) && 0 <= n < |nodes| && ParentOrdered(pm, |nodes|) && TreeAt(nodes, n)
    requires ClassifyInto(nodes, pm, n, zcut, zm).Ok?
    requires x in Visible(nodes, n) && !nodes[x].Boolean?
    ensures LeafClass(nodes, pm, x, zcut).Ok?
    ensures LeafClass(nodes, pm, x, zcut).value.Some? ==>
      ClassOf(ClassifyInto(nodes, pm, n, zcut, zm).value.1, Moved(nodes, x)) == LeafClass(nodes, pm, x, zcut).value.value
    ensures LeafClass(nodes, pm, x, zcut).value.None? ==>
      ClassOf(ClassifyInto(nodes, pm, n, zcut, zm).value.1, Moved(nodes, x)) == ClassOf(zm, Moved(nodes, x))
    decreases n
  {
    if x != n {
      var l, r := nodes[n].left, nodes[n].right;
      var left := ClassifyInto(nodes, pm, l, zcut, zm).value;
      MovedInSub(nodes, x);
      var m := Moved(nodes, x);
      assert x in Visible(nodes, l) || x in Visible(nodes, r);
      if x in Visible(nodes, l) {
        ClassifyRecordsLeaf(nodes, pm, l, zcut, zm, x);
        ClassifyIntoFrame(nodes, pm, r, zcut, left.1);
        SubTransitive(nodes, l, x);
        assert m in Sub(nodes, l) && m !in Sub(nodes, r) && m != n;
      } else {
        ClassifyRecordsLeaf(nodes, pm, r, zcut, left.1, x);
        ClassifyIntoFrame(nodes, pm, l, zcut, zm);
        SubTransitive(nodes, r, x);
        assert m in Sub(nodes, r) && m !in Sub(nodes, l) && m != n;
      }
    }
  }

  /** OR propagation: once no leaf without a class has a stale entry, every reached
      boolean solid holds the bitwise OR of what its operands hold, each read through
      its unwrapped identity. */
  lemma ClassifyPropagatesOr(nodes: seq<Node>, pm: map<int, Option<int>>, n: int, zcut: real, zm: map<int, Mask>)
    requires WellFormed(nodes) && 0 <= n < |nodes| && ParentOrdered(pm, |nodes|) && TreeAt(nodes, n)
    requires ClassifyInto(nodes, pm, n, zcut, zm).Ok?
    requires forall x :: x in Visible(nodes, n) && !nodes[x].Boolean? && LeafClass(nodes, pm, x, zcut) == Ok(None) ==>
      ClassOf(zm, Moved(nodes, x)) == UNDEFINED
    ensures forall b :: b in Visible(nodes, n) && nodes[b].Boolean? ==>
      var out := ClassifyInto(nodes, pm, n, zcut, zm).value.1;
      ClassOf(out, b) == ClassOf(out, Moved(nodes, nodes[b].left)) | ClassOf(out, Moved(nodes, nodes[b].right))
  {
    var out := ClassifyInto(nodes, pm, n, zcut, zm).value.1;
    forall b | b in Visible(nodes, n) && nodes[b].Boolean?
      ensures ClassOf(out, b) == ClassOf(out, Moved(nodes, nodes[b].left)) | ClassOf(out, Moved(nodes, nodes[b].right))
    {
      VisibleChildren(nodes, n, b);
      ClassifyRecordsBoolean(nodes, pm, n, zcut, zm, b);
      var l, r := nodes[b].left, nodes[b].right;
      OperandRecorded(nodes, pm, n, zcut, zm, l);
      OperandRecorded(nodes, pm, n, zcut, zm, r);
    }
  }

  /** Under the no-stale-entry condition an operand reads back its own value. */
  lemma OperandRecorded(nodes: seq<Node>, pm: map<int, Option<int>>, n: int, zcut: real, zm: map<int, Mask>, c: int)
    requires WellFormed(nodes) && 0 <= n < |nodes| && ParentOrdered(pm, |nodes|) && TreeAt(nodes, n)
    requires ClassifyInto(nodes, pm, n, zcut, zm).Ok?
    requires forall x :: x in Visible(nodes, n) && !nodes[x].Boolean? && LeafClass(nodes, pm, x, zcut) == Ok(None) ==>
      ClassOf(zm, Moved(nodes, x)) == UNDEFINED
    requires c in Visible(nodes, n)
    ensures TreeClass(nodes, pm, c, zcut).Ok?
    ensures ClassOf(ClassifyInto(nodes, pm, n, zcut, zm).value.1, Moved(nodes, c)) == TreeClass(nodes, pm, c, zcut).value
  {
    if nodes[c].Boolean? {
      ClassifyRecordsBoolean(nodes, pm, n, zcut, zm, c);
    } else {
      ClassifyRecordsLeaf(nodes, pm, n, zcut, zm, c);
    }
  }
}
