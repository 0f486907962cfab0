/** Cutting: ApplyZCut reshapes one straddling leaf so that its range in the tree frame
    starts at the cut, and cutTree_r does so for every leaf the class table marks
    STRADDLE, left operands before right ones. */
module Cut {
  import opened Csg
  import opened ZCut
  import opened Traversal
  import opened Classify

  /** ApplyZCut on leaf x with the cut in x's frame: an ellipsoid or a polycone gets its
      lower Z bound moved to the cut; a tube is shortened and its wrapper's translation
      raised by the tube cut; any other solid, or a tube without wrapper, aborts. */
  function ApplyZCut(nodes: seq<Node>, x: int, localZcut: real): (r: Result<seq<Node>>)
    requires WellFormed(nodes) && 0 <= x < |nodes|
    ensures r.Ok? ==> SameShape(nodes, r.value)
    ensures r.Ok? ==> forall i :: 0 <= i < |nodes| && i != x && i != Moved(nodes, x) ==> r.value[i] == nodes[i]
  {
    var m := Moved(nodes, x);
    if !nodes[m].Primitive? then Fatal(UnsupportedPrimitive)
    else
      match nodes[m].shape
      case Ellipsoid(_, _, _, _, _) =>
        var e :- ApplyZCutEllipsoid(nodes[m].shape, localZcut);
        Ok(nodes[m := Primitive(e)])
      case Polycone(_, _, _, _, _) =>
        var p :- ApplyZCutPolycone(nodes[m].shape, localZcut);
        Ok(nodes[m := Primitive(p)])
      case Tubs(_, _, hz, _, _) =>
        var cut := TubsCut(hz, localZcut);
        if !nodes[x].Displaced? then Fatal(MissingDisplacement)
        else
          var w := nodes[x];
          Ok(nodes[m := Primitive(nodes[m].shape.(zHalfLength := cut.0))][x := w.(tla := w.tla.(z := w.tla.z + cut.1))])
      case OtherShape(_) => Fatal(UnsupportedPrimitive)
  }

  /** The leaf branch of cutTree_r: read the frame offset, and cut the leaf when the
      class table holds STRADDLE for the solid it moves. */
  function LeafCut(nodes: seq<Node>, pm: map<int, Option<int>>, zm: map<int, Mask>, x: int, zcut: real): (r: Result<seq<Node>>)
    requires WellFormed(nodes) && 0 <= x < |nodes| && ParentOrdered(pm, |nodes|)
    ensures r.Ok? ==> SameShape(nodes, r.value)
    ensures r.Ok? ==> forall i :: 0 <= i < |nodes| && i != x && i != Moved(nodes, x) ==> r.value[i] == nodes[i]
  {
    var zd :- TreeZ(nodes, pm, x);
    if ClassOf(zm, Moved(nodes, x)) == STRADDLE then ApplyZCut(nodes, x, zcut - zd) else Ok(nodes)
  }

  /** cutTree_r: the left operand's leaves are cut before the right operand's, each on
      the arena the previous cuts left. */
  function CutR(nodes: seq<Node>, pm: map<int, Option<int>>, zm: map<int, Mask>, n: int, zcut: real): (r: Result<seq<Node>>)
    requires WellFormed(nodes) && 0 <= n < |nodes| && ParentOrdered(pm, |nodes|)
    ensures r.Ok? ==> SameShape(nodes, r.value)
    decreases n
  {
    if nodes[n].Boolean? then
      var a :- CutR(nodes, pm, zm, nodes[n].left, zcut);
      SameShapeSub(nodes, a, n);
      var b :- CutR(a, pm, zm, nodes[n].right, zcut);
      SameShapeTransitive(nodes, a, b);
      Ok(b)
    else
      LeafCut(nodes, pm, zm, n, zcut)
  }

  lemma SameShapeTransitive(a: seq<Node>, b: seq<Node>, c: seq<Node>)
    requires SameShape(a, b) && SameShape(b, c)
    ensures SameShape(a, c)
  {
    forall i | 0 <= i < |a|
      ensures SameKind(a[i], c[i])
    {
      assert SameKind(a[i], b[i]) && SameKind(b[i], c[i]);
    }
  }

  lemma SameShapeSymmetric(a: seq<Node>, b: seq<Node>)
    requires SameShape(a, b)
    ensures SameShape(b, a)
  {
    forall i | 0 <= i < |b|
      ensures SameKind(b[i], a[i])
    {
      assert SameKind(a[i], b[i]);
    }
  }

  lemma SameShapeParentsBoolean(a: seq<Node>, b: seq<Node>, pm: map<int, Option<int>>)
    requires SameShape(a, b) && ParentsBoolean(a, pm)
    ensures ParentsBoolean(b, pm)
  {
    forall k | k in pm && pm[k].Some?
      ensures 0 <= pm[k].value < |b| && b[pm[k].value].Boolean?
    {
      assert SameKind(a[pm[k].value], b[pm[k].value]);
    }
  }

  /** What a STRADDLE class says about a leaf in its own frame: the frame offset is the
      wrapper's own Z translation, and the cut lies strictly inside the local range of
      the solid the leaf moves. */
  lemma StraddleLocal(nodes: seq<Node>, pm: map<int, Option<int>>, x: int, zcut: real)
    requires WellFormed(nodes) && 0 <= x < |nodes| && ParentOrdered(pm, |nodes|) && ParentsBoolean(nodes, pm)
    requires LeafClass(nodes, pm, x, zcut) == Ok(Some(STRADDLE))
    ensures TreeZ(nodes, pm, x) == Ok(MovedTransform(nodes, x).1.z)
    ensures CanZAt(nodes, Moved(nodes, x)) && ZRange(nodes[Moved(nodes, x)].shape).Ok?
    ensures var z := ZRange(nodes[Moved(nodes, x)].shape).value;
      var zd := MovedTransform(nodes, x).1.z;
      && z.0 < zcut - zd < z.1
      && LeafZRange(nodes, pm, x) == Ok((z.0 + zd, z.1 + zd))
  {
    TreeTranslationIsOwn(nodes, pm, x);
  }

  /** The cut of a supported solid whose local range holds the cut strictly inside is
      refused only for a polycone without exactly two Z planes or a tube without
      wrapper. */
  lemma CutAccepts(nodes: seq<Node>, x: int, lz: real)
    requires WellFormed(nodes) && 0 <= x < |nodes|
    requires CanZAt(nodes, Moved(nodes, x)) && ZRange(nodes[Moved(nodes, x)].shape).Ok?
    requires ZRange(nodes[Moved(nodes, x)].shape).value.0 < lz < ZRange(nodes[Moved(nodes, x)].shape).value.1
    ensures var s := nodes[Moved(nodes, x)].shape;
      ApplyZCut(nodes, x, lz).Ok? <==> !(s.Polycone? && |s.zPlanes| != 2) && !(s.Tubs? && !nodes[x].Displaced?)
  {
  }

  /** On a straddling leaf the cut is refused only for a polycone without exactly two
      Z planes or a tube without wrapper. */
  lemma CutMeetsCut(nodes: seq<Node>, pm: map<int, Option<int>>, x: int, zcut: real)
    requires WellFormed(nodes) && 0 <= x < |nodes| && ParentOrdered(pm, |nodes|) && ParentsBoolean(nodes, pm)
    requires LeafClass(nodes, pm, x, zcut) == Ok(Some(STRADDLE))
    ensures TreeZ(nodes, pm, x).Ok?
    ensures var s := nodes[Moved(nodes, x)].shape;
      ApplyZCut(nodes, x, zcut - TreeZ(nodes, pm, x).value).Ok? <==>
        !(s.Polycone? && |s.zPlanes| != 2) && !(s.Tubs? && !nodes[x].Displaced?)
  {
    StraddleLocal(nodes, pm, x, zcut);
    CutAccepts(nodes, x, zcut - MovedTransform(nodes, x).1.z);
  }

  /** Cutting a leaf whose local range holds the cut strictly inside gives it, in the
      tree frame, the range from the cut to its old top. */
  lemma CutLocalRange(nodes: seq<Node>, pm: map<int, Option<int>>, x: int, zcut: real, zd: real, z: (real, real))
    requires WellFormed(nodes) && 0 <= x < |nodes| && ParentOrdered(pm, |nodes|) && ParentsBoolean(nodes, pm)
    requires CanZAt(nodes, Moved(nodes, x)) && ZRange(nodes[Moved(nodes, x)].shape) == Ok(z)
    requires IsIdentity(MovedTransform(nodes, x).0) && zd == MovedTransform(nodes, x).1.z
    requires z.0 < zcut - zd < z.1 && ApplyZCut(nodes, x, zcut - zd).Ok?
    ensures var out := ApplyZCut(nodes, x, zcut - zd).value;
      && WellFormed(out) && ParentsBoolean(out, pm)
      && IsIdentity(MovedTransform(out, x).0)
      && CanZAt(out, Moved(out, x))
      && LeafZRange(out, pm, x) == Ok((zcut, z.1 + zd))
  {
    var out := ApplyZCut(nodes, x, zcut - zd).value;
    SameShapeWellFormed(nodes, out);
    SameShapeParentsBoolean(nodes, out, pm);
    var z' := CutRange(nodes, x, zcut - zd, z, zd);
    assert MovedTransform(out, x).0 == MovedTransform(nodes, x).0;
    CutLeafIncluded(out, pm, x, zcut, z', z.1 + zd);
  }

  /** A straddling leaf that the cut accepts ends up with its range in the tree frame
      running from the cut to its old top, so it now classifies INCLUDE. */
  lemma CutIncluded(nodes: seq<Node>, pm: map<int, Option<int>>, x: int, zcut: real)
    requires WellFormed(nodes) && 0 <= x < |nodes| && ParentOrdered(pm, |nodes|) && ParentsBoolean(nodes, pm)
    requires LeafClass(nodes, pm, x, zcut) == Ok(Some(STRADDLE))
    requires ApplyZCut(nodes, x, zcut - MovedTransform(nodes, x).1.z).Ok?
    ensures var out := ApplyZCut(nodes, x, zcut - MovedTransform(nodes, x).1.z).value;
      && WellFormed(out)
      && LeafZRange(out, pm, x) == Ok((zcut, LeafZRange(nodes, pm, x).value.1))
      && LeafClass(out, pm, x, zcut) == Ok(Some(INCLUDE))
  {
    StraddleLocal(nodes, pm, x, zcut);
    var zd := MovedTransform(nodes, x).1.z;
    CutLocalRange(nodes, pm, x, zcut, zd, ZRange(nodes[Moved(nodes, x)].shape).value);
    var out := ApplyZCut(nodes, x, zcut - zd).value;
    TreeTranslationIsOwn(out, pm, x);
  }

  /** A leaf whose solid spans z' locally, with the cut at the bottom of that span once
      shifted by the wrapper, has its range in the tree frame run from the cut to top. */
  lemma CutLeafIncluded(out: seq<Node>, pm: map<int, Option<int>>, x: int, zcut: real, z': (real, real), top: real)
    requires WellFormed(out) && 0 <= x < |out| && ParentOrdered(pm, |out|) && ParentsBoolean(out, pm)
    requires CanZAt(out, Moved(out, x)) && ZRange(out[Moved(out, x)].shape) == Ok(z')
    requires IsIdentity(MovedTransform(out, x).0)
    requires z'.0 + MovedTransform(out, x).1.z == zcut && z'.1 + MovedTransform(out, x).1.z == top
    ensures LeafZRange(out, pm, x) == Ok((zcut, top))
  {
    TreeTranslationIsOwn(out, pm, x);
  }

  /** The cut in the leaf's own frame: the new Z range of the solid it moves, which
      together with the new frame offset starts at the cut and ends at the old top. */
  lemma CutRange(nodes: seq<Node>, x: int, lz: real, z: (real, real), zd: real) returns (z': (real, real))
    requires WellFormed(nodes) && 0 <= x < |nodes|
    requires CanZAt(nodes, Moved(nodes, x)) && ZRange(nodes[Moved(nodes, x)].shape) == Ok(z)
    requires zd == MovedTransform(nodes, x).1.z && z.0 < lz < z.1
    requires ApplyZCut(nodes, x, lz).Ok?
    ensures var out := ApplyZCut(nodes, x, lz).value;
      && Moved(out, x) == Moved(nodes, x) && out[Moved(out, x)].Primitive?
      && ZRange(out[Moved(out, x)].shape) == Ok(z')
      && z'.0 + MovedTransform(out, x).1.z == lz + zd
      && z'.1 + MovedTransform(out, x).1.z == z.1 + zd
      && z'.0 < z'.1
  {
    var out := ApplyZCut(nodes, x, lz).value;
    var m := Moved(nodes, x);
    var s := nodes[m].shape;
    match s
    case Ellipsoid(_, _, _, _, _) =>
      z' := (lz, z.1);
      assert out[x] == nodes[x] || x == m;
    case Polycone(_, _, _, _, _) =>
      z' := (lz, z.1);
      assert out[x] == nodes[x] || x == m;
      assert z.1 == s.zPlanes[1];
    case Tubs(_, _, hz, _, _) =>
      var cut := TubsCut(hz, lz);
      z' := (-cut.0, cut.0);
      assert m < x;
      assert out[x].tla.z == zd + cut.1;
  }

  /** Cutting touches nothing outside the subtree. */
  lemma {:induction false} CutRFrame(nodes: seq<Node>, pm: map<int, Option<int>>, zm: map<int, Mask>, n: int, zcut: real)
    requires WellFormed(nodes) && 0 <= n < |nodes| && ParentOrdered(pm, |nodes|)
    requires CutR(nodes, pm, zm, n, zcut).Ok?
    ensures forall i :: 0 <= i < |nodes| && i !in Sub(nodes, n) ==> CutR(nodes, pm, zm, n, zcut).value[i] == nodes[i]
    decreases n
  {
    if nodes[n].Boolean? {
      var l, r := nodes[n].left, nodes[n].right;
      var a := CutR(nodes, pm, zm, l, zcut).value;
      SameShapeSub(nodes, a, r);
      CutRFrame(nodes, pm, zm, l, zcut);
      CutRFrame(a, pm, zm, r, zcut);
    } else {
      MovedInSub(nodes, n);
    }
  }

  /** The leaf branch depends only on the leaf's own two arena entries, once every
      recorded parent is a boolean solid. */
  lemma LeafCutLocal(a: seq<Node>, b: seq<Node>, pm: map<int, Option<int>>, zm: map<int, Mask>, x: int, zcut: real)
    requires WellFormed(a) && SameShape(a, b) && 0 <= x < |a| && ParentOrdered(pm, |a|) && ParentsBoolean(a, pm)
    requires a[x] == b[x] && a[Moved(a, x)] == b[Moved(a, x)]
    ensures WellFormed(b) && Moved(b, x) == Moved(a, x)
    ensures LeafCut(a, pm, zm, x, zcut).Ok? <==> LeafCut(b, pm, zm, x, zcut).Ok?
    ensures LeafCut(a, pm, zm, x, zcut).Ok? ==>
      && LeafCut(a, pm, zm, x, zcut).value[x] == LeafCut(b, pm, zm, x, zcut).value[x]
      && LeafCut(a, pm, zm, x, zcut).value[Moved(a, x)] == LeafCut(b, pm, zm, x, zcut).value[Moved(a, x)]
  {
    SameShapeSub(a, b, x);
    SameShapeParentsBoolean(a, b, pm);
    TreeTranslationIsOwn(a, pm, x);
    TreeTranslationIsOwn(b, pm, x);
    var zd := TreeZ(a, pm, x);
    assert zd == TreeZ(b, pm, x);
    if zd.Ok? {
      if ClassOf(zm, Moved(a, x)) == STRADDLE {
        ApplyZCutLocal(a, b, x, zcut - zd.value);
        assert LeafCut(a, pm, zm, x, zcut) == ApplyZCut(a, x, zcut - zd.value);
        assert LeafCut(b, pm, zm, x, zcut) == ApplyZCut(b, x, zcut - zd.value);
      } else {
        assert LeafCut(a, pm, zm, x, zcut) == Ok(a) && LeafCut(b, pm, zm, x, zcut) == Ok(b);
      }
    }
  }

  /** The cut of leaf x reads and writes only x and the solid it moves. */
  lemma ApplyZCutLocal(a: seq<Node>, b: seq<Node>, x: int, lz: real)
    requires WellFormed(a) && WellFormed(b) && |a| == |b| && 0 <= x < |a|
    requires a[x] == b[x] && Moved(b, x) == Moved(a, x) && a[Moved(a, x)] == b[Moved(a, x)]
    ensures ApplyZCut(a, x, lz).Ok? <==> ApplyZCut(b, x, lz).Ok?
    ensures ApplyZCut(a, x, lz).Ok? ==>
      && ApplyZCut(a, x, lz).value[x] == ApplyZCut(b, x, lz).value[x]
      && ApplyZCut(a, x, lz).value[Moved(a, x)] == ApplyZCut(b, x, lz).value[Moved(a, x)]
  {
  }

  /** The classification of a leaf likewise depends only on its two arena entries. */
  lemma LeafClassLocal(a: seq<Node>, b: seq<Node>, pm: map<int, Option<int>>, x: int, zcut: real)
    requires WellFormed(a) && SameShape(a, b) && 0 <= x < |a| && ParentOrdered(pm, |a|) && ParentsBoolean(a, pm)
    requires a[x] == b[x] && a[Moved(a, x)] == b[Moved(a, x)]
    ensures WellFormed(b)
    ensures LeafClass(a, pm, x, zcut) == LeafClass(b, pm, x, zcut)
  {
    SameShapeSub(a, b, x);
    SameShapeParentsBoolean(a, b, pm);
    TreeTranslationIsOwn(a, pm, x);
    TreeTranslationIsOwn(b, pm, x);
  }

  /** In a tree every reached leaf ends up exactly as its own leaf branch, applied to the
      arena before the pass, leaves it: the cuts of other leaves do not interfere. */
  lemma {:induction false} CutRLeaf(nodes: seq<Node>, pm: map<int, Option<int>>, zm: map<int, Mask>, n: int, zcut: real, x: int)
    requires WellFormed(nodes) && 0 <= n < |nodes| && ParentOrdered(pm, |nodes|) && ParentsBoolean(nodes, pm)
    requires TreeAt(nodes, n) && CutR(nodes, pm, zm, n, zcut).Ok?
    requires x in Visible(nodes, n) && !nodes[x].Boolean?
    ensures LeafCut(nodes, pm, zm, x, zcut).Ok?
    ensures CutR(nodes, pm, zm, n, zcut).value[x] == LeafCut(nodes, pm, zm, x, zcut).value[x]
    ensures CutR(nodes, pm, zm, n, zcut).value[Moved(nodes, x)] == LeafCut(nodes, pm, zm, x, zcut).value[Moved(nodes, x)]
    decreases n
  {
    if x != n {
      var l, r := nodes[n].left, nodes[n].right;
      var a := CutR(nodes, pm, zm, l, zcut).value;
      SameShapeSub(nodes, a, l);
      SameShapeSub(nodes, a, r);
      SameShapeParentsBoolean(nodes, a, pm);
      MovedInSub(nodes, x);
      var m := Moved(nodes, x);
      assert x in Visible(nodes, l) || x in Visible(nodes, r);
      if x in Visible(nodes, l) {
        CutRLeaf(nodes, pm, zm, l, zcut, x);
        CutRFrame(a, pm, zm, r, zcut);
        SubTransitive(nodes, l, x);
        assert x !in Sub(nodes, r) && m !in Sub(nodes, r);
      } else {
        SubTransitive(nodes, r, x);
        CutRFrame(nodes, pm, zm, l, zcut);
        assert x !in Sub(nodes, l) && m !in Sub(nodes, l);
        CutRLeaf(a, pm, zm, r, zcut, x);
        LeafCutLocal(nodes, a, pm, zm, x, zcut);
      }
    }
  }

  /** The leaf step of cutTree_r leaves a leaf marked STRADDLE classifying INCLUDE,
      and any other leaf as it was. */
  lemma LeafCutClass(nodes: seq<Node>, pm: map<int, Option<int>>, zm: map<int, Mask>, x: int, zcut: real)
    requires WellFormed(nodes) && 0 <= x < |nodes| && ParentOrdered(pm, |nodes|) && ParentsBoolean(nodes, pm)
    requires LeafCut(nodes, pm, zm, x, zcut).Ok?
    requires ClassOf(zm, Moved(nodes, x)) == STRADDLE ==> LeafClass(nodes, pm, x, zcut) == Ok(Some(STRADDLE))
    ensures ClassOf(zm, Moved(nodes, x)) == STRADDLE ==>
      LeafClass(LeafCut(nodes, pm, zm, x, zcut).value, pm, x, zcut) == Ok(Some(INCLUDE))
    ensures ClassOf(zm, Moved(nodes, x)) != STRADDLE ==> LeafCut(nodes, pm, zm, x, zcut).value == nodes
  {
    if ClassOf(zm, Moved(nodes, x)) == STRADDLE {
      StraddleLocal(nodes, pm, x, zcut);
      assert LeafCut(nodes, pm, zm, x, zcut) == ApplyZCut(nodes, x, zcut - MovedTransform(nodes, x).1.z);
      CutIncluded(nodes, pm, x, zcut);
    }
  }

  /** Post-cut convergence: after cutTree_r with a class table that agrees with the
      arena on the straddling leaves, each of them classifies INCLUDE at the same cut,
      and every other leaf classifies as before. */
  lemma CutConverges(nodes: seq<Node>, pm: map<int, Option<int>>, zm: map<int, Mask>, n: int, zcut: real, x: int)
    requires WellFormed(nodes) && 0 <= n < |nodes| && ParentOrdered(pm, |nodes|) && ParentsBoolean(nodes, pm)
    requires TreeAt(nodes, n) && CutR(nodes, pm, zm, n, zcut).Ok?
    requires x in Visible(nodes, n) && !nodes[x].Boolean?
    requires ClassOf(zm, Moved(nodes, x)) == STRADDLE ==> LeafClass(nodes, pm, x, zcut) == Ok(Some(STRADDLE))
    ensures WellFormed(CutR(nodes, pm, zm, n, zcut).value)
    ensures ClassOf(zm, Moved(nodes, x)) == STRADDLE ==>
      LeafClass(CutR(nodes, pm, zm, n, zcut).value, pm, x, zcut) == Ok(Some(INCLUDE))
    ensures ClassOf(zm, Moved(nodes, x)) != STRADDLE ==>
      LeafClass(CutR(nodes, pm, zm, n, zcut).value, pm, x, zcut) == LeafClass(nodes, pm, x, zcut)
  {
    var out := CutR(nodes, pm, zm, n, zcut).value;
    SameShapeSub(nodes, out, n);
    CutRLeaf(nodes, pm, zm, n, zcut, x);
    var c := LeafCut(nodes, pm, zm, x, zcut).value;
    SameShapeSub(nodes, c, x);
    SameShapeParentsBoolean(nodes, c, pm);
    SameShapeSymmetric(nodes, c);
    SameShapeTransitive(c, nodes, out);
    LeafClassLocal(c, out, pm, x, zcut);
    LeafCutClass(nodes, pm, zm, x, zcut);
  }

  /** The value of a tree is defined as soon as every reached leaf classifies. */
  lemma {:induction false} TreeClassOk(nodes: seq<Node>, pm: map<int, Option<int>>, n: int, zcut: real)
    requires WellFormed(nodes) && 0 <= n < |nodes| && ParentOrdered(pm, |nodes|)
    requires forall x :: x in Visible(nodes, n) && !nodes[x].Boolean? ==> LeafClass(nodes, pm, x, zcut).Ok?
    ensures TreeClass(nodes, pm, n, zcut).Ok?
    decreases n
  {
    if nodes[n].Boolean? {
      TreeClassOk(nodes, pm, nodes[n].left, zcut);
      TreeClassOk(nodes, pm, nodes[n].right, zcut);
    }
  }

  /** cutTree: classify against the cut starting from the class table zm0, cut the
      straddling leaves, classify again over the table the first pass left. */
  function CutTree(nodes: seq<Node>, root: int, zcut: real, zm0: map<int, Mask>): Result<(seq<Node>, map<int, Mask>)>
    requires WellFormed(nodes) && 0 <= root < |nodes|
  {
    var pm := ParentTable(nodes, root);
    var first :- ClassifyInto(nodes, pm, root, zcut, zm0);
    var cut :- CutR(nodes, pm, first.1, root, zcut);
    var second :- ClassifyInto(cut, pm, root, zcut, first.1);
    Ok((cut, second.1))
  }

  /** Post-cut convergence for the whole pipeline started from an empty class table:
      once the first classification and the cuts succeed, the second classification succeeds too, and every leaf the
      first one found STRADDLE is now INCLUDE. */
  lemma CutTreeConverges(nodes: seq<Node>, root: int, zcut: real)
    requires WellFormed(nodes) && 0 <= root < |nodes| && TreeAt(nodes, root)
    requires ClassifyInto(nodes, ParentTable(nodes, root), root, zcut, map[]).Ok?
    requires CutR(nodes, ParentTable(nodes, root), ClassifyInto(nodes, ParentTable(nodes, root), root, zcut, map[]).value.1, root, zcut).Ok?
    ensures CutTree(nodes, root, zcut, map[]).Ok?
    ensures forall x :: x in Visible(nodes, root) && !nodes[x].Boolean? ==>
      (ClassOf(ClassifyInto(nodes, ParentTable(nodes, root), root, zcut, map[]).value.1, Moved(nodes, x)) == STRADDLE ==>
       ClassOf(CutTree(nodes, root, zcut, map[]).value.1, Moved(nodes, x)) == INCLUDE)
  {
    var pm := ParentTable(nodes, root);
    var zm := ClassifyInto(nodes, pm, root, zcut, map[]).value.1;
    var out := CutR(nodes, pm, zm, root, zcut).value;
    SameShapeSub(nodes, out, root);
    SameShapeParentsBoolean(nodes, out, pm);
    forall x | x in Visible(nodes, root) && !nodes[x].Boolean?
      ensures LeafClass(out, pm, x, zcut).Ok?
      ensures ClassOf(zm, Moved(nodes, x)) == STRADDLE ==> LeafClass(out, pm, x, zcut) == Ok(Some(INCLUDE))
    {
      ClassifyRecordsLeaf(nodes, pm, root, zcut, map[], x);
      CutConverges(nodes, pm, zm, root, zcut, x);
    }
    TreeClassOk(out, pm, root, zcut);
    ClassifyIntoComputes(out, pm, root, zcut, zm);
    forall x | x in Visible(nodes, root) && !nodes[x].Boolean? && ClassOf(zm, Moved(nodes, x)) == STRADDLE
      ensures ClassOf(CutTree(nodes, root, zcut, map[]).value.1, Moved(nodes, x)) == INCLUDE
    {
      assert Moved(out, x) == Moved(nodes, x) && !out[x].Boolean?;
      ClassifyRecordsLeaf(out, pm, root, zcut, zm, x);
    }
  }
}
