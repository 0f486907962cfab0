/** The ZSolid object: it owns a deep clone of the original tree and the tables its
    passes fill in place (parent links, the six traversal orders with their rank
    tables, depths and classes), and it cuts the clone at a plane. */
module Engine {
  import opened Csg
  import opened ZCut
  import opened Traversal
  import opened Classify
  import opened Cut
  import opened Reroot
  import opened Clone

  /** A traversal starts at a node with the walk of its operands on either side, as
      the order says; a node that is no boolean solid has no operands to walk. */
  lemma WalkArranges(nodes: seq<Node>, n: int, mode: Order)
    requires WellFormed(nodes) && 0 <= n < |nodes|
    ensures Walk(nodes, n, mode) ==
      Arrange(mode, n, WalkFrom(nodes, Left(nodes, n), mode), WalkFrom(nodes, Right(nodes, n), mode))
  {
    if !nodes[n].Boolean? {
      assert Arrange(mode, n, [], []) == [n];
    }
  }

  lemma MapUnion<K, V>(a: map<K, V>, b: map<K, V>, c: map<K, V>)
    ensures (a + b) + c == a + (b + c)
  {
  }

  lemma MapUpdate<K, V>(a: map<K, V>, k: K, v: V)
    ensures a[k := v] == a + map[k := v]
  {
  }

  lemma EmptyStart(s: seq<int>, m: map<int, int>)
    ensures [] + s == s && map[] + m == m
  {
  }

  lemma RanksSnoc(a: seq<int>, n: int, base: int)
    ensures Ranks(a + [n], base) == Ranks(a, base)[n := base + |a|]
  {
    assert (a + [n])[..|a + [n]| - 1] == a;
  }

  /** A traversal that lists t after s extends the rank table of s by that of t. */
  lemma RanksExtend(m: map<int, int>, s: seq<int>, t: seq<int>, base: int)
    ensures (m + Ranks(s, base)) + Ranks(t, base + |s|) == m + Ranks(s + t, base)
  {
    RanksAppend(s, t, base);
    MapUnion(m, Ranks(s, base), Ranks(t, base + |s|));
  }

  /** Recording one more node at the next rank is listing it last. */
  lemma RanksPush(m: map<int, int>, s: seq<int>, k: int, base: int)
    ensures (m + Ranks(s, base))[k := base + |s|] == m + Ranks(s + [k], base)
  {
    RanksSnoc(s, k, base);
    MapUpdate(m + Ranks(s, base), k, base + |s|);
    MapUpdate(Ranks(s, base), k, base + |s|);
    MapUnion(m, Ranks(s, base), map[k := base + |s|]);
  }

  /** The rank writes of an in-order pass: first operand, node, second operand. */
  lemma RanksInfix(m: map<int, int>, A: seq<int>, n: int, B: seq<int>, base: int)
    ensures (m + Ranks(A, base))[n := base + |A|] + Ranks(B, base + |A| + 1) == m + Ranks(A + [n] + B, base)
  {
    RanksPush(m, A, n, base);
    RanksExtend(m, A + [n], B, base);
  }

  /** The rank writes of a pre-order pass: node, first operand, second operand. */
  lemma RanksPrefix(m: map<int, int>, n: int, A: seq<int>, B: seq<int>, base: int)
    ensures (m[n := base] + Ranks(A, base + 1)) + Ranks(B, base + 1 + |A|) == m + Ranks([n] + A + B, base)
  {
    RanksSnoc([], n, base);
    assert [] + [n] == [n];
    MapUpdate(m, n, base);
    RanksExtend(m, [n], A, base);
    RanksExtend(m, [n] + A, B, base);
  }

  lemma Regroup(a: seq<int>, b: seq<int>, c: seq<int>, d: seq<int>)
    ensures a + b + c + d == a + (b + c + d)
  {
  }

  /** The list and the rank table an in-order pass leaves, written step by step, are
      those of its whole walk W listed in one go. */
  lemma InfixPass(m0: map<int, int>, v0: seq<int>, A: seq<int>, n: int, B: seq<int>, W: seq<int>)
    requires W == A + [n] + B
    ensures v0 + A + [n] + B == v0 + W
    ensures (m0 + Ranks(A, |v0|))[n := |v0 + A|] + Ranks(B, |v0 + A + [n]|) == m0 + Ranks(W, |v0|)
  {
    Regroup(v0, A, [n], B);
    var b := |v0|;
    assert |v0 + A| == b + |A| && |v0 + A + [n]| == b + |A| + 1;
    RanksInfix(m0, A, n, B, b);
  }

  /** The same for a pre-order pass. */
  lemma PrefixPass(m0: map<int, int>, v0: seq<int>, n: int, A: seq<int>, B: seq<int>, W: seq<int>)
    requires W == [n] + A + B
    ensures v0 + [n] + A + B == v0 + W
    ensures (m0[n := |v0|] + Ranks(A, |v0 + [n]|)) + Ranks(B, |v0 + [n] + A|) == m0 + Ranks(W, |v0|)
  {
    Regroup(v0, [n], A, B);
    var b := |v0|;
    assert |v0 + [n]| == b + 1 && |v0 + [n] + A| == b + 1 + |A|;
    RanksPrefix(m0, n, A, B, b);
  }

  /** The same for a post-order pass. */
  lemma PostfixPass(m0: map<int, int>, v0: seq<int>, A: seq<int>, B: seq<int>, n: int, W: seq<int>)
    requires W == A + B + [n]
    ensures v0 + A + B + [n] == v0 + W
    ensures ((m0 + Ranks(A, |v0|)) + Ranks(B, |v0 + A|))[n := |v0 + A + B|] == m0 + Ranks(W, |v0|)
  {
    Regroup(v0, A, B, [n]);
    var b := |v0|;
    assert |v0 + A| == b + |A| && |v0 + A + B| == b + |A| + |B|;
    RanksExtend(m0, A, B, b);
    assert b + |A| + |B| == b + |A + B|;
    RanksPush(m0, A + B, n, b);
  }

  /** Where a rank table built from a walk of a tree puts a node: at its position when
      the walk reaches it, nowhere otherwise. */
  lemma RankedPositions(nodes: seq<Node>, root: int, mode: Order, ranks: map<int, int>, n: int)
    requires WellFormed(nodes) && 0 <= root < |nodes| && TreeAt(nodes, root)
    requires ranks == Ranks(Walk(nodes, root, mode), 0)
    ensures n in Visible(nodes, root) ==>
      n in ranks && 0 <= ranks[n] < |Walk(nodes, root, mode)| && Walk(nodes, root, mode)[ranks[n]] == n
    ensures n !in Visible(nodes, root) ==> n !in ranks
  {
    var s := Walk(nodes, root, mode);
    WalkListsVisibleOnce(nodes, root, mode);
    RanksArePositions(s, 0);
    if n in Visible(nodes, root) {
      var i :| 0 <= i < |s| && s[i] == n;
      assert ranks[s[i]] == i;
    }
  }

  /** The class a classification pass returns, or its failure. */
  function ValueOf(res: Result<(Mask, map<int, Mask>)>): Result<Mask> {
    if res.Ok? then Ok(res.value.0) else Fatal(res.fault)
  }

  /** A translation added in front of a result that may have failed. */
  function Shifted(a: Vec3, r: Result<Vec3>): Result<Vec3> {
    if r.Ok? then Ok(Add(a, r.value)) else r
  }

  /** The clone that initTree works on is a tree. */
  lemma CloneIsTree(original: seq<Node>, top: int)
    requires WellFormed(original) && 0 <= top < |original| && DeepClone(original, top).Ok?
    ensures var (nodes, root) := DeepClone(original, top).value;
      WellFormed(nodes) && 0 <= root < |nodes| && TreeAt(nodes, root)
  {
    CloneIsFreshTree(original, top, []);
  }

  /** Construction returns: the deep clone succeeds, and the dump that init runs over
      the clone, once initTree has linked it, passes. */
  predicate Constructs(original: seq<Node>, top: int)
    requires WellFormed(original) && 0 <= top < |original|
  {
    && DeepClone(original, top).Ok?
    && (CloneIsTree(original, top);
        var (nodes, root) := DeepClone(original, top).value;
        DumpsPass(nodes, ParentTable(nodes, root), root))
  }

  /** On a clone the frame checks of the dump always pass: every parent is a boolean
      and every wrapper is unrotated and moves a solid that is not a wrapper. So
      construction fails, once the clone succeeds, exactly when a reached solid that
      CanZ accepts has no Z range. */
  lemma ConstructsIffRanges(original: seq<Node>, top: int)
    requires WellFormed(original) && 0 <= top < |original| && DeepClone(original, top).Ok?
    ensures var (nodes, root) := DeepClone(original, top).value;
      Constructs(original, top) <==>
        forall x :: x in Visible(nodes, root) && CanZAt(nodes, Moved(nodes, x)) ==>
          ZRange(nodes[Moved(nodes, x)].shape).Ok?
  {
    var (nodes, root) := DeepClone(original, top).value;
    ClonePlainWrappers(original, top, []);
    var pm := ParentTable(nodes, root);
    forall x | x in Visible(nodes, root)
      ensures DumpsAt(nodes, pm, x) <==> (CanZAt(nodes, Moved(nodes, x)) ==> ZRange(nodes[Moved(nodes, x)].shape).Ok?)
    {
      TreeTranslationIsOwn(nodes, pm, Moved(nodes, x));
      TreeTranslationIsOwn(nodes, pm, x);
    }
  }

  class ZSolid {
    var arena: seq<Node>
    var root: int
    var candidateRoot: Option<int>
    var parentMap: map<int, Option<int>>

    var inorder: seq<int>
    var rinorder: seq<int>
    var preorder: seq<int>
    var rpreorder: seq<int>
    var postorder: seq<int>
    var rpostorder: seq<int>

    var inMap: map<int, int>
    var rinMap: map<int, int>
    var preMap: map<int, int>
    var rpreMap: map<int, int>
    var postMap: map<int, int>
    var rpostMap: map<int, int>

    var zclsMap: map<int, Mask>
    var depthMap: map<int, int>

    var width: int
    var height: int

    /** The tree is a tree, and the parent and depth tables describe it. */
    predicate TablesValid()
      reads this`arena, this`root, this`parentMap, this`depthMap
    {
      Linked(arena, root, parentMap, depthMap)
    }

    /** Each traversal list is the walk of the tree in its order, and its rank table
        gives each listed node its position. */
    predicate OrdersValid()
      requires WellFormed(arena) && 0 <= root < |arena|
      reads this`arena, this`root, this`inorder, this`rinorder, this`preorder, this`rpreorder, this`postorder, this`rpostorder
      reads this`inMap, this`rinMap, this`preMap, this`rpreMap, this`postMap, this`rpostMap
    {
      Traversed(arena, root, inorder, rinorder, preorder, rpreorder, postorder, rpostorder,
        inMap, rinMap, preMap, rpreMap, postMap, rpostMap)
    }

    /** Every table describes the tree as the passes of initTree leave it. */
    predicate Valid()
      reads this`arena, this`root, this`parentMap, this`depthMap, this`width, this`height
      reads this`inorder, this`rinorder, this`preorder, this`rpreorder, this`postorder, this`rpostorder
      reads this`inMap, this`rinMap, this`preMap, this`rpreMap, this`postMap, this`rpostMap
    {
      && TablesValid()
      && OrdersValid()
      && width == |inorder| && height == Maxdepth(arena, root, 0)
    }

    /** The constructor: the tree is a deep clone of the original, and the tables start
        empty before initTree fills them. The clone must succeed; Create is the entry
        that reports a clone that fails, and it runs the dump that init makes next. */
    constructor (original: seq<Node>, top: int)
      requires WellFormed(original) && 0 <= top < |original| && DeepClone(original, top).Ok?
      ensures Valid()
      ensures (arena, root) == DeepClone(original, top).value
      ensures zclsMap == map[] && candidateRoot == None
    {
      CloneIsTree(original, top);
      arena, root := DeepClone(original, top).value.0, DeepClone(original, top).value.1;
      candidateRoot := None;
      zclsMap := map[];
      parentMap := map[];
      inorder, rinorder, preorder, rpreorder, postorder, rpostorder := [], [], [], [], [], [];
      inMap, rinMap, preMap, rpreMap, postMap, rpostMap := map[], map[], map[], map[], map[], map[];
      depthMap := map[];
      width, height := 0, 0;
      new;
      InitTree();
    }

    /** initTree: parent links, depths, then each traversal from a cleared list, then
        the width (the number of reached nodes) and the height (the deepest depth). */
    method InitTree()
      requires WellFormed(arena) && 0 <= root < |arena| && TreeAt(arena, root)
      requires parentMap == map[] && depthMap == map[]
      requires Unranked(inMap, rinMap, preMap, rpreMap, postMap, rpostMap)
      modifies this`parentMap, this`depthMap, this`width, this`height
      modifies this`inorder, this`rinorder, this`preorder, this`rpreorder, this`postorder, this`rpostorder
      modifies this`inMap, this`rinMap, this`preMap, this`rpreMap, this`postMap, this`rpostMap
      ensures Valid()
      ensures zclsMap == old(zclsMap)
    {
      InitLinks();
      InitShape();
    }

    /** The traversals, then the width and the height, the last steps of initTree. */
    method InitShape()
      requires WellFormed(arena) && 0 <= root < |arena|
      requires Unranked(inMap, rinMap, preMap, rpreMap, postMap, rpostMap)
      modifies this`width, this`height
      modifies this`inorder, this`rinorder, this`preorder, this`rpreorder, this`postorder, this`rpostorder
      modifies this`inMap, this`rinMap, this`preMap, this`rpreMap, this`postMap, this`rpostMap
      ensures OrdersValid()
      ensures width == |inorder| && height == Maxdepth(arena, root, 0)
    {
      InitOrders();
      width := |inorder|;
      height := Maxdepth(arena, root, 0);
    }

    /** The parent links and the depth table, the first two steps of initTree. */
    method InitLinks()
      requires WellFormed(arena) && 0 <= root < |arena| && TreeAt(arena, root)
      requires parentMap == map[] && depthMap == map[]
      modifies this`parentMap, this`depthMap
      ensures TablesValid()
    {
      FillParentMap();
      ghost var D := Depths(arena, Some(root), 0);
      DepthR(Some(root), 0);
      EmptyStart([], D);
    }

    /** The six traversals of initTree, each from a cleared list. */
    method InitOrders()
      requires WellFormed(arena) && 0 <= root < |arena|
      requires Unranked(inMap, rinMap, preMap, rpreMap, postMap, rpostMap)
      modifies this`inorder, this`rinorder, this`preorder, this`rpreorder, this`postorder, this`rpostorder
      modifies this`inMap, this`rinMap, this`preMap, this`rpreMap, this`postMap, this`rpostMap
      ensures OrdersValid()
    {
      FirstOrders();
      LastOrders();
    }

    /** The inorder, reverse inorder and preorder passes of initTree. */
    method FirstOrders()
      requires WellFormed(arena) && 0 <= root < |arena|
      requires inMap == rinMap == preMap == map[]
      modifies this`inorder, this`rinorder, this`preorder
      modifies this`inMap, this`rinMap, this`preMap
      ensures Listed(arena, root, In, inorder, inMap)
      ensures Listed(arena, root, RIn, rinorder, rinMap)
      ensures Listed(arena, root, Pre, preorder, preMap)
    {
      Inorder();
      Rinorder();
      Preorder();
    }

    /** The reverse preorder, postorder and reverse postorder passes of initTree. */
    method LastOrders()
      requires WellFormed(arena) && 0 <= root < |arena|
      requires rpreMap == postMap == rpostMap == map[]
      modifies this`rpreorder, this`postorder, this`rpostorder
      modifies this`rpreMap, this`postMap, this`rpostMap
      ensures Listed(arena, root, RPre, rpreorder, rpreMap)
      ensures Listed(arena, root, Post, postorder, postMap)
      ensures Listed(arena, root, RPost, rpostorder, rpostMap)
    {
      Rpreorder();
      Postorder();
      Rpostorder();
    }

    method Inorder()
      requires WellFormed(arena) && 0 <= root < |arena| && inMap == map[]
      modifies this`inorder, this`inMap
      ensures Listed(arena, root, In, inorder, inMap)
    {
      inorder := [];
      InorderR(Some(root));
      EmptyStart(Walk(arena, root, In), Ranks(Walk(arena, root, In), 0));
    }

    method Rinorder()
      requires WellFormed(arena) && 0 <= root < |arena| && rinMap == map[]
      modifies this`rinorder, this`rinMap
      ensures Listed(arena, root, RIn, rinorder, rinMap)
    {
      rinorder := [];
      RinorderR(Some(root));
      EmptyStart(Walk(arena, root, RIn), Ranks(Walk(arena, root, RIn), 0));
    }

    method Preorder()
      requires WellFormed(arena) && 0 <= root < |arena| && preMap == map[]
      modifies this`preorder, this`preMap
      ensures Listed(arena, root, Pre, preorder, preMap)
    {
      preorder := [];
      PreorderR(Some(root));
      EmptyStart(Walk(arena, root, Pre), Ranks(Walk(arena, root, Pre), 0));
    }

    method Rpreorder()
      requires WellFormed(arena) && 0 <= root < |arena| && rpreMap == map[]
      modifies this`rpreorder, this`rpreMap
      ensures Listed(arena, root, RPre, rpreorder, rpreMap)
    {
      rpreorder := [];
      RpreorderR(Some(root));
      EmptyStart(Walk(arena, root, RPre), Ranks(Walk(arena, root, RPre), 0));
    }

    method Postorder()
      requires WellFormed(arena) && 0 <= root < |arena| && postMap == map[]
      modifies this`postorder, this`postMap
      ensures Listed(arena, root, Post, postorder, postMap)
    {
      postorder := [];
      PostorderR(Some(root));
      EmptyStart(Walk(arena, root, Post), Ranks(Walk(arena, root, Post), 0));
    }

    method Rpostorder()
      requires WellFormed(arena) && 0 <= root < |arena| && rpostMap == map[]
      modifies this`rpostorder, this`rpostMap
      ensures Listed(arena, root, RPost, rpostorder, rpostMap)
    {
      rpostorder := [];
      RpostorderR(Some(root));
      EmptyStart(Walk(arena, root, RPost), Ranks(Walk(arena, root, RPost), 0));
    }

    /** fillParentMap: the root is entered with no parent, then the pass below adds the
        operand links. */
    method FillParentMap()
      requires WellFormed(arena) && 0 <= root < |arena|
      modifies this`parentMap
      ensures parentMap == old(parentMap)[root := None] + Parents(arena, Some(root))
    {
      parentMap := parentMap[root := None];
      FillParentMapR(root);
    }

    /** fillParentMap_r: both operands are visited first, then each is linked to the
        boolean solid that holds it, keyed on the operand itself (a wrapper, not the
        solid it moves). */
    method FillParentMapR(node: int)
      requires WellFormed(arena) && 0 <= node < |arena|
      modifies this`parentMap
      ensures parentMap == old(parentMap) + Parents(arena, Some(node))
      decreases node
    {
      if arena[node].Boolean? {
        var l, r := arena[node].left, arena[node].right;
        ghost var m0 := parentMap;
        FillParentMapR(l);
        FillParentMapR(r);
        ghost var (pl, pr) := (Parents(arena, Some(l)), Parents(arena, Some(r)));
        assert parentMap == m0 + pl + pr;
        parentMap := parentMap[l := Some(node)][r := Some(node)];
        assert Parents(arena, Some(node)) == pl + pr + map[l := Some(node)] + map[r := Some(node)];
        MapUpdate(m0 + pl + pr, l, Some(node));
        MapUpdate(m0 + pl + pr + map[l := Some(node)], r, Some(node));
        MapUnion(m0, pl + pr + map[l := Some(node)], map[r := Some(node)]);
        MapUnion(m0, pl + pr, map[l := Some(node)]);
        MapUnion(m0, pl, pr);
      }
    }

    /** depth_r: every reached node gets its distance from the start plus the starting
        depth. */
    method DepthR(node: Option<int>, depth: int)
      requires WellFormed(arena) && Ref(arena, node)
      modifies this`depthMap
      ensures depthMap == old(depthMap) + Depths(arena, node, depth)
      decreases Rank(node)
    {
      if node.None? {
        return;
      }
      var n := node.value;
      ghost var m0 := depthMap;
      ghost var DL, DR := Depths(arena, Left(arena, n), depth + 1), Depths(arena, Right(arena, n), depth + 1);
      DepthR(Left(arena, n), depth + 1);
      DepthR(Right(arena, n), depth + 1);
      assert depthMap == m0 + DL + DR;
      depthMap := depthMap[n := depth];
      MapUpdate(m0 + DL + DR, n, depth);
      MapUnion(m0, DL, DR);
      MapUnion(m0, DL + DR, map[n := depth]);
    }

    /** inorder_r: left operand, the node with its rank, right operand. */
    method InorderR(node: Option<int>)
      requires WellFormed(arena) && Ref(arena, node)
      modifies this`inorder, this`inMap
      ensures inorder == old(inorder) + WalkFrom(arena, node, In)
      ensures inMap == old(inMap) + Ranks(WalkFrom(arena, node, In), |old(inorder)|)
      decreases Rank(node)
    {
      if node.None? {
        assert inMap + Ranks([], |inorder|) == inMap;
        return;
      }
      var n := node.value;
      ghost var (v0, m0) := (inorder, inMap);
      ghost var L, R := WalkFrom(arena, Left(arena, n), In), WalkFrom(arena, Right(arena, n), In);
      InorderR(Left(arena, n));
      inMap := inMap[n := |inorder|];
      inorder := inorder + [n];
      InorderR(Right(arena, n));
      WalkArranges(arena, n, In);
      InfixPass(m0, v0, L, n, R, WalkFrom(arena, node, In));
    }

    /** rinorder_r: right operand, the node with its rank, left operand. */
    method RinorderR(node: Option<int>)
      requires WellFormed(arena) && Ref(arena, node)
      modifies this`rinorder, this`rinMap
      ensures rinorder == old(rinorder) + WalkFrom(arena, node, RIn)
      ensures rinMap == old(rinMap) + Ranks(WalkFrom(arena, node, RIn), |old(rinorder)|)
      decreases Rank(node)
    {
      if node.None? {
        assert rinMap + Ranks([], |rinorder|) == rinMap;
        return;
      }
      var n := node.value;
      ghost var (v0, m0) := (rinorder, rinMap);
      ghost var L, R := WalkFrom(arena, Left(arena, n), RIn), WalkFrom(arena, Right(arena, n), RIn);
      RinorderR(Right(arena, n));
      rinMap := rinMap[n := |rinorder|];
      rinorder := rinorder + [n];
      RinorderR(Left(arena, n));
      WalkArranges(arena, n, RIn);
      InfixPass(m0, v0, R, n, L, WalkFrom(arena, node, RIn));
    }

    /** preorder_r: the node with its rank, left operand, right operand. */
    method PreorderR(node: Option<int>)
      requires WellFormed(arena) && Ref(arena, node)
      modifies this`preorder, this`preMap
      ensures preorder == old(preorder) + WalkFrom(arena, node, Pre)
      ensures preMap == old(preMap) + Ranks(WalkFrom(arena, node, Pre), |old(preorder)|)
      decreases Rank(node)
    {
      if node.None? {
        assert preMap + Ranks([], |preorder|) == preMap;
        return;
      }
      var n := node.value;
      ghost var (v0, m0) := (preorder, preMap);
      ghost var L, R := WalkFrom(arena, Left(arena, n), Pre), WalkFrom(arena, Right(arena, n), Pre);
      preMap := preMap[n := |preorder|];
      preorder := preorder + [n];
      PreorderR(Left(arena, n));
      PreorderR(Right(arena, n));
      WalkArranges(arena, n, Pre);
      PrefixPass(m0, v0, n, L, R, WalkFrom(arena, node, Pre));
    }

    /** rpreorder_r: the node with its rank, right operand, left operand. */
    method RpreorderR(node: Option<int>)
      requires WellFormed(arena) && Ref(arena, node)
      modifies this`rpreorder, this`rpreMap
      ensures rpreorder == old(rpreorder) + WalkFrom(arena, node, RPre)
      ensures rpreMap == old(rpreMap) + Ranks(WalkFrom(arena, node, RPre), |old(rpreorder)|)
      decreases Rank(node)
    {
      if node.None? {
        assert rpreMap + Ranks([], |rpreorder|) == rpreMap;
        return;
      }
      var n := node.value;
      ghost var (v0, m0) := (rpreorder, rpreMap);
      ghost var L, R := WalkFrom(arena, Left(arena, n), RPre), WalkFrom(arena, Right(arena, n), RPre);
      rpreMap := rpreMap[n := |rpreorder|];
      rpreorder := rpreorder + [n];
      RpreorderR(Right(arena, n));
      RpreorderR(Left(arena, n));
      WalkArranges(arena, n, RPre);
      PrefixPass(m0, v0, n, R, L, WalkFrom(arena, node, RPre));
    }

    /** postorder_r: left operand, right operand, then the node with its rank. */
    method PostorderR(node: Option<int>)
      requires WellFormed(arena) && Ref(arena, node)
      modifies this`postorder, this`postMap
      ensures postorder == old(postorder) + WalkFrom(arena, node, Post)
      ensures postMap == old(postMap) + Ranks(WalkFrom(arena, node, Post), |old(postorder)|)
      decreases Rank(node)
    {
      if node.None? {
        assert postMap + Ranks([], |postorder|) == postMap;
        return;
      }
      var n := node.value;
      ghost var (v0, m0) := (postorder, postMap);
      ghost var L, R := WalkFrom(arena, Left(arena, n), Post), WalkFrom(arena, Right(arena, n), Post);
      PostorderR(Left(arena, n));
      PostorderR(Right(arena, n));
      postMap := postMap[n := |postorder|];
      postorder := postorder + [n];
      WalkArranges(arena, n, Post);
      PostfixPass(m0, v0, L, R, n, WalkFrom(arena, node, Post));
    }

    /** rpostorder_r: right operand, left operand, then the node with its rank. */
    method RpostorderR(node: Option<int>)
      requires WellFormed(arena) && Ref(arena, node)
      modifies this`rpostorder, this`rpostMap
      ensures rpostorder == old(rpostorder) + WalkFrom(arena, node, RPost)
      ensures rpostMap == old(rpostMap) + Ranks(WalkFrom(arena, node, RPost), |old(rpostorder)|)
      decreases Rank(node)
    {
      if node.None? {
        assert rpostMap + Ranks([], |rpostorder|) == rpostMap;
        return;
      }
      var n := node.value;
      ghost var (v0, m0) := (rpostorder, rpostMap);
      ghost var L, R := WalkFrom(arena, Left(arena, n), RPost), WalkFrom(arena, Right(arena, n), RPost);
      RpostorderR(Right(arena, n));
      RpostorderR(Left(arena, n));
      rpostMap := rpostMap[n := |rpostorder|];
      rpostorder := rpostorder + [n];
      WalkArranges(arena, n, RPost);
      PostfixPass(m0, v0, R, L, n, WalkFrom(arena, node, RPost));
    }

    /** The rank table the traversal in the given order filled. */
    function RankTable(mode: Order): map<int, int>
      reads this`inMap, this`rinMap, this`preMap, this`rpreMap, this`postMap, this`rpostMap
    {
      match mode
      case In => inMap
      case RIn => rinMap
      case Pre => preMap
      case RPre => rpreMap
      case Post => postMap
      case RPost => rpostMap
    }

    /** index: the rank the traversal in the given order gave n; a node it did not reach
        reads as 0, the value a lookup of a missing key yields. */
    function Index(n: int, mode: Order): (r: int)
      reads this`arena, this`root, this`parentMap, this`depthMap, this`width, this`height
      reads this`inorder, this`rinorder, this`preorder, this`rpreorder, this`postorder, this`rpostorder
      reads this`inMap, this`rinMap, this`preMap, this`rpreMap, this`postMap, this`rpostMap
      ensures Valid() && n in Visible(arena, root) ==>
        0 <= r < |Walk(arena, root, mode)| && Walk(arena, root, mode)[r] == n
      ensures Valid() && n !in Visible(arena, root) ==> r == 0
    {
      var ranks := RankTable(mode);
      assert Valid() ==> (
        && (n in Visible(arena, root) <==> n in ranks)
        && (n in ranks ==> 0 <= ranks[n] < |Walk(arena, root, mode)| && Walk(arena, root, mode)[ranks[n]] == n)) by {
        if Valid() {
          ModeListed(mode);
          RankedPositions(arena, root, mode, ranks, n);
        }
      }
      if n in ranks then ranks[n] else 0
    }

    /** The list the traversal in the given order filled. */
    function ListOf(mode: Order): seq<int>
      reads this`inorder, this`rinorder, this`preorder, this`rpreorder, this`postorder, this`rpostorder
    {
      match mode
      case In => inorder
      case RIn => rinorder
      case Pre => preorder
      case RPre => rpreorder
      case Post => postorder
      case RPost => rpostorder
    }

    lemma ModeListed(mode: Order)
      requires WellFormed(arena) && 0 <= root < |arena| && OrdersValid()
      ensures Listed(arena, root, mode, ListOf(mode), RankTable(mode))
    {
    }

    /** In a valid engine the index of a reached node is its position in the walk of
        that order; a node the traversals do not reach reads 0. */
    lemma IndexIsPosition(n: int, mode: Order)
      requires Valid()
      ensures n in Visible(arena, root) ==>
        0 <= Index(n, mode) < |Walk(arena, root, mode)| && Walk(arena, root, mode)[Index(n, mode)] == n
      ensures n !in Visible(arena, root) ==> Index(n, mode) == 0
    {
      ModeListed(mode);
      RankedPositions(arena, root, mode, RankTable(mode), n);
    }

    /** The width is the number of reached nodes, which every order lists. */
    lemma WidthCountsReached(mode: Order)
      requires Valid()
      ensures |Walk(arena, root, mode)| == width == |Visible(arena, root)|
    {
      WalkListsVisibleOnce(arena, root, mode);
      WalkListsVisibleOnce(arena, root, In);
    }

    /** depth: the depth the depth pass recorded for n; 0 for a node it did not reach. */
    function Depth(n: int): int
      reads this`depthMap
    {
      if n in depthMap then depthMap[n] else 0
    }

    /** In a valid engine the root is at depth 0, each operand of a reached boolean
        solid one level below it, and no reached node deeper than the height. */
    lemma DepthCountsLevels(b: int)
      requires Valid() && b in Visible(arena, root)
      ensures Depth(root) == 0 && 0 <= Depth(b) <= height
      ensures arena[b].Boolean? ==>
        Depth(arena[b].left) == Depth(b) + 1 && Depth(arena[b].right) == Depth(b) + 1
    {
      DepthsKeys(arena, root, 0);
      MaxdepthIsDeepest(arena, root, 0);
      if arena[b].Boolean? {
        DepthsStepDown(arena, root, 0, b);
      }
    }

    /** zcls: the class recorded for n, or for the solid n moves when move is set;
        UNDEFINED when none is recorded. */
    function Zcls(n: int, move: bool): (c: Mask)
      requires WellFormed(arena) && 0 <= n < |arena|
      reads this`arena, this`zclsMap
      ensures !arena[n].Displaced? ==> c == ClassOf(zclsMap, n)
      ensures c != UNDEFINED ==> exists k :: k in zclsMap && zclsMap[k] == c && (k == n || (move && k == Moved(arena, n)))
    {
      ClassOf(zclsMap, if move then Moved(arena, n) else n)
    }

    /** set_zcls: record a class for n, or for the solid n moves when move is set; it
        reads back through zcls and no other entry changes. */
    method SetZcls(n: int, move: bool, zc: Mask)
      requires WellFormed(arena) && 0 <= n < |arena|
      modifies this`zclsMap
      ensures zclsMap == old(zclsMap)[(if move then Moved(arena, n) else n) := zc]
      ensures Zcls(n, move) == zc
      ensures forall k :: k != (if move then Moved(arena, n) else n) ==> ClassOf(zclsMap, k) == ClassOf(old(zclsMap), k)
    {
      var key := if move then Moved(arena, n) else n;
      zclsMap := zclsMap[key := zc];
    }

    /** getTreeTransform: climb the parent table from node, adding up the object
        translations met on the way; a rotation other than the identity aborts. */
    method GetTreeTransform(node: int) returns (r: Result<Vec3>)
      requires WellFormed(arena) && 0 <= node < |arena| && ParentOrdered(parentMap, |arena|)
      ensures r == TreeTranslation(arena, parentMap, node)
    {
      var nd: Option<int> := Some(node);
      var tla := Zero;
      while nd.Some?
        invariant Ref(arena, nd)
        invariant TreeTranslation(arena, parentMap, node) ==
          if nd.None? then Ok(tla) else Shifted(tla, TreeTranslation(arena, parentMap, nd.value))
        decreases if nd.Some? then |arena| - nd.value else 0
      {
        var n := nd.value;
        var (rot, t) := MovedTransform(arena, n);
        if !IsIdentity(rot) {
          return Fatal(NonIdentityRotation);
        }
        tla := Add(tla, t);
        nd := ParentOf(parentMap, n);
      }
      return Ok(tla);
    }

    /** getZ: the Z offset of node's frame within the tree frame. */
    method GetZ(node: int) returns (r: Result<real>)
      requires WellFormed(arena) && 0 <= node < |arena| && ParentOrdered(parentMap, |arena|)
      ensures r == TreeZ(arena, parentMap, node)
    {
      var t :- GetTreeTransform(node);
      return Ok(t.z);
    }

    /** dumpTree_r without its output: the operands first, then the node's own checks,
        which are the assertions of DumpsAt. It passes exactly when they hold at every
        node reached from node. */
    method DumpTreeR(node: int) returns (r: Result<bool>)
      requires WellFormed(arena) && 0 <= node < |arena| && ParentOrdered(parentMap, |arena|)
      ensures r.Ok? <==> DumpsPass(arena, parentMap, node)
      decreases node
    {
      assert DumpsPass(arena, parentMap, node) ==> DumpsAt(arena, parentMap, node);
      if arena[node].Boolean? {
        var left :- DumpTreeR(arena[node].left);
        var right :- DumpTreeR(arena[node].right);
      }
      var m := Moved(arena, node);
      var zAlwaysZero :- GetZ(m);
      if zAlwaysZero != 0.0 {
        return Fatal(MovedOffset);
      }
      var zdelta :- GetZ(node);
      if CanZAt(arena, m) {
        var z :- ZRange(arena[m].shape);
      }
      return Ok(true);
    }

    /** classifyTree_r: classify the operands, then record the OR of their values for a
        boolean solid; a leaf is classified by its Z range in the tree frame, and one
        whose solid has no Z range records nothing. The pass computes and records what
        ClassifyInto describes, and fails where it does. */
    method ClassifyTreeR(node: int, zcut: real) returns (r: Result<Mask>)
      requires WellFormed(arena) && 0 <= node < |arena| && ParentOrdered(parentMap, |arena|)
      modifies this`zclsMap
      ensures r == ValueOf(ClassifyInto(arena, parentMap, node, zcut, old(zclsMap)))
      ensures r.Ok? ==> zclsMap == ClassifyInto(arena, parentMap, node, zcut, old(zclsMap)).value.1
      decreases node
    {
      if arena[node].Boolean? {
        var leftZcl :- ClassifyTreeR(arena[node].left, zcut);
        var rightZcl :- ClassifyTreeR(arena[node].right, zcut);
        var zcl := leftZcl | rightZcl;
        SetZcls(node, true, zcl);
        return Ok(zcl);
      }
      r := ClassifyLeaf(node, zcut);
    }

    /** The leaf branch of classifyTree_r: the frame offset is read first, then a solid
        with a Z range is classified by its range in the tree frame and the class is
        recorded under the solid; any other records nothing and yields UNDEFINED. */
    method ClassifyLeaf(node: int, zcut: real) returns (r: Result<Mask>)
      requires WellFormed(arena) && 0 <= node < |arena| && ParentOrdered(parentMap, |arena|)
      requires !arena[node].Boolean?
      modifies this`zclsMap
      ensures r == ValueOf(ClassifyInto(arena, parentMap, node, zcut, old(zclsMap)))
      ensures r.Ok? ==> zclsMap == ClassifyInto(arena, parentMap, node, zcut, old(zclsMap)).value.1
    {
      var zd :- GetZ(node);
      var m := Moved(arena, node);
      if CanZAt(arena, m) {
        var z :- ZRange(arena[m].shape);
        var zcl :- ClassifyZCut(z.0 + zd, z.1 + zd, zcut);
        SetZcls(node, true, zcl);
        return Ok(zcl);
      }
      return Ok(UNDEFINED);
    }

    /** classifyTree: the pass from the root. */
    method ClassifyTree(zcut: real) returns (r: Result<Mask>)
      requires WellFormed(arena) && 0 <= root < |arena| && ParentOrdered(parentMap, |arena|)
      modifies this`zclsMap
      ensures r == ValueOf(ClassifyInto(arena, parentMap, root, zcut, old(zclsMap)))
      ensures r.Ok? ==> zclsMap == ClassifyInto(arena, parentMap, root, zcut, old(zclsMap)).value.1
    {
      r := ClassifyTreeR(root, zcut);
    }

    /** ApplyZCut: cut the solid leaf x moves at the local cut, in place: an ellipsoid
        or a polycone gets its lower bound moved, a tube is shortened and its wrapper
        raised. It succeeds exactly when the cut Cut.ApplyZCut describes does, and then
        leaves the arena that cut gives; after a failure the arena is left unspecified. */
    method ApplyZCut(x: int, localZcut: real) returns (r: Result<bool>)
      requires WellFormed(arena) && 0 <= x < |arena|
      modifies this`arena
      ensures r.Ok? <==> Cut.ApplyZCut(old(arena), x, localZcut).Ok?
      ensures r.Ok? ==> arena == Cut.ApplyZCut(old(arena), x, localZcut).value
    {
      var m := Moved(arena, x);
      if !arena[m].Primitive? {
        return Fatal(UnsupportedPrimitive);
      }
      match arena[m].shape {
        case Ellipsoid(_, _, _, _, _) =>
          var e :- ApplyZCutEllipsoid(arena[m].shape, localZcut);
          arena := arena[m := Primitive(e)];
        case Polycone(_, _, _, _, _) =>
          var p :- ApplyZCutPolycone(arena[m].shape, localZcut);
          arena := arena[m := Primitive(p)];
        case Tubs(_, _, hz, _, _) =>
          var cut := TubsCut(hz, localZcut);
          arena := arena[m := Primitive(arena[m].shape.(zHalfLength := cut.0))];
          if !arena[x].Displaced? {
            return Fatal(MissingDisplacement);
          }
          var w := arena[x];
          arena := arena[x := w.(tla := w.tla.(z := w.tla.z + cut.1))];
        case OtherShape(_) =>
          return Fatal(UnsupportedPrimitive);
      }
      return Ok(true);
    }

    /** cutTree_r: cut the leaves of the left operand, then those of the right one; a
        leaf reads its frame offset and is cut when its solid is recorded STRADDLE. The
        pass succeeds and leaves the arena exactly as CutR describes. */
    method CutTreeR(node: int, zcut: real) returns (r: Result<bool>)
      requires WellFormed(arena) && 0 <= node < |arena| && ParentOrdered(parentMap, |arena|)
      modifies this`arena
      ensures r.Ok? <==> CutR(old(arena), parentMap, zclsMap, node, zcut).Ok?
      ensures r.Ok? ==> arena == CutR(old(arena), parentMap, zclsMap, node, zcut).value
      decreases node
    {
      if arena[node].Boolean? {
        var l, rt := arena[node].left, arena[node].right;
        ghost var a0 := arena;
        var ok :- CutTreeR(l, zcut);
        SameShapeWellFormed(a0, arena);
        ok :- CutTreeR(rt, zcut);
        return Ok(true);
      }
      var zd :- GetZ(node);
      if Zcls(node, true) == STRADDLE {
        var ok :- ApplyZCut(node, zcut - zd);
      }
      return Ok(true);
    }

    /** findCandidateRoot_r as written: a node recorded INCLUDE becomes the candidate and
        its subtree is skipped; otherwise the right operand is searched, then the left
        one, and the left search overwrites what the right one set. */
    method FindCandidateRootAsWrittenR(node: Option<int>)
      requires WellFormed(arena) && Ref(arena, node)
      modifies this`candidateRoot
      ensures candidateRoot == CandidateAsWritten(arena, zclsMap, node, old(candidateRoot))
      decreases Rank(node)
    {
      if node.None? {
        return;
      }
      var n := node.value;
      if Zcls(n, true) == INCLUDE {
        candidateRoot := node;
        return;
      }
      FindCandidateRootAsWrittenR(Right(arena, n));
      FindCandidateRootAsWrittenR(Left(arena, n));
    }

    /** findCandidateRoot as written: the candidate is the first INCLUDE node of the
        preorder, or none. */
    method FindCandidateRootAsWritten()
      requires WellFormed(arena) && 0 <= root < |arena|
      modifies this`candidateRoot
      ensures candidateRoot == FirstIncluded(arena, zclsMap, Walk(arena, root, Pre))
    {
      candidateRoot := None;
      FindCandidateRootAsWrittenR(Some(root));
      CandidateAsWrittenIsPreorderFirst(arena, zclsMap, root, None);
    }

    /** findCandidateRoot_r as intended: the search stops at the first node recorded
        INCLUDE in reverse preorder; found tells the caller to stop too. */
    method FindCandidateRootR(node: Option<int>) returns (found: bool)
      requires WellFormed(arena) && Ref(arena, node)
      modifies this`candidateRoot
      ensures found <==> FindCandidate(arena, zclsMap, node).Some?
      ensures candidateRoot == if found then FindCandidate(arena, zclsMap, node) else old(candidateRoot)
      decreases Rank(node)
    {
      if node.None? {
        return false;
      }
      var n := node.value;
      if Zcls(n, true) == INCLUDE {
        candidateRoot := node;
        return true;
      }
      found := FindCandidateRootR(Right(arena, n));
      if !found {
        found := FindCandidateRootR(Left(arena, n));
      }
    }

    /** findCandidateRoot as intended: the candidate is the first INCLUDE node of the
        reverse preorder, the undo of the postorder, or none when no reached node is
        recorded INCLUDE. */
    method FindCandidateRoot()
      requires WellFormed(arena) && 0 <= root < |arena|
      modifies this`candidateRoot
      ensures candidateRoot == FindCandidate(arena, zclsMap, Some(root))
      ensures candidateRoot == FirstIncluded(arena, zclsMap, Walk(arena, root, RPre))
    {
      candidateRoot := None;
      var found := FindCandidateRootR(Some(root));
      CandidateIsReversePreorderFirst(arena, zclsMap, root);
    }

    /** collectNodes_r: append to acc the reached leaves below node whose recorded class
        equals the query, left operands first; depth only counts the recursion. */
    method CollectNodesR(acc: seq<int>, node: int, query: Mask, depth: int) returns (out: seq<int>)
      requires WellFormed(arena) && 0 <= node < |arena|
      ensures out == acc + Collected(arena, zclsMap, node, query)
      decreases node
    {
      if arena[node].Boolean? {
        var mid := CollectNodesR(acc, arena[node].left, query, depth + 1);
        out := CollectNodesR(mid, arena[node].right, query, depth + 1);
        assert out == acc + (Collected(arena, zclsMap, arena[node].left, query) + Collected(arena, zclsMap, arena[node].right, query));
      } else if Zcls(node, true) == query {
        out := acc + [node];
      } else {
        out := acc;
      }
    }

    /** collectNodes as written: 0 lands in the query slot and the query in the depth
        slot, so the leaves appended are those recorded UNDEFINED. */
    method CollectNodesAsWritten(acc: seq<int>, top: int, query: Mask) returns (out: seq<int>)
      requires WellFormed(arena) && 0 <= top < |arena|
      ensures out == acc + Reroot.CollectNodesAsWritten(arena, zclsMap, top, query)
      ensures out == acc + Reroot.CollectNodes(arena, zclsMap, top, UNDEFINED)
    {
      out := CollectNodesR(acc, top, 0, query as int);
      CollectNodesAsWrittenIgnoresQuery(arena, zclsMap, top, query);
    }

    /** collectNodes as intended: append the reached leaves below top whose recorded
        class equals the query, in postorder. */
    method CollectNodes(acc: seq<int>, top: int, query: Mask) returns (out: seq<int>)
      requires WellFormed(arena) && 0 <= top < |arena|
      ensures out == acc + Reroot.CollectNodes(arena, zclsMap, top, query)
      ensures out == acc + Matching(arena, zclsMap, Walk(arena, top, Post), query)
    {
      out := CollectNodesR(acc, top, query, 0);
      CollectedIsMatchingPostorder(arena, zclsMap, top, query);
    }

    /** Cutting changes parameters and translations only, so every table initTree built
        still describes the cut tree. */
    lemma ReshapeKeepsValid(a: seq<Node>)
      requires Valid() && SameShape(arena, a)
      ensures WellFormed(a) && TreeAt(a, root)
      ensures Linked(a, root, parentMap, depthMap)
      ensures Traversed(a, root, inorder, rinorder, preorder, rpreorder, postorder, rpostorder,
        inMap, rinMap, preMap, rpreMap, postMap, rpostMap)
      ensures height == Maxdepth(a, root, 0)
    {
      SameShapeSub(arena, a, root);
      SameShapeTables(arena, a, root, In, 0);
      SameShapeTables(arena, a, root, RIn, 0);
      SameShapeTables(arena, a, root, Pre, 0);
      SameShapeTables(arena, a, root, RPre, 0);
      SameShapeTables(arena, a, root, Post, 0);
      SameShapeTables(arena, a, root, RPost, 0);
    }

    /** The three passes of cutTree before the candidate search: classify, cut the
        straddling leaves, classify again. They succeed exactly when the pipeline
        CutTree describes does, and then the arena and the class table are what it
        gives. */
    method CutPasses(zcut: real) returns (r: Result<bool>)
      requires WellFormed(arena) && 0 <= root < |arena| && parentMap == ParentTable(arena, root)
      modifies this`arena, this`zclsMap
      ensures r.Ok? <==> Cut.CutTree(old(arena), root, zcut, old(zclsMap)).Ok?
      ensures r.Ok? ==> (arena, zclsMap) == Cut.CutTree(old(arena), root, zcut, old(zclsMap)).value
    {
      var c1 :- ClassifyTree(zcut);
      var ok :- CutTreeR(root, zcut);
      var c2 :- ClassifyTree(zcut);
      return Ok(true);
    }

    /** The three passes keep every table of initTree valid, since the cuts change
        parameters and translations only. */
    method CutAndReclassify(zcut: real) returns (r: Result<bool>)
      requires Valid()
      modifies this`arena, this`zclsMap
      ensures r.Ok? <==> Cut.CutTree(old(arena), root, zcut, old(zclsMap)).Ok?
      ensures r.Ok? ==> (arena, zclsMap) == Cut.CutTree(old(arena), root, zcut, old(zclsMap)).value
      ensures r.Ok? ==> Valid()
    {
      ghost var want := Cut.CutTree(arena, root, zcut, zclsMap);
      if want.Ok? {
        ReshapeKeepsValid(want.value.0);
      }
      r := CutPasses(zcut);
    }

    /** cutTree: the three passes, then the search for the candidate root as the code
        makes it. It succeeds exactly when the pipeline CutTree describes does, and then
        the arena and the class table are what it gives, every table of initTree still
        holds, and the candidate is the first INCLUDE node of the preorder. */
    method CutTree(zcut: real) returns (r: Result<bool>)
      requires Valid()
      modifies this`arena, this`zclsMap, this`candidateRoot
      ensures r.Ok? <==> Cut.CutTree(old(arena), root, zcut, old(zclsMap)).Ok?
      ensures r.Ok? ==> (arena, zclsMap) == Cut.CutTree(old(arena), root, zcut, old(zclsMap)).value
      ensures r.Ok? ==> Valid() && candidateRoot == FirstIncluded(arena, zclsMap, Walk(arena, root, Pre))
    {
      r := CutAndReclassify(zcut);
      if r.Ok? {
        FindCandidateRootAsWritten();
      }
    }

    /** The constructor with init's dump, as an entry that reports an assertion that
        fails: it fails exactly when the deep clone of the original does or the dump
        over the clone does, and otherwise gives a fresh object over the clone with
        every table of initTree valid and no class recorded. */
    static method Create(original: seq<Node>, top: int) returns (r: Result<ZSolid>)
      requires WellFormed(original) && 0 <= top < |original|
      ensures r.Ok? <==> Constructs(original, top)
      ensures r.Ok? ==> fresh(r.value) && r.value.Valid() && r.value.zclsMap == map[] && r.value.candidateRoot == None
      ensures r.Ok? ==> (r.value.arena, r.value.root) == DeepClone(original, top).value
    {
      var clone :- DeepClone(original, top);
      var zs := new ZSolid(original, top);
      var dumped :- zs.DumpTreeR(zs.root);
      return Ok(zs);
    }

    /** CreateZCutTree: clone the original, cut the clone at zcut, and hand back the cut
        tree under the clone's root (not the candidate). It succeeds exactly when
        construction and the pipeline CutTree over the clone, from an empty class table,
        succeed. */
    static method CreateZCutTree(original: seq<Node>, top: int, zcut: real) returns (r: Result<(seq<Node>, int)>)
      requires WellFormed(original) && 0 <= top < |original|
      ensures r.Ok? <==> (Constructs(original, top) &&
        Cut.CutTree(DeepClone(original, top).value.0, DeepClone(original, top).value.1, zcut, map[]).Ok?)
      ensures r.Ok? ==> (r.value ==
        (Cut.CutTree(DeepClone(original, top).value.0, DeepClone(original, top).value.1, zcut, map[]).value.0,
         DeepClone(original, top).value.1))
    {
      var zs :- Create(original, top);
      var ok :- zs.CutTree(zcut);
      return Ok((zs.arena, zs.root));
    }
  }
}
