/** The six traversal orders of the engine, the rank tables built from them, the parent
    table and the depth table, as functions of the arena. */
module Traversal {
  import opened Csg

  datatype Order = In | RIn | Pre | RPre | Post | RPost

  /** The nodes reached from n in the given order; Left and Right give no child for
      anything but a boolean solid. */
  function Walk(nodes: seq<Node>, n: int, mode: Order): (s: seq<int>)
    requires WellFormed(nodes) && 0 <= n < |nodes|
    ensures n in s
    ensures forall k :: k in s ==> 0 <= k <= n
    decreases n
  {
    if nodes[n].Boolean? then
      ArrangeMembers(mode, n, Walk(nodes, nodes[n].left, mode), Walk(nodes, nodes[n].right, mode));
      Arrange(mode, n, Walk(nodes, nodes[n].left, mode), Walk(nodes, nodes[n].right, mode))
    else [n]
  }

  /** Where a boolean solid goes relative to the walks of its left and right operands. */
  function Arrange(mode: Order, n: int, L: seq<int>, R: seq<int>): seq<int> {
    match mode
    case In => L + [n] + R
    case RIn => R + [n] + L
    case Pre => [n] + L + R
    case RPre => [n] + R + L
    case Post => L + R + [n]
    case RPost => R + L + [n]
  }

  /** The walk from a nullable node: nothing for null. */
  function WalkFrom(nodes: seq<Node>, node: Option<int>, mode: Order): seq<int>
    requires WellFormed(nodes) && Ref(nodes, node)
  {
    if node.None? then [] else Walk(nodes, node.value, mode)
  }

  function Reverse(s: seq<int>): (r: seq<int>)
    ensures |r| == |s|
  {
    if s == [] then [] else Reverse(s[1..]) + [s[0]]
  }

  lemma {:induction false} ReverseAppend(a: seq<int>, b: seq<int>)
    ensures Reverse(a + b) == Reverse(b) + Reverse(a)
  {
    if a == [] {
      assert a + b == b;
    } else {
      assert (a + b)[1..] == a[1..] + b;
      ReverseAppend(a[1..], b);
    }
  }

  /** Reverse preorder is postorder read backwards. */
  lemma {:induction false} ReversePreorderMirrorsPostorder(nodes: seq<Node>, n: int)
    requires WellFormed(nodes) && 0 <= n < |nodes|
    ensures Walk(nodes, n, RPre) == Reverse(Walk(nodes, n, Post))
    decreases n
  {
    if nodes[n].Boolean? {
      var l, r := nodes[n].left, nodes[n].right;
      ReversePreorderMirrorsPostorder(nodes, l);
      ReversePreorderMirrorsPostorder(nodes, r);
      var L, R := Walk(nodes, l, Post), Walk(nodes, r, Post);
      ReverseAppend(L + R, [n]);
      ReverseAppend(L, R);
      assert Reverse([n]) == [n];
    }
  }

  /** Reverse postorder is preorder read backwards. */
  lemma {:induction false} ReversePostorderMirrorsPreorder(nodes: seq<Node>, n: int)
    requires WellFormed(nodes) && 0 <= n < |nodes|
    ensures Walk(nodes, n, RPost) == Reverse(Walk(nodes, n, Pre))
    decreases n
  {
    if nodes[n].Boolean? {
      var l, r := nodes[n].left, nodes[n].right;
      ReversePostorderMirrorsPreorder(nodes, l);
      ReversePostorderMirrorsPreorder(nodes, r);
      var L, R := Walk(nodes, l, Pre), Walk(nodes, r, Pre);
      assert [n] + L + R == [n] + (L + R);
      ReverseAppend([n], L + R);
      ReverseAppend(L, R);
      assert Reverse([n]) == [n];
    }
  }

  /** Reverse inorder is inorder read backwards. */
  lemma {:induction false} ReverseInorderMirrorsInorder(nodes: seq<Node>, n: int)
    requires WellFormed(nodes) && 0 <= n < |nodes|
    ensures Walk(nodes, n, RIn) == Reverse(Walk(nodes, n, In))
    decreases n
  {
    if nodes[n].Boolean? {
      var l, r := nodes[n].left, nodes[n].right;
      ReverseInorderMirrorsInorder(nodes, l);
      ReverseInorderMirrorsInorder(nodes, r);
      var L, R := Walk(nodes, l, In), Walk(nodes, r, In);
      ReverseAppend(L + [n], R);
      ReverseAppend(L, [n]);
      assert Reverse([n]) == [n];
    }
  }

  predicate Distinct(s: seq<int>) {
    forall i, j :: 0 <= i < j < |s| ==> s[i] != s[j]
  }

  lemma DistinctAppend(a: seq<int>, b: seq<int>)
    requires Distinct(a) && Distinct(b)
    requires forall k :: k in a ==> k !in b
    ensures Distinct(a + b)
  {
    forall i, j | 0 <= i < j < |a + b|
      ensures (a + b)[i] != (a + b)[j]
    {
      if j >= |a| && i < |a| {
        assert (a + b)[i] in a && (a + b)[j] in b;
      }
    }
  }

  lemma ArrangeMembers(mode: Order, n: int, L: seq<int>, R: seq<int>)
    ensures forall k :: k in Arrange(mode, n, L, R) <==> k == n || k in L || k in R
  {
  }

  lemma ArrangeDistinct(mode: Order, n: int, L: seq<int>, R: seq<int>)
    requires Distinct(L) && Distinct(R) && n !in L && n !in R
    requires forall k :: k in L ==> k !in R
    ensures Distinct(Arrange(mode, n, L, R))
  {
    assert Distinct([n]);
    match mode
    case In =>
      DistinctAppend(L, [n]);
      DistinctAppend(L + [n], R);
    case RIn =>
      DistinctAppend(R, [n]);
      DistinctAppend(R + [n], L);
    case Pre =>
      DistinctAppend([n], L);
      DistinctAppend([n] + L, R);
    case RPre =>
      DistinctAppend([n], R);
      DistinctAppend([n] + R, L);
    case Post =>
      DistinctAppend(L, R);
      DistinctAppend(L + R, [n]);
    case RPost =>
      DistinctAppend(R, L);
      DistinctAppend(R + L, [n]);
  }

  /** Every order lists exactly the nodes the traversals reach. */
  lemma {:induction false} WalkMembers(nodes: seq<Node>, n: int, mode: Order)
    requires WellFormed(nodes) && 0 <= n < |nodes|
    ensures forall k :: k in Walk(nodes, n, mode) <==> k in Visible(nodes, n)
    decreases n
  {
    if nodes[n].Boolean? {
      WalkMembers(nodes, nodes[n].left, mode);
      WalkMembers(nodes, nodes[n].right, mode);
      ArrangeMembers(mode, n, Walk(nodes, nodes[n].left, mode), Walk(nodes, nodes[n].right, mode));
    }
  }

  /** In a tree, no order lists a node twice. */
  lemma {:induction false} WalkDistinct(nodes: seq<Node>, n: int, mode: Order)
    requires WellFormed(nodes) && 0 <= n < |nodes| && TreeAt(nodes, n)
    ensures Distinct(Walk(nodes, n, mode))
    decreases n
  {
    if nodes[n].Boolean? {
      var l, r := nodes[n].left, nodes[n].right;
      WalkDistinct(nodes, l, mode);
      WalkDistinct(nodes, r, mode);
      WalkMembers(nodes, l, mode);
      WalkMembers(nodes, r, mode);
      var L, R := Walk(nodes, l, mode), Walk(nodes, r, mode);
      assert forall k :: k in L ==> k in Sub(nodes, l);
      assert forall k :: k in R ==> k in Sub(nodes, r);
      ArrangeDistinct(mode, n, L, R);
    } else {
      assert Walk(nodes, n, mode) == [n];
    }
  }

  /** In a tree, every order lists each node the traversals reach exactly once. */
  lemma WalkListsVisibleOnce(nodes: seq<Node>, n: int, mode: Order)
    requires WellFormed(nodes) && 0 <= n < |nodes| && TreeAt(nodes, n)
    ensures Distinct(Walk(nodes, n, mode))
    ensures forall k :: k in Walk(nodes, n, mode) <==> k in Visible(nodes, n)
    ensures |Walk(nodes, n, mode)| == |Visible(nodes, n)|
  {
    var s := Walk(nodes, n, mode);
    WalkMembers(nodes, n, mode);
    WalkDistinct(nodes, n, mode);
    DistinctCardinality(s);
    assert (set k | k in s) == Visible(nodes, n);
  }

  lemma {:induction false} DistinctCardinality(s: seq<int>)
    requires Distinct(s)
    ensures |set k | k in s| == |s|
  {
    if s != [] {
      var t := s[..|s| - 1];
      assert Distinct(t);
      DistinctCardinality(t);
      assert (set k | k in s) == (set k | k in t) + {s[|s| - 1]};
      assert s[|s| - 1] !in t;
    } else {
      assert (set k | k in s) == {};
    }
  }

  /** The rank table the traversals write: each listed node gets base plus its position,
      later entries overwriting earlier ones. */
  function Ranks(s: seq<int>, base: int): map<int, int> {
    if s == [] then map[] else Ranks(s[..|s| - 1], base)[s[|s| - 1] := base + |s| - 1]
  }

  lemma {:induction false} RanksAppend(a: seq<int>, b: seq<int>, base: int)
    ensures Ranks(a + b, base) == Ranks(a, base) + Ranks(b, base + |a|)
    decreases |b|
  {
    if b == [] {
      assert a + b == a;
    } else {
      var b' := b[..|b| - 1];
      assert (a + b)[..|a + b| - 1] == a + b';
      RanksAppend(a, b', base);
    }
  }

  /** On a list without repeats the rank table maps exactly the listed nodes, each to
      base plus its position. */
  lemma {:induction false} RanksArePositions(s: seq<int>, base: int)
    requires Distinct(s)
    ensures Ranks(s, base).Keys == set k | k in s
    ensures forall i :: 0 <= i < |s| ==> Ranks(s, base)[s[i]] == base + i
  {
    if s != [] {
      var t := s[..|s| - 1];
      RanksArePositions(t, base);
      assert forall i :: 0 <= i < |t| ==> t[i] != s[|s| - 1];
      assert (set k | k in s) == (set k | k in t) + {s[|s| - 1]};
    } else {
      assert (set k | k in s) == {};
    }
  }

  /** The parent entries the postorder pass records: each operand of a boolean solid
      maps to that solid. The root's own entry is added by the caller. */
  function Parents(nodes: seq<Node>, node: Option<int>): map<int, Option<int>>
    requires WellFormed(nodes) && Ref(nodes, node)
    decreases Rank(node)
  {
    if node.None? || !nodes[node.value].Boolean? then map[]
    else
      var n := node.value;
      var l, r := nodes[n].left, nodes[n].right;
      Parents(nodes, Some(l)) + Parents(nodes, Some(r)) + map[l := Some(n)] + map[r := Some(n)]
  }

  /** The parent table of a whole tree: the root has no parent. */
  function ParentTable(nodes: seq<Node>, root: int): (pm: map<int, Option<int>>)
    requires WellFormed(nodes) && 0 <= root < |nodes|
    ensures ParentOrdered(pm, |nodes|) && ParentsBoolean(nodes, pm)
  {
    ParentsPointUp(nodes, root);
    map[root := None] + Parents(nodes, Some(root))
  }

  /** Parent links point upwards in the arena, so following them ends. */
  predicate ParentOrdered(pm: map<int, Option<int>>, size: int) {
    forall k :: k in pm && pm[k].Some? ==> 0 <= k < pm[k].value < size
  }

  /** Every recorded parent is a boolean solid. */
  predicate ParentsBoolean(nodes: seq<Node>, pm: map<int, Option<int>>) {
    forall k :: k in pm && pm[k].Some? ==> 0 <= pm[k].value < |nodes| && nodes[pm[k].value].Boolean?
  }

  /** The parent table of a tree links each operand of every reached boolean solid to
      that solid, gives the root no parent, mentions only reached nodes, and its links
      point up the arena to boolean solids. */
  lemma ParentTableLinksOperands(nodes: seq<Node>, root: int)
    requires WellFormed(nodes) && 0 <= root < |nodes| && TreeAt(nodes, root)
    ensures ParentTable(nodes, root).Keys == Visible(nodes, root)
    ensures ParentTable(nodes, root)[root] == None
    ensures forall b :: b in Visible(nodes, root) && nodes[b].Boolean? ==>
      && nodes[b].left in ParentTable(nodes, root) && ParentTable(nodes, root)[nodes[b].left] == Some(b)
      && nodes[b].right in ParentTable(nodes, root) && ParentTable(nodes, root)[nodes[b].right] == Some(b)
    ensures ParentOrdered(ParentTable(nodes, root), |nodes|)
    ensures ParentsBoolean(nodes, ParentTable(nodes, root))
  {
    var P := Parents(nodes, Some(root));
    var T := ParentTable(nodes, root);
    ParentsKeys(nodes, root);
    ParentsPointUp(nodes, root);
    assert T == map[root := None] + P;
    forall b | b in Visible(nodes, root) && nodes[b].Boolean?
      ensures nodes[b].left in T && T[nodes[b].left] == Some(b) && nodes[b].right in T && T[nodes[b].right] == Some(b)
    {
      ParentsLink(nodes, root, b, nodes[b].left);
      ParentsLink(nodes, root, b, nodes[b].right);
      assert nodes[b].left in P && nodes[b].right in P;
    }
  }

  lemma {:induction false} ParentsKeys(nodes: seq<Node>, n: int)
    requires WellFormed(nodes) && 0 <= n < |nodes|
    ensures Parents(nodes, Some(n)).Keys == Visible(nodes, n) - {n}
    decreases n
  {
    if nodes[n].Boolean? {
      var l, r := nodes[n].left, nodes[n].right;
      ParentsKeys(nodes, l);
      ParentsKeys(nodes, r);
      var PL, PR := Parents(nodes, Some(l)), Parents(nodes, Some(r));
      assert Parents(nodes, Some(n)).Keys == PL.Keys + PR.Keys + {l} + {r};
      assert l in Visible(nodes, l) && r in Visible(nodes, r);
      assert n !in Visible(nodes, l) + Visible(nodes, r);
    }
  }

  lemma {:induction false} ParentsPointUp(nodes: seq<Node>, n: int)
    requires WellFormed(nodes) && 0 <= n < |nodes|
    ensures ParentOrdered(Parents(nodes, Some(n)), |nodes|)
    ensures ParentsBoolean(nodes, Parents(nodes, Some(n)))
    decreases n
  {
    if nodes[n].Boolean? {
      var l, r := nodes[n].left, nodes[n].right;
      ParentsPointUp(nodes, l);
      ParentsPointUp(nodes, r);
      var P, PL, PR := Parents(nodes, Some(n)), Parents(nodes, Some(l)), Parents(nodes, Some(r));
      assert P == PL + PR + map[l := Some(n)] + map[r := Some(n)];
      forall k | k in P && P[k].Some?
        ensures 0 <= k < P[k].value < |nodes| && nodes[P[k].value].Boolean?
      {
        if k == r || k == l {
        } else if k in PR {
          assert P[k] == PR[k];
        } else {
          assert P[k] == PL[k];
        }
      }
    }
  }

  /** A lookup in the parent entries of a boolean solid, for a key that is neither operand. */
  lemma FourWayLookup(PL: map<int, Option<int>>, PR: map<int, Option<int>>, l: int, r: int, v: Option<int>, c: int)
    requires c != l && c != r && (c in PL || c in PR) && (c in PL ==> c !in PR)
    ensures var P := PL + PR + map[l := v] + map[r := v];
      c in P && P[c] == if c in PR then PR[c] else PL[c]
  {
  }

  /** The same lookup for one of the two operands themselves. */
  lemma OperandLookup(PL: map<int, Option<int>>, PR: map<int, Option<int>>, l: int, r: int, v: Option<int>, c: int)
    requires l != r && (c == l || c == r)
    ensures var P := PL + PR + map[l := v] + map[r := v];
      c in P && P[c] == v
  {
  }

  lemma {:induction false} ParentsLink(nodes: seq<Node>, n: int, b: int, c: int)
    requires WellFormed(nodes) && 0 <= n < |nodes| && TreeAt(nodes, n)
    requires b in Visible(nodes, n) && nodes[b].Boolean?
    requires c == nodes[b].left || c == nodes[b].right
    ensures c in Parents(nodes, Some(n)) && Parents(nodes, Some(n))[c] == Some(b)
    decreases n
  {
    var l, r := nodes[n].left, nodes[n].right;
    if b != n {
      var PL, PR := Parents(nodes, Some(l)), Parents(nodes, Some(r));
      assert Parents(nodes, Some(n)) == PL + PR + map[l := Some(n)] + map[r := Some(n)];
      ParentsKeys(nodes, l);
      ParentsKeys(nodes, r);
      assert b in Visible(nodes, l) || b in Visible(nodes, r);
      if b in Visible(nodes, l) {
        ParentsLink(nodes, l, b, c);
        SubTransitive(nodes, l, b);
        assert c in Sub(nodes, l) && r in Sub(nodes, r);
        assert c !in PR && c != r && c != l;
      } else {
        ParentsLink(nodes, r, b, c);
        SubTransitive(nodes, r, b);
        assert c in Sub(nodes, r) && l in Sub(nodes, l);
        assert c != r && c != l;
      }
      FourWayLookup(PL, PR, l, r, Some(n), c);
    } else {
      assert l in Sub(nodes, l) && r in Sub(nodes, r);
      OperandLookup(Parents(nodes, Some(l)), Parents(nodes, Some(r)), l, r, Some(n), c);
    }
  }

  /** The depth table of the postorder pass: each reached node at its distance from n
      plus the starting depth. */
  function Depths(nodes: seq<Node>, node: Option<int>, depth: int): map<int, int>
    requires WellFormed(nodes) && Ref(nodes, node)
    decreases Rank(node)
  {
    if node.None? then map[]
    else
      var n := node.value;
      Depths(nodes, Left(nodes, n), depth + 1) + Depths(nodes, Right(nodes, n), depth + 1) + map[n := depth]
  }

  /** The largest depth below n, counting n at the given depth. */
  function Maxdepth(nodes: seq<Node>, n: int, depth: int): int
    requires WellFormed(nodes) && 0 <= n < |nodes|
    decreases n
  {
    if nodes[n].Boolean? then
      var a := Maxdepth(nodes, nodes[n].left, depth + 1);
      var b := Maxdepth(nodes, nodes[n].right, depth + 1);
      if a >= b then a else b
    else depth
  }

  lemma {:induction false} DepthsKeys(nodes: seq<Node>, n: int, depth: int)
    requires WellFormed(nodes) && 0 <= n < |nodes|
    ensures Depths(nodes, Some(n), depth).Keys == Visible(nodes, n)
    ensures Depths(nodes, Some(n), depth)[n] == depth
    decreases n
  {
    if nodes[n].Boolean? {
      DepthsKeys(nodes, nodes[n].left, depth + 1);
      DepthsKeys(nodes, nodes[n].right, depth + 1);
    }
  }

  /** In a tree each operand of a reached boolean solid sits one level deeper than it. */
  lemma {:induction false} DepthsStepDown(nodes: seq<Node>, n: int, depth: int, b: int)
    requires WellFormed(nodes) && 0 <= n < |nodes| && TreeAt(nodes, n)
    requires b in Visible(nodes, n) && nodes[b].Boolean?
    ensures Depths(nodes, Some(n), depth).Keys == Visible(nodes, n)
    ensures nodes[b].left in Visible(nodes, n) && nodes[b].right in Visible(nodes, n)
    ensures Depths(nodes, Some(n), depth)[nodes[b].left] == Depths(nodes, Some(n), depth)[b] + 1
    ensures Depths(nodes, Some(n), depth)[nodes[b].right] == Depths(nodes, Some(n), depth)[b] + 1
    decreases n
  {
    DepthsKeys(nodes, n, depth);
    VisibleChildren(nodes, n, b);
    var l, r := nodes[n].left, nodes[n].right;
    DepthsKeys(nodes, l, depth + 1);
    DepthsKeys(nodes, r, depth + 1);
    var D := Depths(nodes, Some(n), depth);
    var DL, DR := Depths(nodes, Some(l), depth + 1), Depths(nodes, Some(r), depth + 1);
    assert D == DL + DR + map[n := depth];
    var bl, br := nodes[b].left, nodes[b].right;
    if b == n {
      assert l !in DR && r in DR;
    } else if b in Visible(nodes, l) {
      DepthsStepDown(nodes, l, depth + 1, b);
      SubTransitive(nodes, l, b);
      VisibleChildren(nodes, l, b);
      assert bl in Sub(nodes, b) && br in Sub(nodes, b) && b in Sub(nodes, l);
      assert bl !in DR && br !in DR && b !in DR;
    } else {
      assert b in Visible(nodes, r);
      DepthsStepDown(nodes, r, depth + 1, b);
      VisibleChildren(nodes, r, b);
    }
  }

  /** The depth table of a boolean solid agrees with those of its operands on the nodes
      they reach, which lie apart in a tree. */
  lemma DepthsSplit(nodes: seq<Node>, n: int, depth: int)
    requires WellFormed(nodes) && 0 <= n < |nodes| && TreeAt(nodes, n) && nodes[n].Boolean?
    ensures var D := Depths(nodes, Some(n), depth);
      var DL := Depths(nodes, Some(nodes[n].left), depth + 1);
      var DR := Depths(nodes, Some(nodes[n].right), depth + 1);
      && (forall k :: k in Visible(nodes, nodes[n].left) ==> k in D && k in DL && D[k] == DL[k])
      && (forall k :: k in Visible(nodes, nodes[n].right) ==> k in D && k in DR && D[k] == DR[k])
  {
    var l, r := nodes[n].left, nodes[n].right;
    DepthsKeys(nodes, l, depth + 1);
    DepthsKeys(nodes, r, depth + 1);
    var D := Depths(nodes, Some(n), depth);
    var DL, DR := Depths(nodes, Some(l), depth + 1), Depths(nodes, Some(r), depth + 1);
    assert D == DL + DR + map[n := depth];
    assert forall k :: k in Visible(nodes, l) ==> k in Sub(nodes, l) && k !in DR && k != n;
    assert forall k :: k in Visible(nodes, r) ==> k != n;
  }

  /** Maxdepth is the largest depth the depth table records. */
  lemma {:induction false} MaxdepthIsDeepest(nodes: seq<Node>, n: int, depth: int)
    requires WellFormed(nodes) && 0 <= n < |nodes| && TreeAt(nodes, n)
    ensures Depths(nodes, Some(n), depth).Keys == Visible(nodes, n)
    ensures forall k :: k in Visible(nodes, n) ==> depth <= Depths(nodes, Some(n), depth)[k] <= Maxdepth(nodes, n, depth)
    ensures exists k :: k in Visible(nodes, n) && Depths(nodes, Some(n), depth)[k] == Maxdepth(nodes, n, depth)
    decreases n
  {
    DepthsKeys(nodes, n, depth);
    var D := Depths(nodes, Some(n), depth);
    if nodes[n].Boolean? {
      var l, r := nodes[n].left, nodes[n].right;
      MaxdepthIsDeepest(nodes, l, depth + 1);
      MaxdepthIsDeepest(nodes, r, depth + 1);
      DepthsSplit(nodes, n, depth);
      var ml := Maxdepth(nodes, l, depth + 1);
      var mr := Maxdepth(nodes, r, depth + 1);
      assert Visible(nodes, n) == {n} + Visible(nodes, l) + Visible(nodes, r);
      if ml >= mr {
        var k :| k in Visible(nodes, l) && Depths(nodes, Some(l), depth + 1)[k] == ml;
        assert D[k] == Maxdepth(nodes, n, depth);
      } else {
        var k :| k in Visible(nodes, r) && Depths(nodes, Some(r), depth + 1)[k] == mr;
        assert D[k] == Maxdepth(nodes, n, depth);
      }
    } else {
      assert D[n] == depth;
    }
  }

  lemma {:induction false} VisibleChildren(nodes: seq<Node>, n: int, b: int)
    requires WellFormed(nodes) && 0 <= n < |nodes| && b in Visible(nodes, n) && nodes[b].Boolean?
    ensures nodes[b].left in Visible(nodes, n) && nodes[b].right in Visible(nodes, n)
    decreases n
  {
    if b != n {
      if b in Visible(nodes, nodes[n].left) {
        VisibleChildren(nodes, nodes[n].left, b);
      } else {
        VisibleChildren(nodes, nodes[n].right, b);
      }
    }
  }

  /** The traversal tables depend on the tree's shape only: cutting, which changes
      parameters and translations, leaves every walk, the parent links and the depths as
      they were. */
  lemma {:induction false} SameShapeTables(a: seq<Node>, b: seq<Node>, n: int, mode: Order, depth: int)
    requires WellFormed(a) && SameShape(a, b) && 0 <= n < |a|
    ensures WellFormed(b)
    ensures Walk(b, n, mode) == Walk(a, n, mode)
    ensures Parents(b, Some(n)) == Parents(a, Some(n))
    ensures Depths(b, Some(n), depth) == Depths(a, Some(n), depth)
    ensures Maxdepth(b, n, depth) == Maxdepth(a, n, depth)
    decreases n
  {
    assert forall i :: 0 <= i < |b| ==> SameKind(a[i], b[i]);
    if a[n].Boolean? {
      SameShapeTables(a, b, a[n].left, mode, depth + 1);
      SameShapeTables(a, b, a[n].right, mode, depth + 1);
    }
  }

  /** The list of one traversal is the walk of the tree in its order, and the rank
      table gives each listed node its position. */
  predicate Listed(nodes: seq<Node>, root: int, mode: Order, list: seq<int>, ranks: map<int, int>)
    requires WellFormed(nodes) && 0 <= root < |nodes|
  {
    list == Walk(nodes, root, mode) && ranks == Ranks(list, 0)
  }

  /** The six traversal lists of initTree and their rank tables describe the tree. */
  predicate Traversed(nodes: seq<Node>, root: int,
    inorder: seq<int>, rinorder: seq<int>, preorder: seq<int>, rpreorder: seq<int>, postorder: seq<int>, rpostorder: seq<int>,
    inRank: map<int, int>, rinRank: map<int, int>, preRank: map<int, int>, rpreRank: map<int, int>, postRank: map<int, int>, rpostRank: map<int, int>)
    requires WellFormed(nodes) && 0 <= root < |nodes|
  {
    && Listed(nodes, root, In, inorder, inRank) && Listed(nodes, root, RIn, rinorder, rinRank)
    && Listed(nodes, root, Pre, preorder, preRank) && Listed(nodes, root, RPre, rpreorder, rpreRank)
    && Listed(nodes, root, Post, postorder, postRank) && Listed(nodes, root, RPost, rpostorder, rpostRank)
  }

  /** The nodes below root form a tree, and the parent and depth tables describe it. */
  predicate Linked(nodes: seq<Node>, root: int, pm: map<int, Option<int>>, dm: map<int, int>) {
    && WellFormed(nodes) && 0 <= root < |nodes| && TreeAt(nodes, root)
    && pm == ParentTable(nodes, root)
    && dm == Depths(nodes, Some(root), 0)
  }

  /** Six rank tables that hold nothing yet. */
  predicate Unranked(a: map<int, int>, b: map<int, int>, c: map<int, int>, d: map<int, int>, e: map<int, int>, f: map<int, int>) {
    a == b == c == d == e == f == map[]
  }
}
