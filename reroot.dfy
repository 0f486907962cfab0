/** Re-rooting and node collection over the class table: findCandidateRoot_r looks for
    a node whose class is exactly INCLUDE, collectNodes_r gathers the leaves holding a
    queried class. Both read classes through the unwrapped identity, as zcls does. */
module Reroot {
  import opened Csg
  import opened ZCut
  import opened Traversal
  import opened Classify

  /** The class zcls reports for n, looking through a displacement wrapper. */
  function ZclsMoved(nodes: seq<Node>, zm: map<int, Mask>, n: int): Mask
    requires WellFormed(nodes) && 0 <= n < |nodes|
  {
    ClassOf(zm, Moved(nodes, n))
  }

  /** k is a node of the arena whose class, seen through its wrapper, is exactly
      INCLUDE. */
  predicate IncludedAt(nodes: seq<Node>, zm: map<int, Mask>, k: int)
    requires WellFormed(nodes)
  {
    0 <= k < |nodes| && ZclsMoved(nodes, zm, k) == INCLUDE
  }

  /** k is a leaf of the arena whose class, seen through its wrapper, equals the query. */
  predicate LeafMatches(nodes: seq<Node>, zm: map<int, Mask>, k: int, query: Mask)
    requires WellFormed(nodes)
  {
    0 <= k < |nodes| && !nodes[k].Boolean? && ZclsMoved(nodes, zm, k) == query
  }

  /** The position of the first node of s whose class is exactly INCLUDE; |s| when
      there is none. */
  function FirstIncludedAt(nodes: seq<Node>, zm: map<int, Mask>, s: seq<int>): (i: nat)
    requires WellFormed(nodes)
    ensures i <= |s|
    ensures forall j :: 0 <= j < i ==> !IncludedAt(nodes, zm, s[j])
    ensures i < |s| ==> IncludedAt(nodes, zm, s[i])
  {
    if |s| == 0 then 0
    else if IncludedAt(nodes, zm, s[0]) then 0
    else 1 + FirstIncludedAt(nodes, zm, s[1..])
  }

  /** The first node of a walk whose class is exactly INCLUDE, if any. */
  function FirstIncluded(nodes: seq<Node>, zm: map<int, Mask>, s: seq<int>): Option<int>
    requires WellFormed(nodes)
  {
    var i := FirstIncludedAt(nodes, zm, s);
    if i < |s| then Some(s[i]) else None
  }

  lemma {:induction false} FirstIncludedAppend(nodes: seq<Node>, zm: map<int, Mask>, a: seq<int>, b: seq<int>)
    requires WellFormed(nodes)
    ensures FirstIncluded(nodes, zm, a + b) ==
      if FirstIncluded(nodes, zm, a).Some? then FirstIncluded(nodes, zm, a) else FirstIncluded(nodes, zm, b)
    decreases |a|
  {
    if |a| > 0 {
      assert (a + b)[0] == a[0] && (a + b)[1..] == a[1..] + b;
      FirstIncludedAppend(nodes, zm, a[1..], b);
    } else {
      assert a + b == b;
    }
  }

  /** findCandidateRoot_r as written: a node with class exactly INCLUDE becomes the
      candidate and its subtree is not entered; otherwise the right operand is searched
      and then the left one, and a candidate found on the left replaces one found on
      the right, because the early return leaves only the current call. */
  function CandidateAsWritten(nodes: seq<Node>, zm: map<int, Mask>, node: Option<int>, candidate: Option<int>): Option<int>
    requires WellFormed(nodes) && Ref(nodes, node)
    decreases Rank(node)
  {
    if node.None? then candidate
    else
      var n := node.value;
      if ZclsMoved(nodes, zm, n) == INCLUDE then Some(n)
      else CandidateAsWritten(nodes, zm, Left(nodes, n), CandidateAsWritten(nodes, zm, Right(nodes, n), candidate))
  }

  /** As written, the search yields the first INCLUDE node in preorder (self, left,
      right), not in reverse preorder; the incoming candidate survives only when no node
      qualifies. */
  lemma {:induction false} CandidateAsWrittenIsPreorderFirst(nodes: seq<Node>, zm: map<int, Mask>, n: int, candidate: Option<int>)
    requires WellFormed(nodes) && 0 <= n < |nodes|
    ensures CandidateAsWritten(nodes, zm, Some(n), candidate) ==
      if FirstIncluded(nodes, zm, Walk(nodes, n, Pre)).Some? then FirstIncluded(nodes, zm, Walk(nodes, n, Pre)) else candidate
    decreases n
  {
    if nodes[n].Boolean? {
      var l, r := nodes[n].left, nodes[n].right;
      var L, R := Walk(nodes, l, Pre), Walk(nodes, r, Pre);
      CandidateAsWrittenIsPreorderFirst(nodes, zm, r, candidate);
      CandidateAsWrittenIsPreorderFirst(nodes, zm, l, CandidateAsWritten(nodes, zm, Some(r), candidate));
      assert Walk(nodes, n, Pre) == [n] + L + R;
      FirstIncludedAppend(nodes, zm, [n], L);
      FirstIncludedAppend(nodes, zm, [n] + L, R);
    }
  }

  /** findCandidateRoot_r as intended: the search stops at the first node with class
      exactly INCLUDE in reverse preorder (self, right, left). */
  function FindCandidate(nodes: seq<Node>, zm: map<int, Mask>, node: Option<int>): (r: Option<int>)
    requires WellFormed(nodes) && Ref(nodes, node)
    ensures r.Some? ==> node.Some? && r.value in Visible(nodes, node.value) && ZclsMoved(nodes, zm, r.value) == INCLUDE
    decreases Rank(node)
  {
    if node.None? then None
    else
      var n := node.value;
      if ZclsMoved(nodes, zm, n) == INCLUDE then Some(n)
      else
        var found := FindCandidate(nodes, zm, Right(nodes, n));
        if found.Some? then found else FindCandidate(nodes, zm, Left(nodes, n))
  }

  /** The intended search yields the first INCLUDE node in reverse preorder. */
  lemma {:induction false} CandidateIsReversePreorderFirst(nodes: seq<Node>, zm: map<int, Mask>, n: int)
    requires WellFormed(nodes) && 0 <= n < |nodes|
    ensures FindCandidate(nodes, zm, Some(n)) == FirstIncluded(nodes, zm, Walk(nodes, n, RPre))
    decreases n
  {
    if nodes[n].Boolean? {
      var l, r := nodes[n].left, nodes[n].right;
      var L, R := Walk(nodes, l, RPre), Walk(nodes, r, RPre);
      CandidateIsReversePreorderFirst(nodes, zm, r);
      CandidateIsReversePreorderFirst(nodes, zm, l);
      assert Walk(nodes, n, RPre) == [n] + R + L;
      FirstIncludedAppend(nodes, zm, [n], R);
      FirstIncludedAppend(nodes, zm, [n] + R, L);
    }
  }

  /** The search comes back empty only when no reached node holds exactly INCLUDE. */
  lemma NoCandidateMeansNoneIncluded(nodes: seq<Node>, zm: map<int, Mask>, n: int)
    requires WellFormed(nodes) && 0 <= n < |nodes|
    ensures FindCandidate(nodes, zm, Some(n)).None? <==>
      forall k :: k in Visible(nodes, n) ==> ZclsMoved(nodes, zm, k) != INCLUDE
  {
    CandidateIsReversePreorderFirst(nodes, zm, n);
    WalkMembers(nodes, n, RPre);
    var s := Walk(nodes, n, RPre);
    if FindCandidate(nodes, zm, Some(n)).None? {
      forall k | k in Visible(nodes, n)
        ensures ZclsMoved(nodes, zm, k) != INCLUDE
      {
        assert k in s;
        var j :| 0 <= j < |s| && s[j] == k;
      }
    }
  }

  /** A value whose STRADDLE and EXCLUDE bits are clear: nothing in it is cut away. */
  predicate Intact(v: Mask) {
    v & (STRADDLE | EXCLUDE) == 0
  }

  /** A subtree whose value is intact has no reached leaf that straddles or is
      excluded: each is INCLUDE or has no class. */
  lemma {:induction false} IntactLeaves(nodes: seq<Node>, pm: map<int, Option<int>>, n: int, zcut: real, x: int)
    requires WellFormed(nodes) && 0 <= n < |nodes| && ParentOrdered(pm, |nodes|)
    requires TreeClass(nodes, pm, n, zcut).Ok? && Intact(TreeClass(nodes, pm, n, zcut).value)
    requires x in Visible(nodes, n) && !nodes[x].Boolean?
    ensures LeafClass(nodes, pm, x, zcut) == Ok(None) || LeafClass(nodes, pm, x, zcut) == Ok(Some(INCLUDE))
    decreases n
  {
    if x != n {
      var l, r := nodes[n].left, nodes[n].right;
      var lc, rc := TreeClass(nodes, pm, l, zcut).value, TreeClass(nodes, pm, r, zcut).value;
      assert TreeClass(nodes, pm, n, zcut).value == lc | rc;
      assert Intact(lc) && Intact(rc);
      if x in Visible(nodes, l) {
        IntactLeaves(nodes, pm, l, zcut, x);
      } else {
        IntactLeaves(nodes, pm, r, zcut, x);
      }
    }
  }

  /** After a classification that leaves no stale entry, the intended candidate heads a
      subtree none of whose reached leaves straddles the cut or lies below it. */
  lemma CandidateSubtreeSurvives(nodes: seq<Node>, pm: map<int, Option<int>>, root: int, zcut: real, zm0: map<int, Mask>)
    requires WellFormed(nodes) && 0 <= root < |nodes| && ParentOrdered(pm, |nodes|) && TreeAt(nodes, root)
    requires ClassifyInto(nodes, pm, root, zcut, zm0).Ok?
    requires forall x :: x in Visible(nodes, root) && !nodes[x].Boolean? && LeafClass(nodes, pm, x, zcut) == Ok(None) ==>
      ClassOf(zm0, Moved(nodes, x)) == UNDEFINED
    ensures var zm := ClassifyInto(nodes, pm, root, zcut, zm0).value.1;
      var c := FindCandidate(nodes, zm, Some(root));
      c.Some? ==> forall x :: x in Visible(nodes, c.value) && !nodes[x].Boolean? ==>
        LeafClass(nodes, pm, x, zcut) == Ok(None) || LeafClass(nodes, pm, x, zcut) == Ok(Some(INCLUDE))
  {
    var zm := ClassifyInto(nodes, pm, root, zcut, zm0).value.1;
    var c := FindCandidate(nodes, zm, Some(root));
    if c.Some? {
      OperandRecorded(nodes, pm, root, zcut, zm0, c.value);
      assert Intact(TreeClass(nodes, pm, c.value, zcut).value);
      forall x | x in Visible(nodes, c.value) && !nodes[x].Boolean?
        ensures LeafClass(nodes, pm, x, zcut) == Ok(None) || LeafClass(nodes, pm, x, zcut) == Ok(Some(INCLUDE))
      {
        IntactLeaves(nodes, pm, c.value, zcut, x);
      }
    }
  }

  /** The same holds of the candidate the search as written finds: it is a reached
      node recorded exactly INCLUDE, so nothing below it straddles or lies below the cut
      either. */
  lemma AsWrittenCandidateSurvives(nodes: seq<Node>, pm: map<int, Option<int>>, root: int, zcut: real, zm0: map<int, Mask>)
    requires WellFormed(nodes) && 0 <= root < |nodes| && ParentOrdered(pm, |nodes|) && TreeAt(nodes, root)
    requires ClassifyInto(nodes, pm, root, zcut, zm0).Ok?
    requires forall x :: x in Visible(nodes, root) && !nodes[x].Boolean? && LeafClass(nodes, pm, x, zcut) == Ok(None) ==>
      ClassOf(zm0, Moved(nodes, x)) == UNDEFINED
    ensures var zm := ClassifyInto(nodes, pm, root, zcut, zm0).value.1;
      var c := CandidateAsWritten(nodes, zm, Some(root), None);
      c.Some? ==> c.value in Visible(nodes, root) && ZclsMoved(nodes, zm, c.value) == INCLUDE
    ensures var zm := ClassifyInto(nodes, pm, root, zcut, zm0).value.1;
      var c := CandidateAsWritten(nodes, zm, Some(root), None);
      c.Some? ==> forall x :: x in Visible(nodes, c.value) && !nodes[x].Boolean? ==>
        LeafClass(nodes, pm, x, zcut) == Ok(None) || LeafClass(nodes, pm, x, zcut) == Ok(Some(INCLUDE))
  {
    var zm := ClassifyInto(nodes, pm, root, zcut, zm0).value.1;
    var c := CandidateAsWritten(nodes, zm, Some(root), None);
    CandidateAsWrittenIsPreorderFirst(nodes, zm, root, None);
    WalkMembers(nodes, root, Pre);
    if c.Some? {
      OperandRecorded(nodes, pm, root, zcut, zm0, c.value);
      assert Intact(TreeClass(nodes, pm, c.value, zcut).value);
      forall x | x in Visible(nodes, c.value) && !nodes[x].Boolean?
        ensures LeafClass(nodes, pm, x, zcut) == Ok(None) || LeafClass(nodes, pm, x, zcut) == Ok(Some(INCLUDE))
      {
        IntactLeaves(nodes, pm, c.value, zcut, x);
      }
    }
  }

  /** collectNodes_r: the reached leaves whose class equals the query, left operands
      before right ones. */
  function Collected(nodes: seq<Node>, zm: map<int, Mask>, n: int, query: Mask): seq<int>
    requires WellFormed(nodes) && 0 <= n < |nodes|
    decreases n
  {
    if nodes[n].Boolean? then Collected(nodes, zm, nodes[n].left, query) + Collected(nodes, zm, nodes[n].right, query)
    else if ZclsMoved(nodes, zm, n) == query then [n]
    else []
  }

  /** The leaves of a walk whose class equals the query, in the walk's order. */
  function Matching(nodes: seq<Node>, zm: map<int, Mask>, s: seq<int>, query: Mask): seq<int>
    requires WellFormed(nodes)
  {
    if |s| == 0 then []
    else
      var rest := Matching(nodes, zm, s[..|s| - 1], query);
      var k := s[|s| - 1];
      if LeafMatches(nodes, zm, k, query) then rest + [k] else rest
  }

  lemma {:induction false} MatchingAppend(nodes: seq<Node>, zm: map<int, Mask>, a: seq<int>, b: seq<int>, query: Mask)
    requires WellFormed(nodes)
    ensures Matching(nodes, zm, a + b, query) == Matching(nodes, zm, a, query) + Matching(nodes, zm, b, query)
    decreases |b|
  {
    if |b| > 0 {
      var b' := b[..|b| - 1];
      assert (a + b)[..|a + b| - 1] == a + b';
      MatchingAppend(nodes, zm, a, b', query);
    } else {
      assert a + b == a;
    }
  }

  /** collectNodes_r lists exactly the leaves of the postorder walk whose class equals
      the query, in that order. */
  lemma {:induction false} CollectedIsMatchingPostorder(nodes: seq<Node>, zm: map<int, Mask>, n: int, query: Mask)
    requires WellFormed(nodes) && 0 <= n < |nodes|
    ensures Collected(nodes, zm, n, query) == Matching(nodes, zm, Walk(nodes, n, Post), query)
    decreases n
  {
    if nodes[n].Boolean? {
      var l, r := nodes[n].left, nodes[n].right;
      var L, R := Walk(nodes, l, Post), Walk(nodes, r, Post);
      CollectedIsMatchingPostorder(nodes, zm, l, query);
      CollectedIsMatchingPostorder(nodes, zm, r, query);
      assert Walk(nodes, n, Post) == (L + R) + [n];
      MatchingAppend(nodes, zm, L, R, query);
      assert Matching(nodes, zm, (L + R) + [n], query) == Matching(nodes, zm, L + R, query) by {
        assert ((L + R) + [n])[..|(L + R) + [n]| - 1] == L + R;
      }
    } else {
      assert Walk(nodes, n, Post) == [n];
      assert [n][..0] == [];
    }
  }

  /** A leaf is collected exactly when it is reached and its class equals the query. */
  lemma {:induction false} CollectedMembers(nodes: seq<Node>, zm: map<int, Mask>, n: int, query: Mask)
    requires WellFormed(nodes) && 0 <= n < |nodes|
    ensures forall x :: x in Collected(nodes, zm, n, query) <==>
      x in Visible(nodes, n) && !nodes[x].Boolean? && ZclsMoved(nodes, zm, x) == query
    decreases n
  {
    if nodes[n].Boolean? {
      CollectedMembers(nodes, zm, nodes[n].left, query);
      CollectedMembers(nodes, zm, nodes[n].right, query);
    }
  }

  /** collectNodes as written: the call passes 0 where collectNodes_r takes the query
      and the query where it takes the depth, so the leaves collected are those whose
      class is UNDEFINED, whatever was asked for. */
  function CollectNodesAsWritten(nodes: seq<Node>, zm: map<int, Mask>, top: int, query: Mask): seq<int>
    requires WellFormed(nodes) && 0 <= top < |nodes|
  {
    Collected(nodes, zm, top, 0)
  }

  /** collectNodes as intended: the query reaches collectNodes_r. */
  function CollectNodes(nodes: seq<Node>, zm: map<int, Mask>, top: int, query: Mask): (r: seq<int>)
    requires WellFormed(nodes) && 0 <= top < |nodes|
    ensures forall x :: x in r <==> x in Visible(nodes, top) && !nodes[x].Boolean? && ZclsMoved(nodes, zm, x) == query
  {
    CollectedMembers(nodes, zm, top, query);
    Collected(nodes, zm, top, query)
  }

  /** The written call ignores the query: it answers every query as it answers
      UNDEFINED. */
  lemma CollectNodesAsWrittenIgnoresQuery(nodes: seq<Node>, zm: map<int, Mask>, top: int, query: Mask)
    requires WellFormed(nodes) && 0 <= top < |nodes|
    ensures CollectNodesAsWritten(nodes, zm, top, query) == CollectNodes(nodes, zm, top, UNDEFINED)
    ensures forall x :: x in CollectNodesAsWritten(nodes, zm, top, query) ==> ZclsMoved(nodes, zm, x) == UNDEFINED
  {
    CollectedMembers(nodes, zm, top, UNDEFINED);
  }

  /** A tree Union(Union(A, B), C) cut at z = 0, with A and C ellipsoids above the cut
      and B one below it; B and C sit behind displacement wrappers as a cloned tree has
      them. */
  function SampleTree(): seq<Node> {
    [ Primitive(Ellipsoid(1.0, 1.0, 1.0, 1.0, 2.0)),      // 0: A, INCLUDE
      Primitive(Ellipsoid(1.0, 1.0, 1.0, -3.0, -2.0)),    // 1: B, EXCLUDE
      Displaced(1, Identity, Zero),                        // 2: wrapper of B
      Boolean(Union, 0, 2),                                // 3: A | B
      Primitive(Ellipsoid(1.0, 1.0, 1.0, 1.0, 2.0)),      // 4: C, INCLUDE
      Displaced(4, Identity, Zero),                        // 5: wrapper of C
      Boolean(Union, 3, 5) ]                               // 6: root
  }

  /** The class table classifyTree leaves for the sample tree at z = 0. */
  function SampleClasses(): map<int, Mask> {
    map[0 := INCLUDE, 1 := EXCLUDE, 3 := INCLUDE | EXCLUDE, 4 := INCLUDE, 6 := INCLUDE | EXCLUDE]
  }

  lemma SampleParents()
    ensures WellFormed(SampleTree()) && TreeAt(SampleTree(), 6)
    ensures ParentTable(SampleTree(), 6) == map[6 := None, 3 := Some(6), 5 := Some(6), 0 := Some(3), 2 := Some(3)]
  {
  }

  /** Each leaf of the sample sits at its own translation, which is zero, so it keeps
      the class of its local Z range. */
  lemma SampleLeaf(k: int)
    requires k == 0 || k == 2 || k == 5
    ensures WellFormed(SampleTree()) && ParentOrdered(ParentTable(SampleTree(), 6), |SampleTree()|)
    ensures LeafClass(SampleTree(), ParentTable(SampleTree(), 6), k, 0.0) == Ok(Some(if k == 2 then EXCLUDE else INCLUDE))
  {
    var t := SampleTree();
    var pm := ParentTable(t, 6);
    TreeTranslationIsOwn(t, pm, k);
    assert TreeZ(t, pm, k) == Ok(0.0);
    var m := Moved(t, k);
    assert m == if k == 0 then 0 else k - 1;
    assert ZRange(t[m].shape) == Ok(if k == 2 then (-3.0, -2.0) else (1.0, 2.0));
  }

  lemma SampleIsClassified()
    ensures WellFormed(SampleTree()) && TreeAt(SampleTree(), 6)
    ensures ClassifyInto(SampleTree(), ParentTable(SampleTree(), 6), 6, 0.0, map[]) == Ok((INCLUDE | EXCLUDE, SampleClasses()))
  {
    SampleParents();
    SampleLeaf(0);
    SampleLeaf(2);
    SampleLeaf(5);
    var t := SampleTree();
    var pm := ParentTable(t, 6);
    var m3 := map[0 := INCLUDE, 1 := EXCLUDE, 3 := INCLUDE | EXCLUDE];
    assert ClassifyInto(t, pm, 3, 0.0, map[]) == Ok((INCLUDE | EXCLUDE, m3));
    assert ClassifyInto(t, pm, 5, 0.0, m3) == Ok((INCLUDE, m3[4 := INCLUDE]));
  }

  /** The search as written picks A, the left leaf, although the reverse preorder meets
      C first; the intended search picks C's wrapper. */
  lemma CandidateAsWrittenCounterexample()
    ensures WellFormed(SampleTree())
    ensures CandidateAsWritten(SampleTree(), SampleClasses(), Some(6), None) == Some(0)
    ensures FindCandidate(SampleTree(), SampleClasses(), Some(6)) == Some(5)
    ensures Walk(SampleTree(), 6, RPre) == [6, 5, 3, 2, 0]
  {
  }

  /** Asked for the INCLUDE leaves, collectNodes as written returns none; the intended
      call returns A and C's wrapper. */
  lemma CollectNodesCounterexample()
    ensures WellFormed(SampleTree())
    ensures CollectNodesAsWritten(SampleTree(), SampleClasses(), 6, INCLUDE) == []
    ensures CollectNodes(SampleTree(), SampleClasses(), 6, INCLUDE) == [0, 5]
  {
  }
}
