/**
 * Helpers for loops and `try` blocks: whether a loop's own body breaks out
 * of it, whether a node lies inside a loop, and whether a node is directly
 * inside a `try` statement (in any of its parts: body, `except` handlers,
 * `else` or `finally`) that has `except` handlers.
 */
module Loops {
  import opened Wrappers
  import opened Ast
  import opened Navigation

  /** `(*ForNodes, ast.While)`. */
  const LoopKinds: set<Kind> := {TagKind(For), TagKind(AsyncFor), TagKind(While)}

  /** The scope boundaries and `Try`, the kinds `is_in_try_except` searches for. */
  const ScopeOrTryKinds: set<Kind> :=
    {TagKind(FunctionDef), TagKind(AsyncFunctionDef), TagKind(ClassDef), TryKind}

  // ---------------------------------------------------------------------
  // _does_loop_contain_node
  // ---------------------------------------------------------------------

  /**
   * `_does_loop_contain_node`: is `toCheck` (by identity) a node of `loop`'s
   * walk? No loop contains anything; a loop contains exactly the nodes of its
   * own tree, itself included.
   */
  function DoesLoopContainNode(loop: Option<Node>, toCheck: Node): (contains: bool)
    ensures loop.None? ==> !contains
    ensures loop.Some? ==> (contains <==> exists d :: d in Subtrees(loop.value) && d.id == toCheck.id)
  {
    if loop.None? then false
    else
      WalkMembers(loop.value);
      exists inner :: inner in Walk(loop.value) && inner.id == toCheck.id
  }

  // ---------------------------------------------------------------------
  // is_in_try_except
  // ---------------------------------------------------------------------

  /**
   * `is_in_try_except`: the closest enclosing function, class or `Try` is a
   * `Try` that has at least one `except` handler. An `except` handler is no
   * boundary, so a node in a handler, in `else` or in `finally` of such a
   * `Try` counts as inside it too.
   */
  function IsInTryExcept(node: Located): (inside: bool)
    ensures inside <==>
              exists k :: 0 <= k < |node.ancestors| && node.ancestors[k].Try? &&
                          |node.ancestors[k].handlers| > 0 &&
                          forall j :: 0 <= j < k ==> KindOf(node.ancestors[j]) !in ScopeOrTryKinds
  {
    var closest := ClosestParent(node, ScopeOrTryKinds);
    var a := node.ancestors;
    assert (exists k :: 0 <= k < |a| && a[k].Try? && |a[k].handlers| > 0 &&
                        forall j :: 0 <= j < k ==> KindOf(a[j]) !in ScopeOrTryKinds) ==>
           closest.Some? && closest.value.Try? && |closest.value.handlers| > 0 by {
      forall k | 0 <= k < |a| && a[k].Try? && |a[k].handlers| > 0 &&
                 forall j :: 0 <= j < k ==> KindOf(a[j]) !in ScopeOrTryKinds
        ensures closest.Some? && closest.value.Try? && |closest.value.handlers| > 0
      {
        assert KindOf(a[k]) == TryKind;
        ClosestParentAt(node, ScopeOrTryKinds, k);
      }
    }
    closest.Some? && closest.value.Try? && |closest.value.handlers| > 0
  }

  /**
   * A function, class or handler-less `Try` standing between the node and
   * an outer `try/except` hides that outer block.
   */
  lemma ScopeHidesOuterTry(node: Node, inner: seq<Node>, boundary: Node, outer: seq<Node>)
    requires forall i :: 0 <= i < |inner| ==> KindOf(inner[i]) !in ScopeOrTryKinds
    requires KindOf(boundary) in {TagKind(FunctionDef), TagKind(AsyncFunctionDef), TagKind(ClassDef)} ||
             (boundary.Try? && boundary.handlers == [])
    ensures !IsInTryExcept(Located(node, inner + [boundary] + outer))
  {
    ClosestParentStopsAtFirst(node, inner, boundary, outer, ScopeOrTryKinds);
  }

  // ---------------------------------------------------------------------
  // has_break, as written
  // ---------------------------------------------------------------------

  /** The last loop other than `root` among the walked nodes `seen`: `closest_loop`. */
  function ClosestInnerLoop(seen: seq<Node>, root: Node): (closest: Option<Node>)
    ensures closest.Some? ==>
              closest.value in seen && KindOf(closest.value) in LoopKinds && closest.value.id != root.id
  {
    if seen == [] then None
    else
      var last := seen[|seen| - 1];
      if KindOf(last) in LoopKinds && last.id != root.id then Some(last)
      else ClosestInnerLoop(seen[..|seen| - 1], root)
  }

  /**
   * The `j`-th walked node is of a break kind and is not inside the loop
   * that `closest_loop` names when the scan reaches it.
   */
  predicate UnnestedBreakAt(walked: seq<Node>, root: Node, breakNodes: set<Kind>, j: nat)
    requires j < |walked|
  {
    KindOf(walked[j]) in breakNodes &&
    !DoesLoopContainNode(ClosestInnerLoop(walked[..j + 1], root), walked[j])
  }

  /** Some walked node is a break that the scan does not attribute to an inner loop. */
  predicate BreakOutsideClosestLoop(walked: seq<Node>, root: Node, breakNodes: set<Kind>) {
    exists j :: 0 <= j < |walked| && UnnestedBreakAt(walked, root, breakNodes, j)
  }

  /**
   * `has_break`: scans `ast.walk(node)`, remembering in `closestLoop` the
   * latest loop seen other than `node`, and answers true at the first
   * break-kind node that the remembered loop does not contain.
   */
  method HasBreak(node: Node, breakNodes: set<Kind>) returns (found: bool)
    ensures found == BreakOutsideClosestLoop(Walk(node), node, breakNodes)
  {
    var walked := Walk(node);
    var closestLoop: Option<Node> := None;
    for i := 0 to |walked|
      invariant closestLoop == ClosestInnerLoop(walked[..i], node)
      invariant forall j :: 0 <= j < i ==> !UnnestedBreakAt(walked, node, breakNodes, j)
    {
      var subnode := walked[i];
      assert walked[..i + 1][..i] == walked[..i] && walked[..i + 1][i] == subnode;
      if KindOf(subnode) in LoopKinds && subnode.id != node.id {
        closestLoop := Some(subnode);
      }
      assert closestLoop == ClosestInnerLoop(walked[..i + 1], node);
      if KindOf(subnode) in breakNodes {
        var isNestedBreak := DoesLoopContainNode(closestLoop, subnode);
        if !isNestedBreak {
          assert UnnestedBreakAt(walked, node, breakNodes, i);
          return true;
        }
      }
      assert !UnnestedBreakAt(walked, node, breakNodes, i);
    }
    return false;
  }

  /** Without a node of a break kind in the loop's tree the answer is false. */
  lemma HasBreakNeedsBreakNode(node: Node, breakNodes: set<Kind>)
    requires forall d :: d in Subtrees(node) ==> KindOf(d) !in breakNodes
    ensures !BreakOutsideClosestLoop(Walk(node), node, breakNodes)
  {
    WalkMembers(node);
  }

  lemma {:induction false} NoInnerLoopSeen(seen: seq<Node>, root: Node)
    requires forall k :: 0 <= k < |seen| && KindOf(seen[k]) in LoopKinds ==> seen[k].id == root.id
    ensures ClosestInnerLoop(seen, root).None?
  {
    if seen != [] {
      NoInnerLoopSeen(seen[..|seen| - 1], root);
    }
  }

  /**
   * When the tree holds no loop but `node` itself, `closest_loop` stays unset
   * and the answer is whether some break-kind node occurs.
   */
  lemma HasBreakWithoutInnerLoops(node: Node, breakNodes: set<Kind>)
    requires forall d :: d in Subtrees(node) && KindOf(d) in LoopKinds ==> d.id == node.id
    ensures forall i :: 0 <= i <= |Walk(node)| ==> ClosestInnerLoop(Walk(node)[..i], node).None?
    ensures BreakOutsideClosestLoop(Walk(node), node, breakNodes) <==>
              exists d :: d in Subtrees(node) && KindOf(d) in breakNodes
  {
    var walked := Walk(node);
    WalkMembers(node);
    forall i | 0 <= i <= |walked| ensures ClosestInnerLoop(walked[..i], node).None? {
      assert forall k :: 0 <= k < i ==> walked[..i][k] in Subtrees(node);
      NoInnerLoopSeen(walked[..i], node);
    }
    if exists d :: d in Subtrees(node) && KindOf(d) in breakNodes {
      var d :| d in Subtrees(node) && KindOf(d) in breakNodes;
      var j :| 0 <= j < |walked| && walked[j] == d;
      assert UnnestedBreakAt(walked, node, breakNodes, j);
    }
  }

  // ---------------------------------------------------------------------
  // has_break: what it misses, and the corrected scan
  // ---------------------------------------------------------------------

  // The shape `for: {for: break}; while: pass`, with ids 1 to 4.
  const SampleBreak: Node := Generic(3, Break, [])
  const SampleInner: Node := Generic(2, For, [SampleBreak])
  const SampleLater: Node := Generic(4, While, [])
  const SampleOuter: Node := Generic(1, For, [SampleInner, SampleLater])

  lemma SampleWalk()
    ensures Walk(SampleOuter) == [SampleOuter, SampleInner, SampleLater, SampleBreak]
  {
    assert Bfs([SampleBreak]) == [SampleBreak] by {
      assert NextQueue([SampleBreak]) == [];
    }
    assert Bfs([SampleLater, SampleBreak]) == [SampleLater, SampleBreak] by {
      assert NextQueue([SampleLater, SampleBreak]) == [SampleBreak];
    }
    assert Bfs([SampleInner, SampleLater]) == [SampleInner, SampleLater, SampleBreak] by {
      assert NextQueue([SampleInner, SampleLater]) == [SampleLater, SampleBreak];
    }
    assert Bfs([SampleOuter]) == [SampleOuter, SampleInner, SampleLater, SampleBreak] by {
      assert NextQueue([SampleOuter]) == [SampleInner, SampleLater];
    }
  }

  lemma SampleLaterWalk()
    ensures Walk(SampleLater) == [SampleLater]
  {
    assert NextQueue([SampleLater]) == [];
  }

  lemma SampleSubtrees()
    ensures Subtrees(SampleInner) == multiset{SampleInner, SampleBreak}
    ensures Subtrees(SampleOuter) == multiset{SampleOuter, SampleInner, SampleBreak, SampleLater}
  {
    SubtreesOfChildren(SampleOuter);
    SubtreesOfChildren(SampleInner);
    SingletonForest(SampleBreak);
    assert Subtrees(SampleBreak) == multiset{SampleBreak};
    ForestAppend([SampleInner], [SampleLater]);
    SingletonForest(SampleInner);
    SingletonForest(SampleLater);
    SubtreesOfChildren(SampleLater);
    assert Subtrees(SampleLater) == multiset{SampleLater};
  }

  /**
   * In `for: {for: break}; while: pass` the outer loop has no break of its
   * own, yet when the scan reaches the `break` the latest loop seen is the
   * `while`, which does not contain it, so `has_break` answers true for the
   * outer loop.
   */
  lemma HasBreakCountsBreakOfEarlierInnerLoop()
    ensures BreakOutsideClosestLoop(Walk(SampleOuter), SampleOuter, {TagKind(Break)})
    ensures InsideInnerLoop(SampleOuter, SampleBreak)
  {
    SampleWalk();
    SampleLaterWalk();
    var walked := Walk(SampleOuter);
    assert walked[..4][..3] == [SampleOuter, SampleInner, SampleLater];
    assert ClosestInnerLoop(walked[..4], SampleOuter) == Some(SampleLater);
    assert UnnestedBreakAt(walked, SampleOuter, {TagKind(Break)}, 3);
    SampleSubtrees();
    assert SampleBreak in Subtrees(SampleInner);
  }

  lemma SampleMember(d: Node)
    requires d in Subtrees(SampleOuter) && KindOf(d) == TagKind(Break)
    ensures d == SampleBreak
  {
    SampleSubtrees();
    assert d == SampleOuter || d == SampleInner || d == SampleBreak || d == SampleLater;
  }

  /** In the same tree, the evident intent finds no break of the outer loop's own. */
  lemma SampleHasNoOwnBreak()
    ensures !OwnBreak(SampleOuter, {TagKind(Break)})
  {
    HasBreakCountsBreakOfEarlierInnerLoop();
    forall d | d in Subtrees(SampleOuter) && KindOf(d) in {TagKind(Break)}
      ensures InsideInnerLoop(SampleOuter, d)
    {
      SampleMember(d);
    }
  }

  /** `d` lies (by identity) in the tree of some loop other than `root` in `root`'s tree. */
  ghost predicate InsideInnerLoop(root: Node, d: Node) {
    exists l :: l in Subtrees(root) && KindOf(l) in LoopKinds && l.id != root.id &&
                exists e :: e in Subtrees(l) && e.id == d.id
  }

  /** The evident intent of `has_break`: a break-kind node of the tree that no inner loop holds. */
  ghost predicate OwnBreak(root: Node, breakNodes: set<Kind>) {
    exists d :: d in Subtrees(root) && KindOf(d) in breakNodes && !InsideInnerLoop(root, d)
  }

  /** Some walked loop other than `root` contains `x`. */
  function InAnyInnerLoop(walked: seq<Node>, root: Node, x: Node): bool {
    exists l :: l in walked && KindOf(l) in LoopKinds && l.id != root.id && DoesLoopContainNode(Some(l), x)
  }

  lemma InAnyInnerLoopMeans(root: Node, x: Node)
    ensures InAnyInnerLoop(Walk(root), root, x) <==> InsideInnerLoop(root, x)
  {
    WalkMembers(root);
  }

  /** The evident intent, read off the walk: a walked break-kind node that no walked inner loop holds. */
  lemma OwnBreakOnWalk(root: Node, breakNodes: set<Kind>)
    ensures OwnBreak(root, breakNodes) <==>
              exists j :: 0 <= j < |Walk(root)| && KindOf(Walk(root)[j]) in breakNodes &&
                          !InAnyInnerLoop(Walk(root), root, Walk(root)[j])
  {
    var walked := Walk(root);
    if OwnBreak(root, breakNodes) {
      var d :| d in Subtrees(root) && KindOf(d) in breakNodes && !InsideInnerLoop(root, d);
      WalkMembers(root);
      var j :| 0 <= j < |walked| && walked[j] == d;
      InAnyInnerLoopMeans(root, d);
    }
    if exists j :: 0 <= j < |walked| && KindOf(walked[j]) in breakNodes &&
                   !InAnyInnerLoop(walked, root, walked[j]) {
      var j :| 0 <= j < |walked| && KindOf(walked[j]) in breakNodes &&
               !InAnyInnerLoop(walked, root, walked[j]);
      WalkMembers(root);
      assert walked[j] in Subtrees(root);
      InAnyInnerLoopMeans(root, walked[j]);
    }
  }

  /**
   * `has_break` corrected: a break-kind node counts unless ANY inner loop
   * holds it, not only the latest one the walk has passed.
   */
  method HasOwnBreak(node: Node, breakNodes: set<Kind>) returns (found: bool)
    ensures found == OwnBreak(node, breakNodes)
  {
    var walked := Walk(node);
    OwnBreakOnWalk(node, breakNodes);
    for i := 0 to |walked|
      invariant forall j :: 0 <= j < i && KindOf(walked[j]) in breakNodes ==>
                             InAnyInnerLoop(walked, node, walked[j])
    {
      var subnode := walked[i];
      if KindOf(subnode) in breakNodes {
        var isNestedBreak := InAnyInnerLoop(walked, node, subnode);
        if !isNestedBreak {
          return true;
        }
      }
    }
    return false;
  }

  /** Where no inner loop exists, the corrected scan and the scan as written agree. */
  lemma HasOwnBreakAgreesWithoutInnerLoops(node: Node, breakNodes: set<Kind>)
    requires forall d :: d in Subtrees(node) && KindOf(d) in LoopKinds ==> d.id == node.id
    ensures OwnBreak(node, breakNodes) == BreakOutsideClosestLoop(Walk(node), node, breakNodes)
  {
    HasBreakWithoutInnerLoops(node, breakNodes);
  }
}
