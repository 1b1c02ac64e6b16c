/**
 * Parent links of the syntax tree. The repository attaches a parent to every
 * node and reads it back with `get_parent`; `get_closest_parent` climbs those
 * links to the nearest ancestor of some kinds. Here a node's position is the
 * node together with its ancestors, nearest first, so `get_parent` is the
 * head of that sequence and climbing one level drops the head.
 */
module Navigation {
  import opened Wrappers
  import opened Ast

  /** A node and its ancestors, the parent first and the tree's root last. */
  datatype Located = Located(node: Node, ancestors: seq<Node>)

  /** `get_parent(node)`: the parent, or `None` at the root. */
  function GetParent(l: Located): Option<Node> {
    if l.ancestors == [] then None else Some(l.ancestors[0])
  }

  /** The position of the parent (`node = parent` in a climbing loop). */
  function Up(l: Located): Located
    requires l.ancestors != []
  {
    Located(l.ancestors[0], l.ancestors[1..])
  }

  /** The ancestors really form the path from the root down to the node. */
  ghost predicate WellFormed(l: Located)
    decreases |l.ancestors|
  {
    l.ancestors != [] ==> l.node in Children(l.ancestors[0]) && WellFormed(Up(l))
  }

  /** In a real tree, every ancestor's tree holds the node. */
  lemma {:induction false} AncestorsHoldNode(l: Located, k: nat)
    requires WellFormed(l) && k < |l.ancestors|
    ensures l.node in Subtrees(l.ancestors[k])
    decreases k
  {
    var parent := l.ancestors[0];
    ChildInSubtrees(parent, l.node);
    if k > 0 {
      var up := Up(l);
      assert up.node == parent && up.ancestors[k - 1] == l.ancestors[k];
      AncestorsHoldNode(up, k - 1);
      SubtreesNested(l.ancestors[k], parent);
    }
  }

  /**
   * `get_parent` in a real tree climbs strictly upwards: the parent's tree
   * holds the node and is larger than the node's own tree, so the parent is
   * never the node itself nor a node below it.
   */
  lemma ParentHoldsNode(l: Located)
    requires WellFormed(l) && GetParent(l).Some?
    ensures var parent := GetParent(l).value;
            l.node in Subtrees(parent) && |Subtrees(l.node)| < |Subtrees(parent)| &&
            parent !in Subtrees(l.node)
  {
    var parent := l.ancestors[0];
    var kids := Children(parent);
    var i :| 0 <= i < |kids| && kids[i] == l.node;
    ForestHoldsMember(kids, i);
    SubtreesOfChildren(parent);
    SubMultisetSize(Subtrees(l.node), Forest(kids));
    AncestorsHoldNode(l, 0);
    if parent in Subtrees(l.node) {
      SubtreesNested(l.node, parent);
      SubMultisetSize(Subtrees(parent), Subtrees(l.node));
      assert false;
    }
  }

  /**
   * `get_closest_parent(node, kinds)`: the nearest proper ancestor whose kind
   * is one of `kinds`, or `None` when no ancestor has such a kind.
   */
  function ClosestParent(l: Located, kinds: set<Kind>): (r: Option<Node>)
    ensures r.None? <==> forall i :: 0 <= i < |l.ancestors| ==> KindOf(l.ancestors[i]) !in kinds
    ensures r.Some? ==>
              exists k :: 0 <= k < |l.ancestors| && l.ancestors[k] == r.value && KindOf(r.value) in kinds &&
                          forall j :: 0 <= j < k ==> KindOf(l.ancestors[j]) !in kinds
    decreases |l.ancestors|
  {
    match GetParent(l)
    case None => None
    case Some(parent) =>
      if KindOf(parent) in kinds then Some(parent)
      else
        var r := ClosestParent(Up(l), kinds);
        assert forall i :: 0 < i < |l.ancestors| ==> l.ancestors[i] == Up(l).ancestors[i - 1];
        r
  }

  /**
   * Only the first ancestor of a wanted kind matters: whatever lies above it
   * leaves the answer unchanged.
   */
  lemma {:induction false} ClosestParentStopsAtFirst(
    node: Node, inner: seq<Node>, found: Node, outer: seq<Node>, kinds: set<Kind>)
    requires forall i :: 0 <= i < |inner| ==> KindOf(inner[i]) !in kinds
    requires KindOf(found) in kinds
    ensures ClosestParent(Located(node, inner + [found] + outer), kinds) == Some(found)
    decreases |inner|
  {
    var l := Located(node, inner + [found] + outer);
    if inner == [] {
      assert l.ancestors[0] == found;
    } else {
      assert l.ancestors[0] == inner[0];
      assert Up(l).ancestors == inner[1..] + [found] + outer;
      ClosestParentStopsAtFirst(inner[0], inner[1..], found, outer, kinds);
    }
  }

  /** The first ancestor of a wanted kind is the closest parent of those kinds. */
  lemma {:induction false} ClosestParentAt(l: Located, kinds: set<Kind>, k: nat)
    requires k < |l.ancestors| && KindOf(l.ancestors[k]) in kinds
    requires forall j :: 0 <= j < k ==> KindOf(l.ancestors[j]) !in kinds
    ensures ClosestParent(l, kinds) == Some(l.ancestors[k])
    decreases k
  {
    if k > 0 {
      assert KindOf(l.ancestors[0]) !in kinds;
      ClosestParentAt(Up(l), kinds, k - 1);
    }
  }

  /** In a real tree, the closest parent of any kinds has the node in its tree. */
  lemma ClosestParentHoldsNode(l: Located, kinds: set<Kind>)
    requires WellFormed(l) && ClosestParent(l, kinds).Some?
    ensures l.node in Subtrees(ClosestParent(l, kinds).value)
  {
    var r := ClosestParent(l, kinds);
    var k :| 0 <= k < |l.ancestors| && l.ancestors[k] == r.value && KindOf(r.value) in kinds &&
             forall j :: 0 <= j < k ==> KindOf(l.ancestors[j]) !in kinds;
    AncestorsHoldNode(l, k);
  }
}
