/**
 * Helpers for chains of unary operators (`-x`, `not x`, `~x`, `+x`, and
 * nestings such as `--x`): unwrapping a node from its unary wrappers,
 * finding the first parent that is not a unary operator, counting runs of
 * one operator among the unary ancestors, and reducing the ancestors'
 * operators to the ones that still matter.
 */
module Operators {
  import opened Wrappers
  import opened Ast
  import opened Navigation

  // ---------------------------------------------------------------------
  // unwrap_unary_node: peel `UnaryOp` wrappers off going down
  // ---------------------------------------------------------------------

  /** The node left once every enclosing `UnaryOp` is peeled away. */
  function Unwrapped(n: Node): (r: Node)
    ensures !r.UnaryOp?
  {
    if n.UnaryOp? then Unwrapped(n.operand) else n
  }

  /** The unary layers around a node, outermost first, as (id, operator). */
  function UnaryWrappers(n: Node): seq<(NodeId, UnaryOperator)> {
    if n.UnaryOp? then [(n.id, n.op)] + UnaryWrappers(n.operand) else []
  }

  /** Wraps `base` in the given unary layers, outermost first. */
  function Rewrap(wrappers: seq<(NodeId, UnaryOperator)>, base: Node): Node {
    if wrappers == [] then base
    else UnaryOp(wrappers[0].0, wrappers[0].1, Rewrap(wrappers[1..], base))
  }

  /** Unwrapping loses nothing: the node is its unwrapped core inside its wrappers. */
  lemma {:induction false} RewrapUndoesUnwrap(n: Node)
    ensures Rewrap(UnaryWrappers(n), Unwrapped(n)) == n
  {
    if n.UnaryOp? {
      RewrapUndoesUnwrap(n.operand);
      assert ([(n.id, n.op)] + UnaryWrappers(n.operand))[1..] == UnaryWrappers(n.operand);
    }
  }

  /** Unwrapping a non-unary node wrapped in any layers gives back that node and those layers. */
  lemma {:induction false} UnwrapUndoesRewrap(wrappers: seq<(NodeId, UnaryOperator)>, base: Node)
    requires !base.UnaryOp?
    ensures Unwrapped(Rewrap(wrappers, base)) == base
    ensures UnaryWrappers(Rewrap(wrappers, base)) == wrappers
  {
    if wrappers != [] {
      UnwrapUndoesRewrap(wrappers[1..], base);
      assert [wrappers[0]] + wrappers[1..] == wrappers;
    }
  }

  /** Unwrapping an already unwrapped node changes nothing. */
  lemma UnwrapIdempotent(n: Node)
    ensures Unwrapped(Unwrapped(n)) == Unwrapped(n)
  {
  }

  /** `unwrap_unary_node`: follows `operand` while the node is a `UnaryOp`. */
  method UnwrapUnaryNode(node: Node) returns (r: Node)
    ensures !r.UnaryOp?
    ensures !node.UnaryOp? ==> r == node
    ensures r == Unwrapped(node)
  {
    r := node;
    while r.UnaryOp?
      invariant Unwrapped(r) == Unwrapped(node)
      decreases r
    {
      r := r.operand;
    }
  }

  // ---------------------------------------------------------------------
  // The consecutive UnaryOp ancestors of a node
  // ---------------------------------------------------------------------

  /**
   * The operators of the maximal run of `UnaryOp` ancestors directly above a
   * node, nearest first; its length is the number of those ancestors.
   */
  function UnaryChain(ancestors: seq<Node>): (ops: seq<UnaryOperator>)
    ensures |ops| <= |ancestors|
    ensures forall i :: 0 <= i < |ops| ==> ancestors[i].UnaryOp? && ops[i] == ancestors[i].op
    ensures |ops| < |ancestors| ==> !ancestors[|ops|].UnaryOp?
  {
    if ancestors == [] || !ancestors[0].UnaryOp? then []
    else [ancestors[0].op] + UnaryChain(ancestors[1..])
  }

  // ---------------------------------------------------------------------
  // get_parent_ignoring_unary: climb past `UnaryOp` parents
  // ---------------------------------------------------------------------

  /**
   * `get_parent_ignoring_unary`: the first ancestor that is not a `UnaryOp`,
   * or `None` when there is none (every ancestor is a `UnaryOp`, or the node
   * is the root). For `x = -1` the `1` gets the `Assign`.
   */
  method GetParentIgnoringUnary(node: Located) returns (parent: Option<Node>)
    ensures parent.Some? ==> !parent.value.UnaryOp?
    ensures var k := |UnaryChain(node.ancestors)|;
            parent == if k < |node.ancestors| then Some(node.ancestors[k]) else None
  {
    var current := node;
    ghost var climbed := 0;
    parent := GetParent(current);
    while parent.Some? && parent.value.UnaryOp?
      invariant climbed <= |node.ancestors| && current.ancestors == node.ancestors[climbed..]
      invariant parent == GetParent(current)
      invariant |UnaryChain(node.ancestors)| == climbed + |UnaryChain(current.ancestors)|
      decreases |current.ancestors|
    {
      assert UnaryChain(current.ancestors) == [parent.value.op] + UnaryChain(current.ancestors[1..]);
      assert current.ancestors[1..] == node.ancestors[climbed + 1..];
      current := Up(current);
      climbed := climbed + 1;
      parent := GetParent(current);
    }
  }

  /**
   * Climbing and unwrapping are inverse: on a real tree, below the first
   * non-unary ancestor, unwrapping the topmost `UnaryOp` ancestor of a
   * non-unary node leads back to that node.
   */
  lemma UnwrapUndoesClimb(l: Located)
    requires WellFormed(l) && !l.node.UnaryOp?
    requires |UnaryChain(l.ancestors)| > 0
    ensures Unwrapped(l.ancestors[|UnaryChain(l.ancestors)| - 1]) == l.node
  {
    UnwrapOnPath(l, |UnaryChain(l.ancestors)| - 1);
  }

  /** Every `UnaryOp` ancestor in the run above a node unwraps to what the node unwraps to. */
  lemma {:induction false} UnwrapOnPath(l: Located, j: nat)
    requires WellFormed(l)
    requires j < |UnaryChain(l.ancestors)|
    ensures Unwrapped(l.ancestors[j]) == Unwrapped(l.node)
    decreases j
  {
    var a := l.ancestors[0];
    assert a.UnaryOp?;
    assert Children(a) == [a.operand];
    if j > 0 {
      var up := Up(l);
      assert UnaryChain(l.ancestors) == [a.op] + UnaryChain(up.ancestors);
      UnwrapOnPath(up, j - 1);
    }
  }

  // ---------------------------------------------------------------------
  // count_consecutive_unary_operator
  // ---------------------------------------------------------------------

  function Max(a: int, b: int): int {
    if a >= b then a else b
  }

  /**
   * `count_consecutive_unary_operator`: walks up the `UnaryOp` ancestors,
   * `counter` counting the current run of `operator` and `maxCounter` the
   * longest run finished so far.
   */
  function CountConsecutiveUnaryOperator(
    node: Located, operator: UnaryOperator, counter: int := 0, maxCounter: int := 0): (r: int)
    ensures r >= counter && r >= maxCounter
    decreases |node.ancestors|
  {
    var parent := GetParent(node);
    if !(parent.Some? && parent.value.UnaryOp?) then Max(counter, maxCounter)
    else if parent.value.op == operator then
      CountConsecutiveUnaryOperator(Up(node), operator, counter + 1, maxCounter)
    else if counter > maxCounter then
      CountConsecutiveUnaryOperator(Up(node), operator, 0, counter)
    else
      CountConsecutiveUnaryOperator(Up(node), operator, 0, maxCounter)
  }

  /** How many entries at the front of `s` are `op`. */
  function LeadingRun(s: seq<UnaryOperator>, op: UnaryOperator): (n: nat)
    ensures n <= |s|
  {
    if s != [] && s[0] == op then 1 + LeadingRun(s[1..], op) else 0
  }

  /** The length of the longest stretch of consecutive `op` entries in `s`. */
  function LongestRun(s: seq<UnaryOperator>, op: UnaryOperator): nat {
    if s == [] then 0 else Max(LeadingRun(s, op), LongestRun(s[1..], op))
  }

  /** `s[i..j]` consists of `op` only. */
  ghost predicate IsRun(s: seq<UnaryOperator>, op: UnaryOperator, i: int, j: int) {
    0 <= i <= j <= |s| && forall k :: i <= k < j ==> s[k] == op
  }

  lemma {:induction false} LeadingRunIsRun(s: seq<UnaryOperator>, op: UnaryOperator, j: int)
    ensures IsRun(s, op, 0, LeadingRun(s, op))
    ensures IsRun(s, op, 0, j) ==> j <= LeadingRun(s, op)
  {
    if s != [] {
      LeadingRunIsRun(s[1..], op, j - 1);
      if IsRun(s, op, 0, j) && j > 0 {
        assert IsRun(s[1..], op, 0, j - 1);
      }
    }
  }

  /**
   * LongestRun is what its name says: no stretch of `op` entries is longer,
   * and some stretch is that long.
   */
  lemma {:induction false} LongestRunIsLongest(s: seq<UnaryOperator>, op: UnaryOperator)
    ensures LongestRun(s, op) <= |s|
    ensures forall i, j :: IsRun(s, op, i, j) ==> j - i <= LongestRun(s, op)
    ensures exists i, j :: IsRun(s, op, i, j) && j - i == LongestRun(s, op)
  {
    if s == [] {
      assert IsRun(s, op, 0, 0);
    } else {
      var t := s[1..];
      LongestRunIsLongest(t, op);
      LeadingRunIsRun(s, op, 0);
      forall i, j | IsRun(s, op, i, j) ensures j - i <= LongestRun(s, op) {
        if i == 0 {
          LeadingRunIsRun(s, op, j);
        } else {
          assert IsRun(t, op, i - 1, j - 1);
        }
      }
      if LeadingRun(s, op) < LongestRun(t, op) {
        var i, j :| IsRun(t, op, i, j) && j - i == LongestRun(t, op);
        assert IsRun(s, op, i + 1, j + 1);
      }
    }
  }

  lemma {:induction false} LeadingRunAtMostLongest(s: seq<UnaryOperator>, op: UnaryOperator)
    ensures LeadingRun(s, op) <= LongestRun(s, op)
  {
  }

  /**
   * With non-negative accumulators, the count is the best of `maxCounter`,
   * the run that `counter` started continued over the nearest unary
   * ancestors, and the longest run among all unary ancestors.
   */
  lemma {:induction false} CountIsLongestRun(node: Located, op: UnaryOperator, counter: int, maxCounter: int)
    requires counter >= 0
    ensures var ops := UnaryChain(node.ancestors);
            CountConsecutiveUnaryOperator(node, op, counter, maxCounter) ==
            Max(maxCounter, Max(counter + LeadingRun(ops, op), LongestRun(ops, op)))
    decreases |node.ancestors|
  {
    var ops := UnaryChain(node.ancestors);
    var count := CountConsecutiveUnaryOperator(node, op, counter, maxCounter);
    var parent := GetParent(node);
    if parent.Some? && parent.value.UnaryOp? {
      var up := Up(node);
      var rest := UnaryChain(up.ancestors);
      var lead, longest := LeadingRun(rest, op), LongestRun(rest, op);
      ChainStep(node);
      RunStep(parent.value.op, rest, op);
      LeadingRunAtMostLongest(rest, op);
      if parent.value.op == op {
        CountIsLongestRun(up, op, counter + 1, maxCounter);
        assert count == Max(maxCounter, Max(counter + 1 + lead, longest));
        assert LeadingRun(ops, op) == 1 + lead && LongestRun(ops, op) == Max(1 + lead, longest);
        MaxAfterMatch(counter, maxCounter, lead, longest);
      } else {
        var nextMax := if counter > maxCounter then counter else maxCounter;
        CountIsLongestRun(up, op, 0, nextMax);
        assert count == Max(nextMax, Max(lead, longest));
        assert LeadingRun(ops, op) == 0 && LongestRun(ops, op) == longest;
        MaxAfterMismatch(counter, maxCounter, lead, longest);
      }
    } else {
      assert ops == [];
      assert count == Max(counter, maxCounter);
    }
  }

  lemma MaxAfterMatch(counter: int, maxCounter: int, lead: int, longest: int)
    requires counter >= 0 && lead <= longest
    ensures Max(maxCounter, Max(counter + 1 + lead, longest)) ==
            Max(maxCounter, Max(counter + (1 + lead), Max(1 + lead, longest)))
  {
  }

  lemma MaxAfterMismatch(counter: int, maxCounter: int, lead: int, longest: int)
    requires counter >= 0 && 0 <= lead <= longest
    ensures var nextMax := if counter > maxCounter then counter else maxCounter;
            Max(nextMax, Max(lead, longest)) == Max(maxCounter, Max(counter + 0, longest))
  {
  }

  lemma ChainStep(node: Located)
    requires GetParent(node).Some? && GetParent(node).value.UnaryOp?
    ensures UnaryChain(node.ancestors) == [node.ancestors[0].op] + UnaryChain(Up(node).ancestors)
  {
  }

  lemma RunStep(first: UnaryOperator, rest: seq<UnaryOperator>, op: UnaryOperator)
    ensures LeadingRun([first] + rest, op) == if first == op then 1 + LeadingRun(rest, op) else 0
    ensures LongestRun([first] + rest, op) == Max(LeadingRun([first] + rest, op), LongestRun(rest, op))
  {
    assert ([first] + rest)[1..] == rest;
  }

  /**
   * With the default accumulators, the count is the
   * longest run of `op` among the consecutive unary ancestors: 0 when the
   * parent is not a `UnaryOp`, and never more than the number of those
   * ancestors.
   */
  lemma CountWithDefaults(node: Located, op: UnaryOperator)
    ensures CountConsecutiveUnaryOperator(node, op) == LongestRun(UnaryChain(node.ancestors), op)
    ensures CountConsecutiveUnaryOperator(node, op) <= |UnaryChain(node.ancestors)|
    ensures !(GetParent(node).Some? && GetParent(node).value.UnaryOp?) ==>
              CountConsecutiveUnaryOperator(node, op) == 0
  {
    CountIsLongestRun(node, op, 0, 0);
    LeadingRunAtMostLongest(UnaryChain(node.ancestors), op);
    LongestRunIsLongest(UnaryChain(node.ancestors), op);
  }

  // ---------------------------------------------------------------------
  // get_reduced_unary_operators: the operators that still matter
  // ---------------------------------------------------------------------

  /** No `UAdd` in the chain. */
  predicate NoUAdd(s: seq<UnaryOperator>) {
    forall i :: 0 <= i < |s| ==> s[i] != UAdd
  }

  /** No operator directly followed by itself. */
  predicate NoRepeats(s: seq<UnaryOperator>) {
    forall i :: 0 <= i < |s| - 1 ==> s[i] != s[i + 1]
  }

  /**
   * One step on the operator stack: `UAdd` is skipped; an operator equal to
   * the top of the stack pops it (`--x` is `x`); any other is pushed.
   */
  function ReduceStep(chain: seq<UnaryOperator>, op: UnaryOperator): seq<UnaryOperator> {
    if op == UAdd then chain
    else if chain != [] && chain[|chain| - 1] == op then chain[..|chain| - 1]
    else chain + [op]
  }

  /** The stack after feeding it `ops` in order, starting from `chain`. */
  function Reduce(chain: seq<UnaryOperator>, ops: seq<UnaryOperator>): seq<UnaryOperator>
    decreases |ops|
  {
    if ops == [] then chain else Reduce(ReduceStep(chain, ops[0]), ops[1..])
  }

  /** `ops` without its `UAdd` entries. */
  function Significant(ops: seq<UnaryOperator>): (r: seq<UnaryOperator>)
    ensures NoUAdd(r) && |r| <= |ops|
  {
    if ops == [] then []
    else if ops[0] == UAdd then Significant(ops[1..])
    else [ops[0]] + Significant(ops[1..])
  }

  /** The stack never gains a `UAdd` and never gains a repeated neighbour. */
  lemma {:induction false} ReduceKeepsShape(chain: seq<UnaryOperator>, ops: seq<UnaryOperator>)
    ensures NoUAdd(chain) ==> NoUAdd(Reduce(chain, ops))
    ensures NoRepeats(chain) ==> NoRepeats(Reduce(chain, ops))
    decreases |ops|
  {
    if ops != [] {
      ReduceKeepsShape(ReduceStep(chain, ops[0]), ops[1..]);
    }
  }

  /**
   * Each significant operator moves the stack by exactly one entry, so the
   * result is no longer than the start plus the non-`UAdd` operators, and
   * differs from that length by an even number.
   */
  lemma {:induction false} ReduceLength(chain: seq<UnaryOperator>, ops: seq<UnaryOperator>)
    ensures |Reduce(chain, ops)| <= |chain| + |Significant(ops)|
    ensures (|chain| + |Significant(ops)| - |Reduce(chain, ops)|) % 2 == 0
    decreases |ops|
  {
    if ops != [] {
      ReduceLength(ReduceStep(chain, ops[0]), ops[1..]);
    }
  }

  /** Feeding `a + b` is feeding `a`, then `b`. */
  lemma {:induction false} ReduceAppend(chain: seq<UnaryOperator>, a: seq<UnaryOperator>, b: seq<UnaryOperator>)
    ensures Reduce(chain, a + b) == Reduce(Reduce(chain, a), b)
    decreases |a|
  {
    if a == [] {
      assert a + b == b;
    } else {
      assert (a + b)[0] == a[0];
      assert (a + b)[1..] == a[1..] + b;
      ReduceAppend(ReduceStep(chain, a[0]), a[1..], b);
    }
  }

  /** `UAdd` entries have no effect. */
  lemma {:induction false} ReduceIgnoresUAdd(chain: seq<UnaryOperator>, ops: seq<UnaryOperator>)
    ensures Reduce(chain, ops) == Reduce(chain, Significant(ops))
    decreases |ops|
  {
    if ops != [] {
      ReduceIgnoresUAdd(ReduceStep(chain, ops[0]), ops[1..]);
      if ops[0] != UAdd {
        var t := [ops[0]] + Significant(ops[1..]);
        assert t[0] == ops[0] && t[1..] == Significant(ops[1..]);
      }
    }
  }

  /** Two identical significant operators in a row cancel, wherever they stand. */
  lemma ReduceCancelsPair(
    chain: seq<UnaryOperator>, a: seq<UnaryOperator>, op: UnaryOperator, b: seq<UnaryOperator>)
    requires NoRepeats(chain) && op != UAdd
    ensures Reduce(chain, a + [op, op] + b) == Reduce(chain, a + b)
  {
    var mid := Reduce(chain, a);
    ReduceKeepsShape(chain, a);
    ReduceAppend(chain, a, [op, op] + b);
    assert a + [op, op] + b == a + ([op, op] + b);
    ReduceAppend(mid, [op, op], b);
    ReduceAppend(chain, a, b);
    PairLeavesStack(mid, op);
  }

  lemma PairLeavesStack(s: seq<UnaryOperator>, op: UnaryOperator)
    requires NoRepeats(s) && op != UAdd
    ensures Reduce(s, [op, op]) == s
  {
    assert [op, op][1..] == [op];
    assert [op][1..] == [];
    if s != [] && s[|s| - 1] == op {
      var p := s[..|s| - 1];
      assert p == [] || p[|p| - 1] != op by {
        if p != [] { assert p[|p| - 1] == s[|s| - 2]; }
      }
      assert ReduceStep(s, op) == p;
      assert ReduceStep(p, op) == p + [op] == s;
      assert Reduce(s, [op, op]) == Reduce(p, [op]) == Reduce(s, []);
    } else {
      assert ReduceStep(s, op) == s + [op];
      assert (s + [op])[..|s|] == s;
      assert ReduceStep(s + [op], op) == s;
      assert Reduce(s, [op, op]) == Reduce(s + [op], [op]) == Reduce(s, []);
    }
  }

  /** A stack that is already reduced is left as it is: feeding it just appends. */
  lemma {:induction false} ReduceOfReduced(chain: seq<UnaryOperator>, ops: seq<UnaryOperator>)
    requires NoUAdd(ops) && NoRepeats(chain + ops)
    ensures Reduce(chain, ops) == chain + ops
    decreases |ops|
  {
    if ops == [] {
      assert chain + ops == chain;
    } else {
      assert (chain + ops)[|chain|] == ops[0];
      assert chain != [] ==> (chain + ops)[|chain| - 1] == chain[|chain| - 1];
      assert chain + ops == (chain + [ops[0]]) + ops[1..];
      ReduceOfReduced(chain + [ops[0]], ops[1..]);
    }
  }

  /** Reducing an already reduced chain again gives the same chain. */
  lemma ReduceIdempotent(ops: seq<UnaryOperator>)
    ensures Reduce([], Reduce([], ops)) == Reduce([], ops)
  {
    var r := Reduce([], ops);
    ReduceKeepsShape([], ops);
    assert [] + r == r;
    ReduceOfReduced([], r);
  }

  /** The Python list that `get_reduced_unary_operators` uses as a stack. */
  class OpChain {
    var items: seq<UnaryOperator>

    constructor ()
      ensures items == []
    {
      items := [];
    }

    /** `list.append`. */
    method Append(op: UnaryOperator)
      modifies this
      ensures items == old(items) + [op]
    {
      items := items + [op];
    }

    /** `list.pop()` on a non-empty list. */
    method Pop() returns (last: UnaryOperator)
      requires items != []
      modifies this
      ensures last == old(items)[|old(items)| - 1]
      ensures items == old(items)[..|old(items)| - 1]
    {
      last := items[|items| - 1];
      items := items[..|items| - 1];
    }
  }

  /**
   * `get_reduced_unary_operators`: climbs the `UnaryOp` ancestors, nearest
   * first, using `opchain` (a new list when none is given) as a stack, and
   * returns that same list. Without a starting list the result has no
   * `UAdd`, no entry equal to its neighbour, and no more entries than the
   * non-`UAdd` unary ancestors.
   */
  method GetReducedUnaryOperators(node: Located, opchain: OpChain? := null) returns (result: OpChain)
    modifies opchain
    ensures opchain != null ==> result == opchain
    ensures opchain == null ==> fresh(result)
    ensures var start := if opchain == null then [] else old(opchain.items);
            result.items == Reduce(start, UnaryChain(node.ancestors))
    ensures opchain != null && !(GetParent(node).Some? && GetParent(node).value.UnaryOp?) ==>
              result.items == old(opchain.items)
    ensures opchain == null ==>
              NoUAdd(result.items) && NoRepeats(result.items) &&
              |result.items| <= |Significant(UnaryChain(node.ancestors))|
    decreases |node.ancestors|
  {
    var chain := opchain;
    if chain == null {
      chain := new OpChain();
    }
    ghost var start := chain.items;
    var parent := GetParent(node);
    if !(parent.Some? && parent.value.UnaryOp?) {
      result := chain;
    } else {
      var op := parent.value.op;
      if op != UAdd {
        var lastop: Option<UnaryOperator> :=
          if chain.items != [] then Some(chain.items[|chain.items| - 1]) else None;
        if lastop.Some? && lastop.value == op {
          var _ := chain.Pop();
        } else {
          chain.Append(op);
        }
      }
      assert chain.items == ReduceStep(start, op);
      result := GetReducedUnaryOperators(Up(node), chain);
    }
    if opchain == null {
      ReduceKeepsShape([], UnaryChain(node.ancestors));
      ReduceLength([], UnaryChain(node.ancestors));
    }
  }
}
