/**
 * The part of Python's `ast` module that the tree helpers rely on: the node
 * kinds they inspect, the child order of `ast.iter_child_nodes`, and
 * `ast.walk`, which enumerates a node and all its descendants breadth first.
 *
 * Python compares nodes by object identity (`is`); the model gives every node
 * an `id` and compares ids.
 */
module Ast {
  import opened Wrappers

  type NodeId = nat

  /** The four unary operators of Python's grammar. */
  datatype UnaryOperator = UAdd | USub | Not | Invert

  /** The payload of a `Constant` node (float, complex and `...` are `OtherValue`). */
  datatype ConstValue =
    | StrValue(text: string)
    | BytesValue(bytes: seq<bv8>)
    | IntValue(number: int)
    | BoolValue(truth: bool)
    | NoneValue
    | OtherValue

  /** Kinds of the nodes that carry no field the helpers read. */
  datatype Tag =
    | FunctionDef | AsyncFunctionDef | ClassDef
    | For | AsyncFor | While
    | Break | Continue | Return | Raise
    | Name | Assign | ExceptHandler | Module | OtherNode

  /** What `isinstance(node, ...)` can ask about a node. */
  datatype Kind =
    | UnaryOpKind | ExprKind | ConstantKind | FormattedValueKind | TryKind
    | TagKind(tag: Tag)

  /**
   * A syntax tree. The fields are those of the Python classes that the
   * helpers read; every other node class is `Generic` with its children in
   * field order. `conversion` is -1 when the formatted value has no `!s`,
   * `!r` or `!a`, otherwise the character code of the flag.
   */
  datatype Node =
    | UnaryOp(id: NodeId, op: UnaryOperator, operand: Node)
    | Expr(id: NodeId, value: Node)
    | Constant(id: NodeId, literal: ConstValue)
    | FormattedValue(id: NodeId, value: Node, conversion: int, formatSpec: Option<Node>)
    | Try(id: NodeId, body: seq<Node>, handlers: seq<Node>, orelse: seq<Node>, finalbody: seq<Node>)
    | Generic(id: NodeId, tag: Tag, children: seq<Node>)

  function KindOf(n: Node): Kind {
    match n
    case UnaryOp(_, _, _) => UnaryOpKind
    case Expr(_, _) => ExprKind
    case Constant(_, _) => ConstantKind
    case FormattedValue(_, _, _, _) => FormattedValueKind
    case Try(_, _, _, _, _) => TryKind
    case Generic(_, tag, _) => TagKind(tag)
  }

  /** The direct children of `n`, in the order `ast.iter_child_nodes` yields them. */
  function Children(n: Node): seq<Node> {
    match n
    case UnaryOp(_, _, operand) => [operand]
    case Expr(_, value) => [value]
    case Constant(_, _) => []
    case FormattedValue(_, value, _, spec) =>
      [value] + (match spec case Some(s) => [s] case None => [])
    case Try(_, body, handlers, orelse, finalbody) => body + handlers + orelse + finalbody
    case Generic(_, _, children) => children
  }

  /** `n` and every node below it, each counted as often as it occurs in the tree. */
  function Subtrees(n: Node): multiset<Node> {
    multiset{n} +
    match n
    case UnaryOp(_, _, operand) => Subtrees(operand)
    case Expr(_, value) => Subtrees(value)
    case Constant(_, _) => multiset{}
    case FormattedValue(_, value, _, spec) =>
      Subtrees(value) + (match spec case Some(s) => Subtrees(s) case None => multiset{})
    case Try(_, body, handlers, orelse, finalbody) =>
      Forest(body) + Forest(handlers) + Forest(orelse) + Forest(finalbody)
    case Generic(_, _, children) => Forest(children)
  }

  /** The subtrees of a list of nodes, e.g. of the `ast.walk` work queue. */
  function Forest(s: seq<Node>): multiset<Node> {
    if s == [] then multiset{} else Subtrees(s[0]) + Forest(s[1..])
  }

  lemma {:induction false} ForestAppend(a: seq<Node>, b: seq<Node>)
    ensures Forest(a + b) == Forest(a) + Forest(b)
  {
    if a == [] {
      assert a + b == b;
    } else {
      assert (a + b)[0] == a[0];
      assert (a + b)[1..] == a[1..] + b;
      ForestAppend(a[1..], b);
    }
  }

  /** A one-node forest is that node's subtrees. */
  lemma SingletonForest(x: Node)
    ensures Forest([x]) == Subtrees(x)
  {
    assert [x][1..] == [];
  }

  /** A node's subtrees are the node itself and the subtrees of its children. */
  lemma SubtreesOfChildren(n: Node)
    ensures Subtrees(n) == multiset{n} + Forest(Children(n))
  {
    match n
    case UnaryOp(_, _, operand) =>
      SingletonForest(operand);
    case Expr(_, value) =>
      SingletonForest(value);
    case Constant(_, _) =>
    case FormattedValue(_, value, _, spec) =>
      SingletonForest(value);
      match spec {
        case Some(s) =>
          SingletonForest(s);
          ForestAppend([value], [s]);
        case None =>
          assert Children(n) == [value];
      }
    case Try(_, body, handlers, orelse, finalbody) =>
      ForestAppend(body, handlers);
      ForestAppend(body + handlers, orelse);
      ForestAppend(body + handlers + orelse, finalbody);
    case Generic(_, _, _) =>
  }

  /** The work queue after `ast.walk` pops its head and enqueues the head's children. */
  function NextQueue(queue: seq<Node>): (next: seq<Node>)
    requires queue != []
    ensures Forest(queue) == multiset{queue[0]} + Forest(next)
    ensures |Forest(next)| < |Forest(queue)|
  {
    var next := queue[1..] + Children(queue[0]);
    SubtreesOfChildren(queue[0]);
    ForestAppend(queue[1..], Children(queue[0]));
    next
  }

  /** What `ast.walk` yields once its work queue holds `queue`. */
  function Bfs(queue: seq<Node>): seq<Node>
    decreases |Forest(queue)|
  {
    if queue == [] then [] else [queue[0]] + Bfs(NextQueue(queue))
  }

  lemma {:induction false} BfsEnumeratesForest(queue: seq<Node>)
    ensures multiset(Bfs(queue)) == Forest(queue)
    decreases |Forest(queue)|
  {
    if queue != [] {
      BfsEnumeratesForest(NextQueue(queue));
    }
  }

  /**
   * `ast.walk(n)` lists exactly the nodes of `n`'s tree, each as often as it
   * occurs there (so once, when node ids are unique).
   */
  lemma WalkEnumeratesSubtrees(n: Node)
    ensures multiset(Walk(n)) == Subtrees(n)
  {
    BfsEnumeratesForest([n]);
    assert [n][1..] == [];
  }

  /** `ast.walk(n)`: `n` first, then every descendant, breadth first. */
  function Walk(n: Node): seq<Node> {
    Bfs([n])
  }

  /** The nodes `ast.walk(n)` visits are exactly those of `n`'s tree, `n` first. */
  lemma WalkMembers(n: Node)
    ensures |Walk(n)| > 0 && Walk(n)[0] == n
    ensures forall x :: x in Walk(n) <==> x in Subtrees(n)
  {
    WalkEnumeratesSubtrees(n);
    assert forall x :: x in Walk(n) <==> x in multiset(Walk(n));
  }

  /** Every node listed in a forest lies in it, with its whole tree. */
  lemma {:induction false} ForestHoldsMember(s: seq<Node>, i: nat)
    requires i < |s|
    ensures Subtrees(s[i]) <= Forest(s)
    decreases i
  {
    if i > 0 {
      ForestHoldsMember(s[1..], i - 1);
    }
  }

  /** A child of `p` lies in `p`'s tree. */
  lemma ChildInSubtrees(p: Node, c: Node)
    requires c in Children(p)
    ensures c in Subtrees(p)
  {
    var kids := Children(p);
    assert c in Forest(kids) by {
      var i :| 0 <= i < |kids| && kids[i] == c;
      ForestHoldsMember(kids, i);
      assert c in Subtrees(kids[i]);
    }
    SubtreesOfChildren(p);
  }

  /** A node of a forest lies in the tree of one of the forest's roots. */
  lemma {:induction false} ForestMember(s: seq<Node>, y: Node)
    requires y in Forest(s)
    ensures exists i :: 0 <= i < |s| && y in Subtrees(s[i])
    decreases |s|
  {
    if y !in Subtrees(s[0]) {
      ForestMember(s[1..], y);
      var i :| 0 <= i < |s[1..]| && y in Subtrees(s[1..][i]);
      assert y in Subtrees(s[i + 1]);
    }
  }

  /** A part of a multiset is no larger than the whole. */
  lemma SubMultisetSize(part: multiset<Node>, whole: multiset<Node>)
    requires part <= whole
    ensures |part| <= |whole|
  {
    assert whole == part + (whole - part);
  }

  /** The tree of a node inside `x`'s tree is part of `x`'s tree. */
  lemma {:induction false} SubtreesNested(x: Node, y: Node)
    requires y in Subtrees(x)
    ensures Subtrees(y) <= Subtrees(x)
    decreases |Subtrees(x)|
  {
    SubtreesOfChildren(x);
    if y != x {
      var c := Children(x);
      ForestMember(c, y);
      var i :| 0 <= i < |c| && y in Subtrees(c[i]);
      ForestHoldsMember(c, i);
      SubMultisetSize(Subtrees(c[i]), Forest(c));
      SubtreesNested(c[i], y);
    }
  }
}
