# Tree helpers of wemake-python-styleguide, in Dafny

This project models three small modules of `wemake_python_styleguide/logic/tree/`. The linter's visitors use them to ask questions about a Python syntax tree:

- `operators.py` handles chains of unary operators (`-x`, `not x`, `~x`, `+x`, `--x`). It unwraps a node from its unary wrappers and finds the first parent that is not a unary operator. It counts the longest run of one operator among the unary ancestors. It also reduces those ancestors' operators with a stack: `UAdd` is ignored and two equal neighbours cancel.
- `loops.py` answers three questions: whether a loop breaks out of itself (`has_break`), whether a node is in a loop's tree (`_does_loop_contain_node`), and whether a node is directly inside a `try` statement (in any of its parts: body, `except` handlers, `else` or `finally`) that has `except` handlers (`is_in_try_except`).
- `strings.py` decides whether a statement is shaped like a docstring (`is_doc_string`). It also decides whether the formatted value that an f-string component belongs to has a `!s`/`!r`/`!a` conversion (`has_fstring_conversion`).

The model has these parts:

- A syntax tree is the datatype `Ast.Node`. `UnaryOp`, `Expr`, `Constant`, `FormattedValue` and `Try` have the fields the helpers read. Every other node class is `Generic`, with a kind and its children in field order.
- Python's identity test `is` becomes equality of node ids.
- `ast.walk` is the breadth-first walk of Python's `ast` module: a queue, popped at the front, with each node's children appended (`Ast.Walk`, `Ast.Bfs`).
- The repository stores each node's parent in the node itself. The model gives a node's position instead: the node plus its ancestors, nearest first (`Navigation.Located`). So `get_parent` is the head of that sequence, and moving to the parent drops the head. `get_closest_parent` returns the nearest ancestor of the requested kinds (`Navigation.ClosestParent`).
- Code that loops in the source is a method with a loop: `unwrap_unary_node`, `get_parent_ignoring_unary` and `has_break`.
- `get_reduced_unary_operators` mutates a list passed in and returns that same list. It is modelled as a recursive method over a class `OpChain` that holds the list.
- `count_consecutive_unary_operator`, `_does_loop_contain_node`, `is_in_try_except` and the string predicates are functions.
- Each method is proved against a specification function. The lemmas state what those functions mean.

## Model

| member | source | states |
|---|---|---|
| Ast.WalkEnumeratesSubtrees | wemake_python_styleguide/logic/tree/loops.py:21 | `ast.walk(n)` lists every node of `n`'s tree, each node as often as it occurs in the tree. |
| Ast.WalkMembers | wemake_python_styleguide/logic/tree/loops.py:21 | `Walk`, the model of `ast.walk(n)`, starts at `n`, and it visits a node if and only if that node lies in `n`'s tree. |
| Ast.BfsEnumeratesForest | wemake_python_styleguide/logic/tree/loops.py:42 | Starting from any work queue, the breadth-first walk yields exactly the nodes of the queued trees, with multiplicity. |
| Navigation.ParentHoldsNode | wemake_python_styleguide/logic/tree/operators.py:32 | In a real tree, `get_parent` climbs strictly upwards: the parent's tree holds the node and is larger than the node's tree, so the parent never lies inside the node's tree. |
| Navigation.ClosestParent | wemake_python_styleguide/logic/tree/loops.py:27-30 | `get_closest_parent` is `None` if and only if no ancestor has one of the kinds. Otherwise it is an ancestor of such a kind, with no ancestor of those kinds below it. |
| Navigation.ClosestParentStopsAtFirst | wemake_python_styleguide/logic/tree/strings.py:23-25 | The first ancestor of a wanted kind is the answer, whatever lies above it. |
| Navigation.ClosestParentAt | wemake_python_styleguide/logic/tree/loops.py:27-30 | The ancestor at the lowest index among those of a wanted kind is the closest parent. |
| Navigation.AncestorsHoldNode | wemake_python_styleguide/logic/tree/operators.py:32-35 | In a real tree, climbing parents from a node only ever reaches nodes whose tree holds that node. |
| Navigation.ClosestParentHoldsNode | wemake_python_styleguide/logic/tree/loops.py:27-30 | In a real tree, the closest parent that `get_closest_parent` finds has the node inside its tree. |
| Operators.Unwrapped | wemake_python_styleguide/logic/tree/operators.py:13-16 | Unwrapping never yields a `UnaryOp`. |
| Operators.UnwrapUnaryNode | wemake_python_styleguide/logic/tree/operators.py:6-16 | The result is not a `UnaryOp`. A non-unary argument is returned unchanged. The result is the node's unwrapped core. |
| Operators.RewrapUndoesUnwrap | wemake_python_styleguide/logic/tree/operators.py:13-16 | Unwrapping loses nothing: the node equals its core wrapped again in the peeled unary layers. |
| Operators.UnwrapUndoesRewrap | wemake_python_styleguide/logic/tree/operators.py:13-16 | Wrap any non-unary node in any unary layers, then unwrap it: this gives back the same node and the same layers. |
| Operators.UnwrapIdempotent | wemake_python_styleguide/logic/tree/operators.py:9-16 | Unwrapping an already unwrapped node changes nothing. |
| Operators.UnaryChain | wemake_python_styleguide/logic/tree/operators.py:45-49 | Lists the operators of the maximal run of `UnaryOp` ancestors directly above a node, nearest first. The ancestor just past the run is not a `UnaryOp`. |
| Operators.GetParentIgnoringUnary | wemake_python_styleguide/logic/tree/operators.py:19-35 | Returns the first ancestor that is not a `UnaryOp`, or `None` when no such ancestor exists. The result is never a `UnaryOp`. |
| Operators.UnwrapUndoesClimb | wemake_python_styleguide/logic/tree/operators.py:6-35 | In a real tree, take a non-unary node and unwrap the topmost `UnaryOp` of the run above it. This leads back to the node. |
| Operators.CountConsecutiveUnaryOperator | wemake_python_styleguide/logic/tree/operators.py:38-55 | The count is never below either accumulator. |
| Operators.LongestRunIsLongest | wemake_python_styleguide/logic/tree/operators.py:44-55 | `LongestRun` bounds every stretch of one operator, and some stretch has exactly that length. The value is at most the sequence length. |
| Operators.CountIsLongestRun | wemake_python_styleguide/logic/tree/operators.py:44-55 | With a non-negative `counter`, the count is the largest of three values: `max_counter`, the run that `counter` started extended over the nearest unary ancestors, and the longest run among all unary ancestors. |
| Operators.CountWithDefaults | wemake_python_styleguide/logic/tree/operators.py:38-55 | With default accumulators, the count is the longest run of the operator among the consecutive unary ancestors. It is 0 when the parent is not a `UnaryOp`, and never more than the number of those ancestors. |
| Operators.ReduceKeepsShape | wemake_python_styleguide/logic/tree/operators.py:70-75 | Reduction never adds a `UAdd` and never leaves two equal adjacent operators, starting from a chain without them. |
| Operators.ReduceLength | wemake_python_styleguide/logic/tree/operators.py:70-77 | The result has at most the starting length plus the number of non-`UAdd` operators. The two lengths differ by an even number. |
| Operators.ReduceAppend | wemake_python_styleguide/logic/tree/operators.py:77 | Reducing `a + b` is reducing `a`, then `b`. |
| Operators.ReduceIgnoresUAdd | wemake_python_styleguide/logic/tree/operators.py:70 | `UAdd` operators have no effect on the result. |
| Operators.ReduceCancelsPair | wemake_python_styleguide/logic/tree/operators.py:71-75 | From a start with no equal neighbours (such as the default empty list), two identical non-`UAdd` operators in a row cancel wherever they stand among the operators fed. |
| Operators.ReduceOfReduced | wemake_python_styleguide/logic/tree/operators.py:70-75 | Feeding a `UAdd`-free sequence onto a start, when the two joined have no equal neighbours, just appends it. |
| Operators.ReduceIdempotent | wemake_python_styleguide/logic/tree/operators.py:58-77 | Reducing the result of a reduction again gives the same result. |
| Operators.OpChain.Append | wemake_python_styleguide/logic/tree/operators.py:75 | `list.append` adds the operator at the end. |
| Operators.OpChain.Pop | wemake_python_styleguide/logic/tree/operators.py:73 | `list.pop` removes and returns the last operator. |
| Operators.GetReducedUnaryOperators | wemake_python_styleguide/logic/tree/operators.py:58-77 | Returns the list it was given (or a fresh one), holding the reduction of the unary ancestors' operators. It is unchanged when the parent is not a `UnaryOp`. A fresh list has no `UAdd`, no equal neighbours, and at most one entry per non-`UAdd` unary ancestor. |
| Loops.DoesLoopContainNode | wemake_python_styleguide/logic/tree/loops.py:8-21 | No loop (`None`) contains nothing. A loop contains a node if and only if a node with the same identity lies in the loop's tree, the loop itself included. |
| Loops.IsInTryExcept | wemake_python_styleguide/logic/tree/loops.py:24-31 | True if and only if some ancestor is a `Try` with handlers and no function, class or `Try` lies between the node and it. |
| Loops.ScopeHidesOuterTry | wemake_python_styleguide/logic/tree/loops.py:27-31 | When the nearest function, class or `Try` ancestor is a function, a class or a handler-less `Try`, the answer is false, whatever try/except lies further out. |
| Loops.ClosestInnerLoop | wemake_python_styleguide/logic/tree/loops.py:40-44 | `closest_loop` is `None` or a loop already walked, and is never the root loop. |
| Loops.HasBreak | wemake_python_styleguide/logic/tree/loops.py:34-53 | The scan answers true if and only if some walked break-kind node is not inside the loop `closest_loop` names when the scan reaches it. |
| Loops.HasBreakNeedsBreakNode | wemake_python_styleguide/logic/tree/loops.py:42-53 | Without a break-kind node in the loop's tree the answer is false. |
| Loops.HasBreakWithoutInnerLoops | wemake_python_styleguide/logic/tree/loops.py:40-52 | If the tree has no loop other than the root, `closest_loop` stays `None`. The answer is then true if and only if some break-kind node occurs. |
| Loops.HasBreakCountsBreakOfEarlierInnerLoop | wemake_python_styleguide/logic/tree/loops.py:40-52 | In `for: {for: break}; while: pass` the scan answers true, although the only break is inside an inner loop. |
| Loops.SampleHasNoOwnBreak | wemake_python_styleguide/logic/tree/loops.py:12-16 | In the same tree, the intended answer is false. |
| Loops.InAnyInnerLoopMeans | wemake_python_styleguide/logic/tree/loops.py:18-21 | Being inside some walked inner loop is the same as lying in the tree of an inner loop of the root. |
| Loops.OwnBreakOnWalk | wemake_python_styleguide/logic/tree/loops.py:42-52 | The intended answer, read off the walk: some walked break-kind node that no walked inner loop contains. |
| Loops.HasOwnBreak | wemake_python_styleguide/logic/tree/loops.py:34-53 | The corrected scan answers true if and only if the tree has a break-kind node that no inner loop holds. |
| Loops.HasOwnBreakAgreesWithoutInnerLoops | wemake_python_styleguide/logic/tree/loops.py:40-52 | Without inner loops, the corrected scan and the scan as written agree. |
| Strings.IsDocString | wemake_python_styleguide/logic/tree/strings.py:6-18 | True if and only if the node is an expression statement made of a `str` constant, wherever it stands. Every other statement, and a bytes, number, bool or `None` constant, is not a docstring. |
| Strings.HasFstringConversion | wemake_python_styleguide/logic/tree/strings.py:21-29 | The answer is true if and only if the chosen node is a `FormattedValue` with a conversion. The chosen node is the nearest `FormattedValue` ancestor if one exists, otherwise the component itself. |
| Strings.ClosestFormattedValueDecides | wemake_python_styleguide/logic/tree/strings.py:23-29 | The nearest `FormattedValue` ancestor alone decides, through its conversion. Outer formatted values are irrelevant. |

## Left out

- Python's parser, and the parent bookkeeping that fills in each node's parent, are not part of this model. A position is given as an ancestor sequence. `WellFormed` states that this sequence really is the path down to the node. Only the lemmas that speak of a real tree (`UnwrapUndoesClimb`, `ParentHoldsNode`, `AncestorsHoldNode`, `ClosestParentHoldsNode`) need it.
- Besides the statement and expression nodes, `ast.walk` also yields operator and context objects (`ast.USub()`, `ast.Load()`). These are not nodes here. None of them is a loop, a break kind, a `Try` or a `FormattedValue`, so no helper's answer depends on them.
- Operator classes (`type[ast.unaryop]`) are the enumeration `UnaryOperator`, and `isinstance` on them is equality. Python recursion limits on deep unary chains are not modelled.
- `break_nodes` (loops.py:46) and the kind tuples given to `get_closest_parent` (loops.py:29, strings.py:24) are sets of exact node kinds (`Kind`), and `KindOf` gives each node its exact class. So an `isinstance` test against a base class such as `ast.stmt` is not modelled. The kind tuples in these files name only concrete classes.
- `conversion` is an integer: -1 means no conversion, as in Python's `ast`. Format specs exist only as children that `ast.walk` visits.
- The formatted-string complexity classifier (`WrongFormatStringVisitor`, `WrongStringVisitor`) is not part of this model. It is a separate visitor and lies outside these tree helpers.
- The docstring of `is_doc_string` speaks of strings placed right after a definition. The code checks only the node's shape, and the model follows the code.

## Findings

| source | as written | input that shows it | evidently intended | confidence | as-written member | corrected member |
|---|---|---|---|---|---|---|
| wemake_python_styleguide/logic/tree/loops.py:40-52 | `has_break` checks a break only against the latest inner loop seen in breadth-first walk order. | A `for` loop whose body is an inner `for` loop containing `break`, followed by a `while` loop: the break is not in the `while`, so `has_break` is true for the outer loop. | A break counts for the loop only when no inner loop holds it, as the helper's docstring says (loops.py:12-16). | medium; not executed | Loops.HasBreakCountsBreakOfEarlierInnerLoop | Loops.HasOwnBreak |
