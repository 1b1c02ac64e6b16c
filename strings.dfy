/**
 * Predicates on string nodes: whether an expression statement is a
 * docstring-shaped string constant, and whether the formatted value that
 * an f-string component belongs to carries a conversion (`!s`, `!r`, `!a`).
 */
module Strings {
  import opened Wrappers
  import opened Ast
  import opened Navigation

  /**
   * `is_doc_string`: an expression statement whose value is a `str`
   * constant. Only the node's shape is examined, not where the statement
   * stands in its function, class or module, so every other statement and
   * every bytes, number, bool or `None` constant is rejected.
   */
  predicate IsDocString(node: Node): (docstring: bool)
    ensures docstring <==> exists constantId, text :: node == Expr(node.id, Constant(constantId, StrValue(text)))
  {
    var shaped := node.Expr? && node.value.Constant? && node.value.literal.StrValue?;
    assert shaped ==> node == Expr(node.id, Constant(node.value.id, StrValue(node.value.literal.text)));
    shaped
  }

  /** `conversion` of a formatted value without `!s`, `!r` or `!a`. */
  const NoConversion: int := -1

  /**
   * `has_fstring_conversion`: takes the closest `FormattedValue` ancestor of
   * the component, or the component itself when there is none, and checks
   * that it is a `FormattedValue` with a conversion. So the answer is the
   * conversion check on the nearest `FormattedValue` ancestor when there is
   * one, and on the component itself otherwise.
   */
  predicate HasFstringConversion(component: Located): (converted: bool)
    ensures var a := component.ancestors;
            converted <==>
              if exists k :: 0 <= k < |a| && a[k].FormattedValue?
              then exists k :: 0 <= k < |a| && a[k].FormattedValue? && a[k].conversion != NoConversion &&
                               forall j :: 0 <= j < k ==> !a[j].FormattedValue?
              else component.node.FormattedValue? && component.node.conversion != NoConversion
  {
    var formatted := ClosestParent(component, {FormattedValueKind}).GetOr(component.node);
    formatted.FormattedValue? && formatted.conversion != NoConversion
  }

  /**
   * The closest `FormattedValue` ancestor alone decides, whatever lies
   * above it (outer formatted values included).
   */
  lemma ClosestFormattedValueDecides(component: Node, inner: seq<Node>, formatted: Node, outer: seq<Node>)
    requires forall i :: 0 <= i < |inner| ==> !inner[i].FormattedValue?
    requires formatted.FormattedValue?
    ensures HasFstringConversion(Located(component, inner + [formatted] + outer)) <==>
              formatted.conversion != NoConversion
  {
    ClosestParentStopsAtFirst(component, inner, formatted, outer, {FormattedValueKind});
  }
}
