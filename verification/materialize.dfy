/**
  Turning an expression into container contents: the constructor from an
  expression, the template `operator=`, and the compound assignments whose
  right-hand side is an expression. Each loop reads `re[i]`, so the whole
  tree is evaluated once per index with no intermediate containers.
 */
module Materialize {
  import opened Int64
  import opened Operators
  import opened Container
  import opened Expression

  /** Every index the constructor reads has a defined value. */
  predicate DefinedBelow(e: Expr, n: nat) {
    forall i: nat :: i < n ==> DefinedAt(e, i)
  }

  /** The contents of a container constructed from `e`: exactly `size()`
      elements, element `i` being `e[i]`. */
  function Materialized(e: Expr): (r: Seq)
    requires DefinedBelow(e, Size(e))
    ensures |r| == Size(e)
    ensures forall i :: 0 <= i < |r| ==> r[i] == Eval(e, i)
  {
    seq(Size(e), i requires 0 <= i < Size(e) => Eval(e, i))
  }

  /** `SeqContainer(ExprTemplate&&)`: allocate `expr.size()` zeros, then
      store `expr[i]` at every index. */
  method Construct(e: Expr) returns (r: Seq)
    requires DefinedBelow(e, Size(e))
    ensures r == Materialized(e)
  {
    var limit := Size(e);
    r := Fill(limit, 0);
    var i := 0;
    while i < limit
      invariant 0 <= i <= limit == |r|
      invariant forall j :: 0 <= j < i ==> r[j] == Eval(e, j)
    {
      r := r[i := Eval(e, i)];
      i := i + 1;
    }
    assert forall j :: 0 <= j < |r| ==> r[j] == Materialized(e)[j];
  }

  // ---------------------------------------------------------------------
  // Template operator= and compound assignment from an expression
  // ---------------------------------------------------------------------

  /** `this = re` through the template: below `max_val(size(), re.size())`
      every element is overwritten with `re[i]`; a shorter `this` grows to
      one past that bound, keeping a trailing 0, and a longer one keeps its
      length. (A plain `c = d` with a non-const container `d` binds to this
      template too, since `RightExpr&&` deduces `SeqContainer&`.) */
  function Assign(c: Seq, e: Expr): (r: Seq)
    requires DefinedBelow(e, Limit(c, Size(e)))
    ensures |r| == if |c| < Size(e) then Size(e) + 1 else |c|
    ensures forall i: nat :: i < Limit(c, Size(e)) ==> r[i] == Eval(e, i)
    ensures |c| < Size(e) ==> r[Size(e)] == 0
  {
    var g := GrowForAssign(c, Size(e));
    seq(|g|, i requires 0 <= i < |g| => if i < Limit(c, Size(e)) then Eval(e, i) else g[i])
  }

  /** The constructor and the assignment disagree: assigning a non-empty
      expression to an empty container leaves one extra 0 at the end. */
  lemma {:induction false} AssignToEmptyAddsTrailingZero(e: Expr)
    requires Size(e) > 0 && DefinedBelow(e, Size(e))
    ensures Assign([], e) == Materialized(e) + [0]
  {
    var r := Assign([], e);
    var m := Materialized(e);
    assert Limit([], Size(e)) == Size(e);
    assert |r| == |m + [0]|;
    forall i | 0 <= i < |r|
      ensures r[i] == (m + [0])[i]
    {
      if i < Size(e) {
        assert r[i] == Eval(e, i);
      }
    }
  }

  /** A plain `c = d` between non-const containers runs the template:
      `(1) = (5, 7)` leaves `(5, 7, 0)` where a copy would leave `(5, 7)`. */
  lemma PlainAssignmentGrowsPastSource()
    ensures Assign([1], Leaf([5, 7])) == [5, 7, 0]
  {
    var r := Assign([1], Leaf([5, 7]));
    assert r[0] == 5 && r[1] == 7 && r[2] == 0;
  }

  /** Assigning to a container at least as long as the expression keeps its
      length and overwrites every element with the expression's value. */
  lemma AssignToLongerKeepsLength(c: Seq, e: Expr)
    requires Size(e) <= |c| && DefinedBelow(e, |c|)
    ensures DefinedBelow(e, Limit(c, Size(e)))
    ensures |Assign(c, e)| == |c|
    ensures forall i :: 0 <= i < |c| ==> Assign(c, e)[i] == Eval(e, i)
  {
  }

  /** Every step `this[i] op= re[i]` of an expression compound assignment
      is defined. */
  predicate CompoundExprDefined(op: OpKind, c: Seq, e: Expr) {
    forall i: nat :: i < Limit(c, Size(e)) ==>
      DefinedAt(e, i) && Representable(op, At(c, i), Eval(e, i))
  }

  /** `this op= re` for an expression `re`: the same growth as the container
      form, and `this[i] op re[i]` below the larger size. */
  function CompoundAssignExpr(op: OpKind, c: Seq, e: Expr): (r: Seq)
    requires CompoundExprDefined(op, c, e)
    ensures |r| == if |c| < Size(e) then Size(e) + 1 else |c|
    ensures forall i: nat :: i < Limit(c, Size(e)) ==> r[i] == Builtin(op, At(c, i), Eval(e, i))
    ensures |c| < Size(e) ==> r[Size(e)] == 0
  {
    var g := GrowForAssign(c, Size(e));
    seq(|g|, i requires 0 <= i < |g| =>
      if i < Limit(c, Size(e)) then Builtin(op, g[i], Eval(e, i)) else g[i])
  }

  /** The loop of the source, one index at a time: after growing, each
      `this[i] op= re[i]` for `i` below the larger size. It produces what
      `CompoundAssignExpr` describes. */
  method CompoundAssignLoop(op: OpKind, c: Seq, e: Expr) returns (r: Seq)
    requires CompoundExprDefined(op, c, e)
    ensures r == CompoundAssignExpr(op, c, e)
  {
    var limit := Limit(c, Size(e));
    ghost var want := CompoundAssignExpr(op, c, e);
    r := c;
    if |r| < limit {
      r := ResizeZero(r, limit + 1);
    }
    var i := 0;
    while i < limit
      invariant 0 <= i <= limit <= |r| == |want|
      invariant forall j :: 0 <= j < i ==> r[j] == want[j]
      invariant forall j :: i <= j < |r| ==> r[j] == At(c, j)
    {
      assert want[i] == Builtin(op, At(c, i), Eval(e, i));
      r := r[i := Builtin(op, r[i], Eval(e, i))];
      i := i + 1;
    }
    assert forall j :: limit <= j < |r| ==> r[j] == want[j];
  }

  /** A container on the right gives the same result through the expression
      overload as through `operator op=(const SeqContainer&)`. */
  lemma CompoundFormsAgree(op: OpKind, c: Seq, b: Seq)
    requires CompoundDefined(op, c, b)
    ensures CompoundExprDefined(op, c, Leaf(b))
    ensures CompoundAssignExpr(op, c, Leaf(b)) == CompoundAssign(op, c, b)
  {
  }

  /** `m += n` with `m = (1,2,3)` and `n = (0,1,2,3,4)` leaves six elements,
      the last a 0 no index of the loop touched. */
  lemma CompoundAssignExprGrowsPastLonger()
    ensures CompoundAssignExpr(Add, [1, 2, 3], Leaf([0, 1, 2, 3, 4])) == [1, 3, 5, 3, 4, 0]
  {
    CompoundFormsAgree(Add, [1, 2, 3], [0, 1, 2, 3, 4]);
    CompoundAssignGrowsPastLonger();
  }
}
