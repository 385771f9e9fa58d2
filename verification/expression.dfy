/**
  The lazy expression node `ExprTemplate<L, Op, R>` as a tree. A leaf is a
  container (held by reference in the source); an inner node stores its two
  operands and the operation and computes nothing until it is indexed.

  Indexing a node evaluates `Op::apply(left[i], right[i])`. Which of the four
  overloads of `apply` runs is fixed by the operands: a leaf container
  answers `operator[]` with a reference to an element, a const lvalue,
  while an inner node answers with a freshly computed value, a temporary.
 */
module Expression {
  import opened Int64
  import opened Operators
  import opened Container

  datatype Expr = Leaf(c: Seq) | Node(left: Expr, op: OpKind, right: Expr)

  /** The value category `operand[i]` has when handed to `apply`. */
  function Kind(e: Expr): Category {
    if e.Leaf? then ConstLvalue else Temporary
  }

  /** `size()`: the left operand's size when that is non-zero, else the right
      operand's. */
  function Size(e: Expr): nat {
    match e
    case Leaf(c) => |c|
    case Node(l, _, r) => if Size(l) != 0 then Size(l) else Size(r)
  }

  // ---------------------------------------------------------------------
  // Evaluation
  // ---------------------------------------------------------------------

  /** `e[i]` has defined behaviour: every `apply` on the way is defined on
      the values its operands produce at `i`. */
  predicate DefinedAt(e: Expr, i: nat)
    decreases e, 0
  {
    match e
    case Leaf(_) => true
    case Node(l, op, r) =>
      DefinedAt(l, i) && DefinedAt(r, i) &&
      ApplyDefined(op, Kind(l), Kind(r), Eval(l, i), Eval(r, i))
  }

  /** `e[i]`: a leaf reads its container (0 past the end); a node applies its
      operation to its operands' values at the same index, through the
      overload their categories select. */
  function Eval(e: Expr, i: nat): i64
    requires DefinedAt(e, i)
    decreases e, 1
  {
    match e
    case Leaf(c) => At(c, i)
    case Node(l, op, r) => Apply(op, Kind(l), Kind(r), Eval(l, i), Eval(r, i))
  }

  /** Overload selection: between two containers `apply(T const&, T const&)`
      runs; a node on the left passes a temporary, and so does a node on the
      right. */
  lemma OverloadSelection(a: Seq, op: OpKind, b: Seq, l: Expr, r: Expr, i: nat)
    requires DefinedAt(Node(Leaf(a), op, Leaf(b)), i)
    requires l.Node? && DefinedAt(Node(l, op, r), i)
    ensures ApplyDefined(op, ConstLvalue, ConstLvalue, At(a, i), At(b, i))
    ensures Eval(Node(Leaf(a), op, Leaf(b)), i) == Apply(op, ConstLvalue, ConstLvalue, At(a, i), At(b, i))
    ensures DefinedAt(l, i) && DefinedAt(r, i)
    ensures ApplyDefined(op, Temporary, Kind(r), Eval(l, i), Eval(r, i))
    ensures Eval(Node(l, op, r), i) == Apply(op, Temporary, Kind(r), Eval(l, i), Eval(r, i))
    ensures r.Node? ==> Kind(r) == Temporary
  {
  }

  // ---------------------------------------------------------------------
  // Size as the first non-empty operand
  // ---------------------------------------------------------------------

  /** The first non-zero entry, or 0 when there is none. */
  function FirstNonZero(xs: seq<nat>): (r: nat)
    ensures r == 0 <==> forall j :: 0 <= j < |xs| ==> xs[j] == 0
    ensures r != 0 ==> exists j :: 0 <= j < |xs| && xs[j] == r && forall k :: 0 <= k < j ==> xs[k] == 0
  {
    if |xs| == 0 then 0
    else if xs[0] != 0 then xs[0]
    else
      var r := FirstNonZero(xs[1..]);
      assert forall j :: 1 <= j < |xs| ==> xs[j] == xs[1..][j - 1];
      r
  }

  lemma {:induction false} FirstNonZeroAppend(xs: seq<nat>, ys: seq<nat>)
    ensures FirstNonZero(xs + ys) == if FirstNonZero(xs) != 0 then FirstNonZero(xs) else FirstNonZero(ys)
    decreases |xs|
  {
    if |xs| > 0 {
      assert (xs + ys)[1..] == xs[1..] + ys;
      FirstNonZeroAppend(xs[1..], ys);
    } else {
      assert xs + ys == ys;
    }
  }

  /** The lengths of the leaf containers, left to right. */
  function LeafLengths(e: Expr): seq<nat> {
    match e
    case Leaf(c) => [|c|]
    case Node(l, _, r) => LeafLengths(l) + LeafLengths(r)
  }

  /** The size of any expression is the length of its first non-empty leaf,
      reading the leaves left to right, or 0 when every leaf is empty. */
  lemma {:induction false} SizeIsFirstNonEmptyLeaf(e: Expr)
    ensures Size(e) == FirstNonZero(LeafLengths(e))
  {
    match e
    case Leaf(c) =>
    case Node(l, _, r) =>
      SizeIsFirstNonEmptyLeaf(l);
      SizeIsFirstNonEmptyLeaf(r);
      FirstNonZeroAppend(LeafLengths(l), LeafLengths(r));
  }

  /** One `op operand` step of a chain. */
  datatype Link = Link(op: OpKind, operand: Expr)

  /** `first op1 x1 op2 x2 ...`: C++ operators associate to the left, so each
      step makes the chain so far the left operand of a new node. */
  function Chain(first: Expr, rest: seq<Link>): Expr
    decreases |rest|
  {
    if |rest| == 0 then first
    else
      var last := rest[|rest| - 1];
      Node(Chain(first, rest[..|rest| - 1]), last.op, last.operand)
  }

  function OperandSizes(first: Expr, rest: seq<Link>): seq<nat> {
    [Size(first)] + seq(|rest|, j requires 0 <= j < |rest| => Size(rest[j].operand))
  }

  /** The size of a left-nested chain is the size of its first operand of
      non-zero size, in left-to-right order. */
  lemma {:induction false} ChainSizeIsFirstNonEmptyOperand(first: Expr, rest: seq<Link>)
    ensures Size(Chain(first, rest)) == FirstNonZero(OperandSizes(first, rest))
    decreases |rest|
  {
    if |rest| == 0 {
      assert OperandSizes(first, rest) == [Size(first)];
    } else {
      var init := rest[..|rest| - 1];
      var last := rest[|rest| - 1];
      ChainSizeIsFirstNonEmptyOperand(first, init);
      assert OperandSizes(first, rest) == OperandSizes(first, init) + [Size(last.operand)];
      FirstNonZeroAppend(OperandSizes(first, init), [Size(last.operand)]);
    }
  }

  // ---------------------------------------------------------------------
  // Comparison with the plain operators
  // ---------------------------------------------------------------------

  /** Every node's plain C++ operator is defined at `i`. */
  predicate PlainDefined(e: Expr, i: nat)
    decreases e, 0
  {
    match e
    case Leaf(_) => true
    case Node(l, op, r) =>
      PlainDefined(l, i) && PlainDefined(r, i) &&
      Representable(op, PlainEval(l, i), PlainEval(r, i))
  }

  /** Reference semantics: the value of the expression written with the
      plain C++ operators on `intmax_t`, element by element. */
  function PlainEval(e: Expr, i: nat): i64
    requires PlainDefined(e, i)
    decreases e, 1
  {
    match e
    case Leaf(c) => At(c, i)
    case Node(l, op, r) => Builtin(op, PlainEval(l, i), PlainEval(r, i))
  }

  /** No node of the form `container << expression`, the one place where the
      overload chosen computes a different operator. */
  predicate NoReversedShift(e: Expr) {
    match e
    case Leaf(_) => true
    case Node(l, op, r) =>
      !(op == ShiftLeft && l.Leaf? && r.Node?) && NoReversedShift(l) && NoReversedShift(r)
  }

  /** Without `container << expression`, the lazy tree computes what the
      plain operators compute, wherever they are defined. */
  lemma {:induction false} EvalIsPlainOperator(e: Expr, i: nat)
    requires NoReversedShift(e) && PlainDefined(e, i)
    ensures DefinedAt(e, i) && Eval(e, i) == PlainEval(e, i)
  {
    match e
    case Leaf(_) =>
    case Node(l, op, r) =>
      EvalIsPlainOperator(l, i);
      EvalIsPlainOperator(r, i);
      OverloadsAgree(op, Kind(l), Kind(r), Eval(l, i), Eval(r, i));
  }

  /** `a << (b + c)` shifts right: with `a = (1)`, `b = (1)`, `c = (0)` it
      yields 0 at index 0, while `a << b` yields 2 and the plain operator
      gives 2. */
  lemma ReversedShiftExample()
    ensures DefinedAt(Node(Leaf([1]), ShiftLeft, Node(Leaf([1]), Add, Leaf([0]))), 0)
    ensures Eval(Node(Leaf([1]), ShiftLeft, Node(Leaf([1]), Add, Leaf([0]))), 0) == 0
    ensures PlainEval(Node(Leaf([1]), ShiftLeft, Node(Leaf([1]), Add, Leaf([0]))), 0) == 2
    ensures Eval(Node(Leaf([1]), ShiftLeft, Leaf([1])), 0) == 2
  {
    assert Pow2(1) == 2;
  }

  /** Only a modulo of two containers tolerates a zero divisor: `a % b` with
      `b` empty is 0 past the end, but `a % (b + b)` has no defined value. */
  lemma ModGuardOnlyBetweenContainers(a: Seq, b: Seq, i: nat)
    requires i >= |b|
    ensures DefinedAt(Node(Leaf(a), Mod, Leaf(b)), i)
    ensures Eval(Node(Leaf(a), Mod, Leaf(b)), i) == 0
    ensures !DefinedAt(Node(Leaf(a), Mod, Node(Leaf(b), Add, Leaf(b))), i)
  {
  }

  // ---------------------------------------------------------------------
  // Reads past every operand
  // ---------------------------------------------------------------------

  /** No division or modulo anywhere in the tree. */
  predicate ZeroPreserving(e: Expr) {
    match e
    case Leaf(_) => true
    case Node(l, op, r) => op != Div && op != Mod && ZeroPreserving(l) && ZeroPreserving(r)
  }

  /** The length of the longest leaf container. */
  function MaxLeafLength(e: Expr): (n: nat)
    ensures forall j :: 0 <= j < |LeafLengths(e)| ==> LeafLengths(e)[j] <= n
  {
    match e
    case Leaf(c) => |c|
    case Node(l, _, r) => Max(MaxLeafLength(l), MaxLeafLength(r))
  }

  /** Every overload except division and modulo maps two zero operands to
      0. The operands are variables known to be zero, not the literal 0. */
  lemma ApplyOfZeros(op: OpKind, lc: Category, rc: Category, a: i64, b: i64)
    requires op != Div && op != Mod && a == 0 && b == 0
    ensures ApplyDefined(op, lc, rc, a, b) && Apply(op, lc, rc, a, b) == 0
  {
    assert ApplyDefined(op, lc, rc, a, b);
    ExpectedIsBuiltin(op, lc, rc, a, b);
    match op
    case And => BitOpsWithZero(a);
    case Or => BitOpsWithZero(a);
    case Xor => BitOpsWithZero(a);
    case _ =>
  }

  /** With no division or modulo, every node maps `(0, 0)` to 0, so reading
      at or past the end of every leaf yields 0. */
  lemma {:induction false} ZeroBeyondLeaves(e: Expr, i: nat)
    requires ZeroPreserving(e) && i >= MaxLeafLength(e)
    ensures DefinedAt(e, i) && Eval(e, i) == 0
  {
    match e
    case Leaf(c) =>
    case Node(l, op, r) =>
      ZeroBeyondLeaves(l, i);
      ZeroBeyondLeaves(r, i);
      ApplyOfZeros(op, Kind(l), Kind(r), Eval(l, i), Eval(r, i));
  }

  // ---------------------------------------------------------------------
  // Fusion
  // ---------------------------------------------------------------------

  function Fill(n: nat, v: i64): (r: Seq)
    ensures |r| == n && forall j :: 0 <= j < n ==> r[j] == v
  {
    seq(n, j => v)
  }

  /** `a * a * a / b` with `a` five 2s and `b` five 3s: size 5, and every
      element is the truncated `8 / 3`, i.e. 2, computed in one pass. */
  lemma FusedChainExample(i: nat)
    requires i < 5
    ensures Size(Node(Node(Node(Leaf(Fill(5, 2)), Mul, Leaf(Fill(5, 2))), Mul, Leaf(Fill(5, 2))), Div, Leaf(Fill(5, 3)))) == 5
    ensures DefinedAt(Node(Node(Node(Leaf(Fill(5, 2)), Mul, Leaf(Fill(5, 2))), Mul, Leaf(Fill(5, 2))), Div, Leaf(Fill(5, 3))), i)
    ensures Eval(Node(Node(Node(Leaf(Fill(5, 2)), Mul, Leaf(Fill(5, 2))), Mul, Leaf(Fill(5, 2))), Div, Leaf(Fill(5, 3))), i) == 2
  {
    assert Quot(8, 3) == 2;
  }
}
