/**
  The sequence container as a value: a `seq<i64>` with one pure function per
  operation of `SeqContainer`. An operation that mutates the container and
  returns `*this` is a function from the old contents to the new ones.

  Reads are total: reading past the end yields the default element 0 and
  changes nothing. Writes are total: writing past the end first grows the
  container, zero-filling the gap.
 */
module Container {
  import opened Int64
  import opened Operators

  type Seq = seq<i64>

  function Max(a: nat, b: nat): nat {
    if a < b then b else a
  }

  function Min(a: nat, b: nat): nat {
    if a < b then a else b
  }

  // ---------------------------------------------------------------------
  // Element access
  // ---------------------------------------------------------------------

  /** The const `operator[]`: the stored element below the size, the default
      element 0 at or past it. */
  function At(c: Seq, i: nat): (r: i64)
    ensures i < |c| ==> r == c[i]
    ensures i >= |c| ==> r == 0
  {
    if i < |c| then c[i] else 0
  }

  /** `resize(n, v)`: exactly `n` elements; the common prefix is kept and
      every new slot holds `v`. */
  function Resize(c: Seq, n: nat, v: i64): (r: Seq)
    ensures |r| == n
    ensures forall i :: 0 <= i < Min(n, |c|) ==> r[i] == c[i]
    ensures forall i :: |c| <= i < n ==> r[i] == v
  {
    if n >= |c| then c + seq(n - |c|, _ => v)
    else if n > 0 then c[..n]
    else []
  }

  /** `resize(n)`: zero-filling resize. Below `n` it is invisible to reads. */
  function ResizeZero(c: Seq, n: nat): (r: Seq)
    ensures |r| == n
    ensures forall i: nat :: i < n ==> At(r, i) == At(c, i)
  {
    Resize(c, n, 0)
  }

  /** The effect of the non-const `operator[](i)` on the container before it
      hands out a reference to slot `i`: it grows to `i + 1` elements when `i`
      is past the end. Reads do not notice the growth. */
  function GrowForWrite(c: Seq, i: nat): (r: Seq)
    ensures |r| == Max(|c|, i + 1)
    ensures forall j: nat :: At(r, j) == At(c, j)
  {
    if i >= |c| then ResizeZero(c, i + 1) else c
  }

  /** `c[i] = v` through the non-const `operator[]`. */
  function Store(c: Seq, i: nat, v: i64): (r: Seq)
    ensures |r| == Max(|c|, i + 1)
    ensures r[i] == v
    ensures forall j :: 0 <= j < |c| && j != i ==> r[j] == c[j]
    ensures forall j :: |c| <= j < |r| && j != i ==> r[j] == 0
  {
    GrowForWrite(c, i)[i := v]
  }

  /** The const read and the non-const `operator[]` see the same value:
      growing the container for a write access leaves slot `i` holding what
      the const read returns, the element below the size and 0 past it. */
  lemma ConstReadMatchesGrowingRead(c: Seq, i: nat)
    ensures i < |GrowForWrite(c, i)|
    ensures GrowForWrite(c, i)[i] == At(c, i)
    ensures At(c, i) == if i < |c| then c[i] else 0
  {
    assert At(GrowForWrite(c, i), i) == At(c, i);
  }

  /** Reading back after a write sees the written value at `i` and the old
      reads everywhere else, whether or not the write grew the container. */
  lemma ReadAfterStore(c: Seq, i: nat, v: i64, j: nat)
    ensures At(Store(c, i, v), j) == if j == i then v else At(c, j)
  {
  }

  // ---------------------------------------------------------------------
  // Size-changing operations
  // ---------------------------------------------------------------------

  /** `push_back(v)`. */
  function PushBack(c: Seq, v: i64): (r: Seq)
    ensures |r| == |c| + 1 && r[|c|] == v
    ensures forall i :: 0 <= i < |c| ==> r[i] == c[i]
  {
    c + [v]
  }

  /** `pop_back()`: no-op on an empty container, otherwise drops the last
      element. */
  function PopBack(c: Seq): (r: Seq)
    ensures |c| == 0 ==> r == c
    ensures |c| > 0 ==> |r| == |c| - 1 && forall i :: 0 <= i < |r| ==> r[i] == c[i]
  {
    if |c| > 0 then c[..|c| - 1] else c
  }

  lemma PopBackUndoesPushBack(c: Seq, v: i64)
    ensures PopBack(PushBack(c, v)) == c
  {
  }

  /** `insert(at, range)`: if `at` is past the end the container is first
      zero-padded to length `at`; then `range` is spliced in before position
      `at`. */
  function Insert(c: Seq, at: nat, range: Seq): (r: Seq)
    ensures |r| == Max(|c|, at) + |range|
    ensures forall i: nat :: i < at ==> r[i] == At(c, i)
    ensures forall j :: 0 <= j < |range| ==> r[at + j] == range[j]
    ensures forall i :: at <= i < |c| ==> r[i + |range|] == c[i]
  {
    var padded := if at > |c| then ResizeZero(c, at) else c;
    padded[..at] + range + padded[at..]
  }

  /** `insert(at, value)`: inserts a one-element container. */
  function InsertValue(c: Seq, at: nat, v: i64): (r: Seq)
    ensures |r| == Max(|c|, at) + 1 && r[at] == v
    ensures forall i: nat :: i < at ==> r[i] == At(c, i)
    ensures forall i :: at <= i < |c| ==> r[i + 1] == c[i]
  {
    Insert(c, at, [v])
  }

  // ---------------------------------------------------------------------
  // Comparison and boolean conversion
  // ---------------------------------------------------------------------

  datatype Ordering = Less | Equivalent | Greater

  /** `operator<=>`: orders by size only; element values are ignored. */
  function Compare(a: Seq, b: Seq): (r: Ordering)
    ensures r == Less <==> |a| < |b|
    ensures r == Equivalent <==> |a| == |b|
    ensures r == Greater <==> |a| > |b|
  {
    if |a| > |b| then Greater
    else if |a| < |b| then Less
    else Equivalent
  }

  /** `operator==`: holds exactly when the sizes agree. */
  function Equal(a: Seq, b: Seq): (r: bool)
    ensures r <==> |a| == |b|
  {
    Compare(a, b) == Equivalent
  }

  /** Equality is not value equality: `(1) == (2)`, and every two containers
      of one size are equal. */
  lemma EqualIgnoresElements()
    ensures Equal([1], [2])
    ensures forall a: Seq, b: Seq :: |a| == |b| ==> Equal(a, b)
  {
  }

  /** `operator<=>` is antisymmetric: swapping the operands flips the result. */
  lemma CompareFlips(a: Seq, b: Seq)
    ensures Compare(a, b) == Less <==> Compare(b, a) == Greater
    ensures Compare(a, b) == Equivalent <==> Compare(b, a) == Equivalent
  {
  }

  /** `operator bool`: scans from index 0 and answers true at the first
      non-zero element. */
  method AnyNonZero(c: Seq) returns (b: bool)
    ensures b == Truthy(c)
  {
    var i := 0;
    while i < |c|
      invariant 0 <= i <= |c|
      invariant forall j :: 0 <= j < i ==> c[j] == 0
    {
      if c[i] != 0 {
        return true;
      }
      i := i + 1;
    }
    return false;
  }

  /** `operator bool` as a value: some element is non-zero. */
  predicate Truthy(c: Seq) {
    exists i :: 0 <= i < |c| && c[i] != 0
  }

  /** How the container argument `d` of `insert(at, d)` is passed. */
  datatype RangeArgument = ConstLvalueRange | OtherRange

  /** `insert(at, d)` with a container `d`. A non-const lvalue or a temporary
      binds to the `sized_range auto&&` overload, which splices `d` in. A
      const lvalue binds to the more specialised `const auto&` overload,
      which builds a one-element container from the braced list `{d}`; `d`
      gets there through the implicit `operator bool`, so one 1 or 0 is
      inserted instead of the elements of `d`. */
  function InsertContainer(c: Seq, at: nat, d: Seq, arg: RangeArgument): (r: Seq)
    ensures |r| == Max(|c|, at) + (if arg == ConstLvalueRange then 1 else |d|)
    ensures forall i: nat :: i < at ==> r[i] == At(c, i)
    ensures arg == OtherRange ==> forall j :: 0 <= j < |d| ==> r[at + j] == d[j]
    ensures arg == OtherRange ==> forall i :: at <= i < |c| ==> r[i + |d|] == c[i]
    ensures arg == ConstLvalueRange ==> (Truthy(d) ==> r[at] == 1) && (!Truthy(d) ==> r[at] == 0)
    ensures arg == ConstLvalueRange ==> forall i :: at <= i < |c| ==> r[i + 1] == c[i]
  {
    if arg == ConstLvalueRange then InsertValue(c, at, if Truthy(d) then 1 else 0)
    else Insert(c, at, d)
  }

  /** Inserting `d = (5, 7)` at the front of `(1)`: passed as a const lvalue
      it adds a single 1, passed otherwise it adds both elements. */
  lemma ConstContainerInsertsTruthValue()
    ensures InsertContainer([1], 0, [5, 7], ConstLvalueRange) == [1, 1]
    ensures InsertContainer([1], 0, [5, 7], OtherRange) == [5, 7, 1]
  {
    assert [5, 7][0] != 0;
    assert Truthy([5, 7]);
    var r := InsertContainer([1], 0, [5, 7], ConstLvalueRange);
    assert r[0] == 1 && r[1] == 1;
    var t := InsertContainer([1], 0, [5, 7], OtherRange);
    assert t[0] == 5 && t[1] == 7 && t[2] == 1;
  }

  // ---------------------------------------------------------------------
  // Unary operators and element-function application
  // ---------------------------------------------------------------------

  /** Unary `operator+`: a copy with `+x` for every element. */
  function Plus(c: Seq): (r: Seq)
    ensures r == c
  {
    // unary plus on an integer is the identity
    seq(|c|, i requires 0 <= i < |c| => c[i])
  }

  /** No element is `MIN`, so every element can be negated. */
  predicate Negatable(c: Seq) {
    forall i :: 0 <= i < |c| ==> c[i] != MIN
  }

  /** Unary `operator-`: a copy with every element negated. */
  function Negate(c: Seq): (r: Seq)
    requires Negatable(c)
    ensures |r| == |c| && Negatable(r)
    ensures forall i :: 0 <= i < |c| ==> r[i] as int == -(c[i] as int)
  {
    seq(|c|, i requires 0 <= i < |c| => -c[i])
  }

  lemma NegateTwiceIsIdentity(c: Seq)
    requires Negatable(c)
    ensures Negate(Negate(c)) == c
  {
  }

  /** Unary `operator~`: every element complemented. The source mutates the
      container in place and also returns a copy; both equal this value. */
  function Complement(c: Seq): (r: Seq)
    ensures |r| == |c|
    ensures forall i :: 0 <= i < |c| ==> r[i] == -(c[i] as int) - 1
  {
    seq(|c|, i requires 0 <= i < |c| => BitNotIsNegateMinusOne(c[i]); BitNot(c[i]))
  }

  lemma ComplementTwiceIsIdentity(c: Seq)
    ensures Complement(Complement(c)) == c
  {
  }

  /** `apply(func)`: every element replaced by `func` of itself, in place,
      from index 0 upward. */
  method ApplyUnary(c: Seq, f: i64 -> i64) returns (r: Seq)
    ensures |r| == |c|
    ensures forall i :: 0 <= i < |c| ==> r[i] == f(c[i])
  {
    r := c;
    var i := 0;
    while i < |r|
      invariant 0 <= i <= |r| == |c|
      invariant forall j :: 0 <= j < i ==> r[j] == f(c[j])
      invariant forall j :: i <= j < |r| ==> r[j] == c[j]
    {
      r := r[i := f(r[i])];
      i := i + 1;
    }
  }

  // ---------------------------------------------------------------------
  // Binary in-place operations
  // ---------------------------------------------------------------------

  /** The loop bound of the binary in-place operations: `max_val` of the two
      sizes. */
  function Limit(c: Seq, other: nat): nat {
    Max(|c|, other)
  }

  /** The growth step shared by compound assignment, `apply(b, func)` and
      `operator=(expr)`: when the container is shorter than the other side it
      is resized to `Limit + 1`, one more than the loop visits, so that a
      trailing 0 remains. Reads do not notice the growth. */
  function GrowForAssign(c: Seq, other: nat): (r: Seq)
    ensures |r| == if |c| < other then other + 1 else |c|
    ensures forall i: nat :: At(r, i) == At(c, i)
  {
    if |c| < Limit(c, other) then ResizeZero(c, Limit(c, other) + 1) else c
  }

  /** Every step `this[i] op= b[i]` of a compound assignment is defined. */
  predicate CompoundDefined(op: OpKind, c: Seq, b: Seq) {
    forall i: nat :: i < Limit(c, |b|) ==> Representable(op, At(c, i), At(b, i))
  }

  /** `this op= b` for a container `b`: every index below the larger size
      becomes `this[i] op b[i]`, with 0 read past either end; a shorter `this`
      ends one longer than `b`, with a trailing 0. */
  function CompoundAssign(op: OpKind, c: Seq, b: Seq): (r: Seq)
    requires CompoundDefined(op, c, b)
    ensures |r| == if |c| < |b| then |b| + 1 else |c|
    ensures forall i: nat :: i < Limit(c, |b|) ==> r[i] == Builtin(op, At(c, i), At(b, i))
    ensures |c| < |b| ==> r[|b|] == 0
  {
    var g := GrowForAssign(c, |b|);
    seq(|g|, i requires 0 <= i < |g| =>
      if i < Limit(c, |b|) then Builtin(op, g[i], At(b, i)) else g[i])
  }

  /** `(1,2,3) += (0,1,2,3,4)` gives `(1,3,5,3,4,0)`: six elements, not five. */
  lemma CompoundAssignGrowsPastLonger()
    ensures CompoundAssign(Add, [1, 2, 3], [0, 1, 2, 3, 4]) == [1, 3, 5, 3, 4, 0]
  {
    var r := CompoundAssign(Add, [1, 2, 3], [0, 1, 2, 3, 4]);
    assert r[0] == 1 && r[1] == 3 && r[2] == 5 && r[3] == 3 && r[4] == 4;
  }

  /** `apply(b, func)`: `this[i] = func(this[i], b[i])` below the larger
      size, after the same growth as compound assignment. `b` is read without
      a bounds check, so it must be at least as long as `this`. */
  method ApplyBinary(c: Seq, b: Seq, f: (i64, i64) -> i64) returns (r: Seq)
    requires |b| >= |c|
    ensures |r| == if |c| < |b| then |b| + 1 else |c|
    ensures forall i :: 0 <= i < |b| ==> r[i] == f(At(c, i), b[i])
    ensures |c| < |b| ==> r[|b|] == 0
  {
    var limit := Limit(c, |b|);
    r := c;
    if |r| < limit {
      r := ResizeZero(r, limit + 1);
    }
    var i := 0;
    while i < limit
      invariant 0 <= i <= limit <= |r|
      invariant |r| == if |c| < |b| then |b| + 1 else |c|
      invariant forall j :: 0 <= j < i ==> r[j] == f(At(c, j), b[j])
      invariant forall j :: i <= j < |r| ==> r[j] == At(c, j)
    {
      r := r[i := f(r[i], b[i])];
      i := i + 1;
    }
  }
}
