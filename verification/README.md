# SeqContainer in Dafny

This project models the numeric core of the `SeqContainer` library. `SeqContainer` is a resizable sequence of
`intmax_t` values. Element-wise arithmetic on it is written with ordinary operators. Chained operations such as
`(a * a * a) / b` build a lazy expression tree (`ExprTemplate`), and that tree is evaluated in a single pass when it
is assigned to a container. The model has three layers, one per source file:

- **Operation catalogue** (`src/Operator_Templates.h`), in `operators.dfy`. There are ten operation structs with four
  `apply` overloads each. Which overload runs depends on whether each argument is a const lvalue or a temporary.
  `Operators.Apply` gives what every overload computes. `Operators.Builtin` gives what the plain C++ operator means.
  They differ in exactly two places, and both are reproduced:
  - only the (const lvalue, const lvalue) overload of `Mod_Op` returns 0 for a zero divisor;
  - the (const lvalue, temporary) overload of `LeftShift_Op` shifts right.
- **Expression node** (`src/Expression_Template.h`), in `expression.dfy`. `Expr` is a tree whose leaves are containers.
  `Size` is the left operand's size if that is non-zero, otherwise the right operand's size. `Eval` applies the node's
  operation through the overload that the operands' categories select. A leaf answers `operator[]` with a const
  lvalue; an inner node answers with a temporary.
- **Sequence container** (`src/SeqContainer.h`), in `container.dfy`, `rotation.dfy` and `materialize.dfy`. The
  container is a `seq<i64>` value. Each mutating member function is a pure function from the old contents to the
  new contents. This covers:
  - reads that give 0 past the end, and writes that grow the container;
  - `resize`, `push_back`/`pop_back` and `insert` with zero padding;
  - `cshift`/`shift` and the four rotate helpers;
  - the `apply` family with function pointers;
  - compound assignment from a container or from an expression;
  - the template `operator=` and the constructor from an expression;
  - length-only comparison and "any non-zero" conversion to `bool`.

`int64.dfy` fixes the element semantics. `intmax_t` is the subset type `i64`. `/` and `%` truncate toward zero (ISO
C++17 [expr.mul] paragraph 4). `<<` is `a * 2^s` reduced modulo 2^64 and `>>` is floor division by `2^s` (C++20
[expr.shift]). `&`, `|`, `^` and `~` act on the 64-bit two's-complement pattern. Undefined behaviour becomes a
precondition: signed overflow, a zero divisor, `MIN / -1`, and a shift count outside [0, 64).

Quirks of the code that the model reproduces:

- Compound assignment, `apply(b, func)` and the template `operator=` grow a shorter container to `max + 1`, so the
  result ends in a trailing 0. For example, `(1,2,3) += (0,1,2,3,4)` is `(1,3,5,3,4,0)`, which has six elements.
- A plain `c = d` between two non-const containers binds to the template `operator=(RightExpr&&)`, not to the
  defaulted copy assignment: `RightExpr&&` deduces `SeqContainer&`, which beats `const SeqContainer&`. So `c` grows
  to `max + 1` like any other template assignment, and `(1) = (5,7)` leaves `(5,7,0)`.
- `cshift(k)` with `k > 0` moves elements toward higher indices: `(1,2,3,4,5).cshift(1)` is `(5,1,2,3,4)`. The
  helper `rotate_left` calls `std::ranges::rotate(seq, end - k)`.
- `shift(k)` reduces `k` modulo the size, so shifting by the size is the identity.
- `==` and `<=>` compare sizes only and ignore element values.
- The four overloads of an operation do not always compute the same value: the modulo guard and the reversed left
  shift are the two exceptions.
- `insert(at, d)` with a const lvalue container `d` binds to the `const auto&` overload, which is more specialised
  than `sized_range auto&&`. That overload inserts a one-element container built from `{d}`, and `d` reaches it
  through the implicit `operator bool`. So a single 1 or 0 is inserted, not the elements of `d`.
- `~c` complements `c` itself, in place, and returns a copy of the result.
- Two `(T const&, T&&)` overloads update `a` with `a >>= b` through a const reference: the one of `LeftShift_Op`
  (`src/Operator_Templates.h:235-238`) and the one of `RightShift_Op` (`:258-261`). That statement is rejected when
  such an overload is instantiated, so `container << expression` and `container >> expression` do not compile as
  written. The model gives these overloads the value the statement denotes, a right shift.

## Model

| member | source | states |
|---|---|---|
| Int64.QuotRemIdentity | src/Operator_Templates.h:108-151 | C++ `a / b` and `a % b` satisfy `(a/b)*b + a%b == a`. The remainder is smaller than the divisor in magnitude and is 0 or has the dividend's sign. |
| Int64.QuotInRange | src/Operator_Templates.h:110-112 | The quotient of two `intmax_t` values is representable exactly when the operands are not `MIN` and `-1`. |
| Int64.RemInRange | src/Operator_Templates.h:131-136 | The remainder of two `intmax_t` values is always representable. |
| Int64.Shr | src/Operator_Templates.h:249-251 | `a >> s` is the largest `r` with `r * 2^s <= a`, that is floor division by `2^s`. It lies between 0 and `a` and keeps `a`'s sign. |
| Int64.Wrap | src/Operator_Templates.h:226-228 | The result of `<<` is congruent modulo 2^64 to the exact product, and equals it when the product fits. |
| Int64.Shl | src/Operator_Templates.h:226-228 | `a << s` is congruent to `a * 2^s` modulo 2^64, and equals it when the product fits. |
| Int64.BitwiseCommutes | src/Operator_Templates.h:166-169 | Bit-by-bit and, or and xor on patterns do not depend on operand order. |
| Int64.BitNotIsNegateMinusOne | src/SeqContainer.h:539-545 | `~a` equals `-a - 1` and applying it twice gives back `a`. |
| Int64.BitOpsWithZero | src/Operator_Templates.h:155-222 | For every `a`, `a & 0` is 0, and the or and the xor of `a` with 0 are `a`. |
| Operators.AddApply | src/Operator_Templates.h:40-60 | All four `Add_Op` overloads give `a + b`, including `(T const&, T&&)`, which computes `b += a`. |
| Operators.SubApply | src/Operator_Templates.h:63-82 | All four `Sub_Op` overloads give the value that, added back to `b`, gives `a`. |
| Operators.MulApply | src/Operator_Templates.h:85-105 | All four `Mul_Op` overloads give `a * b`. |
| Operators.DivApply | src/Operator_Templates.h:108-127 | All four `Div_Op` overloads require a non-zero divisor. The quotient times the divisor is at most the dividend in magnitude, one more quotient step would exceed it, and the quotient is negative exactly when the operands' signs differ (or it is 0). |
| Operators.ModApply | src/Operator_Templates.h:130-151 | `(T const&, T const&)` gives 0 for a zero divisor. Otherwise every overload gives the `r` with `(a/b)*b + r == a` that is smaller than the divisor in magnitude and is 0 or has the dividend's sign. The other three overloads require a non-zero divisor. |
| Operators.AndApply | src/Operator_Templates.h:155-176 | All four `And_Op` overloads give `a & b`; the reversed `b &= a` agrees by commutativity. |
| Operators.OrApply | src/Operator_Templates.h:178-199 | All four `Or_Op` overloads give the bitwise or of `a` and `b`. |
| Operators.XorApply | src/Operator_Templates.h:201-222 | All four `Xor_Op` overloads give `a ^ b`. |
| Operators.ShiftLeftApply | src/Operator_Templates.h:224-245 | `(T const&, T&&)` gives the floor of `a / 2^b`. The other three `LeftShift_Op` overloads give the value congruent to `a * 2^b` modulo 2^64, equal to it when it fits. |
| Operators.ShiftRightApply | src/Operator_Templates.h:247-268 | All four `RightShift_Op` overloads give the largest `r` with `r * 2^b <= a`. |
| Operators.BitAndCommutes | src/Operator_Templates.h:166-169 | `a & b == b & a`. The `(T const&, T&&)` overload depends on this. |
| Operators.BitOrCommutes | src/Operator_Templates.h:189-192 | Bitwise or does not depend on operand order. |
| Operators.BitXorCommutes | src/Operator_Templates.h:212-215 | `a ^ b == b ^ a`. |
| Operators.Apply | src/Operator_Templates.h:38-268 | The overload chosen by the categories computes the built-in operator. There are two exceptions: the guarded zero modulo and the reversed left shift. |
| Operators.OverloadsAgree | src/Operator_Templates.h:38-268 | Outside the reversed left shift, all four overloads of an operator agree with the built-in operator wherever it is defined. |
| Operators.ZeroDivisorGuard | src/Operator_Templates.h:108-151 | Only the const/const modulo accepts a zero divisor, and it yields 0. No division overload accepts one. |
| Operators.ShiftLeftOverloadDiverges | src/Operator_Templates.h:224-245 | `1 << 1` is 0 through `(T const&, T&&)` and 2 through the other three overloads. |
| Container.ConstReadMatchesGrowingRead | src/SeqContainer.h:497-510 | The const `operator[]` and the growing non-const one see the same value at `i`: the stored element below the size, 0 at or past it. |
| Container.Resize | src/SeqContainer.h:362-377 | `resize(n, v)` has exactly `n` elements, keeps the common prefix and fills new slots with `v`. |
| Container.ResizeZero | src/SeqContainer.h:356-359 | `resize(n)` has exactly `n` elements and reads the same as before below `n`. |
| Container.GrowForWrite | src/SeqContainer.h:505-510 | The non-const `operator[](i)` grows the container to `max(size, i+1)` without changing any read. |
| Container.Store | src/SeqContainer.h:505-510 | Writing at `i` makes the size `max(size, i+1)`, stores the value, keeps old elements and zero-fills the gap. |
| Container.ReadAfterStore | src/SeqContainer.h:497-510 | After a write at `i`, reads at `i` give the new value and reads anywhere else are unchanged. |
| Container.PushBack | src/SeqContainer.h:395-399 | `push_back(v)` appends `v` and keeps the old elements. |
| Container.PopBack | src/SeqContainer.h:387-393 | `pop_back` on an empty container changes nothing; otherwise it drops exactly the last element. |
| Container.PopBackUndoesPushBack | src/SeqContainer.h:387-399 | `pop_back` after `push_back(v)` restores the container. |
| Container.Insert | src/SeqContainer.h:407-414 | `insert(at, range)` zero-pads to `at` if needed. The result is the old prefix, then the range, then the old suffix, with length `max(size, at)` plus the range's length. |
| Container.InsertValue | src/SeqContainer.h:401-405 | Inserting one value adds one element holding that value at `at`. The prefix, zero-padded up to `at`, and the shifted suffix are kept. |
| Container.InsertContainer | src/SeqContainer.h:401-414 | `insert(at, d)` with a container `d` splices in the elements of `d` when `d` is a non-const lvalue or a temporary. A const lvalue `d` inserts one element, 1 when `d` has a non-zero element and 0 otherwise. Either way the padded prefix and the shifted suffix are kept. |
| Container.ConstContainerInsertsTruthValue | src/SeqContainer.h:401-414 | Inserting `(5,7)` at the front of `(1)` gives `(1,1)` through a const lvalue and `(5,7,1)` otherwise. |
| Container.Compare | src/SeqContainer.h:485-494 | `<=>` is less, equivalent or greater exactly as the sizes compare. |
| Container.Equal | src/SeqContainer.h:480-483 | `a == b` holds exactly when the sizes are equal. |
| Container.EqualIgnoresElements | src/SeqContainer.h:480-494 | `(1) == (2)`; any two containers of the same size compare equal. |
| Container.CompareFlips | src/SeqContainer.h:485-494 | Swapping the operands of `<=>` swaps less and greater. |
| Container.AnyNonZero | src/SeqContainer.h:258-267 | `bool(c)` is true exactly when some element is non-zero, so an empty container is false. |
| Container.Plus | src/SeqContainer.h:518-526 | Unary `+` gives a copy equal to the container. |
| Container.Negate | src/SeqContainer.h:528-536 | Unary `-` negates every element and keeps the length. |
| Container.NegateTwiceIsIdentity | src/SeqContainer.h:528-536 | Negating twice gives back the container. |
| Container.Complement | src/SeqContainer.h:538-545 | `~` makes every element `-x - 1` and keeps the length. |
| Container.ComplementTwiceIsIdentity | src/SeqContainer.h:538-545 | Complementing twice gives back the container. |
| Container.ApplyUnary | src/SeqContainer.h:438-454 | `apply(func)` replaces every element `x` by `func(x)` and keeps the length. |
| Container.ApplyBinary | src/SeqContainer.h:456-478 | `apply(b, func)` gives `func(this[i], b[i])` below the larger size. A shorter container grows to one past `b`'s size, ending in 0. |
| Container.GrowForAssign | src/SeqContainer.h:553-558 | The growth step yields `max + 1` elements when the container is shorter and leaves it unchanged otherwise. Reads are unaffected. |
| Container.CompoundAssign | src/SeqContainer.h:553-671 | `this op= b` gives `this[i] op b[i]` for every `i` below the larger size, reading 0 past either end. A shorter `this` ends one longer than `b`, with a trailing 0. |
| Container.CompoundAssignGrowsPastLonger | src/SeqContainer.h:553-563 | `(1,2,3) += (0,1,2,3,4)` is `(1,3,5,3,4,0)`. |
| Rotation.RotateLeft | src/SeqContainer.h:914-929 | `rotate_left(k)` keeps the length and puts the old element at `(i - k) mod n` at index `i`. |
| Rotation.RotateLeftSlices | src/SeqContainer.h:924-927 | `rotate_left(k)` is `old[n-k'..] + old[..n-k']`, where `k' = k mod n`. |
| Rotation.RotateRight | src/SeqContainer.h:944-958 | `rotate_right(k)` keeps the length and puts the old element at `(i + k) mod n` at index `i`. |
| Rotation.RotateRightSlices | src/SeqContainer.h:953-956 | `rotate_right(k)` is `old[k'..] + old[..k']`, where `k' = k mod n`. |
| Rotation.RotateLeftAndDrop | src/SeqContainer.h:931-941 | The first `k mod n` slots become 0; every other slot holds `old[i - k mod n]`. |
| Rotation.RotateRightAndDrop | src/SeqContainer.h:960-972 | The last `k mod n` slots become 0; every other slot holds `old[i + k mod n]`. |
| Rotation.Cshift | src/SeqContainer.h:427-436 | `cshift(k)` keeps the length and puts `old[(i - k) mod n]` at index `i`, for either sign of `k`. |
| Rotation.CshiftPermutes | src/SeqContainer.h:427-436 | `cshift(k)` preserves the multiset of elements. |
| Rotation.CshiftInverse | src/SeqContainer.h:427-436 | `cshift(-k)` after `cshift(k)` restores the container. |
| Rotation.CshiftDirection | src/SeqContainer.h:924-927 | `(1,2,3,4,5).cshift(1)` is `(5,1,2,3,4)`. |
| Rotation.Shift | src/SeqContainer.h:416-425 | `shift(k)` keeps the length. It zeroes the first `k mod n` slots for `k > 0` and the last `(-k) mod n` slots otherwise, and moves the rest. |
| Rotation.ShiftIsCshiftWithDrops | src/SeqContainer.h:416-436 | `shift(k)` equals `cshift(k)` except on the wrapped-around slots, which are 0. |
| Rotation.ShiftZeroIsIdentity | src/SeqContainer.h:416-425 | `shift(0)` changes nothing. |
| Rotation.ShiftBySizeIsIdentity | src/SeqContainer.h:931-941 | Shifting by the size changes nothing, because the count is reduced modulo the size. |
| Rotation.ShiftIsNotInvertible | src/SeqContainer.h:416-425 | `(1,2).shift(1).shift(-1)` is `(1,0)`: the dropped element is lost. |
| Expression.OverloadSelection | src/Expression_Template.h:130-148 | Between two containers the `(T const&, T const&)` overload runs. A node operand is passed as a temporary, so a node on the left selects a `(T&&, ...)` overload. |
| Expression.SizeIsFirstNonEmptyLeaf | src/Expression_Template.h:150-152 | An expression's size is the length of its first non-empty leaf, reading left to right, or 0 if every leaf is empty. |
| Expression.ChainSizeIsFirstNonEmptyOperand | src/Expression_Template.h:150-152 | For a left-nested chain `x0 op1 x1 op2 x2 ...`, the size is the size of the first operand whose size is non-zero. |
| Expression.EvalIsPlainOperator | src/Expression_Template.h:146-148 | Without `container << expression`, the lazy tree evaluates at every index to what the plain operators compute. |
| Expression.ReversedShiftExample | src/Expression_Template.h:146-148 | `(1) << ((1) + (0))` evaluates to 0 at index 0, where the plain operator gives 2. `(1) << (1)` gives 2. |
| Expression.ModGuardOnlyBetweenContainers | src/Expression_Template.h:146-148 | `a % b` past the end of `b` is defined and 0. `a % (b + b)` there has no defined value. |
| Expression.ApplyOfZeros | src/Operator_Templates.h:38-268 | Every overload except division and modulo maps two zero operands to 0. |
| Expression.ZeroBeyondLeaves | src/Expression_Template.h:146-148 | With no division or modulo, reading at or past the end of every leaf gives 0. |
| Expression.FusedChainExample | src/Expression_Template.h:146-152 | `a*a*a/b`, with five 2s in `a` and five 3s in `b`, has size 5 and evaluates to 2 at each index. |
| Materialize.Construct | src/SeqContainer.h:238-245 | The constructor from an expression gives exactly `size()` elements, element `i` being `expr[i]`. |
| Materialize.Assign | src/SeqContainer.h:679-690 | The template `operator=` overwrites every index below the larger size with `re[i]`. A shorter container grows to `size() + 1` with a trailing 0. |
| Materialize.AssignToEmptyAddsTrailingZero | src/SeqContainer.h:679-690 | Assigning a non-empty expression to an empty container gives the constructor's result plus one trailing 0. |
| Materialize.PlainAssignmentGrowsPastSource | src/SeqContainer.h:679-690 | `(1) = (5,7)` between non-const containers runs the template assignment and leaves `(5,7,0)`. |
| Materialize.AssignToLongerKeepsLength | src/SeqContainer.h:679-690 | Assigning to a container at least as long as the expression keeps its length. |
| Materialize.CompoundAssignExpr | src/SeqContainer.h:692-820 | `this op= re` for an expression gives `this[i] op re[i]` below the larger size, with the same growth to `max + 1`. |
| Materialize.CompoundAssignLoop | src/SeqContainer.h:692-703 | The source's index-by-index loop produces exactly `CompoundAssignExpr`. |
| Materialize.CompoundFormsAgree | src/SeqContainer.h:692-703 | With a container on the right, the expression form and the container form of `op=` give the same result. |
| Materialize.CompoundAssignExprGrowsPastLonger | src/SeqContainer.h:692-703 | `m += n` with `m = (1,2,3)` and `n = (0,1,2,3,4)` leaves six elements, ending in 0. |

## Left out

- Stream output `operator<<` (src/SeqContainer.h:208-217) and the debug print in the initializer-list constructor
  (src/SeqContainer.h:235) are I/O and are not modelled.
- Iterators, `max_size`, `reserve`, `swap` and the `HasReserveMethod` detection deal with storage and allocation.
  They have no effect on contents. `reserve` inside `resize` is invisible to reads.
- Constructors other than the expression constructor are not modelled separately. The default, single-value and
  initializer-list constructors build `[]`, `[v]` and the listed elements, which are plain sequence values here.
- Ownership and lifetime are not modelled: reference versus value storage of operands, moves, copies and dangling
  references. Only the const-lvalue/temporary tag that selects an `apply` overload is kept.
- The `apply(RightExpr&&)` member templates are left out because neither can be instantiated:
  - the mutating one (src/SeqContainer.h:822-833) constructs a `std::function` object from two element values;
  - the const one (src/SeqContainer.h:901-905) builds an `ExprTemplate` whose operation type is
    `std::function<VALUE(VALUE, VALUE)>`, which has no static `apply`, so `ExprTemplate::operator[]`
    (src/Expression_Template.h:146-148) cannot be instantiated for it.
- `SubScript_Op` (src/Operator_Templates.h:270-299) is left out. It is unused and needs an indexable element type.
- Expression.Eval: reads are modelled as pure. When the right operand of a node or of `op=` is a named non-const
  container, `right_expr()` returns a non-const reference. A read past its end then goes through the growing
  `operator[]` (src/SeqContainer.h:505-510), which enlarges that operand. The value read is still 0; only the
  side effect on the operand is not modelled.
- Container.ApplyUnary: `func` is modelled as a pure, total function on `i64`. The source calls a function pointer,
  which may have side effects or undefined behaviour; neither is modelled.
- Materialize.Assign: when `c = d` runs the template with a non-const container `d` shorter than `c`, reads past
  the end of `d` go through the growing `operator[]` and enlarge `d` as well. The values read are 0, as modelled;
  the growth of `d` is not.
- Operators.ShiftLeftApply: gives the `(T const&, T&&)` overload the right shift its statement denotes. It does not
  model the compiler's rejection of `a >>= b` through a const reference. The same holds for
  Operators.ShiftRightApply.
- Undefined behaviour is a precondition, not a modelled outcome. This covers:
  - signed overflow;
  - a zero divisor in division, or in an unguarded modulo, including `/=` and `%=` where a shorter right side reads 0;
  - `MIN / -1`;
  - a shift count outside [0, 64);
  - `std::abs(INT_MIN)` in `shift`/`cshift`.
- Container.InsertContainer: gives `c.insert(at, c)`, a non-const container inserted into itself, the result
  `c[..at] + c + c[at..]`. The source passes iterators into the vector being modified to `std::vector::insert`
  (src/SeqContainer.h:412), which is undefined behaviour. The model has no notion of aliasing, so it neither
  excludes this call nor flags it. Container.Insert is the same.
- Container.ApplyBinary: requires `b` to be at least as long as the container. `apply(b, func)` reads
  `b._sequence[i]` without a bounds check, so a shorter `b` is undefined behaviour.
- Sizes are unbounded naturals. `std::size_t` overflow, such as `index + 1` in the growing `operator[]`, is not
  modelled.
- `max_val` is not part of this model. It is taken to return the larger of its two arguments.
- Floating-point element types are not modelled. The element type is the default `intmax_t`.
