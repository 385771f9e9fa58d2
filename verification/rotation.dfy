/**
  `cshift` (circular rotation) and `shift` (rotation that drops what wraps
  around), and the four protected helpers they delegate to.

  Despite its name, `rotate_left(k)` moves every element `k mod n` places
  toward HIGHER indices (it rotates so that the element at `end - k` becomes
  the first), and `rotate_right(k)` moves them toward lower indices. With
  `n` the size, `cshift(k)` therefore puts the old element
  `(i - k) mod n` at index `i`, whatever the sign of `k`.
 */
module Rotation {
  import opened Int64
  import opened Container

  // ---------------------------------------------------------------------
  // Modular arithmetic used by the index characterisations
  // ---------------------------------------------------------------------

  lemma ModOfSmall(x: int, n: int)
    requires 0 <= x < n
    ensures x % n == x
  {
    ModUnique(x, n, 0, x);
  }

  lemma ModOfNegativeSmall(x: int, n: int)
    requires 0 < n && -n <= x < 0
    ensures x % n == x + n
  {
    ModUnique(x, n, -1, x + n);
  }

  lemma ModOfLarge(x: int, n: int)
    requires 0 < n && n <= x < 2 * n
    ensures x % n == x - n
  {
    ModUnique(x, n, 1, x - n);
  }

  /** Adding a multiple of `n` does not change the residue. */
  lemma ModAddMultiple(x: int, q: int, n: int)
    requires n > 0
    ensures (x + q * n) % n == x % n
  {
    var d, r := x / n, x % n;
    assert x == n * d + r && 0 <= r < n;
    assert x + q * n == n * (d + q) + r;
    ModUnique(x + q * n, n, d + q, r);
  }

  /** Reducing the shift modulo `n` first does not change the residue. */
  lemma ModReduceShift(x: int, k: int, n: int)
    requires n > 0
    ensures (x - k % n) % n == (x - k) % n
    ensures (x + k % n) % n == (x + k) % n
  {
    var q := k / n;
    assert k == n * q + k % n;
    ModAddMultiple(x - k, q, n);
    assert x - k + q * n == x - k % n;
    ModAddMultiple(x + k, -q, n);
    assert x + k + (-q) * n == x + k % n;
  }

  /** Reducing a residue again before subtracting changes nothing. */
  lemma ModOfResidue(x: int, k: int, n: int)
    requires n > 0
    ensures (x % n - k) % n == (x - k) % n
  {
    var q := x / n;
    assert x == n * q + x % n;
    ModAddMultiple(x % n - k, q, n);
    assert x % n - k + q * n == x - k;
  }

  // ---------------------------------------------------------------------
  // The four rotate helpers
  // ---------------------------------------------------------------------

  /** `rotate_left(k)`: `std::ranges::rotate(seq, end - k mod n)`. */
  function RotateLeft(c: Seq, k: nat): (r: Seq)
    ensures |r| == |c|
    ensures forall i :: 0 <= i < |c| ==> r[i] == c[(i - k) % |c|]
  {
    if |c| > 0 then
      var n := |c|;
      var s := k % n;
      var r := c[n - s..] + c[..n - s];
      assert c == c[..n - s] + c[n - s..];
      assert forall i :: 0 <= i < n ==> r[i] == c[(i - k) % n] by {
        forall i | 0 <= i < n
          ensures r[i] == c[(i - k) % n]
        {
          ModReduceShift(i, k, n);
          if i < s {
            ModOfNegativeSmall(i - s, n);
          } else {
            ModOfSmall(i - s, n);
          }
        }
      }
      r
    else c
  }

  lemma RotateLeftSlices(c: Seq, k: nat)
    requires |c| > 0
    ensures RotateLeft(c, k) == c[|c| - k % |c|..] + c[..|c| - k % |c|]
  {
  }

  /** `rotate_right(k)`: `std::ranges::rotate(seq, begin + k mod n)`. */
  function RotateRight(c: Seq, k: nat): (r: Seq)
    ensures |r| == |c|
    ensures forall i :: 0 <= i < |c| ==> r[i] == c[(i + k) % |c|]
  {
    if |c| > 0 then
      var n := |c|;
      var s := k % n;
      var r := c[s..] + c[..s];
      assert c == c[..s] + c[s..];
      assert forall i :: 0 <= i < n ==> r[i] == c[(i + k) % n] by {
        forall i | 0 <= i < n
          ensures r[i] == c[(i + k) % n]
        {
          ModReduceShift(i, k, n);
          if i < n - s {
            ModOfSmall(i + s, n);
          } else {
            ModOfLarge(i + s, n);
          }
        }
      }
      r
    else c
  }

  lemma RotateRightSlices(c: Seq, k: nat)
    requires |c| > 0
    ensures RotateRight(c, k) == c[k % |c|..] + c[..k % |c|]
  {
  }

  /** `rotate_left_and_drop(k)`: `rotate_left(k)`, then the first `k mod n`
      slots, which received wrapped-around elements, are zeroed. */
  function RotateLeftAndDrop(c: Seq, k: nat): (r: Seq)
    ensures |r| == |c|
    ensures forall i :: 0 <= i < |c| ==> r[i] == if i < k % |c| then 0 else c[i - k % |c|]
  {
    var rotated := RotateLeft(c, k);
    if |c| > 0 then
      var s := k % |c|;
      assert forall i :: s <= i < |c| ==> rotated[i] == c[i - s] by {
        forall i | s <= i < |c|
          ensures rotated[i] == c[i - s]
        {
          ModReduceShift(i, k, |c|);
          ModOfSmall(i - s, |c|);
        }
      }
      seq(|c|, i requires 0 <= i < |c| => if i < s then 0 else rotated[i])
    else rotated
  }

  /** `rotate_right_and_drop(k)`: `rotate_right(k)`, then the last `k mod n`
      slots, which received wrapped-around elements, are zeroed. */
  function RotateRightAndDrop(c: Seq, k: nat): (r: Seq)
    ensures |r| == |c|
    ensures forall i :: 0 <= i < |c| ==> r[i] == if i >= |c| - k % |c| then 0 else c[i + k % |c|]
  {
    var rotated := RotateRight(c, k);
    if |c| > 0 then
      var s := k % |c|;
      assert forall i :: 0 <= i < |c| - s ==> rotated[i] == c[i + s] by {
        forall i | 0 <= i < |c| - s
          ensures rotated[i] == c[i + s]
        {
          ModReduceShift(i, k, |c|);
          ModOfSmall(i + s, |c|);
        }
      }
      seq(|c|, i requires 0 <= i < |c| => if i >= |c| - s then 0 else rotated[i])
    else rotated
  }

  // ---------------------------------------------------------------------
  // cshift and shift
  // ---------------------------------------------------------------------

  /** The shift count is an `int`; `std::abs(INT_MIN)` is undefined. */
  predicate ValidShift(k: int) {
    -0x7fff_ffff <= k <= 0x7fff_ffff
  }

  /** `cshift(k)`: circular rotation. The element at index `i` afterwards is
      the old element at `(i - k) mod n`, for either sign of `k`. */
  function Cshift(c: Seq, k: int): (r: Seq)
    requires ValidShift(k)
    ensures |r| == |c|
    ensures forall i :: 0 <= i < |c| ==> r[i] == c[(i - k) % |c|]
  {
    if k > 0 then RotateLeft(c, k) else RotateRight(c, -k)
  }

  /** `cshift` is a permutation: the same elements, each as often. */
  lemma CshiftPermutes(c: Seq, k: int)
    requires ValidShift(k)
    ensures multiset(Cshift(c, k)) == multiset(c)
  {
    if |c| > 0 {
      var n := |c|;
      assert c == c[..n - k % n] + c[n - k % n..];
      assert c == c[..(-k) % n] + c[(-k) % n..];
      if k > 0 {
        RotateLeftSlices(c, k);
      } else {
        RotateRightSlices(c, -k);
      }
    }
  }

  /** `cshift(-k)` undoes `cshift(k)`. */
  lemma CshiftInverse(c: Seq, k: int)
    requires ValidShift(k)
    ensures Cshift(Cshift(c, k), -k) == c
  {
    var n := |c|;
    var once := Cshift(c, k);
    var twice := Cshift(once, -k);
    forall i | 0 <= i < n
      ensures twice[i] == c[i]
    {
      var j := (i + k) % n;
      assert i - -k == i + k;
      assert twice[i] == once[j];
      assert once[j] == c[(j - k) % n];
      ModOfResidue(i + k, k, n);
      assert i + k - k == i;
      ModOfSmall(i, n);
    }
  }

  /** `cshift(1)` on `(1,2,3,4,5)` gives `(5,1,2,3,4)`: elements move toward
      higher indices. */
  lemma CshiftDirection()
    ensures Cshift([1, 2, 3, 4, 5], 1) == [5, 1, 2, 3, 4]
  {
    var c: Seq := [1, 2, 3, 4, 5];
    RotateLeftSlices(c, 1);
    assert c[4..] == [5] && c[..4] == [1, 2, 3, 4];
  }

  /** `shift(k)`: rotation that drops. For `k > 0` the first `k mod n` slots
      become 0 and the rest hold `old[i - k mod n]`; for `k <= 0` the last
      `|k| mod n` slots become 0 and the rest hold `old[i + |k| mod n]`. */
  function Shift(c: Seq, k: int): (r: Seq)
    requires ValidShift(k)
    ensures |r| == |c|
    ensures k > 0 ==> forall i :: 0 <= i < |c| ==>
              r[i] == if i < k % |c| then 0 else c[i - k % |c|]
    ensures k <= 0 ==> forall i :: 0 <= i < |c| ==>
              r[i] == if i >= |c| - (-k) % |c| then 0 else c[i + (-k) % |c|]
  {
    if k > 0 then RotateLeftAndDrop(c, k) else RotateRightAndDrop(c, -k)
  }

  /** A slot whose new content wrapped around under `cshift(k)`. */
  predicate Wrapped(n: nat, k: int, i: nat)
    requires n > 0
  {
    if k > 0 then i < k % n else i >= n - (-k) % n
  }

  /** `shift(k)` is `cshift(k)` with the wrapped-around slots zeroed. */
  lemma ShiftIsCshiftWithDrops(c: Seq, k: int, i: nat)
    requires ValidShift(k) && i < |c|
    ensures Shift(c, k)[i] == if Wrapped(|c|, k, i) then 0 else Cshift(c, k)[i]
  {
    var n := |c|;
    if k > 0 {
      ModReduceShift(i, k, n);
      if i >= k % n {
        ModOfSmall(i - k % n, n);
      }
    } else {
      ModReduceShift(i, -k, n);
      if i < n - (-k) % n {
        ModOfSmall(i + (-k) % n, n);
      }
    }
  }

  /** `shift(0)` changes nothing. */
  lemma ShiftZeroIsIdentity(c: Seq)
    ensures Shift(c, 0) == c
  {
  }

  /** Because the count is reduced modulo the size, shifting by the size
      changes nothing either. */
  lemma ShiftBySizeIsIdentity(c: Seq)
    requires 0 < |c| <= 0x7fff_ffff
    ensures Shift(c, |c|) == c
  {
  }

  /** Unlike `cshift`, `shift` loses what it drops: `(1,2)` shifted by 1 and
      back by -1 is `(1,0)`. */
  lemma ShiftIsNotInvertible()
    ensures Shift(Shift([1, 2], 1), -1) == [1, 0]
  {
    var once := Shift([1, 2], 1);
    assert once[0] == 0 && once[1] == 1;
    var twice := Shift(once, -1);
    assert twice[0] == 1 && twice[1] == 0;
  }
}
