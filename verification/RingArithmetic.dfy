/** The arithmetic of a ring with 64-bit counters that are reduced modulo a capacity. */
module RingArithmetic {
  import opened Bits
  import opened Pmem

  /** The slot that counter value `front + j` falls on, with the sum wrapping at 2^64. */
  function Pos(c: nat, front: nat, j: nat): (p: nat)
    ensures c > 0 ==> p < c
  {
    if c == 0 then 0 else Wrap(front + j) % c
  }

  lemma WrapAgain(x: int, y: int)
    ensures Wrap(Wrap(x) + y) == Wrap(x + y)
  {
  }

  /** A window that starts one later. */
  lemma PosShift(c: nat, front: nat, j: nat)
    ensures Pos(c, Wrap(front + 1), j) == Pos(c, front, j + 1)
  {
    WrapAgain(front + 1, j);
  }

  lemma SizeUp(front: nat, back: nat)
    requires front < WORD_RANGE && back < WORD_RANGE && Wrap(back - front) + 1 < WORD_RANGE
    ensures Wrap(Wrap(back + 1) - front) == Wrap(back - front) + 1
    ensures Wrap(front + Wrap(back - front)) == back
  {
  }

  lemma SizeDown(front: nat, back: nat)
    requires front < WORD_RANGE && back < WORD_RANGE && Wrap(back - front) > 0
    ensures Wrap(back - Wrap(front + 1)) == Wrap(back - front) - 1
  {
  }

  /** What the caller can check: the counter that comes next does not fall on a live slot. */
  predicate Safe(c: nat, front: nat, size: nat)
    requires c > 0
  {
    var back := Wrap(front + size);
    !(back < front && back < WORD_RANGE % c <= size)
  }

  lemma ModSmall(x: nat, c: nat)
    requires x < c
    ensures x % c == x
  {
    DivUnique(x, c, 0, x);
  }

  /** Two numbers less than `c` apart differ modulo `c`. */
  lemma ModDistinct(x: nat, y: nat, c: nat)
    requires x < y < x + c
    ensures x % c != y % c
  {
    if x % c == y % c {
      assert y - x == (y / c - x / c) * c;
      MulBetween(y / c - x / c, c);
    }
  }

  /** A counter value `t` before the wrap point falls on slot `b` exactly when `b + t` is the remainder of
      the wrap point. */
  lemma BeforeWrap(c: nat, t: nat, b: nat)
    requires 0 < t <= WORD_RANGE && b + t < c
    ensures (WORD_RANGE - t) % c == b <==> b + t == WORD_RANGE % c
  {
    var r, k := WORD_RANGE % c, WORD_RANGE / c;
    assert WORD_RANGE == k * c + r;
    if b + t == r {
      assert WORD_RANGE - t == k * c + b;
      DivUnique(WORD_RANGE - t, c, k, b);
    } else if r >= t {
      assert WORD_RANGE - t == k * c + (r - t);
      DivUnique(WORD_RANGE - t, c, k, r - t);
    } else {
      assert (k - 1) * c == k * c - c;
      assert WORD_RANGE - t == (k - 1) * c + (r - t + c);
      DivUnique(WORD_RANGE - t, c, k - 1, r - t + c);
    }
  }

  ghost predicate Collides(c: nat, front: nat, size: nat) {
    exists j: nat :: j < size && Pos(c, front, j) == Pos(c, front, size)
  }

  lemma NoCollisionBeforeWrap(c: nat, front: nat, size: nat)
    requires size < c && front + size < WORD_RANGE
    ensures !Collides(c, front, size)
  {
    forall j: nat | j < size
      ensures Pos(c, front, j) != Pos(c, front, size)
    {
      ModDistinct(front + j, front + size, c);
    }
  }

  lemma CollisionAcrossWrap(c: nat, front: nat, size: nat)
    requires size < c < WORD_RANGE && front < WORD_RANGE <= front + size
    ensures Collides(c, front, size) <==> front + size - WORD_RANGE < WORD_RANGE % c <= size
  {
    var b, r := front + size - WORD_RANGE, WORD_RANGE % c;
    assert Wrap(front + size) == b by {
      assert front + size < 2 * WORD_RANGE;
    }
    ModSmall(b, c);
    forall j: nat | j < size
      ensures Pos(c, front, j) == b <==> front + j == WORD_RANGE - (r - b) && r > b
    {
      if front + j < WORD_RANGE {
        BeforeWrap(c, WORD_RANGE - (front + j), b);
      } else {
        assert Wrap(front + j) == front + j - WORD_RANGE;
        ModSmall(front + j - WORD_RANGE, c);
      }
    }
    if b < r <= size {
      var j := WORD_RANGE - (r - b) - front;
      assert Pos(c, front, j) == b;
    }
  }

  /** The next slot is a live one exactly when the window straddles the wrap point and the remainder of
      2^64 lies between `back` and the size. */
  lemma CollidesIffUnsafe(c: nat, front: nat, size: nat)
    requires size < c < WORD_RANGE && front < WORD_RANGE
    ensures Collides(c, front, size) <==> !Safe(c, front, size)
  {
    if front + size < WORD_RANGE {
      NoCollisionBeforeWrap(c, front, size);
    } else {
      CollisionAcrossWrap(c, front, size);
      assert Wrap(front + size) == front + size - WORD_RANGE;
    }
  }

  /** A capacity that divides 2^64 is always safe. */
  lemma DivisorIsSafe(c: nat, front: nat, size: nat)
    requires c > 0 && WORD_RANGE % c == 0
    ensures Safe(c, front, size)
  {
  }

  /** So is every ring whose counters have not wrapped. */
  lemma UnwrappedIsSafe(c: nat, front: nat, size: nat)
    requires c > 0 && front + size < WORD_RANGE
    ensures Safe(c, front, size)
  {
  }

  /** Three slots, and the oldest entry written just before the counter wraps: the next entry takes its slot. */
  lemma UnsafeExample()
    ensures !Safe(3, WORD_RANGE - 1, 1)
    ensures Pos(3, WORD_RANGE - 1, 0) == Pos(3, WORD_RANGE - 1, 1) == 0
  {
  }
}
