/** Sequence numbers that index a ring: `seqNum % winSize`, as in `window.c` and `buffer.c`. */
module Ring {

  function Slot(seqNum: nat, size: nat): (i: nat)
    requires size > 0
    ensures i < size
  {
    seqNum % size
  }

  lemma ProductAtLeast(size: nat, d: nat)
    requires d >= 1
    ensures size * d >= size
  {
  }

  lemma QuotientUnique(size: nat, p: nat, r: nat, q: nat, t: nat)
    requires r < size && t < size
    requires size * p + r == size * q + t
    ensures p == q
  {
    if p < q {
      assert size * q - size * p == size * (q - p);
      ProductAtLeast(size, q - p);
    } else if q < p {
      assert size * p - size * q == size * (p - q);
      ProductAtLeast(size, p - q);
    }
  }

  /** Two numbers less than one lap apart have different slots unless they are equal. */
  lemma SlotsDiffer(a: nat, b: nat, size: nat)
    requires size > 0 && a < b < a + size
    ensures Slot(a, size) != Slot(b, size)
  {
    var p, q := a / size, b / size;
    if a % size == b % size && p != q {
      assert b - a == size * q - size * p;
      if p < q {
        assert size * q - size * p == size * (q - p);
        ProductAtLeast(size, q - p);
      } else {
        assert size * p - size * q == size * (p - q);
        ProductAtLeast(size, p - q);
      }
    }
  }

  /** Within one lap no other number shares the slot of `seqNum`. */
  lemma LapInjective(base: nat, seqNum: nat, size: nat)
    requires size > 0 && base <= seqNum < base + size
    ensures forall t: nat :: base <= t < base + size && t != seqNum ==> Slot(t, size) != Slot(seqNum, size)
  {
    forall t: nat | base <= t < base + size && t != seqNum
      ensures Slot(t, size) != Slot(seqNum, size)
    {
      if t < seqNum {
        SlotsDiffer(t, seqNum, size);
      } else {
        SlotsDiffer(seqNum, t, size);
      }
    }
  }

  lemma SlotAfterLap(a: nat, size: nat)
    requires size > 0
    ensures Slot(a + size, size) == Slot(a, size)
  {
    assert size * (a / size) + size == size * (a / size + 1);
    QuotientUnique(size, a / size + 1, a % size, (a + size) / size, (a + size) % size);
  }
}
