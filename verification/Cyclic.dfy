/** Going round a fixed number of slots. */
module Cyclic {
  /** The d-th slot after slot i, going round. */
  function Nth(i: nat, d: nat, size: nat): (j: nat)
    requires size > 0
    ensures j < size
  {
    (i + d) % size
  }

  lemma NthNext(i: nat, d: nat, size: nat)
    requires size > 0
    ensures Nth(i, d + 1, size) == (Nth(i, d, size) + 1) % size
  {
    assert (i + d) % size == (i + d) - size * ((i + d) / size);
    var q, r := (i + d) / size, (i + d) % size;
    assert i + d + 1 == size * q + (r + 1);
    if r + 1 == size {
      assert i + d + 1 == size * (q + 1);
      ModOf(i + d + 1, q + 1, 0, size);
    } else {
      ModOf(i + d + 1, q, r + 1, size);
      ModOf(r + 1, 0, r + 1, size);
    }
  }

  lemma ModOf(x: nat, q: nat, r: nat, size: nat)
    requires size > 0 && r < size && x == size * q + r
    ensures x % size == r
  {
    var q', r' := x / size, x % size;
    var k := q - q';
    assert size * k == size * q - size * q' == r' - r;
    if k >= 1 {
      AtLeastOnce(size, k);
    } else if k <= -1 {
      AtLeastOnce(size, -k);
    }
  }

  lemma AtLeastOnce(size: nat, k: int)
    requires k >= 1
    ensures size * k >= size
  {
    assert size * k == size + size * (k - 1);
  }

  /** Every slot is reached within one round. */
  lemma NthCovers(i: nat, j: nat, size: nat)
    requires i < size && j < size
    ensures exists d: nat | d < size :: Nth(i, d, size) == j
  {
    var d: nat := if j >= i then j - i else size + j - i;
    if j >= i {
      ModOf(i + d, 0, j, size);
    } else {
      ModOf(i + d, 1, j, size);
    }
    assert Nth(i, d, size) == j;
  }

  /** Within one round no slot is reached twice. */
  lemma NthInjective(i: nat, d: nat, e: nat, size: nat)
    requires d < e < size
    ensures Nth(i, d, size) != Nth(i, e, size)
  {
    var q, r := (i + d) / size, (i + d) % size;
    assert i + d == size * q + r;
    if r + (e - d) < size {
      ModOf(i + e, q, r + (e - d), size);
    } else {
      assert i + e == size * (q + 1) + (r + (e - d) - size);
      ModOf(i + e, q + 1, r + (e - d) - size, size);
    }
  }
}
