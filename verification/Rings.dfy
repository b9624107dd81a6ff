/** The arithmetic of both byte rings: running positions, and the places of the ring they fall on. */
module Rings {
  /** How the source moves an index. */
  function Wrap(i: nat, size: nat): (j: nat)
    requires size > 0
    ensures j < size
  {
    if i + 1 >= size then 0 else i + 1
  }

  lemma WrapIsNext(n: nat, size: nat)
    requires size > 0
    ensures Wrap(n % size, size) == (n + 1) % size
  {
    var q, r, q', r' := n / size, n % size, (n + 1) / size, (n + 1) % size;
    assert size * q + r + 1 == size * q' + r';
    Multiples(size, q, q');
    Multiples(size, q + 1, q');
  }

  /** Different multiples are at least one size apart. */
  lemma Multiples(size: nat, a: nat, b: nat)
    ensures size * (a + 1) == size * a + size
    ensures a < b ==> size * a + size <= size * b
    ensures b < a ==> size * b + size <= size * a
  {
    if a < b {
      NextMultiple(size, a, b);
    } else if b < a {
      NextMultiple(size, b, a);
    }
  }

  lemma {:induction false} NextMultiple(size: nat, a: nat, b: nat)
    requires a < b
    ensures size * a + size <= size * b
    decreases b
  {
    assert size * b == size * (b - 1) + size;
    if a < b - 1 {
      NextMultiple(size, a, b - 1);
    }
  }

  /** Within one size of each other, two positions share a place only if they are equal. */
  lemma SamePlace(i: nat, j: nat, size: nat)
    requires size > 0 && i <= j < i + size
    ensures i % size == j % size <==> i == j
  {
    var q, q' := i / size, j / size;
    assert i == size * q + i % size && j == size * q' + j % size;
    Multiples(size, q, q');
  }
}
