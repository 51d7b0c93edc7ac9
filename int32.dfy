/** Java's 32-bit `int`: its range and its two's-complement wrap-around. */
module Int32 {
  const MIN: int := -0x8000_0000
  const MAX: int := 0x7fff_ffff
  const MODULUS: int := 0x1_0000_0000

  predicate InRange(x: int) {
    MIN <= x <= MAX
  }

  /** The 32-bit int that Java's arithmetic leaves for the mathematical value `x`. */
  function Wrap(x: int): (r: int)
    ensures InRange(r)
    ensures InRange(x) ==> r == x
  {
    if InRange(x) then x else Reduce(x)
  }

  /** Add or subtract 2^32 until the value lies in the range. */
  function Reduce(x: int): (r: int)
    ensures InRange(r)
    decreases if x < MIN then MIN - x else if x > MAX then x - MAX else 0
  {
    if x < MIN then Reduce(x + MODULUS)
    else if x > MAX then Reduce(x - MODULUS)
    else x
  }

  /** Reducing changes the value by a multiple of 2^32: `q` is how many times 2^32 was added. */
  lemma {:induction false} ReduceOffset(x: int) returns (q: int)
    ensures Reduce(x) == x + MODULUS * q
    decreases if x < MIN then MIN - x else if x > MAX then x - MAX else 0
  {
    if x < MIN {
      var q' := ReduceOffset(x + MODULUS);
      q := q' + 1;
    } else if x > MAX {
      var q' := ReduceOffset(x - MODULUS);
      q := q' - 1;
    } else {
      q := 0;
    }
  }

  /** Wrapping changes the value by a multiple of 2^32. */
  lemma WrapOffset(x: int) returns (q: int)
    ensures Wrap(x) == x + MODULUS * q
  {
    if InRange(x) {
      q := 0;
    } else {
      q := ReduceOffset(x);
    }
  }

  /** The wrapped int differs from `x` by a multiple of 2^32. */
  lemma WrapCongruent(x: int)
    ensures (Wrap(x) - x) % MODULUS == 0
  {
    var q := WrapOffset(x);
    assert Wrap(x) - x == MODULUS * q;
  }

  /** Two ints of the 32-bit range that differ by a multiple of 2^32 are the same int. */
  lemma SameInRange(r: int, s: int, q: int)
    requires InRange(r) && InRange(s) && r - s == MODULUS * q
    ensures r == s
  {
  }

  /** Two ints of the 32-bit range that agree modulo 2^32 are the same int. */
  lemma WrapUnique(x: int, r: int)
    requires InRange(r) && (r - x) % MODULUS == 0
    ensures r == Wrap(x)
  {
    var a := WrapOffset(x);
    var b := (r - x) / MODULUS;
    assert r - x == MODULUS * b;
    SameInRange(r, Wrap(x), b - a);
  }

  /** Adding after a wrap-around gives the same int as adding first and wrapping once. */
  lemma WrapThenAdd(x: int, k: int)
    ensures Wrap(Wrap(x) + k) == Wrap(x + k)
  {
    var a := WrapOffset(x);
    var b := WrapOffset(Wrap(x) + k);
    var c := WrapOffset(x + k);
    SameInRange(Wrap(Wrap(x) + k), Wrap(x + k), a + b - c);
  }

  /** `incrementAndGet` on a Java int: one more, except that MAX is followed by MIN. */
  function Inc(v: int): (r: int)
    requires InRange(v)
    ensures InRange(r)
  {
    if v == MAX then MIN else v + 1
  }

  /** The increment is Java's wrapped sum: one more, reduced into the 32-bit range. */
  lemma IncWraps(v: int)
    requires InRange(v)
    ensures Inc(v) == Wrap(v + 1)
  {
    if v == MAX {
      assert Reduce(v + 1 - MODULUS) == MIN;
    }
  }

  /** `k` increments in a row, starting from `v`. */
  function IncN(v: int, k: nat): (r: int)
    requires InRange(v)
    ensures InRange(r)
    decreases k
  {
    if k == 0 then v else IncN(Inc(v), k - 1)
  }

  /** k increments in a row land on the wrap of v + k. */
  lemma {:induction false} IncNWraps(v: int, k: nat)
    requires InRange(v)
    ensures IncN(v, k) == Wrap(v + k)
    decreases k
  {
    if k > 0 {
      IncNWraps(Inc(v), k - 1);
      IncWraps(v);
      WrapThenAdd(v + 1, k - 1);
    }
  }
}
