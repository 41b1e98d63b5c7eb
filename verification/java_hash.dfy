/**
 * The bucket index of the priority queue's hash table, in 32-bit Java
 * arithmetic.  `PriNode.hashCode` negates a negative hash, which leaves
 * `Integer.MIN_VALUE` negative; the index is then taken with Java's `%`,
 * whose remainder has the sign of the dividend.  Because the table size is
 * always a power of two, the index still lands inside the table.
 */
module JavaHash {

  const MinInt: int := -0x8000_0000
  const MaxInt: int := 0x7FFF_FFFF

  predicate IsInt(h: int)
  {
    MinInt <= h <= MaxInt
  }

  /** Java's `-h` on an `int`: wraps around for `Integer.MIN_VALUE`. */
  function Negate(h: int): (r: int)
    requires IsInt(h)
    ensures IsInt(r)
    ensures h != MinInt ==> r == -h
    ensures h == MinInt ==> r == MinInt
  {
    if h == MinInt then h else -h
  }

  /** Java's `%`: truncating division, so the remainder takes the dividend's sign. */
  function Rem(a: int, n: int): (r: int)
    requires n > 0
    ensures a >= 0 ==> 0 <= r < n
    ensures a < 0 ==> -n < r <= 0
  {
    if a >= 0 then a % n else -((-a) % n)
  }

  /** `PriNode.hashCode`: the item's hash, negated when negative. */
  function NodeHash(h: int): (r: int)
    requires IsInt(h)
    ensures IsInt(r)
    ensures r >= 0 <==> h != MinInt
  {
    if h < 0 then Negate(h) else h
  }

  function Pow2(k: nat): (p: nat)
    ensures p >= 1
  {
    if k == 0 then 1 else 2 * Pow2(k - 1)
  }

  lemma {:induction false} Pow2Add(j: nat, k: nat)
    ensures Pow2(j + k) == Pow2(j) * Pow2(k)
    decreases k
  {
    if k > 0 {
      Pow2Add(j, k - 1);
      assert Pow2(j + k) == 2 * Pow2(j + k - 1);
    }
  }

  lemma MultipleMod(a: nat, b: nat)
    requires a > 0
    ensures (a * b) % a == 0
  {
    var x := a * b;
    var q, r := x / a, x % a;
    assert x == a * q + r && 0 <= r < a;
    var m := q - b;
    assert a * m == -r;
    if m >= 1 {
      // a * m would be at least a, yet it is -r > -a
      assert false;
    }
  }

  /** Every power of two up to `2^31` divides `2^31`. */
  lemma Pow2DividesMinInt(k: nat)
    requires k <= 31
    ensures (-MinInt) % Pow2(k) == 0
  {
    Pow2Add(k, 31 - k);
    assert Pow2(31) == 0x8000_0000 by {
      Pow2Add(16, 15);
      Pow2Add(8, 8);
      Pow2Add(8, 7);
      Pow2Add(4, 4);
      Pow2Add(4, 3);
    }
    MultipleMod(Pow2(k), Pow2(31 - k));
  }

  /**
   * The bucket of a node, `hashCode() % hashSize`: for a table whose size
   * is a power of two no larger than `2^31`, always a valid index, even for
   * the hash that stays negative.
   */
  function Bucket(h: int, k: nat): (b: int)
    requires IsInt(h) && k <= 31
    ensures 0 <= b < Pow2(k)
  {
    Pow2DividesMinInt(k);
    Rem(NodeHash(h), Pow2(k))
  }

  /**
   * The same computation with a table size that is not a power of two does
   * give a negative index: `Integer.MIN_VALUE` lands in bucket `-2` of a
   * table of three.
   */
  lemma BucketNegativeForOtherSizes()
    ensures Rem(NodeHash(MinInt), 3) == -2
  {
  }
}
