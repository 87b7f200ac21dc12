/** Page sizes and the alignment arithmetic that the page-table code relies on.

    The source computes `align_down` and `page_offset` with masks; every size is a power of
    two, so the masks are written here as remainders.  The four sizes form a divisibility
    chain, and that chain is the only fact about the constants the other proofs use. */
module PageSizes {

  datatype PageSize = Size4K | Size16K | Size2M | Size1G

  function Bytes(s: PageSize): (n: nat)
    ensures n > 0
  {
    match s
    case Size4K => 0x1000
    case Size16K => 0x4000
    case Size2M => 0x20_0000
    case Size1G => 0x4000_0000
  }

  type BasePageSize = s: PageSize | s == Size4K || s == Size16K witness Size4K

  /** The base page is chosen per target (4K, or 16K on one host).  It is left without a
      value, so that every proof covers both. */
  const BASE: BasePageSize

  predicate Aligned(a: nat, s: PageSize) {
    a % Bytes(s) == 0
  }

  function PageOffset(s: PageSize, a: nat): (o: nat) {
    a % Bytes(s)
  }

  function AlignDown(s: PageSize, a: nat): (r: nat) {
    a - a % Bytes(s)
  }

  predicate IsPageSize(s: PageSize) {
    s == BASE || s == Size2M || s == Size1G
  }

  // ----- multiples of one size

  lemma MultipleAligned(q: nat, s: PageSize)
    ensures Aligned(q * Bytes(s), s)
  {
    match s {
      case Size4K =>
      case Size16K =>
      case Size2M =>
      case Size1G =>
    }
  }

  lemma AlignedSum(a: nat, b: nat, s: PageSize)
    requires Aligned(a, s) && Aligned(b, s)
    ensures Aligned(a + b, s)
    ensures a >= b ==> Aligned(a - b, s)
  {
    var n := Bytes(s);
    var p, q := a / n, b / n;
    assert a == p * n && b == q * n;
    MultipleAligned(p + q, s);
    assert (p + q) * n == p * n + q * n;
    if a >= b {
      assert p >= q;
      MultipleAligned(p - q, s);
      assert (p - q) * n == p * n - q * n;
    }
  }

  lemma AlignedSelf(s: PageSize)
    ensures Aligned(Bytes(s), s)
  {
  }

  /** Distinct multiples of a size are at least that size apart. */
  lemma AlignedGap(a: nat, b: nat, s: PageSize)
    requires Aligned(a, s) && Aligned(b, s) && a < b
    ensures a + Bytes(s) <= b
  {
    AlignedSum(b, a, s);
    var d := b - a;
    assert d % Bytes(s) == 0 && d > 0;
  }

  lemma AlignDownFits(s: PageSize, a: nat)
    ensures Aligned(AlignDown(s, a), s)
    ensures AlignDown(s, a) <= a < AlignDown(s, a) + Bytes(s)
  {
    var n := Bytes(s);
    assert a == (a / n) * n + a % n;
    MultipleAligned(a / n, s);
  }

  lemma AlignDownSelf(s: PageSize, a: nat)
    ensures AlignDown(s, a) == a <==> Aligned(a, s)
  {
  }

  /** The aligned block that holds `a` is unique, and `AlignDown` finds it. */
  lemma AlignDownUnique(s: PageSize, k: nat, a: nat)
    requires Aligned(k, s) && k <= a < k + Bytes(s)
    ensures AlignDown(s, a) == k
    ensures PageOffset(s, a) == a - k
  {
    AlignDownFits(s, a);
    var d := AlignDown(s, a);
    if d < k {
      AlignedGap(d, k, s);
    } else if k < d {
      AlignedGap(k, d, s);
    }
  }

  // ----- the divisibility chain

  lemma AlignedSmaller(a: nat, small: PageSize, large: PageSize)
    requires Bytes(small) <= Bytes(large) && Aligned(a, large)
    ensures Aligned(a, small)
  {
    match large {
      case Size4K =>
      case Size16K =>
      case Size2M =>
      case Size1G =>
    }
  }

  /** An aligned block that meets a larger aligned block lies inside it. */
  lemma NestedBlocks(a: nat, small: PageSize, b: nat, large: PageSize)
    requires Bytes(small) <= Bytes(large) && Aligned(a, small) && Aligned(b, large)
    requires a < b + Bytes(large) && b < a + Bytes(small)
    ensures b <= a && a + Bytes(small) <= b + Bytes(large)
  {
    AlignedSelf(large);
    AlignedSum(b, Bytes(large), large);
    AlignedSmaller(b, small, large);
    AlignedSmaller(b + Bytes(large), small, large);
    if a < b {
      AlignedGap(a, b, small);
    }
    AlignedGap(a, b + Bytes(large), small);
  }

  lemma BaseIsSmallest(s: PageSize)
    requires IsPageSize(s)
    ensures Bytes(BASE) <= Bytes(s)
    ensures Aligned(Bytes(s), BASE)
  {
    AlignedSelf(s);
    AlignedSmaller(Bytes(s), BASE, s);
  }
}
