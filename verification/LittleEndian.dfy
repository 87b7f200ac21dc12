/** Bytes, and integers stored in them with the least significant byte first. */
module LittleEndian {

  type Byte = b: int | 0 <= b < 256

  const U32_LIMIT := 0x1_0000_0000

  function Pow256(n: nat): (p: nat)
    ensures p > 0
  {
    if n == 0 then 1 else 256 * Pow256(n - 1)
  }

  /** The low `n` bytes of `v`. */
  function Store(v: nat, n: nat): (bs: seq<Byte>)
    ensures |bs| == n
    decreases n
  {
    if n == 0 then [] else [v % 256] + Store(v / 256, n - 1)
  }

  function Load(bs: seq<Byte>): (v: nat) {
    if bs == [] then 0 else bs[0] + 256 * Load(bs[1..])
  }

  /** The value read back is the stored one, cut to `n` bytes. */
  lemma {:induction false} LoadStore(v: nat, n: nat)
    ensures Load(Store(v, n)) == v % Pow256(n)
    ensures v < Pow256(n) ==> Load(Store(v, n)) == v
    decreases n
  {
    if n > 0 {
      LoadStore(v / 256, n - 1);
      assert Store(v, n)[1..] == Store(v / 256, n - 1);
      SplitRemainder(v, Pow256(n - 1));
    }
    SmallRemainder(v, Pow256(n));
  }

  /** Byte `i` has weight 256 to the power `i`. */
  lemma {:induction false} StoreByte(v: nat, n: nat, i: nat)
    requires i < n
    ensures Store(v, n)[i] == v / Pow256(i) % 256
    decreases i
  {
    if i > 0 {
      StoreByte(v / 256, n - 1, i - 1);
      QuotientTwice(v, Pow256(i - 1));
    }
  }

  lemma QuotientTwice(v: nat, p: nat)
    requires p > 0
    ensures v / 256 / p == v / (256 * p)
  {
    var q, c := v / 256 / p, v / 256 % p;
    assert v / 256 == p * q + c;
    var r := 256 * c + v % 256;
    assert v == (256 * p) * q + r by {
      assert v == 256 * (v / 256) + v % 256;
      assert 256 * (p * q) == (256 * p) * q;
    }
    RemainderUnique(v, 256 * p, q, r);
    assert (256 * p) * q == (256 * p) * (v / (256 * p));
    SameFactor(256 * p, q, v / (256 * p));
  }

  lemma SameFactor(m: nat, x: nat, y: nat)
    requires m > 0 && m * x == m * y
    ensures x == y
  {
    assert m * (y - x) == m * y - m * x;
    assert m * (x - y) == m * x - m * y;
    if x < y {
      MultipleGrows(m, y - x);
    } else if y < x {
      MultipleGrows(m, x - y);
    }
  }

  /** Any bytes are what storing their value gives. */
  lemma {:induction false} StoreLoad(bs: seq<Byte>)
    ensures Store(Load(bs), |bs|) == bs && Load(bs) < Pow256(|bs|)
  {
    if bs != [] {
      StoreLoad(bs[1..]);
      assert Load(bs) / 256 == Load(bs[1..]) && Load(bs) % 256 == bs[0];
    }
  }

  lemma SmallRemainder(v: nat, p: nat)
    requires p > 0
    ensures v < p ==> v % p == v
  {
  }

  /** The low byte and the rest of a remainder. */
  lemma SplitRemainder(v: nat, p: nat)
    requires p > 0
    ensures v % 256 + 256 * (v / 256 % p) == v % (256 * p)
  {
    var q, c := v / 256 / p, v / 256 % p;
    assert v / 256 == p * q + c;
    assert v == (256 * p) * q + (256 * c + v % 256) by {
      assert v == 256 * (v / 256) + v % 256;
      assert 256 * (p * q) == (256 * p) * q;
    }
    RemainderUnique(v, 256 * p, q, 256 * c + v % 256);
  }

  lemma RemainderUnique(v: nat, m: nat, q: nat, r: nat)
    requires r < m && v == m * q + r
    ensures v % m == r
  {
    var d := v / m - q;
    assert v == m * (v / m) + v % m;
    assert m * d == r - v % m by { assert m * (v / m - q) == m * (v / m) - m * q; }
    if d >= 1 {
      MultipleGrows(m, d);
    } else if d <= -1 {
      MultipleGrows(m, -d);
    }
  }

  lemma MultipleGrows(m: nat, d: int)
    requires d >= 1
    ensures m * d >= m && m * -d == -(m * d)
  {
  }

  lemma Pow256Values()
    ensures Pow256(2) == 0x1_0000
    ensures Pow256(4) == 0x1_0000_0000
    ensures Pow256(8) == 0x1_0000_0000_0000_0000
  {
    assert Pow256(1) == 256;
    assert Pow256(3) == 0x100_0000;
    assert Pow256(5) == 0x100_0000_0000;
    assert Pow256(6) == 0x1_0000_0000_0000;
    assert Pow256(7) == 0x100_0000_0000_0000;
  }
}
