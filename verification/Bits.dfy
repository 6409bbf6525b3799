/** Bits of natural numbers and of byte strings: the operators of bridge/dbc/dbc.cc. */
module Bits {
  import opened Words

  function Pow2(n: nat): (p: nat)
    ensures p > 0
  {
    if n == 0 then 1 else 2 * Pow2(n - 1)
  }

  /** Bits in a `uint64_t`. */
  function Word(): nat {
    64
  }

  /** `v << n`, before any truncation. */
  function Shl(v: nat, n: nat): nat {
    if n == 0 then v else 2 * Shl(v, n - 1)
  }

  /** `v >> n`. */
  function Shr(v: nat, n: nat): nat {
    if n == 0 then v else Shr(v / 2, n - 1)
  }

  /** The low `n` bits of `v`; what an `n`-bit word keeps of it. */
  function Low(v: nat, n: nat): nat {
    if n == 0 then 0 else v % 2 + 2 * Low(v / 2, n - 1)
  }

  /** Bit `k` of `v`, 0 or 1. */
  function BitOf(v: nat, k: nat): nat {
    Shr(v, k) % 2
  }

  /** `a | b` on `n`-bit words. */
  function Or(a: nat, b: nat, n: nat): nat {
    if n == 0 then 0 else (if a % 2 == 1 || b % 2 == 1 then 1 else 0) + 2 * Or(a / 2, b / 2, n - 1)
  }

  /** `a & b` on `n`-bit words. */
  function And(a: nat, b: nat, n: nat): nat {
    if n == 0 then 0 else (if a % 2 == 1 && b % 2 == 1 then 1 else 0) + 2 * And(a / 2, b / 2, n - 1)
  }

  /** `v` with bit `k` set to `b`. */
  function SetBitOf(v: nat, k: nat, b: nat): nat
    requires b < 2
  {
    if k == 0 then v / 2 * 2 + b else v % 2 + 2 * SetBitOf(v / 2, k - 1, b)
  }

  lemma {:induction false} ShrStep(v: nat, n: nat)
    ensures Shr(v, n + 1) == Shr(v, n) / 2
  {
    if n > 0 {
      ShrStep(v / 2, n - 1);
    }
  }

  lemma BitOfDouble(a: nat, b: nat, k: nat)
    requires b < 2
    ensures BitOf(2 * a + b, k) == if k == 0 then b else BitOf(a, k - 1)
  {
  }

  /** Masking with `(1 << n) - 1` keeps the low bits. */
  lemma {:induction false} AndOnes(v: nat, n: nat, m: nat)
    requires n <= m
    ensures And(v, Pow2(n) - 1, m) == Low(v, n)
  {
    if n > 0 {
      assert Pow2(n) - 1 == 1 + 2 * (Pow2(n - 1) - 1);
      AndOnes(v / 2, n - 1, m - 1);
    } else if m > 0 {
      AndOnes(v / 2, 0, m - 1);
    }
  }

  /** Masking with `1 << k` tests bit `k`. */
  lemma {:induction false} AndPower(v: nat, k: nat, m: nat)
    requires k < m
    ensures And(v, Pow2(k), m) != 0 <==> BitOf(v, k) == 1
  {
    if k > 0 {
      AndPower(v / 2, k - 1, m - 1);
    } else {
      AndZero(v / 2, m - 1);
    }
  }

  lemma {:induction false} AndZero(v: nat, m: nat)
    ensures And(v, 0, m) == 0
  {
    if m > 0 {
      AndZero(v / 2, m - 1);
    }
  }

  lemma {:induction false} OrCommutes(a: nat, b: nat, n: nat)
    ensures Or(a, b, n) == Or(b, a, n)
  {
    if n > 0 {
      OrCommutes(a / 2, b / 2, n - 1);
    }
  }

  /** Numbers without a common bit are OR-ed by adding them. */
  lemma {:induction false} OrAbove(a: nat, h: nat, n: nat, m: nat)
    requires a < Pow2(n) && n <= m && Shl(h, n) < Pow2(m)
    ensures Or(a, Shl(h, n), m) == a + Shl(h, n)
  {
    if n > 0 {
      OrAbove(a / 2, h, n - 1, m - 1);
    } else if m > 0 {
      OrAbove(0, h / 2, 0, m - 1);
    }
  }

  lemma {:induction false} LowBound(v: nat, n: nat)
    ensures Low(v, n) < Pow2(n)
  {
    if n > 0 {
      LowBound(v / 2, n - 1);
    }
  }

  lemma {:induction false} LowId(v: nat, n: nat)
    requires v < Pow2(n)
    ensures Low(v, n) == v
  {
    if n > 0 {
      LowId(v / 2, n - 1);
    }
  }

  lemma {:induction false} BitOfLow(v: nat, n: nat, k: nat)
    requires k < n
    ensures BitOf(Low(v, n), k) == BitOf(v, k)
  {
    if k > 0 {
      BitOfLow(v / 2, n - 1, k - 1);
      BitOfDouble(Low(v / 2, n - 1), v % 2, k);
      BitOfDouble(v / 2, v % 2, k);
    }
  }

  lemma {:induction false} ShrSmall(v: nat, n: nat)
    requires v < Pow2(n)
    ensures BitOf(v, n) == 0
  {
    if n > 0 {
      ShrSmall(v / 2, n - 1);
    }
  }

  lemma {:induction false} LowOfLow(v: nat, n: nat, m: nat)
    requires n <= m
    ensures Low(Low(v, m), n) == Low(v, n)
  {
    if n > 0 {
      LowOfLow(v / 2, n - 1, m - 1);
    }
  }

  /** What an `m`-bit word keeps of `(v << n) + a`. */
  lemma {:induction false} LowOfShl(v: nat, n: nat, a: nat, m: nat)
    requires a < Pow2(n) && n <= m
    ensures Low(Shl(v, n) + a, m) == Shl(Low(v, m - n), n) + a
  {
    if n > 0 {
      assert Shl(v, n) + a == 2 * (Shl(v, n - 1) + a / 2) + a % 2;
      LowOfShl(v, n - 1, a / 2, m - 1);
    }
  }

  lemma HalfMod(v: nat, p: nat)
    requires p > 0
    ensures v % (2 * p) == v % 2 + 2 * (v / 2 % p)
  {
    var q, r := v / 2 / p, v / 2 % p;
    assert v == 2 * p * q + (v % 2 + 2 * r);
    ModOf(2 * p, q, v % 2 + 2 * r);
  }

  lemma Multiple(m: nat, k: int)
    requires k >= 1
    ensures m * k >= m
  {
  }

  /** Quotient and remainder are unique. */
  lemma OneQuotient(m: nat, a: int, r: nat, b: int, t: nat)
    requires m * a + r == m * b + t && r < m && t < m
    ensures r == t
  {
    assert m * (a - b) == t - r;
    if a > b {
      Multiple(m, a - b);
    } else if a < b {
      assert m * (b - a) == r - t;
      Multiple(m, b - a);
    }
  }

  lemma ModOf(m: nat, q: nat, r: nat)
    requires r < m
    ensures (m * q + r) % m == r
  {
    var x := m * q + r;
    assert x == m * (x / m) + x % m;
    OneQuotient(m, q, r, x / m, x % m);
  }

  lemma {:induction false} LowIsMod(v: nat, n: nat)
    ensures Low(v, n) == v % Pow2(n)
  {
    if n > 0 {
      LowIsMod(v / 2, n - 1);
      HalfMod(v, Pow2(n - 1));
    }
  }

  lemma InWord(v: nat)
    requires v < TWO64
    ensures v % TWO64 == v
  {
  }

  /** A `uint64_t` keeps the low 64 bits. */
  lemma WordKeeps(v: nat)
    ensures Low(v, Word()) == v % TWO64
  {
    LowIsMod(v, Word());
    Pow2Word();
  }

  lemma Pow2Byte(n: nat)
    ensures Pow2(n + 8) == 256 * Pow2(n)
  {
    assert Pow2(n + 4) == 16 * Pow2(n) by {
      assert Pow2(n + 2) == 4 * Pow2(n);
    }
    assert Pow2(n + 6) == 4 * Pow2(n + 4);
  }

  lemma Pow2Word()
    ensures Pow2(Word()) == TWO64
  {
    Pow2Byte(0);
    Pow2Byte(8);
    Pow2Byte(16);
    Pow2Byte(24);
    Pow2Byte(32);
    Pow2Byte(40);
    Pow2Byte(48);
    Pow2Byte(56);
  }

  /** A number below `2^n` is determined by its first `n` bits. */
  lemma {:induction false} SameBits(a: nat, b: nat, n: nat)
    requires a < Pow2(n) && b < Pow2(n) && forall k | 0 <= k < n :: BitOf(a, k) == BitOf(b, k)
    ensures a == b
  {
    if n > 0 {
      assert BitOf(a, 0) == BitOf(b, 0);
      forall k | 0 <= k < n - 1 ensures BitOf(a / 2, k) == BitOf(b / 2, k) {
        assert BitOf(a, k + 1) == BitOf(b, k + 1);
      }
      SameBits(a / 2, b / 2, n - 1);
    }
  }

  lemma {:induction false} BitOfOr(a: nat, b: nat, n: nat, k: nat)
    requires k < n
    ensures BitOf(Or(a, b, n), k) == if BitOf(a, k) == 1 || BitOf(b, k) == 1 then 1 else 0
  {
    var low := if a % 2 == 1 || b % 2 == 1 then 1 else 0;
    assert Or(a, b, n) == low + 2 * Or(a / 2, b / 2, n - 1);
    if k > 0 {
      BitOfOr(a / 2, b / 2, n - 1, k - 1);
      assert Or(a, b, n) / 2 == Or(a / 2, b / 2, n - 1);
    }
  }

  lemma {:induction false} OrBound(a: nat, b: nat, n: nat)
    ensures Or(a, b, n) < Pow2(n)
  {
    if n > 0 {
      OrBound(a / 2, b / 2, n - 1);
    }
  }

  lemma {:induction false} BitOfShl(v: nat, n: nat, k: nat)
    ensures BitOf(Shl(v, n), k) == if k < n then 0 else BitOf(v, k - n)
  {
    if n > 0 {
      assert Shl(v, n) == 2 * Shl(v, n - 1);
      if k > 0 {
        BitOfShl(v, n - 1, k - 1);
        assert Shl(v, n) / 2 == Shl(v, n - 1);
      }
    }
  }

  lemma {:induction false} BitOfOnes(n: nat, k: nat)
    ensures BitOf(Pow2(n) - 1, k) == if k < n then 1 else 0
  {
    if n == 0 {
      ShrZero(k);
    } else {
      assert Pow2(n) - 1 == 1 + 2 * (Pow2(n - 1) - 1);
      if k > 0 {
        BitOfOnes(n - 1, k - 1);
        assert (Pow2(n) - 1) / 2 == Pow2(n - 1) - 1;
      }
    }
  }

  /** `((1 << sz) - 1) << shift` has exactly the bits `shift .. shift + sz - 1`. */
  lemma BitOfRun(sz: nat, shift: nat, k: nat)
    ensures BitOf(Shl(Pow2(sz) - 1, shift), k) == if shift <= k < shift + sz then 1 else 0
  {
    BitOfShl(Pow2(sz) - 1, shift, k);
    if k >= shift {
      BitOfOnes(sz, k - shift);
    }
  }

  lemma {:induction false} ShrZero(k: nat)
    ensures Shr(0, k) == 0
  {
    if k > 0 {
      ShrZero(k - 1);
    }
  }

  lemma {:induction false} BitOfSet(v: nat, k: nat, b: nat, j: nat)
    requires b < 2
    ensures BitOf(SetBitOf(v, k, b), j) == if j == k then b else BitOf(v, j)
  {
    if k > 0 && j > 0 {
      BitOfSet(v / 2, k - 1, b, j - 1);
    }
  }

  lemma {:induction false} SetBitBound(v: nat, k: nat, b: nat, n: nat)
    requires b < 2 && v < Pow2(n) && k < n
    ensures SetBitOf(v, k, b) < Pow2(n)
  {
    if k > 0 {
      SetBitBound(v / 2, k - 1, b, n - 1);
    }
  }

  lemma {:induction false} ShlBound(v: nat, n: nat, m: nat)
    requires v < Pow2(m)
    ensures Shl(v, n) + Pow2(n) <= Pow2(m + n)
  {
    if n > 0 {
      ShlBound(v, n - 1, m);
    }
  }

  lemma {:induction false} Pow2Monotone(a: nat, b: nat)
    requires a <= b
    ensures Pow2(a) <= Pow2(b)
  {
    if a < b {
      Pow2Monotone(a, b - 1);
    }
  }

  // ----- byte strings -----

  /** Bit `p` of a frame: bit `p % 8` of byte `p / 8`. */
  function Bit(data: seq<byte>, p: nat): nat
    requires p / 8 < |data|
  {
    BitOf(data[p / 8] as nat, p % 8)
  }

  function SetBit(data: seq<byte>, p: nat, b: nat): (d: seq<byte>)
    requires p / 8 < |data| && b < 2
    ensures |d| == |data|
  {
    SetBitBound(data[p / 8] as nat, p % 8, b, 8);
    assert Pow2(8) == 256;
    data[p / 8 := SetBitOf(data[p / 8] as nat, p % 8, b) as byte]
  }

  lemma BitOfSetBit(data: seq<byte>, p: nat, b: nat, q: nat)
    requires p / 8 < |data| && q / 8 < |data| && b < 2
    ensures Bit(SetBit(data, p, b), q) == if q == p then b else Bit(data, q)
  {
    BitOfSet(data[p / 8] as nat, p % 8, b, q % 8);
    if q / 8 == p / 8 && q % 8 == p % 8 {
      assert q == p;
    }
  }
}
