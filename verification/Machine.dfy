/** Machine integers, bitwise operators on naturals, and little-endian byte strings. */
module Machine {
  type u8 = x: int | 0 <= x < 0x100
  type u16 = x: int | 0 <= x < 0x1_0000
  type u32 = x: int | 0 <= x < 0x1_0000_0000
  type u64 = x: int | 0 <= x < 0x1_0000_0000_0000_0000

  datatype Option<+T> = None | Some(value: T)

  /** The value of a 32-bit word converted to `long int` on a 32-bit ARM. */
  function ToLong(w: u32): int {
    if w < 0x8000_0000 then w else w - 0x1_0000_0000
  }

  /** The conversion keeps the word modulo 2^32 and lands in the signed range. */
  lemma ToLongIs(w: u32)
    ensures -0x8000_0000 <= ToLong(w) < 0x8000_0000 && ToLong(w) % 0x1_0000_0000 == w
  {
  }

  lemma ToLongInjective(v: u32, w: u32)
    requires ToLong(v) == ToLong(w)
    ensures v == w
  {
    ToLongIs(v);
    ToLongIs(w);
  }

  // ---------- bitwise operators ----------

  function Pow2(k: nat): (r: nat)
    ensures r > 0
  {
    if k == 0 then 1 else 2 * Pow2(k - 1)
  }

  predicate Bit(x: nat, i: nat) {
    if i == 0 then x % 2 == 1 else Bit(x / 2, i - 1)
  }

  /** `x | y` */
  function Or(x: nat, y: nat): nat {
    if x == 0 && y == 0 then 0
    else 2 * Or(x / 2, y / 2) + (if x % 2 == 1 || y % 2 == 1 then 1 else 0)
  }

  /** `x & y` */
  function And(x: nat, y: nat): nat
    decreases x
  {
    if x == 0 then 0
    else 2 * And(x / 2, y / 2) + (if x % 2 == 1 && y % 2 == 1 then 1 else 0)
  }

  /** `~x` on 32 bits, which is also `x ^ 0xFFFFFFFF`. */
  function Not32(x: u32): u32 {
    0xFFFF_FFFF - x
  }

  lemma {:induction false} BitOfZero(i: nat)
    ensures !Bit(0, i)
  {
    if i == 0 {
    } else {
      BitOfZero(i - 1);
    }
  }

  lemma OrStep(x: nat, y: nat)
    ensures Or(x, y) / 2 == Or(x / 2, y / 2) && (Or(x, y) % 2 == 1 <==> x % 2 == 1 || y % 2 == 1)
  {
  }

  lemma AndStep(x: nat, y: nat)
    ensures And(x, y) / 2 == And(x / 2, y / 2) && (And(x, y) % 2 == 1 <==> x % 2 == 1 && y % 2 == 1)
  {
  }

  lemma {:induction false} BitOr(x: nat, y: nat, i: nat)
    ensures Bit(Or(x, y), i) <==> Bit(x, i) || Bit(y, i)
    decreases i
  {
    OrStep(x, y);
    if i == 0 {
    } else {
      BitOr(x / 2, y / 2, i - 1);
    }
  }

  lemma {:induction false} BitAnd(x: nat, y: nat, i: nat)
    ensures Bit(And(x, y), i) <==> Bit(x, i) && Bit(y, i)
    decreases i
  {
    AndStep(x, y);
    if i == 0 {
    } else {
      BitAnd(x / 2, y / 2, i - 1);
    }
  }

  lemma {:induction false} BitPow2(k: nat, i: nat)
    ensures Bit(Pow2(k), i) <==> i == k
  {
    if k == 0 {
      if i > 0 {
        BitOfZero(i - 1);
      }
    } else if i == 0 {
    } else {
      BitPow2(k - 1, i - 1);
    }
  }

  /** Complementing the low k bits flips exactly those bits. */
  lemma {:induction false} BitComplement(x: nat, k: nat, i: nat)
    requires x < Pow2(k)
    ensures i < k ==> (Bit(Pow2(k) - 1 - x, i) <==> !Bit(x, i))
  {
    if k == 0 || i == 0 {
    } else {
      BitComplement(x / 2, k - 1, i - 1);
      assert (Pow2(k) - 1 - x) / 2 == Pow2(k - 1) - 1 - x / 2;
    }
  }

  /** Bit i of a number in terms of division. */
  lemma {:induction false} BitIs(x: nat, i: nat)
    ensures Bit(x, i) <==> (x / Pow2(i)) % 2 == 1
    decreases i
  {
    if i == 0 {
    } else {
      BitIs(x / 2, i - 1);
      DivideTwice(x, Pow2(i - 1));
    }
  }

  lemma DivideTwice(x: nat, m: nat)
    requires m > 0
    ensures (x / 2) / m == x / (2 * m)
  {
    var h := x / 2;
    var q, r := h / m, h % m;
    assert h == m * q + r;
    assert x == (2 * m) * q + (2 * r + x % 2);
    ModUnique(x, 2 * m, q, 2 * r + x % 2);
  }

  lemma Pow2Values()
    ensures Pow2(12) == 0x1000 && Pow2(16) == 0x1_0000 && Pow2(32) == 0x1_0000_0000
  {
    assert Pow2(4) == 16;
    assert Pow2(8) == 256;
    assert Pow2(12) == 0x1000;
    assert Pow2(16) == 0x1_0000;
    assert Pow2(20) == 0x10_0000;
    assert Pow2(24) == 0x100_0000;
    assert Pow2(28) == 0x1000_0000;
    assert Pow2(32) == 0x1_0000_0000;
  }

  /** A number below 2^k has no bit at k or above. */
  lemma {:induction false} BitsBelow(x: nat, k: nat, i: nat)
    requires x < Pow2(k) && k <= i
    ensures !Bit(x, i)
  {
    if i == 0 {
    } else if k == 0 {
      BitOfZero(i);
    } else {
      BitsBelow(x / 2, k - 1, i - 1);
    }
  }

  /** ... and conversely. */
  lemma {:induction false} BelowFromBits(x: nat, k: nat)
    requires forall i: nat | k <= i :: !Bit(x, i)
    ensures x < Pow2(k)
    decreases x
  {
    if x == 0 {
    } else {
      forall i: nat | (if k == 0 then 0 else k - 1) <= i
        ensures !Bit(x / 2, i)
      {
        assert Bit(x, i + 1) == Bit(x / 2, i);
      }
      assert k == 0 ==> !Bit(x, 0);
      BelowFromBits(x / 2, if k == 0 then 0 else k - 1);
    }
  }

  /** Numbers below 2^k with the same low k bits are equal. */
  lemma {:induction false} BitsDetermine(x: nat, y: nat, k: nat)
    requires x < Pow2(k) && y < Pow2(k)
    requires forall i: nat | i < k :: Bit(x, i) <==> Bit(y, i)
    ensures x == y
  {
    if k == 0 {
    } else {
      assert Bit(x, 0) <==> Bit(y, 0);
      forall i: nat | i < k - 1
        ensures Bit(x / 2, i) <==> Bit(y / 2, i)
      {
        assert Bit(x, i + 1) <==> Bit(y, i + 1);
      }
      BitsDetermine(x / 2, y / 2, k - 1);
    }
  }

  /** Masking with 2^k - 1 keeps the remainder modulo 2^k. */
  lemma {:induction false} AndLowMask(x: nat, k: nat, m: nat)
    requires m == Pow2(k)
    ensures And(x, m - 1) == x % m
    decreases k
  {
    if x == 0 {
      ModUnique(0, m, 0, 0);
    } else if k == 0 {
      AndZero(x);
    } else {
      AndLowMask(x / 2, k - 1, Pow2(k - 1));
      AndOddMask(x, Pow2(k - 1));
    }
  }

  lemma AndOddMask(x: nat, m: nat)
    requires x > 0 && m > 0 && And(x / 2, m - 1) == (x / 2) % m
    ensures And(x, 2 * m - 1) == x % (2 * m)
  {
    HalfMod(x, m);
    assert (2 * m - 1) / 2 == m - 1 && (2 * m - 1) % 2 == 1;
  }

  lemma {:induction false} AndZero(x: nat)
    ensures And(x, 0) == 0
  {
    if x == 0 {
    } else {
      AndZero(x / 2);
    }
  }

  lemma HalfMod(x: nat, m: nat)
    requires m > 0
    ensures x % (2 * m) == 2 * ((x / 2) % m) + x % 2
  {
    var q, r := (x / 2) / m, (x / 2) % m;
    assert x / 2 == q * m + r;
    assert x == (2 * m) * q + (2 * r + x % 2);
    ModUnique(x, 2 * m, q, 2 * r + x % 2);
  }

  lemma ModUnique(x: nat, d: nat, q: nat, r: nat)
    requires 0 <= r < d && x == d * q + r
    ensures x % d == r && x / d == q
  {
    var q', r' := x / d, x % d;
    assert x == d * q' + r';
    assert d * (q - q') == r' - r;
    MultipleOf(d, q - q');
  }

  lemma ModSmall(x: nat, d: nat)
    requires x < d
    ensures x % d == x
  {
  }

  lemma MultipleOf(d: int, e: int)
    requires d >= 0
    ensures e >= 1 ==> d * e >= d
    ensures e <= -1 ==> d * e <= -d
  {
  }

  // ---------- little-endian bytes ----------

  function Pow256(n: nat): (r: nat)
    ensures r > 0
  {
    if n == 0 then 1 else 256 * Pow256(n - 1)
  }

  /** The n bytes that `memcpy` reads from an n-byte little-endian integer. */
  function Le(x: nat, n: nat): (b: seq<u8>)
    ensures |b| == n
  {
    if n == 0 then [] else [x % 256] + Le(x / 256, n - 1)
  }

  function FromLe(b: seq<u8>): nat {
    if b == [] then 0 else b[0] + 256 * FromLe(b[1..])
  }

  lemma Pow256Values()
    ensures Pow256(1) == 0x100 && Pow256(2) == 0x1_0000 && Pow256(4) == 0x1_0000_0000
    ensures Pow256(8) == 0x1_0000_0000_0000_0000
  {
    assert Pow256(3) == 0x100_0000;
    assert Pow256(5) == 0x100_0000_0000;
    assert Pow256(6) == 0x1_0000_0000_0000;
    assert Pow256(7) == 0x100_0000_0000_0000;
  }

  lemma {:induction false} FromLeBound(b: seq<u8>)
    ensures FromLe(b) < Pow256(|b|)
  {
    if b == [] {
    } else {
      FromLeBound(b[1..]);
    }
  }

  lemma {:induction false} FromLeOfLe(x: nat, n: nat)
    requires x < Pow256(n)
    ensures FromLe(Le(x, n)) == x
  {
    if n == 0 {
    } else {
      FromLeOfLe(x / 256, n - 1);
      assert Le(x, n)[1..] == Le(x / 256, n - 1);
    }
  }

  lemma {:induction false} LeOfFromLe(b: seq<u8>)
    ensures Le(FromLe(b), |b|) == b
  {
    if b == [] {
    } else {
      LeOfFromLe(b[1..]);
      assert FromLe(b) / 256 == FromLe(b[1..]) && FromLe(b) % 256 == b[0];
    }
  }

  function U16(b: seq<u8>): (x: u16)
    requires |b| == 2
    ensures x == FromLe(b)
  {
    FromLeBound(b); Pow256Values();
    FromLe(b)
  }

  function U32(b: seq<u8>): (x: u32)
    requires |b| == 4
    ensures x == FromLe(b)
  {
    FromLeBound(b); Pow256Values();
    FromLe(b)
  }

  function U64(b: seq<u8>): (x: u64)
    requires |b| == 8
    ensures x == FromLe(b)
  {
    FromLeBound(b); Pow256Values();
    FromLe(b)
  }

  lemma U8OfLe(x: u8)
    ensures FromLe(Le(x, 1)) == x
  {
    Pow256Values();
    FromLeOfLe(x, 1);
  }

  lemma U16OfLe(x: u16)
    ensures FromLe(Le(x, 2)) == x
  {
    Pow256Values();
    FromLeOfLe(x, 2);
  }

  lemma U32OfLe(x: u32)
    ensures FromLe(Le(x, 4)) == x
  {
    Pow256Values();
    FromLeOfLe(x, 4);
  }

  lemma U64OfLe(x: u64)
    ensures FromLe(Le(x, 8)) == x
  {
    Pow256Values();
    FromLeOfLe(x, 8);
  }

  // ---------- sequences ----------

  lemma Cut<T>(b: seq<T>, i: nat, j: nat)
    requires i <= j <= |b|
    ensures b == b[..i] + b[i..j] + b[j..]
  {
  }

  lemma Assoc<T>(a: seq<T>, b: seq<T>, c: seq<T>)
    ensures a + b + c == a + (b + c)
  {
  }
}
