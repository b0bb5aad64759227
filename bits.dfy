/**
 * Fixed-width unsigned integers and the bit-level operations the codec uses,
 * stated on mathematical integers: `Or` is C's `|`, `Field(x, k, w)` is the
 * k-th w-bit field of x (bits k*w .. k*w+w-1), and a 64-bit word is stored as
 * its eight little-endian bytes (the model fixes a little-endian host).
 */
module Bits {

  type u8 = x: int | 0 <= x < 0x100
  type u16 = x: int | 0 <= x < 0x1_0000
  type u64 = x: int | 0 <= x < 0x1_0000_0000_0000_0000

  function Pow2(n: nat): (r: nat)
    ensures r >= 1
  {
    if n == 0 then 1 else 2 * Pow2(n - 1)
  }

  lemma {:induction false} Pow2Add(a: nat, b: nat)
    ensures Pow2(a + b) == Pow2(a) * Pow2(b)
  {
    if a > 0 {
      Pow2Add(a - 1, b);
    }
  }

  lemma Pow2Values()
    ensures Pow2(1) == 2 && Pow2(2) == 4 && Pow2(3) == 8 && Pow2(4) == 16
    ensures Pow2(5) == 32 && Pow2(6) == 64 && Pow2(7) == 128 && Pow2(8) == 256
    ensures Pow2(16) == 0x1_0000 && Pow2(64) == 0x1_0000_0000_0000_0000
  {
    Pow2Wide();
  }

  lemma Pow2Wide()
    ensures Pow2(16) == 0x1_0000 && Pow2(64) == 0x1_0000_0000_0000_0000
  {
    Pow2Of16();
    Pow2Of32();
    Pow2Add(32, 32);
  }

  lemma Pow2Of8()
    ensures Pow2(8) == 0x100
  {
  }

  lemma Pow2Of64()
    ensures Pow2(64) == 0x1_0000_0000_0000_0000
  {
    Pow2Of32();
    Pow2Add(32, 32);
  }

  lemma Pow2Of16()
    ensures Pow2(16) == 0x1_0000
  {
    Pow2Add(8, 8);
  }

  lemma Pow2Of32()
    ensures Pow2(32) == 0x1_0000_0000
  {
    Pow2Of16();
    Pow2Add(16, 16);
  }

  lemma Pow2Mono(a: nat, b: nat)
    requires a <= b
    ensures Pow2(a) <= Pow2(b)
  {
    Pow2Add(a, b - a);
  }

  lemma MulMono(a: nat, b: nat, c: nat)
    requires a <= b
    ensures a * c <= b * c
  {
  }

  /** Euclidean division is determined by quotient and remainder. */
  lemma DivModUnique(x: int, m: int, q: int, r: int)
    requires m > 0 && x == q * m + r && 0 <= r < m
    ensures x / m == q && x % m == r
  {
    var q', r' := x / m, x % m;
    assert x == q' * m + r' && 0 <= r' < m;
    assert (q' - q) * m == r - r';
    if q' > q {
      MulMono(1, q' - q, m);
      assert false;
    } else if q' < q {
      MulMono(1, q - q', m);
      assert false;
    }
  }

  lemma DivAddMul(a: nat, b: nat, m: nat)
    requires m > 0
    ensures (a + b * m) / m == a / m + b
    ensures (a + b * m) % m == a % m
  {
    DivModUnique(a + b * m, m, a / m + b, a % m);
  }

  /** Bitwise or of two naturals, the `|` operator of the source. */
  function Or(a: nat, b: nat): nat
    decreases a + b
  {
    if a == 0 then b
    else if b == 0 then a
    else 2 * Or(a / 2, b / 2) + (if a % 2 == 1 || b % 2 == 1 then 1 else 0)
  }

  /** `a | b` stays below 2^n when both operands do. */
  lemma {:induction false} OrBound(a: nat, b: nat, n: nat)
    requires a < Pow2(n) && b < Pow2(n)
    ensures Or(a, b) < Pow2(n)
    decreases a + b
  {
    if a != 0 && b != 0 {
      OrBound(a / 2, b / 2, n - 1);
    }
  }

  /** Or-ing a value into bits that are still zero is addition. */
  lemma {:induction false} OrDisjoint(a: nat, v: nat, n: nat)
    requires a < Pow2(n)
    ensures Or(a, v * Pow2(n)) == a + v * Pow2(n)
  {
    if n != 0 && a != 0 && v != 0 {
      assert v * Pow2(n) == 2 * (v * Pow2(n - 1));
      OrDisjoint(a / 2, v, n - 1);
    }
  }

  /** Bit position of field k when fields are w bits wide, i.e. k * w. */
  function Offset(k: nat, w: nat): nat
  {
    if k == 0 then 0 else Offset(k - 1, w) + w
  }

  lemma {:induction false} OffsetMul(k: nat, w: nat)
    ensures Offset(k, w) == k * w
  {
    if k > 0 {
      OffsetMul(k - 1, w);
    }
  }

  /** Field k ends at or before the start of any later field j. */
  lemma {:induction false} OffsetBefore(k: nat, j: nat, w: nat)
    requires k < j
    ensures Offset(k, w) + w <= Offset(j, w)
  {
    if k + 1 < j {
      OffsetBefore(k, j - 1, w);
    }
  }

  /** The w-bit field number k of x, i.e. `(x >> (k * w)) & ((1 << w) - 1)`. */
  function Field(x: nat, k: nat, w: nat): (r: nat)
    ensures r < Pow2(w)
  {
    (x / Pow2(Offset(k, w))) % Pow2(w)
  }

  /** Bit i of x is set, i.e. `x & (1 << i)` is non-zero. */
  predicate Bit(x: nat, i: nat)
  {
    (x / Pow2(i)) % 2 == 1
  }

  /** `(std::uint64_t)x << n`: the shift drops every bit at position 64 or above. */
  function Shl64(x: nat, n: nat): (r: u64)
  {
    (x * Pow2(n)) % 0x1_0000_0000_0000_0000
  }

  /** A value of w bits shifted to bit n of a word loses nothing when n + w <= 64. */
  lemma Shl64Exact(x: nat, n: nat, w: nat)
    requires x < Pow2(w) && n + w <= 64
    ensures Shl64(x, n) == x * Pow2(n)
  {
    WordBound(w, n);
    NoWrap(x, Pow2(w), Pow2(n), 0x1_0000_0000_0000_0000);
  }

  /** x < a and a * b <= c: the product x * b is unchanged modulo c. */
  lemma NoWrap(x: nat, a: nat, b: nat, c: nat)
    requires x < a && a * b <= c && b > 0
    ensures (x * b) % c == x * b
  {
    MulMono(x + 1, a, b);
    DivModUnique(x * b, c, 0, x * b);
  }

  /** Fields that end by bit 64 fit in a word. */
  lemma WordBound(w: nat, n: nat)
    requires n + w <= 64
    ensures Pow2(w) * Pow2(n) <= 0x1_0000_0000_0000_0000
  {
    Pow2Add(w, n);
    Pow2Mono(w + n, 64);
    Pow2Values();
  }

  /** The value whose w-bit fields are the elements of s, lowest field first. */
  function Sum(s: seq<nat>, w: nat): nat
  {
    if s == [] then 0 else Sum(s[..|s| - 1], w) + s[|s| - 1] * Pow2(Offset(|s| - 1, w))
  }

  predicate FitsIn(s: seq<nat>, w: nat)
  {
    forall k :: 0 <= k < |s| ==> s[k] < Pow2(w)
  }

  lemma {:induction false} SumBound(s: seq<nat>, w: nat)
    requires FitsIn(s, w)
    ensures Sum(s, w) < Pow2(Offset(|s|, w))
  {
    if s != [] {
      var n := |s| - 1;
      var t, v, m := s[..n], s[n], Offset(n, w);
      assert FitsIn(t, w);
      SumBound(t, w);
      Pow2Add(m, w);
      StackBelow(Sum(t, w), v, Pow2(m), Pow2(w));
    }
  }

  /** A value below p with a digit below q stacked on top stays below p * q. */
  lemma StackBelow(a: nat, v: nat, p: nat, q: nat)
    requires a < p && v < q
    ensures a + v * p < p * q
  {
    MulMono(v + 1, q, p);
  }

  /** Adding something above bit m leaves every field that ends by bit m as it was. */
  lemma FieldLow(a: nat, q: nat, m: nat, k: nat, w: nat)
    requires Offset(k, w) + w <= m
    ensures Field(a + q * Pow2(m), k, w) == Field(a, k, w)
  {
    var lo := Offset(k, w);
    Pow2Split(lo, w, m);
    DigitUnderHigher(a, q, Pow2(lo), Pow2(w), Pow2(m - lo - w), Pow2(m));
  }

  lemma Pow2Split(lo: nat, w: nat, m: nat)
    requires lo + w <= m
    ensures Pow2(m) == Pow2(lo) * (Pow2(w) * Pow2(m - lo - w))
  {
    Pow2Add(lo, m - lo);
    Pow2Add(w, m - lo - w);
  }

  /** Digit a / pl in base pw is unchanged by adding a multiple of pl * pw. */
  lemma DigitUnderHigher(a: nat, q: nat, pl: nat, pw: nat, pd: nat, pm: nat)
    requires pl > 0 && pw > 0 && pm == pl * (pw * pd)
    ensures ((a + q * pm) / pl) % pw == (a / pl) % pw
  {
    var c := q * pd;
    assert q * pm == (c * pw) * pl;
    DivAddMul(a, c * pw, pl);
    DivAddMul(a / pl, c, pw);
  }

  /** A w-bit value added at field k above a smaller value is field k. */
  lemma FieldTop(a: nat, v: nat, k: nat, w: nat)
    requires a < Pow2(Offset(k, w)) && v < Pow2(w)
    ensures Field(a + v * Pow2(Offset(k, w)), k, w) == v
  {
    TopDigit(a, v, Pow2(Offset(k, w)), Pow2(w));
  }

  /** Digit v placed on top of a value below p is read back. */
  lemma TopDigit(a: nat, v: nat, p: nat, q: nat)
    requires a < p && v < q
    ensures ((a + v * p) / p) % q == v
  {
    DivAddMul(a, v, p);
    DivModUnique(a, p, 0, a);
    DivModUnique(v, q, 0, v);
  }

  /** Field k of Sum(s, w) is s[k]: the fields of a packed value give back its elements. */
  lemma {:induction false} FieldOfSum(s: seq<nat>, w: nat, k: nat)
    requires FitsIn(s, w) && k < |s|
    ensures Field(Sum(s, w), k, w) == s[k]
  {
    var n := |s| - 1;
    var t, v, m := s[..n], s[n], Offset(n, w);
    assert FitsIn(t, w);
    var a := Sum(t, w);
    assert Sum(s, w) == a + v * Pow2(m);
    if k == n {
      SumBound(t, w);
      FieldTop(a, v, k, w);
    } else {
      OffsetBefore(k, n, w);
      FieldLow(a, v, m, k, w);
      FieldOfSum(t, w, k);
    }
  }

  /** The first n w-bit fields of x, lowest first. */
  function Fields(x: nat, n: nat, w: nat): (r: seq<nat>)
    ensures |r| == n && FitsIn(r, w)
  {
    seq(n, k requires 0 <= k < n => Field(x, k, w))
  }

  /** Reassembling the fields of a value that fits in n fields gives the value back. */
  lemma {:induction false} SumOfFields(x: nat, n: nat, w: nat)
    requires x < Pow2(Offset(n, w))
    ensures Sum(Fields(x, n, w), w) == x
  {
    if n == 0 {
      assert x == 0;
    } else {
      var k: nat := n - 1;
      var m := Offset(k, w);
      var pm := Pow2(m);
      Pow2Add(m, w);
      SplitBelow(x, pm, Pow2(w));
      var y: nat, q: nat := x % pm, x / pm;
      var fs := Fields(x, n, w);
      assert fs[..k] == Fields(y, k, w) by {
        forall j | 0 <= j < k
          ensures fs[j] == Field(y, j, w)
        {
          OffsetBefore(j, k, w);
          FieldOfLow(x, m, j, w);
        }
      }
      ModSmall(q, Pow2(w));
      assert fs[k] == q;
      SumOfFields(y, k, w);
    }
  }

  /** Field k of x only depends on the bits of x below m when the field ends by bit m. */
  lemma FieldOfLow(x: nat, m: nat, k: nat, w: nat)
    requires Offset(k, w) + w <= m
    ensures Field(x % Pow2(m), k, w) == Field(x, k, w)
  {
    var pm := Pow2(m);
    DivModParts(x, pm);
    FieldLow(x % pm, x / pm, m, k, w);
  }

  lemma DivModParts(x: nat, p: nat)
    requires p > 0
    ensures x == x % p + (x / p) * p && 0 <= x / p && x % p < p
  {
  }

  lemma ModSmall(y: nat, m: nat)
    requires y < m
    ensures y % m == y
  {
    DivModUnique(y, m, 0, y);
  }

  /** x below p * q splits into x % p and a digit x / p below q. */
  lemma SplitBelow(x: nat, p: nat, q: nat)
    requires p > 0 && x < p * q
    ensures x == x % p + (x / p) * p && 0 <= x / p < q && x % p < p
  {
    if x / p >= q {
      MulMono(q, x / p, p);
      assert false;
    }
  }

  /** The eight bytes of a 64-bit word in memory, least significant first. */
  function LeBytes(x: u64): (r: seq<u8>)
    ensures |r| == 8
  {
    Pow2Of8();
    Fields(x, 8, 8)
  }

  /** The 64-bit word stored in eight little-endian bytes. */
  function LoadLe64(b: seq<u8>): nat
  {
    Sum(b, 8)
  }

  lemma LeBytesRoundTrip(x: u64)
    ensures LoadLe64(LeBytes(x)) == x
  {
    Pow2Values();
    OffsetMul(8, 8);
    SumOfFields(x, 8, 8);
  }

  /** `*(std::uint16_t const*)p` on a little-endian host. */
  function LoadLe16(lo: u8, hi: u8): u16
  {
    lo + 256 * hi
  }
}
