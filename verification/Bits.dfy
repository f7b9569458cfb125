/** Machine words as bounded integers, and the bitwise operators the C sources
    apply to them.  `And` and `Or` are defined bit by bit; the lemmas say what
    the masks used by the sources mean in integer arithmetic. */
module Bits {

  type U8 = x: int | 0 <= x < 0x100
  type U16 = x: int | 0 <= x < 0x1_0000
  type U32 = x: int | 0 <= x < 0x1_0000_0000
  type U64 = x: int | 0 <= x < WRAP64

  const WRAP32: nat := 0x1_0000_0000
  const WRAP64: nat := 0x1_0000_0000_0000_0000
  const MAX64: nat := WRAP64 - 1

  datatype Option<+T> = None | Some(value: T)

  function Pow2(k: nat): (p: nat)
    ensures p >= 1
  {
    if k == 0 then 1 else 2 * Pow2(k - 1)
  }

  function And(a: nat, b: nat): (r: nat)
    ensures r <= a && r <= b
    decreases a
  {
    if a == 0 || b == 0 then 0
    else 2 * And(a / 2, b / 2) + (a % 2) * (b % 2)
  }

  function Or(a: nat, b: nat): (r: nat)
    decreases a
  {
    if a == 0 then b
    else if b == 0 then a
    else 2 * Or(a / 2, b / 2) + (if a % 2 == 1 || b % 2 == 1 then 1 else 0)
  }

  /** `~a` on a 64-bit word. */
  function Not64(a: U64): U64 {
    MAX64 - a
  }

  /** `a + b` and `a - b` on 64-bit words. */
  function Add64(a: U64, b: U64): U64 {
    (a + b) % WRAP64
  }

  function Sub64(a: U64, b: U64): U64 {
    (a - b) % WRAP64
  }

  lemma MulAtLeast(m: int, d: int)
    requires d > 0
    ensures m >= 1 ==> m * d >= d
    ensures m <= -1 ==> m * d <= -d
  {
  }

  lemma DivModUnique(a: int, d: int, q: int, r: int)
    requires d > 0 && a == q * d + r && 0 <= r < d
    ensures a / d == q && a % d == r
  {
    var q', r' := a / d, a % d;
    var m := q - q';
    assert m * d == r' - r by {
      assert a == d * q' + r';
      assert m * d == q * d - d * q';
    }
    MulAtLeast(m, d);
    assert m == 0;
    assert q * d == d * q';
  }

  /** `a & (2^k - 1)` is the remainder modulo 2^k. */
  lemma {:induction false} AndLowMask(a: nat, k: nat)
    ensures And(a, Pow2(k) - 1) == a % Pow2(k)
    decreases k
  {
    hide And;
    if k > 0 {
      var p := Pow2(k - 1);
      var m := 2 * p - 1;
      assert m / 2 == p - 1 && m % 2 == 1;
      assert Pow2(k) == 2 * p;
      hide Pow2;
      AndLowMask(a / 2, k - 1);
      AndUnfold(a, m);
      ModDouble(a, p);
    } else {
      AndZero(a, 0);
      assert a % 1 == 0;
    }
  }

  lemma ModDouble(a: nat, p: nat)
    requires p > 0
    ensures a % (2 * p) == 2 * ((a / 2) % p) + a % 2
  {
    var q, r := (a / 2) / p, (a / 2) % p;
    assert a == q * (2 * p) + (2 * r + a % 2) by {
      assert a / 2 == p * q + r;
      assert q * (2 * p) == 2 * (p * q);
    }
    DivModUnique(a, 2 * p, q, 2 * r + a % 2);
  }

  lemma {:induction false} AndComplement(a: nat, m: nat, w: nat)
    requires a < Pow2(w) && m < Pow2(w)
    ensures And(a, Pow2(w) - 1 - m) == a - And(a, m)
    decreases w
  {
    hide And;
    AndZero(0, 0);
    if w > 0 {
      var p := Pow2(w - 1);
      var c := 2 * p - 1 - m;
      var ah, mh := a / 2, m / 2;
      AndComplement(ah, mh, w - 1);
      ComplementParts(m, p);
      AndUnfold(a, c);
      AndUnfold(a, m);
      if m % 2 == 0 {
        assert (a % 2) * (c % 2) == a % 2;
      } else {
        assert m % 2 == 1;
        assert (a % 2) * (c % 2) == 0;
      }
    }
  }

  lemma AndZero(a: nat, b: nat)
    ensures And(a, 0) == And(0, b) == 0
  {
  }

  lemma ComplementParts(m: nat, p: nat)
    requires m < 2 * p
    ensures (2 * p - 1 - m) / 2 == p - 1 - m / 2 && (2 * p - 1 - m) % 2 == 1 - m % 2
  {
  }

  lemma AndUnfold(a: nat, b: nat)
    ensures And(a, b) == 2 * And(a / 2, b / 2) + (a % 2) * (b % 2)
  {
  }

  /** `a & ~(2^k - 1)` on a w-bit word rounds down to a multiple of 2^k. */
  lemma AndHighMask(a: nat, k: nat, w: nat)
    requires k <= w && a < Pow2(w)
    ensures Pow2(k) <= Pow2(w)
    ensures And(a, Pow2(w) - Pow2(k)) == a - a % Pow2(k)
  {
    Pow2Monotone(k, w);
    AndLowMask(a, k);
    AndComplement(a, Pow2(k) - 1, w);
  }

  lemma {:induction false} Pow2Monotone(i: nat, j: nat)
    requires i <= j
    ensures Pow2(i) <= Pow2(j)
    decreases j
  {
    if i < j {
      Pow2Monotone(i, j - 1);
    }
  }

  lemma {:induction false} Pow2Add(i: nat, j: nat)
    ensures Pow2(i + j) == Pow2(i) * Pow2(j)
    decreases i
  {
    if i > 0 {
      Pow2Add(i - 1, j);
    }
  }

  /** A power of two divides every larger one. */
  lemma Pow2Divides(i: nat, j: nat)
    requires i <= j
    ensures Pow2(j) % Pow2(i) == 0 && Pow2(j) == Pow2(j - i) * Pow2(i)
  {
    Pow2Add(j - i, i);
    DivModUnique(Pow2(j), Pow2(i), Pow2(j - i), 0);
  }

  lemma {:induction false} AndSelf(a: nat)
    ensures And(a, a) == a
  {
    if a > 0 {
      AndSelf(a / 2);
    }
  }

  /** The test `v != 0 && (v & (v - 1)) == 0` accepts exactly the powers of two. */
  predicate PowerOfTwo(v: nat) {
    v != 0 && And(v, v - 1) == 0
  }

  lemma {:induction false} PowerOfTwoExponent(v: nat) returns (k: nat)
    requires PowerOfTwo(v)
    ensures v == Pow2(k)
  {
    AndUnfold(v, v - 1);
    if v % 2 == 1 {
      assert (v - 1) / 2 == v / 2;
      AndSelf(v / 2);
      k := 0;
    } else {
      assert (v - 1) / 2 == v / 2 - 1;
      k := PowerOfTwoExponent(v / 2);
      k := k + 1;
    }
  }

  lemma {:induction false} Pow2IsPowerOfTwo(k: nat)
    ensures PowerOfTwo(Pow2(k))
  {
    if k > 0 {
      Pow2IsPowerOfTwo(k - 1);
      var p := Pow2(k - 1);
      assert (2 * p - 1) / 2 == p - 1;
      AndUnfold(2 * p, 2 * p - 1);
    }
  }

  lemma {:induction false} OrPlusAnd(a: nat, b: nat)
    ensures Or(a, b) + And(a, b) == a + b
    decreases a
  {
    if a != 0 && b != 0 {
      OrUnfold(a, b);
      AndUnfold(a, b);
      hide And, Or;
      OrPlusAnd(a / 2, b / 2);
      if a % 2 == 0 || b % 2 == 0 {
        assert (a % 2) * (b % 2) == 0;
      } else {
        assert (a % 2) * (b % 2) == 1;
      }
    }
  }

  lemma OrUnfold(a: nat, b: nat)
    ensures a != 0 && b != 0 ==>
              Or(a, b) == 2 * Or(a / 2, b / 2) + (if a % 2 == 1 || b % 2 == 1 then 1 else 0)
  {
  }

  /** `(hi << k) | lo` is `hi * 2^k + lo` when `lo` fits in k bits. */
  lemma {:induction false} OrShifted(hi: nat, k: nat, lo: nat)
    requires lo < Pow2(k)
    ensures Or(hi * Pow2(k), lo) == hi * Pow2(k) + lo
    decreases k
  {
    AndShifted(hi, k, lo);
    OrPlusAnd(hi * Pow2(k), lo);
  }

  lemma {:induction false} AndShifted(hi: nat, k: nat, lo: nat)
    requires lo < Pow2(k)
    ensures And(hi * Pow2(k), lo) == 0
    decreases k
  {
    hide And;
    AndZero(hi * Pow2(k), 0);
    if k > 0 {
      var a := hi * Pow2(k - 1);
      AndShifted(hi, k - 1, lo / 2);
      assert hi * Pow2(k) == 2 * a by {
        assert hi * (2 * Pow2(k - 1)) == 2 * (hi * Pow2(k - 1));
      }
      AndUnfold(2 * a, lo);
      assert 2 * a / 2 == a && 2 * a % 2 == 0;
    }
  }

  lemma Pow2Values()
    ensures Pow2(2) == 4 && Pow2(4) == 16 && Pow2(8) == 256 && Pow2(12) == 4096
    ensures Pow2(16) == 0x1_0000 && Pow2(32) == WRAP32 && Pow2(64) == WRAP64
  {
    Pow2Add(16, 16);
    Pow2Add(32, 32);
  }

  /** The two masks the sources clear low bits with: `~3` and `~(page_size - 1)`. */
  lemma AndNot64(a: U64, k: nat)
    requires k <= 64
    ensures Pow2(k) <= WRAP64 && And(a, WRAP64 - Pow2(k)) == a - a % Pow2(k)
  {
    Pow2Values();
    AndHighMask(a, k, 64);
  }

  lemma {:induction false} OrBound(a: nat, b: nat, k: nat)
    requires a < Pow2(k) && b < Pow2(k)
    ensures Or(a, b) < Pow2(k)
    decreases k
  {
    if k > 0 && a != 0 && b != 0 {
      OrUnfold(a, b);
      hide Or;
      OrBound(a / 2, b / 2, k - 1);
    }
  }

  /** Two words share no bit when their halves share none and one low bit is zero. */
  lemma ClearParts(a: nat, c: nat)
    ensures And(a, c) == 0 <==> And(a / 2, c / 2) == 0 && (a % 2 == 0 || c % 2 == 0)
  {
    LowBit(a, c);
  }

  lemma LowBit(a: nat, m: nat)
    ensures And(a, m) / 2 == And(a / 2, m / 2)
    ensures And(a, m) % 2 == if a % 2 == 1 && m % 2 == 1 then 1 else 0
  {
    AndUnfold(a, m);
    hide And;
    if a % 2 == 0 || m % 2 == 0 {
      assert (a % 2) * (m % 2) == 0;
    } else {
      assert (a % 2) * (m % 2) == 1;
    }
  }

  /** A word without bits of c stays so under a mask, and two such words have
      none together. */
  lemma {:induction false} AndKeepsClear(a: nat, m: nat, c: nat)
    requires And(a, c) == 0
    ensures And(And(a, m), c) == 0
    decreases a
  {
    if a == 0 {
      AndZero(a, m);
    } else {
      hide And;
      ClearParts(a, c);
      AndKeepsClear(a / 2, m / 2, c / 2);
      LowBit(a, m);
      ClearParts(And(a, m), c);
    }
  }

  lemma {:induction false} OrStaysClear(a: nat, b: nat, c: nat)
    requires And(a, c) == 0 && And(b, c) == 0
    ensures And(Or(a, b), c) == 0
    decreases a
  {
    if a != 0 && b != 0 {
      OrUnfold(a, b);
      hide And, Or;
      ClearParts(a, c);
      ClearParts(b, c);
      OrStaysClear(a / 2, b / 2, c / 2);
      ClearParts(Or(a, b), c);
    }
  }

  /** A mask of k bits sees only the low k bits. */
  lemma {:induction false} AndLowByte(a: nat, m: nat, k: nat)
    requires m < Pow2(k)
    ensures And(a, m) == And(a % Pow2(k), m)
    decreases k
  {
    hide And;
    AndZero(a, m);
    if k > 0 {
      var p := Pow2(k - 1);
      ModDouble(a, p);
      AndLowByte(a / 2, m / 2, k - 1);
      AndUnfold(a, m);
      AndUnfold(a % (2 * p), m);
      assert a % (2 * p) / 2 == (a / 2) % p && a % (2 * p) % 2 == a % 2;
    } else {
      AndZero(a, 0);
    }
  }

  lemma {:induction false} AndCommutes(a: nat, b: nat)
    ensures And(a, b) == And(b, a)
    decreases a
  {
    if a != 0 && b != 0 {
      AndCommutes(a / 2, b / 2);
      AndUnfold(a, b);
      AndUnfold(b, a);
      hide And;
      assert (a % 2) * (b % 2) == (b % 2) * (a % 2);
    }
  }

  /** Testing one bit. */
  lemma {:induction false} BitOf(a: nat, k: nat)
    ensures And(a, Pow2(k)) != 0 <==> a / Pow2(k) % 2 == 1
    decreases k
  {
    if k == 0 {
      LowBit(a, 1);
      AndZero(a / 2, 0);
      hide And;
    } else {
      hide And;
      BitOf(a / 2, k - 1);
      AndUnfold(a, Pow2(k));
      HalfOf(a, Pow2(k - 1));
    }
  }

  lemma HalfOf(a: nat, p: nat)
    requires p > 0
    ensures a / (2 * p) == a / 2 / p
  {
    var h, r := a / 2, a / 2 % p;
    var q := h / p;
    assert h == q * p + r && a == 2 * h + a % 2;
    assert a == q * (2 * p) + (2 * r + a % 2);
    DivModUnique(a, 2 * p, q, 2 * r + a % 2);
  }

  // ---------------------------------------------------------------- bytes of a number

  /** The n low bytes of a number, least significant first. */
  function LittleEndian(v: nat, n: nat): (b: seq<U8>)
    ensures |b| == n
  {
    if n == 0 then [] else [v % 0x100] + LittleEndian(v / 0x100, n - 1)
  }

  function FromLittleEndian(b: seq<U8>): nat {
    if b == [] then 0 else b[0] + 0x100 * FromLittleEndian(b[1..])
  }

  lemma {:induction false} WordReadsBack(v: nat, n: nat)
    requires v < Pow2(8 * n)
    ensures FromLittleEndian(LittleEndian(v, n)) == v
  {
    if n == 0 {
      assert v == 0;
    } else {
      hide Pow2;
      Pow2Add(8, 8 * (n - 1));
      Pow2Values();
      WordReadsBack(v / 0x100, n - 1);
      assert LittleEndian(v, n)[1..] == LittleEndian(v / 0x100, n - 1);
    }
  }

  /** On a word of eight bytes, byte by byte. */
  lemma LittleEndianExample()
    ensures LittleEndian(0x0807_0605_0403_0201, 8) == [1, 2, 3, 4, 5, 6, 7, 8]
  {
  }
}
