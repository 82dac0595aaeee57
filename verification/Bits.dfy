/** Fixed-width words, and the bit sequences they stand for.

    A bit sequence is least significant bit first. The shift and mask operators of
    the C code are defined on natural numbers by repeated doubling and halving, so
    that every fact about them is an induction on the shift distance. */
module Bits {

  type Byte = b: int | 0 <= b < 0x100
  type UInt32 = w: int | 0 <= w < 0x1_0000_0000
  type UInt64 = w: int | 0 <= w < 0x1_0000_0000_0000_0000

  // ----- words and their operators

  function Pow2(n: nat): (p: nat)
    ensures p > 0
  {
    if n == 0 then 1 else 2 * Pow2(n - 1)
  }

  /** `v << n` on an unbounded word; the caller truncates with Low. */
  function Shl(v: nat, n: nat): nat {
    if n == 0 then v else 2 * Shl(v, n - 1)
  }

  /** `v >> n` */
  function Shr(v: nat, n: nat): nat {
    if n == 0 then v else Shr(v / 2, n - 1)
  }

  /** The low n bits of v, as an unsigned n-bit conversion keeps them. */
  function Low(v: nat, n: nat): nat {
    if n == 0 then 0 else v % 2 + 2 * Low(v / 2, n - 1)
  }

  /** The conversion to `uint32`. */
  function ToUInt32(v: nat): UInt32 {
    LowBits(v, 32, 32);
    Pow2Values();
    Low(v, 32)
  }

  /** `x | y` */
  function Or(x: nat, y: nat): nat
    decreases x + y
  {
    if x == 0 && y == 0 then 0
    else (if x % 2 == 1 || y % 2 == 1 then 1 else 0) + 2 * Or(x / 2, y / 2)
  }

  /** `x & y` */
  function And(x: nat, y: nat): nat {
    if x == 0 || y == 0 then 0
    else (if x % 2 == 1 && y % 2 == 1 then 1 else 0) + 2 * And(x / 2, y / 2)
  }

  /** The little-endian word held in four bytes. */
  function Word(b0: Byte, b1: Byte, b2: Byte, b3: Byte): UInt32 {
    b0 + 0x100 * (b1 + 0x100 * (b2 + 0x100 * b3))
  }

  /** The four bytes of a little-endian word. */
  function WordBytes(w: UInt32): (s: seq<Byte>)
    ensures |s| == 4
  {
    [w % 0x100, w / 0x100 % 0x100, w / 0x100 / 0x100 % 0x100, w / 0x100 / 0x100 / 0x100]
  }

  // ----- bit sequences

  /** The n low bits of v. */
  function ToBits(v: nat, n: nat): (s: seq<bool>)
    ensures |s| == n
  {
    if n == 0 then [] else [v % 2 == 1] + ToBits(v / 2, n - 1)
  }

  function FromBits(s: seq<bool>): (v: nat)
    ensures v < Pow2(|s|)
  {
    if s == [] then 0 else (if s[0] then 1 else 0) + 2 * FromBits(s[1..])
  }

  /** The bits of a byte string, in transmission order. */
  function BytesToBits(bytes: seq<Byte>): (s: seq<bool>)
    ensures |s| == 8 * |bytes|
  {
    if bytes == [] then [] else ToBits(bytes[0], 8) + BytesToBits(bytes[1..])
  }

  // ----- conversions are inverse to each other

  lemma {:induction false} FromToBits(v: nat, n: nat)
    requires v < Pow2(n)
    ensures FromBits(ToBits(v, n)) == v
  {
    if n > 0 {
      FromToBits(v / 2, n - 1);
      assert ToBits(v, n)[1..] == ToBits(v / 2, n - 1);
    }
  }

  lemma {:induction false} ToFromBits(s: seq<bool>)
    ensures ToBits(FromBits(s), |s|) == s
  {
    if s != [] {
      ToFromBits(s[1..]);
      assert FromBits(s) / 2 == FromBits(s[1..]);
    }
  }

  lemma {:induction false} BytesToBitsInjective(a: seq<Byte>, b: seq<Byte>)
    requires BytesToBits(a) == BytesToBits(b)
    ensures a == b
  {
    assert |a| == |b|;
    if a != [] {
      var x, y := BytesToBits(a), BytesToBits(b);
      assert x[..8] == ToBits(a[0], 8) && y[..8] == ToBits(b[0], 8);
      assert x[8..] == BytesToBits(a[1..]) && y[8..] == BytesToBits(b[1..]);
      Pow2Byte(0);
      FromToBits(a[0], 8);
      FromToBits(b[0], 8);
      BytesToBitsInjective(a[1..], b[1..]);
    }
  }

  // ----- cutting and joining

  /** Cutting a word at bit a. */
  lemma {:induction false} SplitBits(v: nat, a: nat, b: nat)
    ensures ToBits(v, a + b) == ToBits(v, a) + ToBits(Shr(v, a), b)
  {
    if a > 0 {
      SplitBits(v / 2, a - 1, b);
    }
  }

  /** The binary digit of weight 2 to the i. */
  predicate Digit(v: nat, i: nat) {
    v / Pow2(i) % 2 == 1
  }

  lemma {:induction false} BitIsDigit(v: nat, n: nat, i: nat)
    requires i < n
    ensures ToBits(v, n)[i] <==> Digit(v, i)
  {
    if i > 0 {
      BitIsDigit(v / 2, n - 1, i - 1);
      HalfThenDivide(v, Pow2(i - 1));
    }
  }

  lemma HalfThenDivide(v: nat, p: nat)
    requires p > 0
    ensures v / 2 / p == v / (2 * p)
  {
    var h, d := v / 2, v % 2;
    var q, r := h / p, h % p;
    Distribute(2, p * q, r);
    assert v == 2 * h + d && h == p * q + r;
    Regroup(p, q);
    QuotientIs(v, 2 * p, q, 2 * r + d);
  }

  lemma Distribute(a: int, b: int, c: int)
    ensures a * (b + c) == a * b + a * c
  {
  }

  lemma Regroup(p: nat, q: nat)
    ensures 2 * (p * q) == 2 * p * q
  {
  }

  lemma QuotientIs(v: nat, p: nat, q: nat, r: nat)
    requires p > 0 && v == p * q + r && r < p
    ensures v / p == q
  {
    var q', r' := v / p, v % p;
    assert p * q + r == p * q' + r';
    Distribute(p, q, q' - q);
    Distribute(p, q', q - q');
    if q < q' {
      LeastProduct(p, q' - q);
    } else if q' < q {
      LeastProduct(p, q - q');
    }
  }

  lemma LeastProduct(p: nat, d: nat)
    requires d >= 1
    ensures p * d >= p
  {
  }

  /** Bit 8 * j + i of a byte string is digit i of byte j. */
  lemma BitOfBytes(bytes: seq<Byte>, j: nat, i: nat)
    requires j < |bytes| && i < 8
    ensures BytesToBits(bytes)[8 * j + i] <==> Digit(bytes[j], i)
  {
    hide ToBits, BytesToBits;
    ByteInBytes(bytes, j, i);
    BitIsDigit(bytes[j], 8, i);
  }

  lemma {:induction false} ByteInBytes(bytes: seq<Byte>, j: nat, i: nat)
    requires j < |bytes| && i < 8
    ensures BytesToBits(bytes)[8 * j + i] == ToBits(bytes[j], 8)[i]
  {
    hide ToBits;
    if j > 0 {
      ByteInBytes(bytes[1..], j - 1, i);
    }
  }

  lemma SmallPowers(i: nat)
    requires i < 8
    ensures Pow2(i) == [1, 2, 4, 8, 16, 32, 64, 128][i]
  {
    assert Pow2(1) == 2 && Pow2(2) == 4 && Pow2(3) == 8 && Pow2(4) == 16 && Pow2(5) == 32 && Pow2(6) == 64;
  }

  lemma {:induction false} BytesToBitsConcat(a: seq<Byte>, b: seq<Byte>)
    ensures BytesToBits(a + b) == BytesToBits(a) + BytesToBits(b)
    decreases |a|
  {
    if a == [] {
      assert a + b == b && BytesToBits(a) == [];
    } else {
      hide *;
      var x, rest := a[0], a[1..];
      assert a == [x] + rest && a + b == [x] + (rest + b);
      calc {
        BytesToBits([x] + (rest + b));
        { BytesToBitsCons(x, rest + b); }
        ToBits(x, 8) + BytesToBits(rest + b);
        { BytesToBitsConcat(rest, b); }
        ToBits(x, 8) + (BytesToBits(rest) + BytesToBits(b));
        { Associate(ToBits(x, 8), BytesToBits(rest), BytesToBits(b)); }
        (ToBits(x, 8) + BytesToBits(rest)) + BytesToBits(b);
        { BytesToBitsCons(x, rest); }
        BytesToBits([x] + rest) + BytesToBits(b);
      }
    }
  }

  lemma Associate(a: seq<bool>, b: seq<bool>, c: seq<bool>)
    ensures a + (b + c) == a + b + c
  {
  }

  lemma {:induction false} LowBits(v: nat, n: nat, k: nat)
    requires k <= n
    ensures ToBits(Low(v, n), k) == ToBits(v, k)
    ensures Low(v, n) < Pow2(n)
  {
    if n > 0 {
      if k == 0 {
        LowBits(v / 2, n - 1, 0);
      } else {
        LowBits(v / 2, n - 1, k - 1);
        assert Low(v, n) / 2 == Low(v / 2, n - 1);
      }
    }
  }

  lemma ToUInt32Bits(v: nat)
    ensures ToUInt32(v) == Low(v, 32)
    ensures ToBits(ToUInt32(v), 32) == ToBits(v, 32)
  {
    hide Low, ToBits;
    LowBits(v, 32, 32);
  }

  /** Truncating a word that fits changes nothing. */
  lemma {:induction false} LowFits(v: nat, n: nat)
    requires v < Pow2(n)
    ensures Low(v, n) == v
  {
    if n > 0 {
      LowFits(v / 2, n - 1);
    }
  }

  lemma ToUInt32Fits(v: nat)
    requires v < 0x1_0000_0000
    ensures ToUInt32(v) == v
  {
    hide Low;
    Pow2Values();
    LowFits(v, 32);
  }

  lemma {:induction false} ShlBound(v: nat, n: nat, m: nat)
    requires v < Pow2(n)
    ensures Shl(v, m) < Pow2(n + m)
  {
    if m > 0 {
      ShlBound(v, n, m - 1);
    }
  }

  lemma {:induction false} ShrBound(v: nat, n: nat, m: nat)
    requires v < Pow2(n + m)
    ensures Shr(v, m) < Pow2(n)
  {
    if m > 0 {
      ShrBound(v / 2, n, m - 1);
    }
  }

  lemma {:induction false} Pow2Mono(a: nat, b: nat)
    requires a <= b
    ensures Pow2(a) <= Pow2(b)
  {
    if a < b {
      Pow2Mono(a, b - 1);
    }
  }

  lemma Pow2Less(a: nat, b: nat)
    requires a < b
    ensures Pow2(a) < Pow2(b)
  {
    Pow2Mono(a + 1, b);
  }

  /** `p | (d << n)` puts the bits of d after the n bits of p. */
  lemma {:induction false} OrShl(p: nat, n: nat, d: nat, w: nat)
    requires p < Pow2(n)
    ensures ToBits(Or(p, Shl(d, n)), n + w) == ToBits(p, n) + ToBits(d, w)
    ensures d < Pow2(w) ==> Or(p, Shl(d, n)) < Pow2(n + w)
  {
    if n == 0 {
      OrZero(d);
    } else {
      OrShl(p / 2, n - 1, d, w);
      OrShlHalf(p, n, d);
      hide Or, Shl;
    }
  }

  lemma OrShlHalf(p: nat, n: nat, d: nat)
    requires n > 0
    ensures var q := Or(p, Shl(d, n)); q % 2 == p % 2 && q / 2 == Or(p / 2, Shl(d, n - 1))
  {
    assert Shl(d, n) == 2 * Shl(d, n - 1);
    if p == 0 && Shl(d, n) == 0 {
      assert Or(p / 2, Shl(d, n - 1)) == 0;
    }
  }

  lemma {:induction false} OrZero(d: nat)
    ensures Or(0, d) == d && Or(d, 0) == d
  {
    if d > 0 {
      OrZero(d / 2);
    }
  }

  lemma {:induction false} OrCommutes(x: nat, y: nat)
    ensures Or(x, y) == Or(y, x)
    decreases x + y
  {
    if x > 0 || y > 0 {
      OrCommutes(x / 2, y / 2);
    }
  }

  /** Masking with a run of n ones keeps the low n bits. */
  lemma {:induction false} AndMask(v: nat, n: nat)
    ensures And(v, Pow2(n) - 1) == Low(v, n)
  {
    if n == 0 {
    } else if v == 0 {
      LowFits(0, n);
    } else {
      assert (Pow2(n) - 1) / 2 == Pow2(n - 1) - 1 && (Pow2(n) - 1) % 2 == 1;
      AndMask(v / 2, n - 1);
    }
  }

  // ----- words and bytes

  /** `p + (d << n)` is `p | (d << n)` when p has n bits. */
  lemma {:induction false} AddShl(p: nat, n: nat, d: nat, w: nat)
    requires p < Pow2(n)
    ensures ToBits(p + Shl(d, n), n + w) == ToBits(p, n) + ToBits(d, w)
  {
    if n > 0 {
      AddShl(p / 2, n - 1, d, w);
      assert (p + Shl(d, n)) / 2 == p / 2 + Shl(d, n - 1);
    }
  }

  lemma ShlByte(r: nat)
    ensures Shl(r, 8) == 0x100 * r
  {
    assert Shl(r, 4) == 2 * Shl(r, 3) == 4 * Shl(r, 2) == 8 * Shl(r, 1) == 16 * Shl(r, 0);
    assert Shl(r, 8) == 2 * Shl(r, 7) == 4 * Shl(r, 6) == 8 * Shl(r, 5) == 16 * Shl(r, 4);
  }

  lemma {:induction false} ShlOne(n: nat)
    ensures Shl(1, n) == Pow2(n)
  {
    if n > 0 {
      ShlOne(n - 1);
    }
  }

  lemma Pow2Byte(n: nat)
    ensures Pow2(n + 8) == 0x100 * Pow2(n)
  {
    assert Pow2(n + 4) == 2 * Pow2(n + 3) == 4 * Pow2(n + 2) == 8 * Pow2(n + 1) == 16 * Pow2(n);
    assert Pow2(n + 8) == 2 * Pow2(n + 7) == 4 * Pow2(n + 6) == 8 * Pow2(n + 5) == 16 * Pow2(n + 4);
  }

  lemma Pow2At12()
    ensures Pow2(12) == 0x1000
  {
    Pow2Byte(4);
    assert Pow2(4) == 16;
  }

  lemma Pow2Values()
    ensures Pow2(8) == 0x100 && Pow2(32) == 0x1_0000_0000 && Pow2(64) == 0x1_0000_0000_0000_0000
  {
    Pow2Byte(0);
    Pow2Byte(8);
    Pow2Byte(16);
    Pow2Byte(24);
    Pow2Byte(32);
    Pow2Byte(40);
    Pow2Byte(48);
    Pow2Byte(56);
  }

  lemma ByteThenBits(b: Byte, r: nat, m: nat)
    ensures ToBits(b + 0x100 * r, 8 + m) == ToBits(b, 8) + ToBits(r, m)
  {
    Pow2Byte(0);
    ShlByte(r);
    AddShl(b, 8, r, m);
  }

  lemma {:induction false} BytesToBitsCons(b: Byte, rest: seq<Byte>)
    ensures BytesToBits([b] + rest) == ToBits(b, 8) + BytesToBits(rest)
  {
    assert ([b] + rest)[1..] == rest;
  }

  lemma WordToBits(b0: Byte, b1: Byte, b2: Byte, b3: Byte)
    ensures ToBits(Word(b0, b1, b2, b3), 32) == BytesToBits([b0, b1, b2, b3])
  {
    hide ToBits, BytesToBits;
    ByteThenBits(b0, b1 + 0x100 * (b2 + 0x100 * b3), 24);
    ByteThenBits(b1, b2 + 0x100 * b3, 16);
    ByteThenBits(b2, b3, 8);
    BytesToBitsCons(b0, [b1, b2, b3]);
    BytesToBitsCons(b1, [b2, b3]);
    BytesToBitsCons(b2, [b3]);
    OneByteToBits(b3);
    assert [b0, b1, b2, b3] == [b0] + [b1, b2, b3] && [b1, b2, b3] == [b1] + [b2, b3] && [b2, b3] == [b2] + [b3];
  }

  lemma OneByteToBits(b: Byte)
    ensures BytesToBits([b]) == ToBits(b, 8)
  {
    BytesToBitsCons(b, []);
  }

  lemma WordBytesToBits(w: UInt32)
    ensures BytesToBits(WordBytes(w)) == ToBits(w, 32)
  {
    hide ToBits, BytesToBits;
    var s := WordBytes(w);
    assert Word(s[0], s[1], s[2], s[3]) == w;
    WordToBits(s[0], s[1], s[2], s[3]);
  }
}
