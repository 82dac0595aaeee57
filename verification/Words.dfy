/** 32-bit words: their exclusive or, under a name so that proofs which only need its laws
    can hide it, and their bytes in memory order. */
module Words {

  function Xor(x: bv32, y: bv32): bv32 {
    x ^ y
  }

  lemma XorLaws(x: bv32, y: bv32, z: bv32)
    ensures Xor(Xor(x, y), z) == Xor(x, Xor(y, z))
    ensures Xor(x, y) == Xor(y, x)
    ensures Xor(Xor(x, y), y) == x && Xor(x, 0) == x
  {
  }

  lemma XorCancels(c: bv32, x: bv32, y: bv32)
    requires Xor(c, x) == Xor(c, y)
    ensures x == y
  {
  }

  lemma XorRegroup(a: bv32, b: bv32, c: bv32, d: bv32)
    ensures Xor(Xor(a, Xor(b, c)), d) == Xor(Xor(Xor(a, b), d), c)
    ensures Xor(Xor(a, Xor(b, c)), d) == Xor(Xor(Xor(a, c), d), b)
  {
    hide Xor;
    XorSwapLast(a, b, c, d);
    XorSwapLast(a, c, b, d);
    XorLaws(b, c, 0);
  }

  lemma XorSwapLast(a: bv32, b: bv32, c: bv32, d: bv32)
    ensures Xor(Xor(a, Xor(b, c)), d) == Xor(Xor(Xor(a, b), d), c)
  {
    hide Xor;
    XorLaws(a, b, c);
    XorLaws(Xor(a, b), c, d);
    XorLaws(Xor(a, b), d, c);
    XorLaws(c, d, 0);
  }

  lemma XorThird(a: bv32, b: bv32, p: bv32)
    ensures Xor(Xor(a, p), b) == Xor(a, Xor(b, p)) == Xor(Xor(a, b), p)
    ensures Xor(Xor(a, p), Xor(b, p)) == Xor(a, b)
  {
    hide Xor;
    XorLaws(a, p, b);
    XorLaws(p, b, 0);
    XorLaws(a, b, p);
    XorLaws(Xor(a, p), b, p);
    XorLaws(Xor(a, b), p, 0);
  }

  /** The little-endian word held in four bytes. */
  function Word(b0: bv8, b1: bv8, b2: bv8, b3: bv8): bv32 {
    (b0 as bv32) | ((b1 as bv32) << 8) | ((b2 as bv32) << 16) | ((b3 as bv32) << 24)
  }

  /** Byte k of a word, in memory order. */
  function ByteOf(w: bv32, k: nat): bv8
    requires k < 4
  {
    (match k
     case 0 => w & 0xFF
     case 1 => (w >> 8) & 0xFF
     case 2 => (w >> 16) & 0xFF
     case _ => (w >> 24) & 0xFF) as bv8
  }

  /** Byte k has the binary digits from weight 2 to the 8 * k on. */
  lemma ByteOfIs(w: bv32, k: nat)
    requires k < 4
    ensures ByteOf(w, k) == ((w >> (8 * k)) & 0xFF) as bv8
  {
    match k
    case 0 =>
    case 1 =>
    case 2 =>
    case _ =>
  }

  lemma BytesOfWord(b0: bv8, b1: bv8, b2: bv8, b3: bv8)
    ensures var w := Word(b0, b1, b2, b3);
            ByteOf(w, 0) == b0 && ByteOf(w, 1) == b1 && ByteOf(w, 2) == b2 && ByteOf(w, 3) == b3
  {
  }

  lemma WordOfBytes(w: bv32)
    ensures Word(ByteOf(w, 0), ByteOf(w, 1), ByteOf(w, 2), ByteOf(w, 3)) == w
  {
  }

  lemma WordInjective(a0: bv8, a1: bv8, a2: bv8, a3: bv8, b0: bv8, b1: bv8, b2: bv8, b3: bv8)
    requires Word(a0, a1, a2, a3) == Word(b0, b1, b2, b3)
    ensures a0 == b0 && a1 == b1 && a2 == b2 && a3 == b3
  {
  }
}
