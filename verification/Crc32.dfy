/** CRC-32 by table, the bit-serial division it stands for, and what it detects. */
module Crc32 {
  import opened Words

  /** The step of the reflected division for one message bit already added to the state. */
  function Step(c: bv32): bv32 {
    if c & 1 == 1 then (c >> 1) ^ 0xEDB8_8320 else c >> 1
  }

  function Steps(c: bv32, n: nat): bv32
    decreases n
  {
    if n == 0 then c else Steps(Step(c), n - 1)
  }

  /** The division of a bit string, first bit first, starting from state c. */
  function Divide(c: bv32, bits: seq<bool>): bv32
    decreases bits
  {
    if bits == [] then c else Divide(Step(Xor(c, Bit(bits[0]))), bits[1..])
  }

  function Bit(b: bool): bv32 {
    if b then 1 else 0
  }

  /** A byte's bits, least significant first. */
  function ByteBits(b: bv8): (bits: seq<bool>)
    ensures |bits| == 8
  {
    [b & 0x01 != 0, b & 0x02 != 0, b & 0x04 != 0, b & 0x08 != 0,
     b & 0x10 != 0, b & 0x20 != 0, b & 0x40 != 0, b & 0x80 != 0]
  }

  function MessageBits(bytes: seq<bv8>): (bits: seq<bool>)
    ensures |bits| == 8 * |bytes|
  {
    if bytes == [] then [] else ByteBits(bytes[0]) + MessageBits(bytes[1..])
  }

  // ----- the step is linear and invertible

  lemma StepLinear(x: bv32, y: bv32)
    ensures Step(Xor(x, y)) == Xor(Step(x), Step(y))
  {
    hide Step, Half, Odd, Xor;
    StepParts(x);
    StepParts(y);
    StepParts(Xor(x, y));
    HalfLinear(x, y);
    OddLinear(x, y);
    XorThird(Half(x), Half(y), 0xEDB8_8320);
  }

  function Half(c: bv32): bv32 {
    c >> 1
  }

  predicate Odd(c: bv32) {
    c & 1 == 1
  }

  lemma StepParts(c: bv32)
    ensures Step(c) == if Odd(c) then Xor(Half(c), 0xEDB8_8320) else Half(c)
  {
  }

  lemma HalfOfXor(x: bv32, y: bv32)
    ensures Half(x ^ y) == Half(x) ^ Half(y)
  {
  }

  lemma HalfLinear(x: bv32, y: bv32)
    ensures Half(Xor(x, y)) == Xor(Half(x), Half(y))
  {
    hide Half;
    HalfOfXor(x, y);
  }

  lemma OddOfXor(x: bv32, y: bv32)
    ensures Odd(x ^ y) <==> Odd(x) != Odd(y)
  {
  }

  lemma OddLinear(x: bv32, y: bv32)
    ensures Odd(Xor(x, y)) <==> Odd(x) != Odd(y)
  {
    hide Odd;
    OddOfXor(x, y);
  }

  /** The state before a step: the polynomial has its top bit set, so the top bit of the
      state tells whether it was added. */
  function Back(c: bv32): bv32 {
    if c & 0x8000_0000 != 0 then ((c ^ 0xEDB8_8320) << 1) | 1 else c << 1
  }

  lemma BackUndoesStep(c: bv32)
    ensures Back(Step(c)) == c
  {
  }

  lemma {:induction false} StepsInjective(x: bv32, y: bv32, n: nat)
    requires Steps(x, n) == Steps(y, n)
    ensures x == y
    decreases n
  {
    hide Step, Back;
    if n > 0 {
      StepsInjective(Step(x), Step(y), n - 1);
      BackUndoesStep(x);
      BackUndoesStep(y);
    }
  }

  lemma {:induction false} StepsLinear(x: bv32, y: bv32, n: nat)
    ensures Steps(Xor(x, y), n) == Xor(Steps(x, n), Steps(y, n))
    decreases n
  {
    hide Step, Xor;
    if n > 0 {
      StepLinear(x, y);
      StepsLinear(Step(x), Step(y), n - 1);
    }
  }

  // ----- a stretch of up to 32 message bits acts on the state as one word

  /** The word whose low bits are the given ones. */
  function WordOf(bits: seq<bool>): bv32 {
    if bits == [] then 0 else ShiftIn(WordOf(bits[1..]), bits[0])
  }

  function ShiftIn(w: bv32, b: bool): bv32 {
    (w << 1) | Bit(b)
  }

  function NextMask(mask: bv32): bv32 {
    (mask << 1) | 1
  }

  function LowMask(n: nat): bv32 {
    if n == 0 then 0 else NextMask(LowMask(n - 1))
  }

  /** The word has only bits of the mask. */
  predicate Below(w: bv32, mask: bv32) {
    w & !mask == 0
  }

  lemma MaskTopClear(n: nat)
    requires n <= 31
    ensures Below(LowMask(n), 0x7FFF_FFFF)
  {
    MaskGrows(n, 31 - n);
    assert LowMask(4) == 0xF;
    assert LowMask(8) == 0xFF;
    assert LowMask(12) == 0xFFF;
    assert LowMask(16) == 0xFFFF;
    assert LowMask(20) == 0xF_FFFF;
    assert LowMask(24) == 0xFF_FFFF;
    assert LowMask(28) == 0xFFF_FFFF;
    assert LowMask(31) == 0x7FFF_FFFF;
  }

  lemma {:induction false} MaskGrows(n: nat, k: nat)
    ensures Below(LowMask(n), LowMask(n + k))
  {
    hide Below, NextMask;
    if k > 0 {
      MaskGrows(n, k - 1);
      MaskNext(n + k - 1);
      BelowBelow(LowMask(n), LowMask(n + k - 1), LowMask(n + k));
    } else {
      BelowItself(LowMask(n));
    }
  }

  lemma {:induction false} MaskNext(n: nat)
    ensures Below(LowMask(n), LowMask(n + 1))
  {
    hide Below, NextMask;
    if n == 0 {
      NothingBelow(LowMask(1));
    } else {
      MaskNext(n - 1);
      NextBelow(LowMask(n - 1), LowMask(n));
    }
  }

  lemma NothingBelow(mask: bv32)
    ensures Below(0, mask)
  {
  }

  lemma BelowItself(mask: bv32)
    ensures Below(mask, mask)
  {
  }

  lemma BelowBelow(w: bv32, m: bv32, n: bv32)
    requires Below(w, m) && Below(m, n)
    ensures Below(w, n)
  {
  }

  lemma NextBelow(m: bv32, n: bv32)
    requires Below(m, n)
    ensures Below(NextMask(m), NextMask(n))
  {
  }

  lemma ShiftInBelow(w: bv32, mask: bv32, b: bool)
    requires Below(w, mask)
    ensures Below(ShiftIn(w, b), NextMask(mask))
  {
    hide Below, NextMask, ShiftIn;
    ShiftInCases(w);
    NextBelow(w, mask);
    ShiftedBelow(w, mask);
  }

  lemma ShiftInCases(w: bv32)
    ensures ShiftIn(w, true) == NextMask(w) && ShiftIn(w, false) == w << 1
  {
  }

  lemma ShiftedBelow(w: bv32, mask: bv32)
    requires Below(w, mask)
    ensures Below(w << 1, NextMask(mask))
  {
  }

  lemma {:induction false} WordBelow(bits: seq<bool>)
    ensures Below(WordOf(bits), LowMask(|bits|))
  {
    hide ShiftIn, Below, NextMask;
    if bits == [] {
      NothingBelow(LowMask(0));
    } else {
      WordBelow(bits[1..]);
      ShiftInBelow(WordOf(bits[1..]), LowMask(|bits| - 1), bits[0]);
    }
  }

  lemma WordTopClear(bits: seq<bool>)
    requires |bits| <= 31
    ensures Below(WordOf(bits), 0x7FFF_FFFF)
  {
    hide WordOf, LowMask, Below;
    WordBelow(bits);
    MaskTopClear(|bits|);
    BelowBelow(WordOf(bits), LowMask(|bits|), 0x7FFF_FFFF);
  }

  lemma {:induction false} WordInjective(u: seq<bool>, v: seq<bool>)
    requires |u| == |v| <= 32 && WordOf(u) == WordOf(v)
    ensures u == v
  {
    hide LowMask, ShiftIn;
    if u != [] {
      WordTopClear(u[1..]);
      WordTopClear(v[1..]);
      ShiftInInjective(WordOf(u[1..]), u[0], WordOf(v[1..]), v[0]);
      WordInjective(u[1..], v[1..]);
    }
  }

  lemma ShiftInInjective(x: bv32, a: bool, y: bv32, b: bool)
    requires x & 0x8000_0000 == 0 && y & 0x8000_0000 == 0
    requires ShiftIn(x, a) == ShiftIn(y, b)
    ensures x == y && a == b
  {
  }

  /** Shifting in a bit and then dividing is dividing by the bit and adding the rest. */
  lemma StepAbsorbs(c: bv32, rest: bv32, b: bool)
    requires rest & 0x8000_0000 == 0
    ensures Step(Xor(c, ShiftIn(rest, b))) == Xor(Step(Xor(c, Bit(b))), rest)
  {
    hide Step, Xor, ShiftIn, Bit;
    ShiftInIsXor(rest, b);
    XorLaws(c, Bit(b), rest << 1);
    StepLinear(Xor(c, Bit(b)), rest << 1);
    ShiftedStep(rest);
  }

  lemma ShiftInIsXor(w: bv32, b: bool)
    ensures ShiftIn(w, b) == Xor(Bit(b), w << 1)
  {
    if b {
      ShiftInOne(w);
    } else {
      ShiftInZero(w);
    }
  }

  lemma ShiftInOne(w: bv32)
    ensures ShiftIn(w, true) == Xor(1, w << 1)
  {
  }

  lemma ShiftInZero(w: bv32)
    ensures ShiftIn(w, false) == Xor(0, w << 1)
  {
  }

  lemma ShiftedStep(w: bv32)
    requires w & 0x8000_0000 == 0
    ensures Step(w << 1) == w
  {
  }

  lemma {:induction false} DivideWord(c: bv32, bits: seq<bool>)
    requires |bits| <= 32
    ensures Divide(c, bits) == Steps(Xor(c, WordOf(bits)), |bits|)
    decreases bits
  {
    hide Step, Bit, Xor, ShiftIn;
    if bits == [] {
      XorLaws(c, 0, 0);
    } else {
      WordTopClear(bits[1..]);
      StepAbsorbs(c, WordOf(bits[1..]), bits[0]);
      DivideWord(Step(Xor(c, Bit(bits[0]))), bits[1..]);
    }
  }

  lemma {:induction false} DivideConcat(c: bv32, u: seq<bool>, v: seq<bool>)
    ensures Divide(c, u + v) == Divide(Divide(c, u), v)
    decreases u
  {
    hide Step, Xor, Bit;
    if u == [] {
      assert u + v == v;
    } else {
      DivideConcat(Step(Xor(c, Bit(u[0]))), u[1..], v);
      assert (u + v)[1..] == u[1..] + v;
    }
  }

  /** A common tail keeps different states different. */
  lemma {:induction false} DivideInjective(x: bv32, y: bv32, bits: seq<bool>)
    requires Divide(x, bits) == Divide(y, bits)
    ensures x == y
    decreases bits
  {
    hide Step, Xor, Bit, Back;
    if bits != [] {
      var b := Bit(bits[0]);
      DivideInjective(Step(Xor(x, b)), Step(Xor(y, b)), bits[1..]);
      BackUndoesStep(Xor(x, b));
      BackUndoesStep(Xor(y, b));
      XorLaws(x, b, 0);
      XorLaws(y, b, 0);
    }
  }

  // ----- the table

  /** pulCRCTable, sixteen entries to the row. */
  function Table(i: bv8): bv32 {
    var k := i & 0x0F;
    if i >> 4 == 0 then Pick(k, 0x00000000, 0x77073096, 0xee0e612c, 0x990951ba, 0x076dc419, 0x706af48f, 0xe963a535, 0x9e6495a3,
           0x0edb8832, 0x79dcb8a4, 0xe0d5e91e, 0x97d2d988, 0x09b64c2b, 0x7eb17cbd, 0xe7b82d07, 0x90bf1d91)
    else if i >> 4 == 1 then Pick(k, 0x1db71064, 0x6ab020f2, 0xf3b97148, 0x84be41de, 0x1adad47d, 0x6ddde4eb, 0xf4d4b551, 0x83d385c7,
           0x136c9856, 0x646ba8c0, 0xfd62f97a, 0x8a65c9ec, 0x14015c4f, 0x63066cd9, 0xfa0f3d63, 0x8d080df5)
    else if i >> 4 == 2 then Pick(k, 0x3b6e20c8, 0x4c69105e, 0xd56041e4, 0xa2677172, 0x3c03e4d1, 0x4b04d447, 0xd20d85fd, 0xa50ab56b,
           0x35b5a8fa, 0x42b2986c, 0xdbbbc9d6, 0xacbcf940, 0x32d86ce3, 0x45df5c75, 0xdcd60dcf, 0xabd13d59)
    else if i >> 4 == 3 then Pick(k, 0x26d930ac, 0x51de003a, 0xc8d75180, 0xbfd06116, 0x21b4f4b5, 0x56b3c423, 0xcfba9599, 0xb8bda50f,
           0x2802b89e, 0x5f058808, 0xc60cd9b2, 0xb10be924, 0x2f6f7c87, 0x58684c11, 0xc1611dab, 0xb6662d3d)
    else if i >> 4 == 4 then Pick(k, 0x76dc4190, 0x01db7106, 0x98d220bc, 0xefd5102a, 0x71b18589, 0x06b6b51f, 0x9fbfe4a5, 0xe8b8d433,
           0x7807c9a2, 0x0f00f934, 0x9609a88e, 0xe10e9818, 0x7f6a0dbb, 0x086d3d2d, 0x91646c97, 0xe6635c01)
    else if i >> 4 == 5 then Pick(k, 0x6b6b51f4, 0x1c6c6162, 0x856530d8, 0xf262004e, 0x6c0695ed, 0x1b01a57b, 0x8208f4c1, 0xf50fc457,
           0x65b0d9c6, 0x12b7e950, 0x8bbeb8ea, 0xfcb9887c, 0x62dd1ddf, 0x15da2d49, 0x8cd37cf3, 0xfbd44c65)
    else if i >> 4 == 6 then Pick(k, 0x4db26158, 0x3ab551ce, 0xa3bc0074, 0xd4bb30e2, 0x4adfa541, 0x3dd895d7, 0xa4d1c46d, 0xd3d6f4fb,
           0x4369e96a, 0x346ed9fc, 0xad678846, 0xda60b8d0, 0x44042d73, 0x33031de5, 0xaa0a4c5f, 0xdd0d7cc9)
    else if i >> 4 == 7 then Pick(k, 0x5005713c, 0x270241aa, 0xbe0b1010, 0xc90c2086, 0x5768b525, 0x206f85b3, 0xb966d409, 0xce61e49f,
           0x5edef90e, 0x29d9c998, 0xb0d09822, 0xc7d7a8b4, 0x59b33d17, 0x2eb40d81, 0xb7bd5c3b, 0xc0ba6cad)
    else if i >> 4 == 8 then Pick(k, 0xedb88320, 0x9abfb3b6, 0x03b6e20c, 0x74b1d29a, 0xead54739, 0x9dd277af, 0x04db2615, 0x73dc1683,
           0xe3630b12, 0x94643b84, 0x0d6d6a3e, 0x7a6a5aa8, 0xe40ecf0b, 0x9309ff9d, 0x0a00ae27, 0x7d079eb1)
    else if i >> 4 == 9 then Pick(k, 0xf00f9344, 0x8708a3d2, 0x1e01f268, 0x6906c2fe, 0xf762575d, 0x806567cb, 0x196c3671, 0x6e6b06e7,
           0xfed41b76, 0x89d32be0, 0x10da7a5a, 0x67dd4acc, 0xf9b9df6f, 0x8ebeeff9, 0x17b7be43, 0x60b08ed5)
    else if i >> 4 == 10 then Pick(k, 0xd6d6a3e8, 0xa1d1937e, 0x38d8c2c4, 0x4fdff252, 0xd1bb67f1, 0xa6bc5767, 0x3fb506dd, 0x48b2364b,
           0xd80d2bda, 0xaf0a1b4c, 0x36034af6, 0x41047a60, 0xdf60efc3, 0xa867df55, 0x316e8eef, 0x4669be79)
    else if i >> 4 == 11 then Pick(k, 0xcb61b38c, 0xbc66831a, 0x256fd2a0, 0x5268e236, 0xcc0c7795, 0xbb0b4703, 0x220216b9, 0x5505262f,
           0xc5ba3bbe, 0xb2bd0b28, 0x2bb45a92, 0x5cb36a04, 0xc2d7ffa7, 0xb5d0cf31, 0x2cd99e8b, 0x5bdeae1d)
    else if i >> 4 == 12 then Pick(k, 0x9b64c2b0, 0xec63f226, 0x756aa39c, 0x026d930a, 0x9c0906a9, 0xeb0e363f, 0x72076785, 0x05005713,
           0x95bf4a82, 0xe2b87a14, 0x7bb12bae, 0x0cb61b38, 0x92d28e9b, 0xe5d5be0d, 0x7cdcefb7, 0x0bdbdf21)
    else if i >> 4 == 13 then Pick(k, 0x86d3d2d4, 0xf1d4e242, 0x68ddb3f8, 0x1fda836e, 0x81be16cd, 0xf6b9265b, 0x6fb077e1, 0x18b74777,
           0x88085ae6, 0xff0f6a70, 0x66063bca, 0x11010b5c, 0x8f659eff, 0xf862ae69, 0x616bffd3, 0x166ccf45)
    else if i >> 4 == 14 then Pick(k, 0xa00ae278, 0xd70dd2ee, 0x4e048354, 0x3903b3c2, 0xa7672661, 0xd06016f7, 0x4969474d, 0x3e6e77db,
           0xaed16a4a, 0xd9d65adc, 0x40df0b66, 0x37d83bf0, 0xa9bcae53, 0xdebb9ec5, 0x47b2cf7f, 0x30b5ffe9)
    else Pick(k, 0xbdbdf21c, 0xcabac28a, 0x53b39330, 0x24b4a3a6, 0xbad03605, 0xcdd70693, 0x54de5729, 0x23d967bf,
           0xb3667a2e, 0xc4614ab8, 0x5d681b02, 0x2a6f2b94, 0xb40bbe37, 0xc30c8ea1, 0x5a05df1b, 0x2d02ef8d)
  }

  function Pick(k: bv8, a0: bv32, a1: bv32, a2: bv32, a3: bv32, a4: bv32, a5: bv32, a6: bv32, a7: bv32,
                a8: bv32, a9: bv32, a10: bv32, a11: bv32, a12: bv32, a13: bv32, a14: bv32, a15: bv32)
    : bv32
  {
    if k < 8 then
      if k == 0 then a0 else if k == 1 then a1 else if k == 2 then a2 else if k == 3 then a3
      else if k == 4 then a4 else if k == 5 then a5 else if k == 6 then a6 else a7
    else
      if k == 8 then a8 else if k == 9 then a9 else if k == 10 then a10 else if k == 11 then a11
      else if k == 12 then a12 else if k == 13 then a13 else if k == 14 then a14 else a15
  }

  function Step8(c: bv32): bv32 {
    Step(Step(Step(Step(Step(Step(Step(Step(c))))))))
  }

  lemma TableRow0(i: bv8)
    requires i >> 4 == 0
    ensures Table(i) == Step8(i as bv32)
  {
  }

  lemma TableRow1(i: bv8)
    requires i >> 4 == 1
    ensures Table(i) == Step8(i as bv32)
  {
  }

  lemma TableRow2(i: bv8)
    requires i >> 4 == 2
    ensures Table(i) == Step8(i as bv32)
  {
  }

  lemma TableRow3(i: bv8)
    requires i >> 4 == 3
    ensures Table(i) == Step8(i as bv32)
  {
  }

  lemma TableRow4(i: bv8)
    requires i >> 4 == 4
    ensures Table(i) == Step8(i as bv32)
  {
  }

  lemma TableRow5(i: bv8)
    requires i >> 4 == 5
    ensures Table(i) == Step8(i as bv32)
  {
  }

  lemma TableRow6(i: bv8)
    requires i >> 4 == 6
    ensures Table(i) == Step8(i as bv32)
  {
  }

  lemma TableRow7(i: bv8)
    requires i >> 4 == 7
    ensures Table(i) == Step8(i as bv32)
  {
  }

  lemma TableRow8(i: bv8)
    requires i >> 4 == 8
    ensures Table(i) == Step8(i as bv32)
  {
  }

  lemma TableRow9(i: bv8)
    requires i >> 4 == 9
    ensures Table(i) == Step8(i as bv32)
  {
  }

  lemma TableRow10(i: bv8)
    requires i >> 4 == 10
    ensures Table(i) == Step8(i as bv32)
  {
  }

  lemma TableRow11(i: bv8)
    requires i >> 4 == 11
    ensures Table(i) == Step8(i as bv32)
  {
  }

  lemma TableRow12(i: bv8)
    requires i >> 4 == 12
    ensures Table(i) == Step8(i as bv32)
  {
  }

  lemma TableRow13(i: bv8)
    requires i >> 4 == 13
    ensures Table(i) == Step8(i as bv32)
  {
  }

  lemma TableRow14(i: bv8)
    requires i >> 4 == 14
    ensures Table(i) == Step8(i as bv32)
  {
  }

  lemma TableRow15(i: bv8)
    requires i >> 4 == 15
    ensures Table(i) == Step8(i as bv32)
  {
  }

  /** Every table entry is the eight-fold step of its index. */
  lemma TableIsStep8(i: bv8)
    ensures Table(i) == Step8(i as bv32)
  {
    hide Table, Step8;
    var h := i >> 4;
    if h == 0 { TableRow0(i); }
    if h == 1 { TableRow1(i); }
    if h == 2 { TableRow2(i); }
    if h == 3 { TableRow3(i); }
    if h == 4 { TableRow4(i); }
    if h == 5 { TableRow5(i); }
    if h == 6 { TableRow6(i); }
    if h == 7 { TableRow7(i); }
    if h == 8 { TableRow8(i); }
    if h == 9 { TableRow9(i); }
    if h == 10 { TableRow10(i); }
    if h == 11 { TableRow11(i); }
    if h == 12 { TableRow12(i); }
    if h == 13 { TableRow13(i); }
    if h == 14 { TableRow14(i); }
    if h == 15 { TableRow15(i); }
    assert h < 16;
  }

  // ----- the byte-wise form

  /** The state after one byte, as CRC32_ProcessBuffer computes it. */
  function ByteStep(c: bv32, b: bv8): bv32 {
    Xor(Table((c & 0xFF) as bv8 ^ b), c >> 8)
  }

  function Process(c: bv32, bytes: seq<bv8>): bv32
    decreases bytes
  {
    if bytes == [] then c else Process(ByteStep(c, bytes[0]), bytes[1..])
  }

  lemma StepsAre8(c: bv32)
    ensures Steps(c, 8) == Step8(c)
  {
    hide Step;
    var d := Step(Step(Step(Step(c))));
    assert Steps(c, 8) == Steps(d, 4);
    assert Steps(d, 4) == Step(Step(Step(Step(d))));
  }

  /** Eight steps shift out a word whose low byte is clear. */
  lemma ShiftOut(w: bv32)
    requires w & 0xFF == 0
    ensures Step8(w) == w >> 8
  {
  }

  lemma Step8Linear(x: bv32, y: bv32)
    ensures Step8(Xor(x, y)) == Xor(Step8(x), Step8(y))
  {
    hide Step, Xor, Step8;
    StepsAre8(x);
    StepsAre8(y);
    StepsAre8(Xor(x, y));
    StepsLinear(x, y, 8);
  }

  lemma TableIndex(c: bv32, b: bv8)
    ensures ((c & 0xFF) as bv8 ^ b) as bv32 == Xor(c, b as bv32) & 0xFF
  {
  }

  lemma HighBytesKept(c: bv32, b: bv8)
    ensures Xor(c, b as bv32) >> 8 == c >> 8
  {
  }

  lemma LowAndHigh(w: bv32)
    ensures w == Xor(w & 0xFF, w & 0xFFFF_FF00)
  {
  }

  lemma HighBytes(w: bv32)
    ensures (w & 0xFFFF_FF00) & 0xFF == 0 && (w & 0xFFFF_FF00) >> 8 == w >> 8
  {
  }

  /** The table step is eight bit steps of the state with the byte added. */
  lemma ByteStepIsSteps(c: bv32, b: bv8)
    ensures ByteStep(c, b) == Steps(Xor(c, b as bv32), 8)
  {
    hide Step8, Steps, Table, Xor;
    var w := Xor(c, b as bv32);
    TableIndex(c, b);
    HighBytesKept(c, b);
    TableIsStep8((c & 0xFF) as bv8 ^ b);
    LowAndHigh(w);
    HighBytes(w);
    ShiftOut(w & 0xFFFF_FF00);
    Step8Linear(w & 0xFF, w & 0xFFFF_FF00);
    StepsAre8(w);
  }

  lemma ByteWord(b: bv8)
    ensures WordOf(ByteBits(b)) == b as bv32
  {
    var s := ByteBits(b);
    BitsOfByte(b, s);
    hide ByteBits, ShiftIn;
    WordOf4(s);
    WordOf4(s[4..]);
  }

  lemma WordOf4(s: seq<bool>)
    requires |s| >= 4
    ensures WordOf(s) == ShiftIn(ShiftIn(ShiftIn(ShiftIn(WordOf(s[4..]), s[3]), s[2]), s[1]), s[0])
  {
    hide ShiftIn;
    assert s[1..][1..] == s[2..] && s[2..][1..] == s[3..] && s[3..][1..] == s[4..];
    assert WordOf(s) == ShiftIn(WordOf(s[1..]), s[0]);
    assert WordOf(s[1..]) == ShiftIn(WordOf(s[2..]), s[1]);
    assert WordOf(s[2..]) == ShiftIn(WordOf(s[3..]), s[2]);
    assert WordOf(s[3..]) == ShiftIn(WordOf(s[4..]), s[3]);
  }

  lemma BitsOfByte(b: bv8, s: seq<bool>)
    requires s == ByteBits(b)
    ensures ShiftIn(ShiftIn(ShiftIn(ShiftIn(
              ShiftIn(ShiftIn(ShiftIn(ShiftIn(0, s[7]), s[6]), s[5]), s[4]), s[3]), s[2]), s[1]), s[0]) == b as bv32
  {
  }

  /** The fast form computes the bit-serial division of the message. */
  lemma {:induction false} ProcessDivides(c: bv32, bytes: seq<bv8>)
    ensures Process(c, bytes) == Divide(c, MessageBits(bytes))
    decreases bytes
  {
    hide ByteStep, ByteBits, Xor;
    if bytes != [] {
      var b := bytes[0];
      ByteStepIsSteps(c, b);
      ByteWord(b);
      DivideWord(c, ByteBits(b));
      DivideConcat(c, ByteBits(b), MessageBits(bytes[1..]));
      ProcessDivides(ByteStep(c, b), bytes[1..]);
    }
  }

  /** Processing piece by piece is processing the whole. */
  lemma {:induction false} ProcessConcat(c: bv32, a: seq<bv8>, b: seq<bv8>)
    ensures Process(c, a + b) == Process(Process(c, a), b)
    decreases a
  {
    hide ByteStep;
    if a == [] {
      assert a + b == b;
    } else {
      ProcessConcat(ByteStep(c, a[0]), a[1..], b);
      assert (a + b)[1..] == a[1..] + b;
    }
  }

  // ----- the operations

  /** CRC32_Init */
  method Init() returns (crc: bv32)
    ensures crc == 0xFFFF_FFFF
  {
    crc := 0xFFFF_FFFF;
  }

  /** CRC32_Final */
  function Final(crc: bv32): bv32 {
    !crc
  }

  /** CRC32_ProcessByte, which adds the byte before it shifts: that changes nothing. */
  method ProcessByte(crc: bv32, ch: bv8) returns (crc': bv32)
    ensures crc' == Process(crc, [ch]) == Divide(crc, ByteBits(ch))
  {
    hide Table, Xor, ByteBits, Divide;
    HighBytesKept(crc, ch);
    crc' := Xor(Table((crc & 0xFF) as bv8 ^ ch), Xor(crc, ch as bv32) >> 8);
    ProcessDivides(crc, [ch]);
    assert ByteBits(ch) + MessageBits([]) == ByteBits(ch);
  }

  /** CRC32_ProcessBuffer */
  method ProcessBuffer(crc: bv32, buffer: seq<bv8>, nBuffer: int) returns (crc': bv32)
    requires nBuffer <= |buffer|
    ensures crc' == Divide(crc, MessageBits(if nBuffer < 0 then [] else buffer[..nBuffer]))
    ensures crc' == Process(crc, if nBuffer < 0 then [] else buffer[..nBuffer])
  {
    hide ByteStep, Divide;
    crc' := crc;
    assert buffer[..0] == [];
    var i := 0;
    while i < nBuffer
      invariant 0 <= i <= (if nBuffer < 0 then 0 else nBuffer)
      invariant crc' == Process(crc, buffer[..i])
    {
      ProcessConcat(crc, buffer[..i], [buffer[i]]);
      assert buffer[..i + 1] == buffer[..i] + [buffer[i]];
      crc' := ByteStep(crc', buffer[i]);
      i := i + 1;
    }
    ProcessDivides(crc, buffer[..i]);
  }

  // ----- the checksum of a map file

  datatype Lump = Lump(fileofs: nat, filelen: int)

  /** What one FS_Read returned, and whether the file is in order after it. */
  datatype Read = Read(n: int, ok: bool)

  /** The n bytes of the file at an offset, if it has them. */
  function BytesAt(file: seq<bv8>, ofs: nat, n: nat): (r: seq<bv8>)
    ensures ofs + n <= |file| ==> |r| == n && forall k :: 0 <= k < n ==> r[k] == file[ofs + k]
  {
    if ofs + n <= |file| then file[ofs..ofs + n] else []
  }

  function Size(lump: Lump): (n: nat)
    ensures n == lump.filelen || (n == 0 && lump.filelen < 0)
  {
    if lump.filelen > 0 then lump.filelen else 0
  }

  predicate InFile(file: seq<bv8>, lump: Lump) {
    lump.filelen > 0 ==> lump.fileofs + lump.filelen <= |file|
  }

  /** The bytes of all lumps but one. */
  function LumpsBytes(file: seq<bv8>, lumps: seq<Lump>, skipped: int): seq<bv8> {
    if lumps == [] then []
    else
      var l := |lumps| - 1;
      LumpsBytes(file, lumps[..l], skipped) + (if l == skipped then [] else BytesAt(file, lumps[l].fileofs, Size(lumps[l])))
  }

  /** Lumps are joined in their order, and the skipped one gives nothing. */
  lemma {:induction false} LumpsInOrder(file: seq<bv8>, lumps: seq<Lump>, skipped: int)
    requires lumps != []
    ensures LumpsBytes(file, lumps, skipped)
            == (if skipped == 0 then [] else BytesAt(file, lumps[0].fileofs, Size(lumps[0])))
               + LumpsBytes(file, lumps[1..], skipped - 1)
    decreases |lumps|
  {
    hide BytesAt;
    var l := |lumps| - 1;
    if l > 0 {
      LumpsInOrder(file, lumps[..l], skipped);
      assert lumps[1..][..l - 1] == lumps[..l][1..] && lumps[1..][l - 1] == lumps[l];
      var first := if skipped == 0 then [] else BytesAt(file, lumps[0].fileofs, Size(lumps[0]));
      var last := if skipped == l then [] else BytesAt(file, lumps[l].fileofs, Size(lumps[l]));
      JoinThree(first, LumpsBytes(file, lumps[..l][1..], skipped - 1), last);
    } else {
      assert lumps[..0] == [] && lumps[1..] == [];
    }
  }

  lemma JoinThree(a: seq<bv8>, b: seq<bv8>, c: seq<bv8>)
    ensures a + b + c == a + (b + c)
  {
  }

  /** The lump loop of CRC_MapFile, on whatever its reads return. If it succeeds, every lump but
      the skipped one is in the file, and the checksum is that of their bytes as one string. */
  method MapFile(crc: bv32, file: seq<bv8>, lumps: seq<Lump>, nLumpID: int, fsReads: seq<Read>) returns (crc': bv32, ok: bool)
    ensures ok ==> forall l :: 0 <= l < |lumps| && l != nLumpID && lumps[l].filelen > 0 ==>
                       lumps[l].fileofs + lumps[l].filelen <= |file|
    ensures ok ==> crc' == Process(crc, LumpsBytes(file, lumps, nLumpID))
  {
    hide Process, BytesAt, InFile;
    crc', ok := crc, true;
    var left := fsReads;
    NothingToProcess(crc);
    for l := 0 to |lumps|
      invariant ok && crc' == Process(crc, LumpsBytes(file, lumps[..l], nLumpID))
      invariant forall k :: 0 <= k < l && k != nLumpID ==> InFile(file, lumps[k])
    {
      NextLump(file, lumps, nLumpID, l);
      if l != nLumpID {
        ghost var got;
        ProcessConcat(crc, LumpsBytes(file, lumps[..l], nLumpID), BytesAt(file, lumps[l].fileofs, Size(lumps[l])));
        crc', left, ok, got := ReadLump(crc', file, lumps[l], left);
        if !ok {
          return;
        }
        GotAll(file, lumps[l], got);
      }
    }
    assert lumps[..|lumps|] == lumps;
    forall l | 0 <= l < |lumps| && l != nLumpID && lumps[l].filelen > 0
      ensures lumps[l].fileofs + lumps[l].filelen <= |file|
    {
      WholeLump(file, lumps[l]);
    }
  }

  lemma WholeLump(file: seq<bv8>, lump: Lump)
    ensures InFile(file, lump) <==> (lump.filelen > 0 ==> lump.fileofs + lump.filelen <= |file|)
  {
  }

  lemma GotAll(file: seq<bv8>, lump: Lump, got: nat)
    requires got == Size(lump) && (got > 0 ==> lump.fileofs + got <= |file|)
    ensures InFile(file, lump)
  {
  }

  lemma NextLump(file: seq<bv8>, lumps: seq<Lump>, skipped: int, l: nat)
    requires l < |lumps|
    ensures LumpsBytes(file, lumps[..l + 1], skipped)
            == LumpsBytes(file, lumps[..l], skipped)
               + (if l == skipped then [] else BytesAt(file, lumps[l].fileofs, Size(lumps[l])))
    ensures LumpsBytes(file, lumps[..l], skipped) + [] == LumpsBytes(file, lumps[..l], skipped)
  {
    hide BytesAt;
    assert lumps[..l + 1][..l] == lumps[..l];
  }

  lemma NothingToProcess(crc: bv32)
    ensures Process(crc, []) == crc && MessageBits([]) == []
  {
  }

  /** The read loop of CRC_MapFile. However much each read of at most 1024 bytes returns, the
      checksum is that of the bytes got so far as one string, and these are the whole lump
      unless a read left the file in disorder. When no read is left, the file is in disorder. */
  method ReadLump(crc: bv32, file: seq<bv8>, lump: Lump, fsReads: seq<Read>)
    returns (crc': bv32, left: seq<Read>, ok: bool, ghost got: nat)
    ensures got <= Size(lump) && (got > 0 ==> lump.fileofs + got <= |file|)
    ensures crc' == Process(crc, BytesAt(file, lump.fileofs, got))
    ensures ok ==> got == Size(lump)
    ensures |left| <= |fsReads| && left == fsReads[|fsReads| - |left|..]
    ensures !ok && left != [] ==> |left| < |fsReads| && !fsReads[|fsReads| - |left| - 1].ok
  {
    hide Process;
    crc', left, ok, got := crc, fsReads, true, 0;
    var nSize, at := lump.filelen, lump.fileofs;
    NothingToProcess(crc);
    assert BytesAt(file, lump.fileofs, 0) == [];
    while nSize > 0
      invariant nSize == lump.filelen - got && at == lump.fileofs + got && got <= Size(lump)
      invariant got > 0 ==> lump.fileofs + got <= |file|
      invariant crc' == Process(crc, BytesAt(file, lump.fileofs, got))
      invariant ok && |left| <= |fsReads| && left == fsReads[|fsReads| - |left|..]
      decreases |left|
    {
      if left == [] {
        ok := false;
        return;
      }
      var nBytesRead := Returned(left[0].n, if nSize > 1024 then 1024 else nSize, |file| - at);
      if nBytesRead > 0 {
        nSize := nSize - nBytesRead;
        MoreBytes(crc, file, lump.fileofs, got, nBytesRead);
        crc' := ProcessBuffer(crc', file[at..at + nBytesRead], nBytesRead);
        at := at + nBytesRead;
        got := got + nBytesRead;
      }
      ok := left[0].ok;
      left := left[1..];
      if !ok {
        return;
      }
    }
  }

  /** What a read can return: no more than was asked for, and no more than the file has left. */
  function Returned(n: int, want: nat, available: int): (r: int)
    ensures r > 0 ==> r <= want && r <= available
    ensures n <= want && n <= available ==> r == n
  {
    if n > want then Returned(want, want, available) else if n > available then available else n
  }

  lemma MoreBytes(crc: bv32, file: seq<bv8>, ofs: nat, got: nat, n: nat)
    requires n > 0 && ofs + got + n <= |file|
    ensures Process(crc, BytesAt(file, ofs, got + n)) == Process(Process(crc, BytesAt(file, ofs, got)), file[ofs + got..ofs + got + n])
    ensures file[ofs + got..ofs + got + n][..n] == file[ofs + got..ofs + got + n]
  {
    hide Process;
    ProcessConcat(crc, file[ofs..ofs + got], file[ofs + got..ofs + got + n]);
    assert file[ofs..ofs + got] + file[ofs + got..ofs + got + n] == file[ofs..ofs + got + n];
  }

  // ----- error detection

  /** The checksum of a buffer, from Init through Final. */
  function Checksum(bytes: seq<bv8>): bv32 {
    Final(Process(0xFFFF_FFFF, bytes))
  }

  /** Every error burst of at most 32 bits is detected: two buffers of one length whose
      bits agree outside a window of 32 have different checksums unless they are equal. */
  lemma BurstDetected(a: seq<bv8>, b: seq<bv8>, lo: nat, hi: nat)
    requires |a| == |b| && lo <= hi <= 8 * |a| && hi - lo <= 32
    requires MessageBits(a)[..lo] == MessageBits(b)[..lo] && MessageBits(a)[hi..] == MessageBits(b)[hi..]
    requires Checksum(a) == Checksum(b)
    ensures a == b
  {
    hide Divide, MessageBits, Process, Final;
    ProcessDivides(0xFFFF_FFFF, a);
    ProcessDivides(0xFFFF_FFFF, b);
    FinalInjective(Process(0xFFFF_FFFF, a), Process(0xFFFF_FFFF, b));
    BurstDivided(0xFFFF_FFFF, MessageBits(a), MessageBits(b), lo, hi);
    MessageBitsInjective(a, b);
  }

  /** The division tells bit strings apart that differ within 32 consecutive bits. */
  lemma BurstDivided(state: bv32, x: seq<bool>, y: seq<bool>, lo: nat, hi: nat)
    requires |x| == |y| && lo <= hi <= |x| && hi - lo <= 32
    requires x[..lo] == y[..lo] && x[hi..] == y[hi..]
    requires Divide(state, x) == Divide(state, y)
    ensures x == y
  {
    hide *;
    var c := Divide(state, x[..lo]);
    SplitDivision(state, x, lo, hi);
    SplitDivision(state, y, lo, hi);
    DivideInjective(Divide(c, x[lo..hi]), Divide(c, y[lo..hi]), x[hi..]);
    DivideWord(c, x[lo..hi]);
    DivideWord(c, y[lo..hi]);
    StepsInjective(Xor(c, WordOf(x[lo..hi])), Xor(c, WordOf(y[lo..hi])), hi - lo);
    XorCancels(c, WordOf(x[lo..hi]), WordOf(y[lo..hi]));
    WordInjective(x[lo..hi], y[lo..hi]);
    ThreeParts(x, lo, hi);
    ThreeParts(y, lo, hi);
  }

  /** 32 bits are the most: a difference within 33 consecutive bits can go unnoticed. */
  lemma LongerBurstMissed()
    ensures var a, b: seq<bv8> := [0x41, 0x06, 0x71, 0xDB, 0x01], [0, 0, 0, 0, 0];
            && a != b && Checksum(a) == Checksum(b)
            && |MessageBits(a)| == |MessageBits(b)| == 40 && MessageBits(a)[33..] == MessageBits(b)[33..]
  {
    hide ByteStep, ByteBits, Final;
    var a, b: seq<bv8> := [0x41, 0x06, 0x71, 0xDB, 0x01], [0, 0, 0, 0, 0];
    assert a[0] != b[0];
    FiveChanged();
    FiveZeros();
    FiveBytes(0x41, 0x06, 0x71, 0xDB, 0x01);
    FiveBytes(0, 0, 0, 0, 0);
    LastByteBits();
  }

  lemma TakeByte(c: bv32, s: seq<bv8>)
    requires s != []
    ensures Process(c, s) == Process(ByteStep(c, s[0]), s[1..])
    ensures MessageBits(s) == ByteBits(s[0]) + MessageBits(s[1..])
    ensures |s| > 1 ==> s[1..][0] == s[1]
  {
  }

  lemma FiveBytes(a: bv8, b: bv8, c: bv8, d: bv8, e: bv8)
    ensures Process(0xFFFF_FFFF, [a, b, c, d, e])
            == ByteStep(ByteStep(ByteStep(ByteStep(ByteStep(0xFFFF_FFFF, a), b), c), d), e)
    ensures MessageBits([a, b, c, d, e]) == ByteBits(a) + (ByteBits(b) + (ByteBits(c) + (ByteBits(d) + ByteBits(e))))
  {
    hide ByteStep, ByteBits, Process, MessageBits;
    var s1 := ByteStep(0xFFFF_FFFF, a);
    var s2 := ByteStep(s1, b);
    var s3 := ByteStep(s2, c);
    TakeByte(0xFFFF_FFFF, [a, b, c, d, e]);
    assert [a, b, c, d, e][1..] == [b, c, d, e];
    TakeByte(s1, [b, c, d, e]);
    assert [b, c, d, e][1..] == [c, d, e];
    TakeByte(s2, [c, d, e]);
    assert [c, d, e][1..] == [d, e];
    TakeByte(s3, [d, e]);
    assert [d, e][1..] == [e];
    TakeByte(ByteStep(s3, d), [e]);
    assert [e][1..] == [];
    NothingToProcess(ByteStep(ByteStep(s3, d), e));
  }

  lemma LastByteBits()
    ensures ByteBits(1)[1..] == ByteBits(0)[1..]
  {
  }

  lemma FiveChanged()
    ensures ByteStep(ByteStep(ByteStep(ByteStep(ByteStep(0xFFFF_FFFF, 0x41), 0x06), 0x71), 0xDB), 0x01) == 0x39DD08E2
  {
    assert ByteStep(0xFFFFFFFF, 0x41) == 0x2C266174;
    assert ByteStep(0x2C266174, 0x06) == 0xBE273671;
    assert ByteStep(0xBE273671, 0x71) == 0x00BE2736;
    assert ByteStep(0x00BE2736, 0xDB) == 0xDEBB20E2;
    assert ByteStep(0xDEBB20E2, 0x01) == 0x39DD08E2;
  }

  lemma FiveZeros()
    ensures ByteStep(ByteStep(ByteStep(ByteStep(ByteStep(0xFFFF_FFFF, 0), 0), 0), 0), 0) == 0x39DD08E2
  {
    ThreeZeros();
    assert ByteStep(0x00BE26ED, 0x00) == 0xDEBB20E3;
    assert ByteStep(0xDEBB20E3, 0x00) == 0x39DD08E2;
  }

  lemma ThreeZeros()
    ensures ByteStep(ByteStep(ByteStep(0xFFFF_FFFF, 0), 0), 0) == 0x00BE26ED
  {
    assert ByteStep(0xFFFFFFFF, 0x00) == 0x2DFD1072;
    assert ByteStep(0x2DFD1072, 0x00) == 0xBE26ED00;
    assert ByteStep(0xBE26ED00, 0x00) == 0x00BE26ED;
  }

  /** The empty string and the check string "123456789". */
  lemma KnownChecksums()
    ensures Checksum([]) == 0
    ensures Checksum([0x31, 0x32, 0x33, 0x34, 0x35, 0x36, 0x37, 0x38, 0x39]) == 0xCBF4_3926
  {
    NothingToProcess(0xFFFF_FFFF);
    CheckSteps1();
    CheckSteps2();
    CheckSteps3();
    hide Process;
    var a, b, c: seq<bv8> := [0x31, 0x32, 0x33], [0x34, 0x35, 0x36], [0x37, 0x38, 0x39];
    ProcessConcat(0xFFFF_FFFF, a + b, c);
    ProcessConcat(0xFFFF_FFFF, a, b);
    assert a + b + c == [0x31, 0x32, 0x33, 0x34, 0x35, 0x36, 0x37, 0x38, 0x39];
  }

  lemma CheckSteps1()
    ensures Process(0xFFFFFFFF, [0x31, 0x32, 0x33]) == 0x77B79C2D
  {
    assert ByteStep(0xFFFFFFFF, 0x31) == 0x7C231048;
    assert ByteStep(0x7C231048, 0x32) == 0xB0ACBB32;
    assert ByteStep(0xB0ACBB32, 0x33) == 0x77B79C2D;
    hide ByteStep, ByteBits, Process, MessageBits;
    TakeByte(0xFFFFFFFF, [0x31, 0x32, 0x33]);
    assert [0x31, 0x32, 0x33][1..] == [0x32, 0x33];
    TakeByte(0x7C231048, [0x32, 0x33]);
    assert [0x32, 0x33][1..] == [0x33];
    TakeByte(0xB0ACBB32, [0x33]);
    assert [0x33][1..] == [];
    NothingToProcess(0x77B79C2D);
  }

  lemma CheckSteps2()
    ensures Process(0x77B79C2D, [0x34, 0x35, 0x36]) == 0xF68D2C9E
  {
    assert ByteStep(0x77B79C2D, 0x34) == 0x641C1F5C;
    assert ByteStep(0x641C1F5C, 0x35) == 0x340AC5E3;
    assert ByteStep(0x340AC5E3, 0x36) == 0xF68D2C9E;
    hide ByteStep, ByteBits, Process, MessageBits;
    TakeByte(0x77B79C2D, [0x34, 0x35, 0x36]);
    assert [0x34, 0x35, 0x36][1..] == [0x35, 0x36];
    TakeByte(0x641C1F5C, [0x35, 0x36]);
    assert [0x35, 0x36][1..] == [0x36];
    TakeByte(0x340AC5E3, [0x36]);
    assert [0x36][1..] == [];
    NothingToProcess(0xF68D2C9E);
  }

  lemma CheckSteps3()
    ensures Process(0xF68D2C9E, [0x37, 0x38, 0x39]) == 0x340BC6D9
  {
    assert ByteStep(0xF68D2C9E, 0x37) == 0xAFFC9660;
    assert ByteStep(0xAFFC9660, 0x38) == 0x651F2550;
    assert ByteStep(0x651F2550, 0x39) == 0x340BC6D9;
    hide ByteStep, ByteBits, Process, MessageBits;
    TakeByte(0xF68D2C9E, [0x37, 0x38, 0x39]);
    assert [0x37, 0x38, 0x39][1..] == [0x38, 0x39];
    TakeByte(0xAFFC9660, [0x38, 0x39]);
    assert [0x38, 0x39][1..] == [0x39];
    TakeByte(0x651F2550, [0x39]);
    assert [0x39][1..] == [];
    NothingToProcess(0x340BC6D9);
  }

  lemma FinalInjective(x: bv32, y: bv32)
    ensures Final(x) == Final(y) ==> x == y
  {
  }

  lemma ThreeParts(bits: seq<bool>, lo: nat, hi: nat)
    requires lo <= hi <= |bits|
    ensures bits == bits[..lo] + bits[lo..hi] + bits[hi..]
  {
  }

  lemma SplitDivision(c: bv32, bits: seq<bool>, lo: nat, hi: nat)
    requires lo <= hi <= |bits|
    ensures Divide(c, bits) == Divide(Divide(Divide(c, bits[..lo]), bits[lo..hi]), bits[hi..])
  {
    hide Divide;
    assert bits == (bits[..lo] + bits[lo..hi]) + bits[hi..];
    DivideConcat(c, bits[..lo] + bits[lo..hi], bits[hi..]);
    DivideConcat(c, bits[..lo], bits[lo..hi]);
  }

  lemma {:induction false} MessageBitsInjective(a: seq<bv8>, b: seq<bv8>)
    requires MessageBits(a) == MessageBits(b)
    ensures a == b
  {
    assert |a| == |b|;
    if a != [] {
      hide ByteBits;
      var x, y := MessageBits(a), MessageBits(b);
      assert x[..8] == ByteBits(a[0]) && y[..8] == ByteBits(b[0]);
      assert x[8..] == MessageBits(a[1..]) && y[8..] == MessageBits(b[1..]);
      ByteBitsInjective(a[0], b[0]);
      MessageBitsInjective(a[1..], b[1..]);
    }
  }

  lemma ByteBitsInjective(a: bv8, b: bv8)
    requires ByteBits(a) == ByteBits(b)
    ensures a == b
  {
    var s, t := ByteBits(a), ByteBits(b);
    assert s[0] == t[0] && s[1] == t[1] && s[2] == t[2] && s[3] == t[3];
    assert s[4] == t[4] && s[5] == t[5] && s[6] == t[6] && s[7] == t[7];
  }
}
