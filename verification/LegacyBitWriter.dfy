/** The older bit writer, which shifts every field straight into the buffer. */
module LegacyBitWriting {
  import opened Bits
  import opened SizeBuffer
  import opened BitWriting

  /** `*(uint32 *)&data[at]` */
  function WordAt(data: seq<Byte>, at: nat): UInt32
    requires at + 4 <= |data|
  {
    Word(data[at], data[at + 1], data[at + 2], data[at + 3])
  }

  /** ROWBITTABLE[n] */
  function RowBits(n: nat): UInt32
    requires n <= 32
  {
    Pow2Mono(n, 32);
    Pow2Values();
    Pow2(n) - 1
  }

  /** How far the word stores reach that put a field of width w at bit p: one word from the
      byte of bit p on, or two if the field goes on behind the first. */
  function StoreEnd(p: nat, w: Width): nat {
    p / 8 + if p % 8 + w > 32 then 8 else 4
  }

  lemma StoreEndAt(start: nat, at: nat, n: nat, p: nat, w: Width)
    requires start <= at && p == 8 * (at - start) + n && n < 8
    ensures start + StoreEnd(p, w) == at + if n + w > 32 then 8 else 4
  {
    assert p / 8 == at - start && p % 8 == n;
  }

  function Max(a: nat, b: nat): (r: nat)
    ensures r >= a && r >= b
  {
    if a < b then b else a
  }

  class LegacyBitWriter {
    var pbuf: SizeBuf
    var nCurOutputBit: nat
    var pOutByte: nat  // an index into the buffer

    ghost var start: nat
    ghost var before: seq<Byte>
    ghost var sent: seq<bool>
    ghost var touched: nat  // one behind the furthest byte stored in this session

    /** The in-progress byte is the first one not yet reserved, and it holds the last
        nCurOutputBit bits sent. */
    ghost predicate Valid()
      reads this, pbuf, pbuf.data
    {
      && pbuf.Valid() && !pbuf.overflowed
      && |before| == pbuf.data.Length
      && start <= pOutByte == pbuf.cursize < pbuf.data.Length
      && (nCurOutputBit == 0 ==> pOutByte == start)
      && nCurOutputBit <= 8
      && InPlace(pbuf.data[..], start, pOutByte, nCurOutputBit, sent)
      && Untouched()
    }

    /** Memory in front of the session and behind its furthest store is as it was. */
    ghost predicate Untouched()
      reads this, pbuf, pbuf.data
    {
      && start <= touched <= pbuf.data.Length == |before|
      && (forall i :: 0 <= i < start || touched <= i < |before| ==> pbuf.data[i] == before[i])
    }

    /** MSG_StartBitWriting */
    constructor (buf: SizeBuf)
      requires buf.Valid() && !buf.overflowed && buf.HasSpace(1)
      ensures Valid() && pbuf == buf && sent == []
      ensures start == touched == buf.cursize && before == buf.data[..]
    {
      nCurOutputBit := 0;
      pbuf := buf;
      pOutByte := buf.cursize;
      start, before, sent := buf.cursize, buf.data[..], [];
      touched := buf.cursize;
    }

    /** Between two fields, with room for a next one of n bits: a full byte has been left
        behind, but it is not reserved yet. */
    ghost predicate Ready(surplusBytes: nat, n: nat)
      reads this, pbuf, pbuf.data
    {
      && pbuf.Valid() && !pbuf.overflowed
      && |before| == pbuf.data.Length
      && surplusBytes <= 1 && pbuf.cursize + surplusBytes == pOutByte
      && nCurOutputBit < 8
      && pOutByte + (if nCurOutputBit + n > 32 then 8 else 4) <= pbuf.data.Length
      && InPlace(pbuf.data[..], start, pOutByte, nCurOutputBit, sent)
      && Untouched()
    }

    /** MSG_WriteBits, where its word stores stay inside the buffer. */
    method WriteBits(value: UInt32, numbits: Width)
      requires Valid()
      requires start + StoreEnd(|sent|, numbits) <= pbuf.data.Length
      modifies this`nCurOutputBit, this`pOutByte, this`sent, this`touched, pbuf`cursize, pbuf`overflowed, pbuf.data
      ensures Valid()
      ensures sent == old(sent) + FieldBits(value, numbits)
      ensures touched == Max(old(touched), start + StoreEnd(old(|sent|), numbits))
    {
      hide ToBits, BytesToBits, Pow2, FieldBits, StoreEnd;
      var data := Limited(value, numbits);
      var surplusBytes := 0;
      if nCurOutputBit >= 8 {
        StoreEndAt(start, pOutByte + 1, 0, |sent|, numbits);
        NextByteInPlace(pbuf.data[..], start, pOutByte, sent);
        surplusBytes := 1;
        nCurOutputBit := 0;
        pOutByte := pOutByte + 1;
      }

      StoreEndAt(start, pOutByte, nCurOutputBit, |sent|, numbits);
      var bits := numbits + nCurOutputBit;
      if bits <= 32 {
        PutInOneWord(data, numbits, surplusBytes);
      } else {
        PutInTwoWords(data, numbits, surplusBytes);
      }
    }

    /** The limiting step of MSG_WriteBits. */
    method Limited(value: UInt32, numbits: Width) returns (data: UInt32)
      ensures FieldBits(value, numbits) == ToBits(data, numbits)
    {
      hide ToBits, Pow2;
      Pow2Values();
      data := value;
      if numbits < 32 {
        if data >= Pow2(numbits) {
          data := RowBits(numbits);
        }
      }
    }

    /** The branch of MSG_WriteBits for a field that ends within one word. */
    method PutInOneWord(data: UInt32, numbits: Width, surplusBytes: nat)
      requires Ready(surplusBytes, numbits) && numbits + nCurOutputBit <= 32
      modifies this`nCurOutputBit, this`pOutByte, this`sent, this`touched, pbuf`cursize, pbuf`overflowed, pbuf.data
      ensures Valid()
      ensures sent == old(sent) + ToBits(data, numbits)
      ensures touched == Max(old(touched), old(pOutByte) + if numbits + old(nCurOutputBit) > 32 then 8 else 4)
    {
      hide ToBits, BytesToBits, Pow2, Low, Shl, Or, And, ToUInt32, WordBytes, WordAt, Spliced, Merged;
      var bits := numbits + nCurOutputBit;
      var bytesToWrite, bitsLeft := bits / 8, bits % 8;
      if bitsLeft == 0 {
        bytesToWrite := bytesToWrite - 1;
      }
      var _ := pbuf.GetSpace(surplusBytes + bytesToWrite);
      if !pbuf.overflowed {
        ghost var memory, k, n := pbuf.data[..], pOutByte, nCurOutputBit;
        StoreMerged(data);
        nCurOutputBit := 8;
        if bitsLeft != 0 {
          nCurOutputBit := bitsLeft;
        }
        pOutByte := pOutByte + bytesToWrite;
        OneWordField(memory, start, k, n, sent, data, numbits, pOutByte, nCurOutputBit);
        hide InPlace;
        sent := sent + ToBits(data, numbits);
      }
    }

    /** The branch of MSG_WriteBits for a field that straddles two words. */
    method PutInTwoWords(data: UInt32, numbits: Width, surplusBytes: nat)
      requires Ready(surplusBytes, numbits) && numbits + nCurOutputBit > 32
      modifies this`nCurOutputBit, this`pOutByte, this`sent, this`touched, pbuf`cursize, pbuf`overflowed, pbuf.data
      ensures Valid()
      ensures sent == old(sent) + ToBits(data, numbits)
      ensures touched == Max(old(touched), old(pOutByte) + if numbits + old(nCurOutputBit) > 32 then 8 else 4)
    {
      hide ToBits, BytesToBits, Pow2, Low, Shl, Or, And, Shr, ToUInt32, WordBytes, WordAt, Spliced, Merged;
      var bits := numbits + nCurOutputBit;
      var _ := pbuf.GetSpace(surplusBytes + 4);
      if !pbuf.overflowed {
        ghost var memory, k, n := pbuf.data[..], pOutByte, nCurOutputBit;
        StoreMerged(data);
        var leftBits := 32 - nCurOutputBit;
        nCurOutputBit := bits % 8;
        pOutByte := pOutByte + 4;
        ShrIsUInt32(data, leftBits);
        Store(Shr(data, leftBits));
        TwoWordField(memory, start, k, n, sent, data, numbits);
        hide InPlace;
        sent := sent + ToBits(data, numbits);
      }
    }

    /** The store that keeps the bits already in the byte and puts the field behind them. */
    method StoreMerged(data: UInt32)
      requires pbuf.Valid() && Untouched() && start <= pOutByte && pOutByte + 4 <= pbuf.data.Length && nCurOutputBit < 8
      modifies this`touched, pbuf.data
      ensures pbuf.data[..] == Spliced(old(pbuf.data[..]), pOutByte, WordBytes(Merged(old(pbuf.data[..]), pOutByte, nCurOutputBit, data)))
      ensures Untouched() && touched == Max(old(touched), pOutByte + 4)
    {
      hide ToBits, Low, Shl, Or, And, ToUInt32, WordBytes, WordAt, Spliced;
      ShiftedIn(WordAt(pbuf.data[..], pOutByte), nCurOutputBit, data);
      Store(Or(ToUInt32(Shl(data, nCurOutputBit)), And(WordAt(pbuf.data[..], pOutByte), RowBits(nCurOutputBit))));
    }

    /** A word store at the output position. */
    method Store(w: UInt32)
      requires pbuf.Valid() && Untouched() && start <= pOutByte && pOutByte + 4 <= pbuf.data.Length
      modifies this`touched, pbuf.data
      ensures pbuf.data[..] == Spliced(old(pbuf.data[..]), pOutByte, WordBytes(w))
      ensures Untouched() && touched == Max(old(touched), pOutByte + 4)
    {
      hide WordBytes, Spliced;
      StoreWord(pbuf.data, pOutByte, w);
      touched := Max(touched, pOutByte + 4);
    }

    /** MSG_EndBitWriting */
    method EndBitWriting()
      requires Valid()
      modifies this`touched, pbuf`cursize, pbuf`overflowed, pbuf.data
      ensures pbuf.Valid() && !pbuf.overflowed
      ensures pbuf.cursize == start + SessionBytes(|sent|)
      ensures BytesToBits(pbuf.data[start..pbuf.cursize]) == Padded(sent)
      ensures Untouched() && touched == Max(old(touched), start + SessionBytes(|sent|))
    {
      hide ToBits, BytesToBits, Pow2, Low, Shr, And;
      if !pbuf.overflowed {
        ghost var memory := pbuf.data[..];
        MaskedByte(memory, start, pOutByte, nCurOutputBit);
        pbuf.data[pOutByte] := And(pbuf.data[pOutByte], Shr(255, 8 - nCurOutputBit));
        touched := Max(touched, pOutByte + 1);
        var _ := pbuf.GetSpace(1);
        assert pbuf.data[start..pbuf.cursize] == memory[start..pOutByte] + [pbuf.data[pOutByte]];
      }
    }
  }

  /** The bits sent are in memory from byte `start` on, the last n of them in byte `at`. */
  ghost predicate InPlace(memory: seq<Byte>, start: nat, at: nat, n: nat, sent: seq<bool>) {
    && start <= at < |memory| && n <= 8
    && |sent| == 8 * (at - start) + n
    && sent <= BytesToBits(memory[start..])
  }

  lemma NextByteInPlace(memory: seq<Byte>, start: nat, at: nat, sent: seq<bool>)
    requires InPlace(memory, start, at, 8, sent) && at + 1 < |memory|
    ensures InPlace(memory, start, at + 1, 0, sent)
  {
  }

  // ----- what the stores do to the bits of memory

  /** The bits of memory from `start` on, with those from byte `at` on replaced. */
  function SplicedBits(memory: seq<bool>, at: nat, bits: seq<bool>): (r: seq<bool>)
    requires at + |bits| <= |memory|
  {
    memory[..at] + bits + memory[at + |bits|..]
  }

  lemma StoreBits(memory: seq<Byte>, start: nat, at: nat, bytes: seq<Byte>)
    requires start <= at && at + |bytes| <= |memory|
    ensures BytesToBits(Spliced(memory, at, bytes)[start..])
            == SplicedBits(BytesToBits(memory[start..]), 8 * (at - start), BytesToBits(bytes))
  {
    hide BytesToBits, SplicedBits, Spliced;
    var lo, mid, hi := memory[start..at], memory[at..at + |bytes|], memory[at + |bytes|..];
    SplicedSuffix(memory, start, at, bytes);
    JoinBits(lo, bytes, hi);
    JoinBits(lo, mid, hi);
    SplicedParts(BytesToBits(lo), BytesToBits(mid), BytesToBits(hi), BytesToBits(bytes));
  }

  lemma SplicedSuffix(memory: seq<Byte>, start: nat, at: nat, bytes: seq<Byte>)
    requires start <= at && at + |bytes| <= |memory|
    ensures Spliced(memory, at, bytes)[start..] == memory[start..at] + bytes + memory[at + |bytes|..]
    ensures memory[start..] == memory[start..at] + memory[at..at + |bytes|] + memory[at + |bytes|..]
  {
  }

  lemma JoinBits(a: seq<Byte>, b: seq<Byte>, c: seq<Byte>)
    ensures BytesToBits(a + b + c) == BytesToBits(a) + BytesToBits(b) + BytesToBits(c)
  {
    hide BytesToBits;
    BytesToBitsConcat(a + b, c);
    BytesToBitsConcat(a, b);
  }

  lemma SplicedParts(lo: seq<bool>, mid: seq<bool>, hi: seq<bool>, bits: seq<bool>)
    requires |mid| == |bits|
    ensures SplicedBits(lo + mid + hi, |lo|, bits) == lo + bits + hi
  {
  }

  /** The word that MSG_WriteBits stores over the n bits it keeps. */
  function Merged(memory: seq<Byte>, at: nat, n: nat, data: UInt32): UInt32
    requires at + 4 <= |memory| && n < 8
  {
    ShiftedIn(WordAt(memory, at), n, data);
    Or(ToUInt32(Shl(data, n)), And(WordAt(memory, at), RowBits(n)))
  }

  /** The first store keeps the n bits already in the byte, puts as much of the field
      after them as the word has room for, and touches nothing before. */
  lemma FieldInWord(memory: seq<Byte>, start: nat, at: nat, n: nat, sent: seq<bool>, data: UInt32, room: nat)
    requires start <= at && at + 4 <= |memory| && n < 8 && room <= 32 - n
    requires |sent| == 8 * (at - start) + n && sent <= BytesToBits(memory[start..])
    ensures sent + ToBits(data, room)
            <= BytesToBits(Spliced(memory, at, WordBytes(Merged(memory, at, n, data)))[start..])
  {
    hide ToBits, BytesToBits, Pow2, Low, Shl, Or, And, Shr, ToUInt32, WordBytes, WordAt;
    var w := Merged(memory, at, n, data);
    StoreBits(memory, start, at, WordBytes(w));
    WordBytesToBits(w);
    ShiftedIn(WordAt(memory, at), n, data);
    SplitBits(data, room, 32 - n - room);
    KeptBits(memory, start, at, n);
  }

  lemma OneWordField(memory: seq<Byte>, start: nat, at: nat, n: nat, sent: seq<bool>, data: UInt32, numbits: Width,
                     at': nat, n': nat)
    requires InPlace(memory, start, at, n, sent) && at + 4 <= |memory| && n < 8 && n + numbits <= 32
    requires at <= at' && n + numbits == 8 * (at' - at) + n' && 1 <= n' <= 8
    ensures InPlace(Spliced(memory, at, WordBytes(Merged(memory, at, n, data))), start, at', n', sent + ToBits(data, numbits))
  {
    hide ToBits, BytesToBits, WordBytes, Merged, Spliced;
    FieldInWord(memory, start, at, n, sent, data, numbits);
  }

  lemma TwoWordField(memory: seq<Byte>, start: nat, at: nat, n: nat, sent: seq<bool>, data: UInt32, numbits: Width)
    requires InPlace(memory, start, at, n, sent) && at + 8 <= |memory| && n < 8 && n + numbits > 32
    ensures Shr(data, 32 - n) < 0x1_0000_0000
    ensures var memory1 := Spliced(memory, at, WordBytes(Merged(memory, at, n, data)));
            InPlace(Spliced(memory1, at + 4, WordBytes(Shr(data, 32 - n))), start, at + 4, n + numbits - 32,
                    sent + ToBits(data, numbits))
  {
    hide ToBits, BytesToBits, Shr, WordBytes, Merged, Spliced;
    FieldInWord(memory, start, at, n, sent, data, 32 - n);
    ShrIsUInt32(data, 32 - n);
    var memory1 := Spliced(memory, at, WordBytes(Merged(memory, at, n, data)));
    RestInWord(memory1, start, at + 4, sent + ToBits(data, 32 - n), data, numbits, 32 - n);
  }

  /** The word that a store writes, bit by bit: n old bits, then the field. */
  lemma ShiftedIn(old32: UInt32, n: nat, data: UInt32)
    requires n < 8
    ensures ToBits(Or(ToUInt32(Shl(data, n)), And(old32, RowBits(n))), 32) == ToBits(old32, n) + ToBits(data, 32 - n)
    ensures Or(ToUInt32(Shl(data, n)), And(old32, RowBits(n))) < 0x1_0000_0000
  {
    hide ToBits, Pow2, Low, Shl, Or, And, ToUInt32;
    var kept := And(old32, RowBits(n));
    AndMask(old32, n);
    LowBits(old32, n, n);
    ShlLow(data, n, 32);
    ToUInt32Bits(Shl(data, n));
    var fits := Low(data, 32 - n);
    LowBits(data, 32 - n, 32 - n);
    OrShl(kept, n, fits, 32 - n);
    OrCommutes(kept, Shl(fits, n));
    Pow2Values();
  }

  /** Truncating a shifted word drops the bits that the shift pushed out. */
  lemma {:induction false} ShlLow(v: nat, n: nat, m: nat)
    requires n <= m
    ensures Low(Shl(v, n), m) == Shl(Low(v, m - n), n)
  {
    if n > 0 {
      ShlLow(v, n - 1, m - 1);
      assert Shl(v, n) / 2 == Shl(v, n - 1);
    }
  }

  /** The low bits of the word at `at` are those of the byte there. */
  lemma KeptBits(memory: seq<Byte>, start: nat, at: nat, n: nat)
    requires start <= at && at + 4 <= |memory| && n <= 8
    ensures ToBits(WordAt(memory, at), n) == BytesToBits(memory[start..])[8 * (at - start)..8 * (at - start) + n]
  {
    hide ToBits, BytesToBits;
    var lo, mid, hi := memory[start..at], memory[at..at + 4], memory[at + 4..];
    assert memory[start..] == lo + mid + hi;
    JoinBits(lo, mid, hi);
    assert mid == [memory[at], memory[at + 1], memory[at + 2], memory[at + 3]];
    WordToBits(memory[at], memory[at + 1], memory[at + 2], memory[at + 3]);
    SplitBits(WordAt(memory, at), n, 32 - n);
  }

  lemma ShrIsUInt32(data: UInt32, n: nat)
    ensures Shr(data, n) < 0x1_0000_0000
  {
    ShrLess(data, n);
  }

  lemma {:induction false} ShrLess(v: nat, n: nat)
    ensures Shr(v, n) <= v
  {
    if n > 0 {
      ShrLess(v / 2, n - 1);
    }
  }

  /** The second store of a field that straddles two words. */
  lemma RestInWord(memory: seq<Byte>, start: nat, at: nat, sent: seq<bool>, data: UInt32, numbits: Width, leftBits: nat)
    requires start <= at && at + 4 <= |memory| && leftBits <= numbits
    requires |sent| == 8 * (at - start) && sent <= BytesToBits(memory[start..])
    requires |sent| >= leftBits && sent[|sent| - leftBits..] == ToBits(data, leftBits)
    ensures Shr(data, leftBits) < 0x1_0000_0000
    ensures sent[..|sent| - leftBits] + ToBits(data, numbits)
            <= BytesToBits(Spliced(memory, at, WordBytes(Shr(data, leftBits)))[start..])
  {
    hide ToBits, BytesToBits, Shr, WordBytes, Spliced;
    ShrIsUInt32(data, leftBits);
    var rest := Shr(data, leftBits);
    StoreBits(memory, start, at, WordBytes(rest));
    WordBytesToBits(rest);
    SplitBits(data, leftBits, numbits - leftBits);
    SplitBits(rest, numbits - leftBits, 32 - numbits + leftBits);
    assert sent == sent[..|sent| - leftBits] + ToBits(data, leftBits);
  }

  /** Masking the last byte leaves the bits sent, and zeros above them. */
  lemma MaskedByte(memory: seq<Byte>, start: nat, at: nat, n: nat)
    requires start <= at < |memory| && n <= 8
    ensures And(memory[at], Shr(255, 8 - n)) < 0x100
    ensures BytesToBits(memory[start..at] + [And(memory[at], Shr(255, 8 - n))])
            == BytesToBits(memory[start..])[..8 * (at - start) + n] + Zeros(8 - n)
  {
    hide ToBits, BytesToBits, Pow2, Low, Shr, And;
    ShrOnes(n, 8 - n);
    Pow2Values();
    var b := memory[at];
    AndMask(b, n);
    LowBits(b, n, n);
    Pow2Mono(n, 8);
    TailBits(Low(b, n), n, 8);
    var lo, hi := memory[start..at], memory[at + 1..];
    assert memory[start..] == lo + [b] + hi;
    JoinBits(lo, [b], hi);
    OneByteToBits(b);
    SplitBits(b, n, 8 - n);
    BytesToBitsConcat(lo, [And(b, Shr(255, 8 - n))]);
    OneByteToBits(And(b, Shr(255, 8 - n)));
  }

  lemma {:induction false} ShrOnes(n: nat, k: nat)
    ensures Shr(Pow2(n + k) - 1, k) == Pow2(n) - 1
  {
    if k > 0 {
      ShrOnes(n, k - 1);
      assert (Pow2(n + k) - 1) / 2 == Pow2(n + k - 1) - 1;
    }
  }
}
