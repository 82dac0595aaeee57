/** The accumulating bit writer: bits collect in a 64-bit word whose low half is
    flushed to the buffer as soon as it is full. */
module BitWriting {
  import opened Bits
  import opened SizeBuffer

  /** A field width that the wire format uses. */
  type Width = w: int | 1 <= w <= 32 witness 1

  datatype Field = Field(value: UInt32, width: Width)

  /** What a field of a given width can carry of a value: too large a value
      becomes the largest one. */
  function Saturate(value: UInt32, width: nat): (r: UInt32)
    requires width <= 32
    ensures r < Pow2(width)
    ensures r <= value && (r < value ==> r + 1 == Pow2(width))
  {
    Pow2Mono(width, 32);
    Pow2Values();
    if value < Pow2(width) then value else Pow2(width) - 1
  }

  function FieldBits(value: UInt32, width: Width): (s: seq<bool>)
    ensures |s| == width
  {
    ToBits(Saturate(value, width), width)
  }

  /** The bits that a sequence of fields puts on the wire. */
  function Stream(fields: seq<Field>): seq<bool> {
    if fields == [] then [] else FieldBits(fields[0].value, fields[0].width) + Stream(fields[1..])
  }

  /** The bytes that a session of n bits occupies: an empty one still takes one. */
  function SessionBytes(n: nat): nat {
    if n == 0 then 1 else (n + 7) / 8
  }

  /** The least number of bytes, but at least one, that n bits fit in; what they do not use is zero. */
  lemma SessionBytesLeast(n: nat)
    ensures var r := SessionBytes(n); r >= 1 && 8 * r >= n && (r > 1 ==> 8 * (r - 1) < n)
    ensures |Zeros(n)| == n && true !in Zeros(n)
  {
  }

  lemma SessionBytesMono(m: nat, n: nat)
    requires m <= n
    ensures SessionBytes(m) <= SessionBytes(n)
  {
  }

  function Zeros(n: nat): seq<bool> {
    seq(n, _ => false)
  }

  /** A session's bits, filled up with zeros to whole bytes. */
  function Padded(bits: seq<bool>): seq<bool> {
    bits + Zeros(8 * SessionBytes(|bits|) - |bits|)
  }

  /** `pendingData.u8[i]` */
  function ByteAt(pending: UInt64, i: nat): Byte {
    Shr(pending, 8 * i) % 0x100
  }

  /** `(uint32)(1 << numbits) - 1`, the truncation happening before the subtraction. */
  function MaxValue(numbits: nat): UInt32 {
    (ToUInt32(Shl(1, numbits)) - 1) % 0x1_0000_0000
  }

  lemma MaxValueIsRow(numbits: Width)
    ensures MaxValue(numbits) == Pow2(numbits) - 1
  {
    hide Pow2, Low, Shl, ToUInt32;
    ShlOne(numbits);
    Pow2Values();
    if numbits == 32 {
      TopBitLost();
    } else {
      Pow2Less(numbits, 32);
      ToUInt32Fits(Pow2(numbits));
    }
  }

  lemma TopBitLost()
    ensures ToUInt32(Pow2(32)) == 0
  {
    hide Pow2, Low, ToUInt32;
    ToUInt32Bits(Pow2(32));
    LowTop(32);
  }

  /** Truncation drops a bit that lies just above the kept ones. */
  lemma {:induction false} LowTop(n: nat)
    ensures Low(Pow2(n), n) == 0
  {
    if n > 0 {
      LowTop(n - 1);
    }
  }

  lemma SamePrefix(s: seq<Byte>, t: seq<Byte>, start: nat, at: nat, end: nat)
    requires start <= at <= end <= |t| && at <= |s| && t[..at] == s[..at]
    ensures t[start..end] == s[start..at] + t[at..end]
  {
    assert t[start..at] == t[..at][start..] == s[..at][start..] == s[start..at];
  }

  class BitWriter {
    var pbuf: SizeBuf
    var pending: UInt64      // pendingData.u64
    var nCurOutputBit: nat

    ghost var start: nat              // where the session began
    ghost var lostAtStart: bool       // the buffer had overflowed before the session
    ghost var before: seq<Byte>       // the buffer when the session began
    ghost var sent: seq<bool>         // the bits written in this session

    /** The room that one session step may need when it may not overflow. */
    ghost predicate CanFlush()
      reads this, pbuf
    {
      nCurOutputBit < 32 || pbuf.HasSpace(4) || pbuf.allowOverflow
    }

    /** Room for n more bits of this session. */
    ghost predicate Room(n: nat)
      reads this, pbuf
    {
      pbuf.allowOverflow || 8 * start + |sent| + n <= 8 * pbuf.data.Length
    }

    ghost predicate Valid()
      reads this, pbuf, pbuf.data
    {
      && pbuf.Valid()
      && nCurOutputBit <= 63
      && pending < Pow2(nCurOutputBit)
      && |before| == pbuf.data.Length
      && (!lostAtStart ==> start <= |before|)
      && (if pbuf.overflowed then Lost() else Intact())
    }

    /** Nothing was lost so far, and the accumulator is not left empty. */
    ghost predicate Intact()
      requires pbuf.Valid() && !pbuf.overflowed && |before| == pbuf.data.Length && (!lostAtStart ==> start <= |before|)
      reads this, pbuf, pbuf.data
    {
      Held() && (pbuf.cursize > start ==> nCurOutputBit > 0)
    }

    /** The session does not fit, or began on a buffer that had overflowed. */
    ghost predicate Lost()
      requires |before| == pbuf.data.Length && (!lostAtStart ==> start <= |before|)
      reads this, pbuf, pbuf.data
    {
      if lostAtStart then pbuf.data[..] == before
      else start + SessionBytes(|sent|) > pbuf.data.Length && pbuf.data[..start] == before[..start]
    }

    /** The state in which the accumulator has space for another field. */
    ghost predicate Flushed()
      reads this, pbuf, pbuf.data
    {
      && pbuf.Valid()
      && nCurOutputBit < 32 && pending < Pow2(nCurOutputBit)
      && |before| == pbuf.data.Length
      && (!lostAtStart ==> start <= |before|)
      && if pbuf.overflowed then Lost() else Held()
    }

    /** Flushed bytes and pending bits are all that was sent. */
    ghost predicate Held()
      requires pbuf.Valid() && !pbuf.overflowed && |before| == pbuf.data.Length && (!lostAtStart ==> start <= |before|)
      reads this, pbuf, pbuf.data
    {
      && !lostAtStart
      && start <= pbuf.cursize
      && BytesToBits(pbuf.data[start..pbuf.cursize]) + ToBits(pending, nCurOutputBit) == sent
      && pbuf.data[..start] == before[..start]
    }

    constructor (buf: SizeBuf)
      requires buf.Valid()
      ensures Valid() && pbuf == buf && sent == [] && fresh(this)
      ensures start == buf.cursize && lostAtStart == buf.overflowed && before == buf.data[..]
    {
      pbuf := buf;
      pending := 0;
      nCurOutputBit := 0;
      start, lostAtStart, before, sent := buf.cursize, buf.overflowed, buf.data[..], [];
    }

    /** MSG_StartBitWriting */
    method StartBitWriting(buf: SizeBuf)
      requires buf.Valid()
      modifies this
      ensures Valid() && pbuf == buf && sent == []
      ensures start == buf.cursize && lostAtStart == buf.overflowed && before == buf.data[..]
    {
      nCurOutputBit := 0;
      pbuf := buf;
      pending := 0;
      start, lostAtStart, before, sent := buf.cursize, buf.overflowed, buf.data[..], [];
    }

    lemma RoomToFlush(n: nat)
      requires Valid() && Room(n) && n > 0
      ensures CanFlush()
    {
    }

    lemma LostByFlush()
      requires Valid() && nCurOutputBit >= 32 && !pbuf.overflowed && !pbuf.HasSpace(4)
      ensures start + SessionBytes(|sent|) > pbuf.data.Length
    {
      hide ToBits, BytesToBits, Pow2;
    }

    /** MSG_WBits_MaybeFlush */
    method MaybeFlush()
      requires Valid() && CanFlush()
      modifies this`pending, this`nCurOutputBit, pbuf`cursize, pbuf`overflowed, pbuf.data
      ensures Flushed()
      ensures old(pbuf.InBounds()) && pbuf.data.Length >= 8 ==> pbuf.InBounds()
      ensures old(pbuf.overflowed) ==> pbuf.overflowed && pbuf.data[..] == old(pbuf.data[..])
      ensures nCurOutputBit == if old(nCurOutputBit) < 32 then old(nCurOutputBit) else old(nCurOutputBit) - 32
    {
      if nCurOutputBit < 32 {
        return;
      }
      hide ToBits, BytesToBits, Pow2, Low, Shr, SessionBytes;
      FlushedHigh(pending, nCurOutputBit);
      PutWord();
      pending := Shr(pending, 32);
      nCurOutputBit := nCurOutputBit - 32;
    }

    /** The part of MSG_WBits_MaybeFlush that stores the low word of the accumulator. */
    method PutWord()
      requires Valid() && nCurOutputBit >= 32 && (pbuf.HasSpace(4) || pbuf.allowOverflow)
      modifies pbuf`cursize, pbuf`overflowed, pbuf.data
      ensures pbuf.Valid()
      ensures old(pbuf.InBounds()) && pbuf.data.Length >= 8 ==> pbuf.InBounds()
      ensures pbuf.overflowed ==> Lost() && (old(pbuf.overflowed) ==> pbuf.data[..] == old(pbuf.data[..]))
      ensures old(pbuf.overflowed) ==> pbuf.overflowed
      ensures !pbuf.overflowed ==>
                && !lostAtStart && start <= pbuf.cursize && pbuf.data[..start] == before[..start]
                && BytesToBits(pbuf.data[start..pbuf.cursize]) + ToBits(Shr(pending, 32), nCurOutputBit - 32) == sent
    {
      hide ToBits, BytesToBits, Pow2, Low, Shr, WordBytes, SessionBytes;
      if !pbuf.overflowed && !pbuf.HasSpace(4) {
        LostByFlush();
      }
      var dest := pbuf.GetSpace(4);
      if !pbuf.overflowed {
        StoreWord(pbuf.data, dest, ToUInt32(pending));
        FlushedWord(old(pbuf.data[..]), start, dest, pending, nCurOutputBit);
      }
    }

    /** MSG_WriteBits */
    method WriteBits(data: UInt32, numbits: Width)
      requires Valid() && Room(numbits)
      modifies this`pending, this`nCurOutputBit, this`sent, pbuf`cursize, pbuf`overflowed, pbuf.data
      ensures Valid()
      ensures old(pbuf.InBounds()) && pbuf.data.Length >= 8 ==> pbuf.InBounds()
      ensures sent == old(sent) + FieldBits(data, numbits)
      ensures old(pbuf.overflowed) ==> pbuf.overflowed && pbuf.data[..] == old(pbuf.data[..])
    {
      hide ToBits, BytesToBits, Pow2, Low, Shr, Shl, Or, MaxValue, SessionBytes;
      var maxval := MaxValue(numbits);
      MaxValueIsRow(numbits);
      var value := if data > maxval then maxval else data;
      assert value == Saturate(data, numbits);

      assert CanFlush() by { RoomToFlush(numbits); }
      MaybeFlush();
      Accumulate(value, numbits, data);
    }

    /** Puts a field behind the pending bits. */
    method Accumulate(value: UInt32, numbits: Width, ghost data: UInt32)
      requires Flushed() && value == Saturate(data, numbits)
      modifies this`pending, this`nCurOutputBit, this`sent
      ensures Valid() && sent == old(sent) + FieldBits(data, numbits)
    {
      hide ToBits, BytesToBits, Pow2, Low, Shl, Or, MaxValue, SessionBytes;
      MaxValueIsRow(numbits);
      AccumulatedField(pending, nCurOutputBit, value, numbits);
      SessionBytesMono(|sent|, |sent| + numbits);
      pending := Or(pending, Low(Shl(value, nCurOutputBit), 64));
      nCurOutputBit := nCurOutputBit + numbits;
      sent := sent + FieldBits(data, numbits);
    }

    /** MSG_WriteOneBit */
    method WriteOneBit(nValue: UInt32)
      requires Valid() && Room(1)
      modifies this`pending, this`nCurOutputBit, this`sent, pbuf`cursize, pbuf`overflowed, pbuf.data
      ensures Valid()
      ensures old(pbuf.InBounds()) && pbuf.data.Length >= 8 ==> pbuf.InBounds()
      ensures sent == old(sent) + [nValue != 0]
      ensures old(pbuf.overflowed) ==> pbuf.overflowed && pbuf.data[..] == old(pbuf.data[..])
    {
      OneBit(nValue);
      WriteBits(nValue, 1);
    }

    /** The bytes that MSG_EndBitWriting still has to put out. */
    function TailBytes(): nat
      reads this
    {
      var bytesNeed := nCurOutputBit / 8;
      if nCurOutputBit % 8 != 0 || bytesNeed == 0 then bytesNeed + 1 else bytesNeed
    }

    /** MSG_EndBitWriting. The session either is in the buffer as a whole, or the
        overflow flag is up. */
    method EndBitWriting()
      requires Valid() && (pbuf.HasSpace(TailBytes()) || pbuf.allowOverflow)
      modifies pbuf`cursize, pbuf`overflowed, pbuf.data
      ensures pbuf.Valid()
      ensures old(pbuf.InBounds()) && pbuf.data.Length >= 8 ==> pbuf.InBounds()
      ensures pbuf.overflowed <==> lostAtStart || start + SessionBytes(|sent|) > pbuf.data.Length
      ensures !pbuf.overflowed ==>
                && pbuf.cursize == start + SessionBytes(|sent|)
                && BytesToBits(pbuf.data[start..pbuf.cursize]) == Padded(sent)
      ensures |before| == pbuf.data.Length && (!lostAtStart ==> start <= |before|)
      ensures if lostAtStart then pbuf.data[..] == before else pbuf.data[..start] == before[..start]
      ensures old(pbuf.overflowed) ==> pbuf.data[..] == old(pbuf.data[..])
    {
      hide ToBits, BytesToBits, Pow2, Shr, Padded;
      var bytesNeed := nCurOutputBit / 8;
      if nCurOutputBit % 8 != 0 || bytesNeed == 0 {
        bytesNeed := bytesNeed + 1;
      }
      ghost var cursize := pbuf.cursize;
      var at := pbuf.GetSpace(bytesNeed);
      if !pbuf.overflowed {
        PutPending(at, bytesNeed);
        ghost var data, tail := old(pbuf.data[..]), pbuf.data[at..at + bytesNeed];
        SamePrefix(data, pbuf.data[..], start, at, pbuf.cursize);
        PaddedSession(data[start..at], tail, pending, nCurOutputBit, sent);
      }
    }

    /** Copies the first n bytes of the accumulator to the buffer. */
    method PutPending(at: nat, n: nat)
      requires at + n <= pbuf.data.Length && n <= 8
      modifies pbuf.data
      ensures BytesToBits(pbuf.data[at..at + n]) == ToBits(pending, 8 * n)
      ensures pbuf.data[..at] == old(pbuf.data[..at]) && pbuf.data[at + n..] == old(pbuf.data[at + n..])
    {
      hide ToBits, Shr;
      for i := 0 to n
        invariant BytesToBits(pbuf.data[at..at + i]) == ToBits(pending, 8 * i)
        invariant pbuf.data[..at] == old(pbuf.data[..at]) && pbuf.data[at + n..] == old(pbuf.data[at + n..])
      {
        ghost var done := pbuf.data[at..at + i];
        NextByte(done, pending, i);
        pbuf.data[at + i] := ByteAt(pending, i);
        assert pbuf.data[at..at + i + 1] == done + [ByteAt(pending, i)];
      }
    }
  }

  lemma OneBit(v: UInt32)
    ensures FieldBits(v, 1) == [v != 0]
  {
    assert Pow2(1) == 2;
    assert ToBits(Saturate(v, 1), 1) == [Saturate(v, 1) % 2 == 1] + ToBits(Saturate(v, 1) / 2, 0);
  }

  /** One more field in the accumulator. */
  lemma AccumulatedField(pending: nat, n: nat, value: nat, w: nat)
    requires n + w <= 64 && pending < Pow2(n) && value < Pow2(w)
    ensures var pending' := Or(pending, Low(Shl(value, n), 64));
            && pending' < Pow2(n + w)
            && pending' < 0x1_0000_0000_0000_0000
            && ToBits(pending', n + w) == ToBits(pending, n) + ToBits(value, w)
  {
    hide ToBits, Pow2, Low, Shl, Or;
    ShlBound(value, w, n);
    Pow2Mono(n + w, 64);
    LowFits(Shl(value, n), 64);
    OrShl(pending, n, value, w);
    Pow2Values();
  }

  /** What stays in the accumulator after a flush. */
  lemma FlushedHigh(pending: UInt64, n: nat)
    requires 32 <= n <= 64 && pending < Pow2(n)
    ensures Shr(pending, 32) < Pow2(n - 32) && Shr(pending, 32) < 0x1_0000_0000_0000_0000
  {
    hide Pow2, Shr;
    ShrBound(pending, n - 32, 32);
    Pow2Mono(n - 32, 64);
    Pow2Values();
  }

  /** One flush moves 32 bits from the accumulator into the buffer. */
  lemma FlushedWord(data: seq<Byte>, start: nat, at: nat, pending: UInt64, n: nat)
    requires start <= at <= at + 4 <= |data| && n >= 32
    ensures var data' := Spliced(data, at, WordBytes(ToUInt32(pending)));
            && data'[..start] == data[..start]
            && BytesToBits(data'[start..at + 4]) + ToBits(Shr(pending, 32), n - 32)
               == BytesToBits(data[start..at]) + ToBits(pending, n)
  {
    hide ToBits, BytesToBits, Pow2, Low, Shr, WordBytes, ToUInt32;
    var w := WordBytes(ToUInt32(pending));
    var data' := Spliced(data, at, w);
    assert data'[start..at + 4] == data[start..at] + w;
    BytesToBitsConcat(data[start..at], w);
    WordBytesToBits(ToUInt32(pending));
    ToUInt32Bits(pending);
    SplitBits(pending, 32, n - 32);
  }

  lemma PaddedSession(flushed: seq<Byte>, tail: seq<Byte>, pending: nat, n: nat, sent: seq<bool>)
    requires BytesToBits(flushed) + ToBits(pending, n) == sent
    requires pending < Pow2(n) && n <= 8 * |tail| && BytesToBits(tail) == ToBits(pending, 8 * |tail|)
    requires |tail| == (if n == 0 then 1 else (n + 7) / 8) && (n == 0 ==> flushed == [])
    ensures |flushed| + |tail| == SessionBytes(|sent|)
    ensures BytesToBits(flushed + tail) == Padded(sent)
  {
    hide *;
    SessionLength(|flushed|, n, |tail|, |sent|);
    TailBits(pending, n, 8 * |tail|);
    PaddedParts(BytesToBits(flushed), ToBits(pending, n), 8 * |tail| - n, BytesToBits(tail), sent);
    BytesToBitsConcat(flushed, tail);
  }

  lemma PaddedParts(a: seq<bool>, b: seq<bool>, z: nat, bc: seq<bool>, sent: seq<bool>)
    requires bc == b + Zeros(z) && a + b == sent && |sent| + z == 8 * SessionBytes(|sent|)
    ensures a + bc == Padded(sent)
  {
    hide *;
    PaddedWith(sent, z);
    Associate(a, b, Zeros(z));
  }

  lemma PaddedWith(sent: seq<bool>, z: nat)
    requires |sent| + z == 8 * SessionBytes(|sent|)
    ensures Padded(sent) == sent + Zeros(z)
  {
  }

  lemma SessionLength(flushed: nat, n: nat, tail: nat, size: nat)
    requires size == 8 * flushed + n
    requires tail == (if n == 0 then 1 else (n + 7) / 8) && (n == 0 ==> flushed == 0)
    ensures flushed + tail == SessionBytes(size)
  {
  }

  lemma NextByte(tail: seq<Byte>, pending: UInt64, i: nat)
    requires BytesToBits(tail) == ToBits(pending, 8 * i)
    ensures BytesToBits(tail + [ByteAt(pending, i)]) == ToBits(pending, 8 * (i + 1))
  {
    hide ToBits, BytesToBits, Shr;
    var b, rest := ByteAt(pending, i), Shr(pending, 8 * i);
    BytesToBitsConcat(tail, [b]);
    OneByteToBits(b);
    SplitBits(pending, 8 * i, 8);
    ByteThenBits(b, rest / 0x100, 0);
  }

  /** Above its pending bits the accumulator holds zeros. */
  lemma TailBits(pending: nat, n: nat, m: nat)
    requires pending < Pow2(n) && n <= m
    ensures ToBits(pending, m) == ToBits(pending, n) + Zeros(m - n)
  {
    assert Pow2(0) == 1;
    hide ToBits, Pow2, Shr;
    SplitBits(pending, n, m - n);
    ShrBound(pending, 0, n);
    ZeroBits(m - n);
  }

  lemma {:induction false} ZeroBits(n: nat)
    ensures ToBits(0, n) == Zeros(n)
  {
    if n > 0 {
      ZeroBits(n - 1);
    }
  }
}
