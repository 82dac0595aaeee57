/** The bit reader: whole words are loaded at the read position, shifted and masked. */
module BitReading {
  import opened Bits
  import opened SizeBuffer
  import opened BitWriting
  import opened LegacyBitWriting

  class BitReader {
    var msg_readcount: nat
    var msg_badread: bool
    var pbuf: SizeBuf?
    var nMsgReadCount: nat
    var nBitFieldReadStartByte: nat
    var nBytesRead: nat
    var nCurInputBit: nat
    var pInByte: nat  // an index into the buffer

    /** What a load finds behind the buffer's memory. Nothing is known about it. */
    const beyond: nat -> Byte

    constructor (beyond: nat -> Byte)
      ensures msg_readcount == 0 && !msg_badread && pbuf == null
    {
      this.beyond := beyond;
      msg_readcount, msg_badread, pbuf := 0, false, null;
      nMsgReadCount, nBitFieldReadStartByte, nBytesRead, nCurInputBit, pInByte := 0, 0, 0, 0, 0;
    }

    ghost var failedBefore: bool  // reading had failed before this bit field was begun
    ghost var requested: nat      // the bits asked for since then

    /** The bits between the start of the bit field and the end of the message. */
    ghost function Payload(): seq<bool>
      requires pbuf != null && pbuf.InBounds()
      reads `pbuf, `nBitFieldReadStartByte, pbuf, pbuf.data
    {
      if nBitFieldReadStartByte < pbuf.cursize
      then BytesToBits(pbuf.data[nBitFieldReadStartByte..pbuf.cursize])
      else []
    }

    lemma PayloadLength()
      requires pbuf != null && pbuf.InBounds()
      ensures |Payload()| == if nBitFieldReadStartByte < pbuf.cursize then 8 * (pbuf.cursize - nBitFieldReadStartByte) else 0
    {
    }

    /** Reading has failed exactly if more was asked for than the message holds. */
    ghost predicate Valid()
      reads this, pbuf, if pbuf == null then {} else {pbuf.data}
    {
      && pbuf != null && pbuf.InBounds()
      && pInByte == nBitFieldReadStartByte + nBytesRead
      && nMsgReadCount == pInByte + 1
      && nCurInputBit <= 8
      && (msg_badread <==> failedBefore || requested > |Payload()| || Payload() == [])
      && (!msg_badread ==>
            && nMsgReadCount <= pbuf.cursize
            && (nCurInputBit == 0 ==> nBytesRead == 0)
            && Position() == requested)
    }

    /** The bits of the message that have not been read. */
    ghost function Rest(): seq<bool>
      requires Valid()
      reads this, pbuf, if pbuf == null then {} else {pbuf.data}
    {
      if msg_badread then [] else Payload()[Position()..]
    }

    /** MSG_CurrentBit */
    function CurrentBit(): nat
      reads this
    {
      if pbuf != null then Position() else 8 * msg_readcount
    }

    /** The bits read since the start of the bit field. */
    function Position(): nat
      reads `nCurInputBit, `nBytesRead
    {
      nCurInputBit + 8 * nBytesRead
    }

    /** MSG_StartBitReading */
    method StartBitReading(buf: SizeBuf)
      requires buf.InBounds()
      modifies this
      ensures Valid() && pbuf == buf && Position() == 0 && requested == 0
      ensures msg_readcount == old(msg_readcount) == nBitFieldReadStartByte
      ensures failedBefore == old(msg_badread)
    {
      nCurInputBit := 0;
      nBytesRead := 0;
      nBitFieldReadStartByte := msg_readcount;
      pbuf := buf;
      pInByte := msg_readcount;
      nMsgReadCount := msg_readcount + 1;
      failedBefore, requested := msg_badread, 0;
      if msg_readcount + 1 > buf.cursize {
        msg_badread := true;
      }
    }

    /** MSG_EndBitReading */
    method EndBitReading(buf: SizeBuf)
      requires Valid() && pbuf == buf
      modifies this
      ensures msg_badread == old(msg_badread) && msg_readcount == old(nMsgReadCount)
      ensures !msg_badread ==> msg_readcount == old(nBitFieldReadStartByte) + SessionBytes(old(requested))
      ensures pbuf == null && CurrentBit() == 8 * msg_readcount
    {
      if nMsgReadCount > buf.cursize {
        msg_badread := true;
      }
      msg_readcount := nMsgReadCount;
      nBitFieldReadStartByte := 0;
      nCurInputBit := 0;
      nBytesRead := 0;
      pInByte := 0;
      pbuf := null;
    }

    /** The memory byte at a buffer index. */
    function Memory(i: nat): Byte
      requires pbuf != null
      reads `pbuf, pbuf, pbuf.data
    {
      if i < pbuf.data.Length then pbuf.data[i] else beyond(i)
    }

    /** `*(unsigned int *)p` */
    function LoadWord(p: nat): UInt32
      requires pbuf != null
      reads `pbuf, pbuf, pbuf.data
    {
      Word(Memory(p), Memory(p + 1), Memory(p + 2), Memory(p + 3))
    }

    /** Steps to the next byte once all bits of the current one are read. */
    method NextByte()
      requires Valid() && !msg_badread
      modifies this`nMsgReadCount, this`nBytesRead, this`nCurInputBit, this`pInByte
      ensures nCurInputBit < 8 && Position() == old(Position())
      ensures pInByte == nBitFieldReadStartByte + nBytesRead && nMsgReadCount == pInByte + 1
      ensures nMsgReadCount <= pbuf.cursize <==> Position() < |Payload()|
    {
      hide Payload;
      PayloadLength();
      if nCurInputBit >= 8 {
        nMsgReadCount := nMsgReadCount + 1;
        nBytesRead := nBytesRead + 1;
        pInByte := pInByte + 1;
        nCurInputBit := 0;
      }
    }

    /** MSG_ReadBits. A read is accepted exactly when the message still holds that many bits;
        it then returns those bits and depends on no other memory. */
    method ReadBits(numbits: Width) returns (result: UInt32)
      requires Valid()
      modifies this`msg_badread, this`nMsgReadCount, this`nBytesRead, this`nCurInputBit, this`pInByte, this`requested
      ensures Valid() && requested == old(requested) + numbits
      ensures Position() == old(Position()) + if old(msg_badread) then 0 else numbits
      ensures msg_badread <==> numbits > |old(Rest())|
      ensures old(msg_badread) ==> msg_badread
      ensures Rest() == if msg_badread then [] else old(Rest())[numbits..]
      ensures result == if msg_badread then 1 else FromBits(old(Rest())[..numbits])
    {
      hide FromBits, Payload;
      PayloadLength();
      ghost var rest, at := Rest(), Position();
      if msg_badread {
        requested := requested + numbits;
        return 1;
      }
      NextByte();
      requested := requested + numbits;
      result := Extract(numbits);
      if nMsgReadCount > pbuf.cursize {
        result := 1;
        msg_badread := true;
      } else {
        assert Payload()[at..at + numbits] == rest[..numbits];
      }
    }

    /** MSG_ReadOneBit. Within the message it is MSG_ReadBits(1). */
    method ReadOneBit() returns (nValue: UInt32)
      requires Valid()
      modifies this`msg_badread, this`nMsgReadCount, this`nBytesRead, this`nCurInputBit, this`pInByte, this`requested
      ensures Valid() && requested == old(requested) + 1
      ensures Position() == old(Position()) + if msg_badread then 0 else 1
      ensures msg_badread <==> old(Rest()) == []
      ensures old(msg_badread) ==> msg_badread
      ensures Rest() == if msg_badread then [] else old(Rest())[1..]
      ensures nValue == if msg_badread || old(Rest())[0] then 1 else 0
    {
      hide And, Pow2, FromBits, Payload, Memory;
      PayloadLength();
      if msg_badread {
        requested := requested + 1;
        nValue := 1;
      } else {
        NextByte();
        requested := requested + 1;
        if nMsgReadCount <= pbuf.cursize {
          BitInPayload(pInByte, nCurInputBit);
          nValue := if And(Memory(pInByte), Pow2(nCurInputBit)) != 0 then 1 else 0;
          nCurInputBit := nCurInputBit + 1;
        } else {
          nValue := 1;
          msg_badread := true;
        }
      }
    }

    /** MSG_PeekBits. The saved position is put back, but a failure stays. */
    method PeekBits(numbits: Width) returns (r: UInt32)
      requires Valid()
      modifies this`msg_badread, this`nMsgReadCount, this`nBytesRead, this`nCurInputBit, this`pInByte, this`requested
      ensures Valid() && nMsgReadCount == old(nMsgReadCount) && nBytesRead == old(nBytesRead)
      ensures nCurInputBit == old(nCurInputBit) && pInByte == old(pInByte)
      ensures msg_badread <==> numbits > |old(Rest())|
      ensures requested == old(requested) + if msg_badread then numbits else 0
      ensures !msg_badread ==> Rest() == old(Rest())
      ensures r == if msg_badread then 1 else FromBits(old(Rest())[..numbits])
    {
      hide FromBits, Payload;
      PayloadLength();
      var saved := (nMsgReadCount, nBytesRead, nCurInputBit, pInByte);
      ghost var before := requested;
      r := ReadBits(numbits);
      nMsgReadCount, nBytesRead, nCurInputBit, pInByte := saved.0, saved.1, saved.2, saved.3;
      if !msg_badread {
        requested := before;
      }
    }

    /** The part of MSG_ReadBits that loads one or two words and moves the position. */
    method Extract(numbits: Width) returns (result: UInt32)
      requires pbuf != null && pbuf.InBounds()
      requires nCurInputBit < 8 && nBitFieldReadStartByte < pbuf.cursize
      requires pInByte == nBitFieldReadStartByte + nBytesRead && nMsgReadCount == pInByte + 1
      modifies this`nMsgReadCount, this`nBytesRead, this`nCurInputBit, this`pInByte
      ensures 1 <= nCurInputBit <= 8 && Position() == old(Position()) + numbits
      ensures pInByte == nBitFieldReadStartByte + nBytesRead && nMsgReadCount == pInByte + 1
      ensures nMsgReadCount <= pbuf.cursize ==>
                Position() <= |Payload()| && result == FromBits(Payload()[old(Position())..Position()])
    {
      hide ToBits, FromBits, LoadWord, Memory, Payload;
      PayloadLength();
      ghost var p, k := pInByte, nCurInputBit;
      if nCurInputBit + numbits <= 32 {
        result := ExtractFromOneWord(numbits);
      } else {
        result := ExtractFromTwoWords(numbits);
      }
      if nMsgReadCount <= pbuf.cursize {
        LoadedBits(p, k, numbits);
      }
    }

    method ExtractFromOneWord(numbits: Width) returns (result: UInt32)
      requires pbuf != null && nCurInputBit < 8 && nCurInputBit + numbits <= 32
      modifies this`nMsgReadCount, this`nBytesRead, this`nCurInputBit, this`pInByte
      ensures 1 <= nCurInputBit <= 8 && Moved(old(pInByte), old(nMsgReadCount), old(nBytesRead), old(nCurInputBit) + numbits)
      ensures result == FromBits(Loaded(old(pInByte))[old(nCurInputBit)..old(nCurInputBit) + numbits])
    {
      hide ToBits, FromBits, Shr, And, LoadWord, RowBits;
      OneWordBits(LoadWord(pInByte), LoadWord(pInByte + 4), nCurInputBit, numbits);
      result := And(Shr(LoadWord(pInByte), nCurInputBit), RowBits(numbits));
      var bits := (nCurInputBit + numbits) % 8;
      var bytes := (nCurInputBit + numbits) / 8;
      if bits != 0 {
        nCurInputBit := bits;
      } else {
        nCurInputBit := 8;
        bytes := bytes - 1;
      }
      pInByte := pInByte + bytes;
      nMsgReadCount := nMsgReadCount + bytes;
      nBytesRead := nBytesRead + bytes;
    }

    method ExtractFromTwoWords(numbits: Width) returns (result: UInt32)
      requires pbuf != null && nCurInputBit < 8 && nCurInputBit + numbits > 32
      modifies this`nMsgReadCount, this`nBytesRead, this`nCurInputBit, this`pInByte
      ensures 1 <= nCurInputBit <= 8 && Moved(old(pInByte), old(nMsgReadCount), old(nBytesRead), old(nCurInputBit) + numbits)
      ensures result == FromBits(Loaded(old(pInByte))[old(nCurInputBit)..old(nCurInputBit) + numbits])
    {
      hide ToBits, FromBits, ToUInt32, Shl, Shr, And, Or, LoadWord, RowBits;
      TwoWordBits(LoadWord(pInByte), LoadWord(pInByte + 4), nCurInputBit, numbits);
      var bits := (nCurInputBit + numbits) % 8;
      result := Or(ToUInt32(Shl(And(LoadWord(pInByte + 4), RowBits(bits)), 32 - nCurInputBit)),
                   Shr(LoadWord(pInByte), nCurInputBit));
      nCurInputBit := bits;
      pInByte := pInByte + 4;
      nMsgReadCount := nMsgReadCount + 4;
      nBytesRead := nBytesRead + 4;
    }

    /** The read position moved on by that many bits, counted from the start of byte p. */
    ghost predicate Moved(p: nat, count: nat, bytes: nat, bits: nat)
      reads `pInByte, `nMsgReadCount, `nBytesRead, `nCurInputBit
    {
      && pInByte - p == nMsgReadCount - count == nBytesRead - bytes
      && 8 * (pInByte - p) + nCurInputBit == bits
    }

    /** The bits of the two words at byte p. */
    ghost function Loaded(p: nat): (bits: seq<bool>)
      requires pbuf != null
      reads `pbuf, pbuf, pbuf.data
      ensures |bits| == 64
    {
      ToBits(LoadWord(p), 32) + ToBits(LoadWord(p + 4), 32)
    }

    lemma BitInPayload(p: nat, k: nat)
      requires pbuf != null && pbuf.InBounds() && nBitFieldReadStartByte <= p < pbuf.cursize && k < 8
      ensures var pos := 8 * (p - nBitFieldReadStartByte) + k;
              && pos < |Payload()|
              && (And(Memory(p), Pow2(k)) != 0 <==> Payload()[pos])
    {
      hide ToBits, BytesToBits, Pow2, And;
      var window := Payload()[8 * (p - nBitFieldReadStartByte) + k..8 * (p - nBitFieldReadStartByte) + k + 1];
      assert window[0] == Payload()[8 * (p - nBitFieldReadStartByte) + k];
      CommonWindow(pbuf.data[nBitFieldReadStartByte..pbuf.cursize], p - nBitFieldReadStartByte, [Memory(p)], k, 1);
      OneByteToBits(Memory(p));
      AndOneBit(Memory(p), k, 8);
    }

    /** The loads at byte p hold, at every bit that the message still covers, the payload. */
    lemma LoadedBits(p: nat, k: nat, n: nat)
      requires pbuf != null && pbuf.InBounds() && nBitFieldReadStartByte <= p
      requires k + n <= 64 && 8 * p + k + n <= 8 * pbuf.cursize
      ensures var pos := 8 * (p - nBitFieldReadStartByte) + k;
              nBitFieldReadStartByte < pbuf.cursize && n > 0 ==>
              && pos + n <= |Payload()|
              && Loaded(p)[k..k + n] == Payload()[pos..pos + n]
    {
      hide ToBits, BytesToBits;
      if nBitFieldReadStartByte < pbuf.cursize && n > 0 {
        var near := [Memory(p), Memory(p + 1), Memory(p + 2), Memory(p + 3)];
        var far := [Memory(p + 4), Memory(p + 5), Memory(p + 6), Memory(p + 7)];
        WordToBits(Memory(p), Memory(p + 1), Memory(p + 2), Memory(p + 3));
        WordToBits(Memory(p + 4), Memory(p + 5), Memory(p + 6), Memory(p + 7));
        BytesToBitsConcat(near, far);
        CommonWindow(pbuf.data[nBitFieldReadStartByte..pbuf.cursize], p - nBitFieldReadStartByte, near + far, k, n);
      }
    }
  }

  /** Two byte strings that agree where both are defined have the same bits there. */
  lemma CommonWindow(s: seq<Byte>, p: nat, m: seq<Byte>, k: nat, n: nat)
    requires p <= |s|
    requires forall i :: 0 <= i < |m| && p + i < |s| ==> m[i] == s[p + i]
    requires k + n <= 8 * |m| && 8 * p + k + n <= 8 * |s|
    ensures BytesToBits(m)[k..k + n] == BytesToBits(s)[8 * p + k..8 * p + k + n]
  {
    hide BytesToBits;
    var c := if |m| <= |s| - p then |m| else |s| - p;
    var common := m[..c];
    CommonPart(s, p, m, c);
    CutBits(s, p, c);
    CutFront(m, c);
    InnerWindow(BytesToBits(s[..p]), BytesToBits(common), BytesToBits(s[p + c..]), BytesToBits(m[c..]), k, n);
  }

  lemma CommonPart(s: seq<Byte>, p: nat, m: seq<Byte>, c: nat)
    requires c <= |m| && p + c <= |s|
    requires forall i :: 0 <= i < c ==> m[i] == s[p + i]
    ensures m[..c] == s[p..p + c]
  {
  }

  lemma CutFront(s: seq<Byte>, c: nat)
    requires c <= |s|
    ensures BytesToBits(s) == BytesToBits(s[..c]) + BytesToBits(s[c..])
  {
    hide BytesToBits;
    assert s == s[..c] + s[c..];
    BytesToBitsConcat(s[..c], s[c..]);
  }

  lemma CutBits(s: seq<Byte>, p: nat, c: nat)
    requires p + c <= |s|
    ensures BytesToBits(s) == BytesToBits(s[..p]) + BytesToBits(s[p..p + c]) + BytesToBits(s[p + c..])
  {
    hide BytesToBits;
    assert s == s[..p] + s[p..p + c] + s[p + c..];
    JoinBits(s[..p], s[p..p + c], s[p + c..]);
  }

  lemma InnerWindow(u: seq<bool>, x: seq<bool>, v: seq<bool>, y: seq<bool>, k: nat, n: nat)
    requires k + n <= |x|
    ensures (x + y)[k..k + n] == (u + x + v)[|u| + k..|u| + k + n]
  {
  }

  /** `v & BITTABLE[k]` */
  lemma {:induction false} AndOneBit(v: nat, k: nat, n: nat)
    requires k < n
    ensures And(v, Pow2(k)) != 0 <==> ToBits(v, n)[k]
  {
    if k == 0 {
      AndZero(v / 2);
    } else {
      AndOneBit(v / 2, k - 1, n - 1);
    }
  }

  lemma AndZero(v: nat)
    ensures And(v, 0) == 0
  {
  }

  lemma OneWordBits(w0: UInt32, w1: UInt32, k: nat, n: Width)
    requires k + n <= 32
    ensures And(Shr(w0, k), RowBits(n)) < 0x1_0000_0000
    ensures And(Shr(w0, k), RowBits(n)) == FromBits((ToBits(w0, 32) + ToBits(w1, 32))[k..k + n])
  {
    hide ToBits, FromBits, Pow2, Low, Shr, And;
    var v := Shr(w0, k);
    AndMask(v, n);
    LowBits(v, n, n);
    FromToBits(Low(v, n), n);
    SplitBits(w0, k, 32 - k);
    SplitBits(v, n, 32 - k - n);
    assert (ToBits(w0, 32) + ToBits(w1, 32))[k..k + n] == ToBits(v, n);
    Pow2Mono(n, 32);
    Pow2Values();
  }

  lemma TwoWordBits(w0: UInt32, w1: UInt32, k: nat, n: Width)
    requires k < 8 && k + n > 32
    ensures var b := (k + n) % 8;
            var v := Or(ToUInt32(Shl(And(w1, RowBits(b)), 32 - k)), Shr(w0, k));
            v < 0x1_0000_0000 && v == FromBits((ToBits(w0, 32) + ToBits(w1, 32))[k..k + n])
  {
    hide ToBits, FromBits, Pow2, Low, Shr, Shl, And, Or, ToUInt32;
    var b := k + n - 32;
    var x, y := And(w1, RowBits(b)), Shr(w0, k);
    AndMask(w1, b);
    LowBits(w1, b, b);
    ShlBound(x, b, 32 - k);
    Pow2Mono(n, 32);
    Pow2Values();
    ToUInt32Fits(Shl(x, 32 - k));
    ShrBound(w0, 32 - k, k);
    OrCommutes(Shl(x, 32 - k), y);
    OrShl(y, 32 - k, x, b);
    FromToBits(Or(y, Shl(x, 32 - k)), n);
    SplitBits(w0, k, 32 - k);
    SplitBits(w1, b, 32 - b);
    assert (ToBits(w0, 32) + ToBits(w1, 32))[k..k + n] == ToBits(y, 32 - k) + ToBits(x, b);
  }
}
