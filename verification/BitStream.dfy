/** Whole bit-field sessions: what a list of fields becomes on the wire, that both
    writers produce it, and that the reader recovers it. */
module BitStream {
  import opened Bits
  import opened SizeBuffer
  import opened BitWriting
  import opened LegacyBitWriting
  import opened BitReading

  // ----- the wire format

  /** The bytes of a bit string, eight bits to the byte; a last part is filled with zeros. */
  function Pack(bits: seq<bool>): (bytes: seq<Byte>)
    ensures |bytes| == (|bits| + 7) / 8
  {
    if bits == [] then []
    else if |bits| < 8 then [PackByte(bits + Zeros(8 - |bits|))]
    else [PackByte(bits[..8])] + Pack(bits[8..])
  }

  function PackByte(bits: seq<bool>): Byte
    requires |bits| == 8
  {
    Pow2Values();
    FromBits(bits)
  }

  /** A session's bytes. */
  function Encoding(fields: seq<Field>): (bytes: seq<Byte>)
    ensures |bytes| == SessionBytes(|Stream(fields)|)
  {
    if Stream(fields) == [] then [0] else Pack(Stream(fields))
  }

  /** The wire format, digit by digit: the binary digit of weight 2 to the i of field k's value,
      cut off at the largest of its width, is binary digit p % 8 of byte p / 8, where p counts
      the bits of the fields before it and i. */
  lemma WireDigit(fields: seq<Field>, k: nat, i: nat)
    requires k < |fields| && i < fields[k].width
    ensures var p := Sum(Widths(fields[..k])) + i;
            && p / 8 < |Encoding(fields)|
            && (Digit(Encoding(fields)[p / 8], p % 8) <==> Digit(Saturate(fields[k].value, fields[k].width), i))
  {
    hide Encoding, BytesToBits, ToBits, Stream, SessionBytes, Digit;
    var p := Sum(Widths(fields[..k])) + i;
    StreamLength(fields[..k]);
    StreamAt(fields, k, i);
    EncodingBits(fields);
    var bytes := Encoding(fields);
    ByteOfBit(p, |bytes|);
    BitOfBytes(bytes, p / 8, p % 8);
    BitIsDigit(Saturate(fields[k].value, fields[k].width), fields[k].width, i);
  }

  lemma ByteOfBit(p: nat, n: nat)
    requires p < 8 * n
    ensures p / 8 < n && 8 * (p / 8) + p % 8 == p
  {
  }

  lemma StreamAt(fields: seq<Field>, k: nat, i: nat)
    requires k < |fields| && i < fields[k].width
    ensures var p := |Stream(fields[..k])| + i;
            p < |Stream(fields)|
            && Stream(fields)[p] == ToBits(Saturate(fields[k].value, fields[k].width), fields[k].width)[i]
  {
    hide Stream, ToBits;
    var f := fields[k];
    StreamPrefix(fields, k);
    FieldIsBits(f);
    assert fields == fields[..k + 1] + fields[k + 1..];
    StreamConcat(fields[..k + 1], fields[k + 1..]);
  }

  /** What arrives is the value, or the largest that the width can carry if that is less. */
  lemma {:induction false} ReceivedAt(fields: seq<Field>, k: nat)
    requires k < |fields|
    ensures |Received(fields)| == |fields|
    ensures var r := Received(fields)[k];
            r <= fields[k].value && r < Pow2(fields[k].width) && (r < fields[k].value ==> r + 1 == Pow2(fields[k].width))
  {
    ReceivedLength(fields);
    hide Saturate;
    if k > 0 {
      ReceivedAt(fields[1..], k - 1);
    }
  }

  lemma {:induction false} ReceivedLength(fields: seq<Field>)
    ensures |Received(fields)| == |fields|
  {
    if fields != [] {
      ReceivedLength(fields[1..]);
    }
  }

  /** The values of the fields of given widths that stand at the front of a bit string. */
  function Decode(bits: seq<bool>, widths: seq<Width>): seq<nat>
    requires |bits| >= Sum(widths)
  {
    if widths == [] then []
    else [FromBits(bits[..widths[0]])] + Decode(bits[widths[0]..], widths[1..])
  }

  function Sum(widths: seq<Width>): nat {
    if widths == [] then 0 else widths[0] + Sum(widths[1..])
  }

  function Widths(fields: seq<Field>): (widths: seq<Width>)
    ensures |widths| == |fields|
  {
    if fields == [] then [] else [fields[0].width] + Widths(fields[1..])
  }

  /** What arrives: every value, cut off at the largest its width can carry. */
  function Received(fields: seq<Field>): seq<nat> {
    if fields == [] then [] else [Saturate(fields[0].value, fields[0].width)] + Received(fields[1..])
  }

  lemma {:induction false} PackBits(bits: seq<bool>)
    ensures BytesToBits(Pack(bits)) == bits + Zeros(8 * |Pack(bits)| - |bits|)
  {
    hide ToBits, FromBits;
    if bits == [] {
    } else if |bits| < 8 {
      OneByteToBits(PackByte(bits + Zeros(8 - |bits|)));
      ToFromBits(bits + Zeros(8 - |bits|));
    } else {
      PackBits(bits[8..]);
      BytesToBitsCons(PackByte(bits[..8]), Pack(bits[8..]));
      ToFromBits(bits[..8]);
      assert bits == bits[..8] + bits[8..];
    }
  }

  lemma EncodingBits(fields: seq<Field>)
    ensures BytesToBits(Encoding(fields)) == Padded(Stream(fields))
  {
    hide ToBits, FromBits, BytesToBits, Pack, Stream;
    if Stream(fields) == [] {
      OneByteToBits(0);
      ZeroBits(8);
    } else {
      PackBits(Stream(fields));
    }
  }

  lemma {:induction false} StreamLength(fields: seq<Field>)
    ensures |Stream(fields)| == Sum(Widths(fields))
  {
    if fields != [] {
      StreamLength(fields[1..]);
    }
  }

  lemma {:induction false} StreamConcat(a: seq<Field>, b: seq<Field>)
    ensures Stream(a + b) == Stream(a) + Stream(b)
  {
    hide FieldBits;
    if a == [] {
      assert a + b == b;
    } else {
      var first := FieldBits(a[0].value, a[0].width);
      calc {
        Stream(a + b);
        { assert (a + b)[0] == a[0] && (a + b)[1..] == a[1..] + b; }
        first + Stream(a[1..] + b);
        { StreamConcat(a[1..], b); }
        first + (Stream(a[1..]) + Stream(b));
        (first + Stream(a[1..])) + Stream(b);
        Stream(a) + Stream(b);
      }
    }
  }

  /** Reading back, with the same widths, what was written returns every value, whatever follows. */
  lemma {:induction false} DecodeStream(fields: seq<Field>, rest: seq<bool>)
    ensures |Stream(fields)| == Sum(Widths(fields))
    ensures Decode(Stream(fields) + rest, Widths(fields)) == Received(fields)
  {
    hide FieldBits, FromBits, ToBits;
    StreamLength(fields);
    if fields != [] {
      var f := fields[0];
      DecodeStream(fields[1..], rest);
      FromToBits(Saturate(f.value, f.width), f.width);
      var bits := Stream(fields) + rest;
      assert bits[..f.width] == FieldBits(f.value, f.width) == ToBits(Saturate(f.value, f.width), f.width) by {
        FieldIsBits(f);
      }
      assert bits[f.width..] == Stream(fields[1..]) + rest;
    }
  }

  lemma FieldIsBits(f: Field)
    ensures FieldBits(f.value, f.width) == ToBits(Saturate(f.value, f.width), f.width)
  {
  }

  /** The wire format loses nothing but saturation. */
  lemma EncodingRoundTrip(fields: seq<Field>)
    ensures Sum(Widths(fields)) <= 8 * |Encoding(fields)|
    ensures Decode(BytesToBits(Encoding(fields)), Widths(fields)) == Received(fields)
  {
    EncodingBits(fields);
    var n := |Stream(fields)|;
    DecodeStream(fields, Zeros(8 * SessionBytes(n) - n));
  }

  // ----- sessions

  /** A bit-writing session of the accumulator writer. Either the buffer then ends in exactly
      the encoding, or the overflow flag is up; the bytes before the session are kept. */
  method WriteSession(w: BitWriter, buf: SizeBuf, fields: seq<Field>)
    requires buf.Valid()
    requires buf.allowOverflow || buf.HasSpace(|Encoding(fields)|)
    modifies w, buf`cursize, buf`overflowed, buf.data
    ensures buf.Valid()
    ensures buf.overflowed <==> old(buf.overflowed) || old(buf.cursize) + |Encoding(fields)| > buf.data.Length
    ensures !buf.overflowed ==>
              buf.data[..buf.cursize] == old(buf.data[..buf.cursize]) + Encoding(fields)
    ensures if old(buf.overflowed) then buf.data[..] == old(buf.data[..])
            else buf.data[..old(buf.cursize)] == old(buf.data[..buf.cursize])
    ensures old(buf.InBounds()) && buf.data.Length >= 8 ==> buf.InBounds()
  {
    hide Stream, Encoding, Padded;
    w.StartBitWriting(buf);
    assert Stream(fields[..0]) == [] by { NoFields(); }
    for i := 0 to |fields|
      modifies w`pending, w`nCurOutputBit, w`sent, buf`cursize, buf`overflowed, buf.data
      invariant w.Valid() && w.pbuf == buf
      invariant w.sent == Stream(fields[..i])
      invariant old(buf.InBounds()) && buf.data.Length >= 8 ==> buf.InBounds()
      invariant w.start == old(buf.cursize) && w.lostAtStart == old(buf.overflowed) && w.before == old(buf.data[..])
    {
      StreamPrefix(fields, i);
      w.WriteBits(fields[i].value, fields[i].width);
    }
    assert fields[..|fields|] == fields;
    w.EndBitWriting();
    if !buf.overflowed {
      EncodingBits(fields);
      BytesToBitsInjective(buf.data[w.start..buf.cursize], Encoding(fields));
      Behind(w.before, buf.data[..], w.start, buf.cursize);
    }
  }

  lemma Behind(s: seq<Byte>, t: seq<Byte>, start: nat, end: nat)
    requires start <= end <= |t| && start <= |s| && t[..start] == s[..start]
    ensures t[..end] == s[..start] + t[start..end]
  {
  }

  lemma NoFields()
    ensures Stream([]) == [] && Received([]) == []
  {
  }

  lemma StreamPrefix(fields: seq<Field>, i: nat)
    requires i < |fields|
    ensures Stream(fields[..i + 1]) == Stream(fields[..i]) + FieldBits(fields[i].value, fields[i].width)
    ensures |Stream(fields[..i + 1])| <= |Stream(fields)|
  {
    assert fields[..i + 1] == fields[..i] + [fields[i]];
    StreamConcat(fields[..i], [fields[i]]);
    assert fields == fields[..i + 1] + fields[i + 1..];
    StreamConcat(fields[..i + 1], fields[i + 1..]);
    assert Stream([fields[i]]) == FieldBits(fields[i].value, fields[i].width) + Stream([]);
  }

  // ----- how far the older writer reaches

  /** One behind the furthest byte that the older writer touches when it puts fields at bit p
      and ends the session. */
  function Reach(p: nat, fields: seq<Field>): nat
    decreases |fields|
  {
    if fields == [] then SessionBytes(p)
    else Max(StoreEnd(p, fields[0].width), Reach(p + fields[0].width, fields[1..]))
  }

  /** A room is enough exactly if it holds the session's bytes and the word stores of every field. */
  lemma {:induction false} ReachLeast(p: nat, fields: seq<Field>, room: nat)
    ensures Reach(p, fields) <= room <==> SessionBytes(p + |Stream(fields)|) <= room && StoresFit(p, fields, room)
    decreases |fields|
  {
    hide StoresFit, SessionBytes, StoreEnd, FieldBits;
    if fields == [] {
      NoStores(p, room);
    } else {
      ReachLeast(p + fields[0].width, fields[1..], room);
      FirstAndLater(p, fields, room);
    }
  }

  /** The word stores of every field stay inside the room. */
  predicate StoresFit(p: nat, fields: seq<Field>, room: nat) {
    forall i :: 0 <= i < |fields| ==> StoreFits(p, fields, i, room)
  }

  lemma NoStores(p: nat, room: nat)
    ensures StoresFit(p, [], room)
  {
  }

  lemma FirstAndLater(p: nat, fields: seq<Field>, room: nat)
    requires fields != []
    ensures StoresFit(p, fields, room) <==>
              StoreEnd(p, fields[0].width) <= room && StoresFit(p + fields[0].width, fields[1..], room)
  {
    hide StoreFits, StoreEnd;
    var q, rest := p + fields[0].width, fields[1..];
    FirstFits(p, fields, room);
    if StoresFit(p, fields, room) {
      forall i | 0 <= i < |rest| ensures StoreFits(q, rest, i, room) {
        LaterFits(p, fields, i, room);
      }
    } else if StoresFit(q, rest, room) && StoreEnd(p, fields[0].width) <= room {
      forall i | 0 <= i < |fields| ensures StoreFits(p, fields, i, room) {
        if i > 0 {
          LaterFits(p, fields, i - 1, room);
        }
      }
    }
  }

  predicate StoreFits(p: nat, fields: seq<Field>, i: nat, room: nat)
    requires i < |fields|
  {
    StoreEnd(p + |Stream(fields[..i])|, fields[i].width) <= room
  }

  lemma FirstFits(p: nat, fields: seq<Field>, room: nat)
    requires fields != []
    ensures StoreFits(p, fields, 0, room) <==> StoreEnd(p, fields[0].width) <= room
  {
    hide StoreEnd;
    assert fields[..0] == [];
  }

  lemma LaterFits(p: nat, fields: seq<Field>, i: nat, room: nat)
    requires i + 1 < |fields|
    ensures StoreFits(p, fields, i + 1, room) <==> StoreFits(p + fields[0].width, fields[1..], i, room)
  {
    hide StoreEnd;
    assert fields[..i + 1][1..] == fields[1..][..i];
  }

  /** That is the bytes of the encoding and at most three more. */
  lemma {:induction false} ReachAtMost(p: nat, fields: seq<Field>)
    ensures 1 <= SessionBytes(p + |Stream(fields)|) <= Reach(p, fields) <= SessionBytes(p + |Stream(fields)|) + 3
    decreases |fields|
  {
    hide SessionBytes, StoreEnd, FieldBits;
    OneByteAtLeast(p);
    if fields != [] {
      ReachAtMost(p + fields[0].width, fields[1..]);
      SessionBytesMono(p + fields[0].width, p + |Stream(fields)|);
      StoreEndAtMost(p, fields[0].width);
    }
  }

  lemma OneByteAtLeast(n: nat)
    ensures SessionBytes(n) >= 1
  {
  }

  lemma StoreEndAtMost(p: nat, w: Width)
    ensures StoreEnd(p, w) <= SessionBytes(p + w) + 3
  {
  }

  /** A single bit takes three bytes more than its encoding, a full word none, and a full word
      behind a bit again three, as it goes on in a second word. */
  lemma ReachExtremes(value: UInt32)
    ensures Reach(0, [Field(value, 1)]) == |Encoding([Field(value, 1)])| + 3
    ensures Reach(0, [Field(value, 32)]) == |Encoding([Field(value, 32)])|
    ensures Reach(0, [Field(value, 1), Field(value, 32)]) == 8 == |Encoding([Field(value, 1), Field(value, 32)])| + 3
  {
    hide FieldBits, Encoding;
    NoFields();
    assert Reach(1, []) == 1 && Reach(32, []) == 4;
    assert [Field(value, 1)][1..] == [] && [Field(value, 32)][1..] == [];
    assert [Field(value, 1), Field(value, 32)][1..] == [Field(value, 32)];
    assert Reach(33, []) == 5 && |Stream([Field(value, 1), Field(value, 32)])| == 33;
    assert |Stream([Field(value, 1)])| == 1 && |Stream([Field(value, 32)])| == 32;
  }

  /** The same session with the older writer. It touches the bytes up to its reach and no other. */
  method LegacySession(buf: SizeBuf, fields: seq<Field>) returns (ghost touched: nat)
    requires buf.Valid() && !buf.overflowed && buf.HasSpace(Reach(0, fields))
    modifies buf`cursize, buf`overflowed, buf.data
    ensures buf.Valid() && !buf.overflowed
    ensures buf.data[..buf.cursize] == old(buf.data[..buf.cursize]) + Encoding(fields)
    ensures touched == old(buf.cursize) + Reach(0, fields)
    ensures forall i :: touched <= i < buf.data.Length ==> buf.data[i] == old(buf.data[i])
  {
    hide Stream, Encoding, Padded, Reach, StoreEnd, SessionBytes;
    ReachAtMost(0, fields);
    EncodingBits(fields);
    var w: LegacyBitWriter := new LegacyBitWriter(buf);
    assert Stream(fields[..0]) == [] && fields[0..] == fields by { NoFields(); }
    for i := 0 to |fields|
      modifies w`nCurOutputBit, w`pOutByte, w`sent, w`touched, buf`cursize, buf`overflowed, buf.data
      invariant w.Valid() && w.pbuf == buf && w.start == old(buf.cursize) && w.before == old(buf.data[..])
      invariant w.sent == Stream(fields[..i])
      invariant Max(w.touched - w.start, Reach(|w.sent|, fields[i..])) == Reach(0, fields)
    {
      StreamPrefix(fields, i);
      ReachStep(|w.sent|, fields, i);
      w.WriteBits(fields[i].value, fields[i].width);
    }
    assert fields[..|fields|] == fields && fields[|fields|..] == [];
    ReachEnd(|w.sent|);
    w.EndBitWriting();
    touched := w.touched;
    BytesToBitsInjective(buf.data[w.start..buf.cursize], Encoding(fields));
    Behind(w.before, buf.data[..], w.start, buf.cursize);
  }

  lemma ReachStep(p: nat, fields: seq<Field>, i: nat)
    requires i < |fields|
    ensures Reach(p, fields[i..]) == Max(StoreEnd(p, fields[i].width), Reach(p + fields[i].width, fields[i + 1..]))
  {
    hide StoreEnd;
    assert fields[i..][1..] == fields[i + 1..];
  }

  lemma ReachEnd(p: nat)
    ensures Reach(p, []) == SessionBytes(p)
  {
  }

  /** Two implementations, one encoding: over any stale buffer contents both writers
      leave the same bytes and the same size. */
  method BothWriters(w: BitWriter, buf: SizeBuf, legacy: SizeBuf, fields: seq<Field>)
    requires buf != legacy && buf.data != legacy.data
    requires buf.Valid() && !buf.overflowed && legacy.Valid() && !legacy.overflowed
    requires buf.cursize == legacy.cursize && buf.data[..buf.cursize] == legacy.data[..legacy.cursize]
    requires buf.HasSpace(|Encoding(fields)|)
    requires legacy.HasSpace(Reach(0, fields))
    modifies w, buf`cursize, buf`overflowed, buf.data, legacy`cursize, legacy`overflowed, legacy.data
    ensures buf.cursize == legacy.cursize <= buf.data.Length && legacy.cursize <= legacy.data.Length
    ensures buf.data[..buf.cursize] == legacy.data[..legacy.cursize]
    ensures !buf.overflowed && !legacy.overflowed
  {
    hide Encoding;
    WriteSession(w, buf, fields);
    ghost var _ := LegacySession(legacy, fields);
  }

  /** A bit-reading session over a message whose next bytes encode `sent`, read with the
      same widths: every value arrives, nothing fails, and the next field starts right
      after the encoding. */
  method ReadSession(r: BitReader, buf: SizeBuf, sent: seq<Field>) returns (values: seq<UInt32>)
    requires buf.InBounds() && !r.msg_badread
    requires r.msg_readcount + |Encoding(sent)| <= buf.cursize
    requires buf.data[r.msg_readcount..r.msg_readcount + |Encoding(sent)|] == Encoding(sent)
    modifies r
    ensures values == Received(sent)
    ensures !r.msg_badread && r.msg_readcount == old(r.msg_readcount) + |Encoding(sent)|
  {
    hide Stream, Encoding, Received, FromBits, Saturate, BitReader.Valid, BitReader.Rest, SessionBytes;
    values := [];
    r.StartBitReading(buf);
    PayloadStarts(r, sent);
    assert Stream(sent[..0]) == [] && Received(sent[..0]) == [] by { NoFields(); }
    assert sent[0..] == sent;
    for i := 0 to |sent|
      modifies r`msg_badread, r`nMsgReadCount, r`nBytesRead, r`nCurInputBit, r`pInByte, r`requested
      invariant r.Valid() && !r.msg_badread
      invariant Stream(sent[i..]) <= r.Rest() && r.requested == |Stream(sent[..i])|
      invariant values == Received(sent[..i])
    {
      StreamPrefix(sent, i);
      NextField(sent, i);
      assert r.Rest()[..sent[i].width] == FieldBits(sent[i].value, sent[i].width);
      var value := r.ReadBits(sent[i].width);
      values := values + [value];
    }
    assert sent[..|sent|] == sent;
    r.EndBitReading(buf);
  }

  lemma PayloadStarts(r: BitReader, sent: seq<Field>)
    requires r.Valid() && !r.failedBefore && r.requested == 0
    requires r.nBitFieldReadStartByte + |Encoding(sent)| <= r.pbuf.cursize
    requires r.pbuf.data[r.nBitFieldReadStartByte..r.nBitFieldReadStartByte + |Encoding(sent)|] == Encoding(sent)
    ensures !r.msg_badread && Stream(sent) <= r.Rest()
  {
    hide Encoding, BytesToBits, Stream;
    var s := r.pbuf.data[r.nBitFieldReadStartByte..r.pbuf.cursize];
    assert s == Encoding(sent) + s[|Encoding(sent)|..];
    BytesToBitsConcat(Encoding(sent), s[|Encoding(sent)|..]);
    EncodingBits(sent);
  }

  /** The stream from field i on starts with that field. */
  lemma NextField(fields: seq<Field>, i: nat)
    requires i < |fields|
    ensures var f := fields[i];
            && Stream(fields[i..]) == FieldBits(f.value, f.width) + Stream(fields[i + 1..])
            && FromBits(FieldBits(f.value, f.width)) == Saturate(f.value, f.width)
            && Received(fields[..i + 1]) == Received(fields[..i]) + [Saturate(f.value, f.width)]
  {
    hide FromBits, ToBits, Received;
    var f := fields[i];
    FromToBits(Saturate(f.value, f.width), f.width);
    assert fields[i..][1..] == fields[i + 1..];
    assert fields[..i + 1] == fields[..i] + [f];
    ReceivedSnoc(fields[..i], f);
  }

  lemma {:induction false} ReceivedSnoc(fields: seq<Field>, f: Field)
    ensures Received(fields + [f]) == Received(fields) + [Saturate(f.value, f.width)]
  {
    if fields != [] {
      ReceivedSnoc(fields[1..], f);
      assert (fields + [f])[1..] == fields[1..] + [f];
    }
  }

  /** The round trip: a session that had room is read back, value by value, and reading
      stops exactly where writing did. */
  method RoundTrip(w: BitWriter, buf: SizeBuf, fields: seq<Field>, r: BitReader) returns (values: seq<UInt32>)
    requires buf.Valid() && !buf.overflowed
    requires buf.HasSpace(|Encoding(fields)|)
    requires !r.msg_badread && r.msg_readcount == buf.cursize
    modifies w, buf`cursize, buf`overflowed, buf.data, r
    ensures values == Received(fields)
    ensures !r.msg_badread && r.msg_readcount == buf.cursize
  {
    hide Encoding, Received;
    WriteSession(w, buf, fields);
    assert buf.data[r.msg_readcount..buf.cursize] == Encoding(fields);
    values := ReadSession(r, buf, fields);
  }

  /** Within the message, reading one bit by masking and by word loads is the same, in the
      result and in every field. */
  method OneBitTwoWays(a: BitReader, b: BitReader) returns (x: UInt32, y: UInt32)
    requires a != b && a.Valid() && b.Valid() && a.pbuf == b.pbuf && a.msg_badread == b.msg_badread
    requires a.nBitFieldReadStartByte == b.nBitFieldReadStartByte && a.nBytesRead == b.nBytesRead
    requires a.nCurInputBit == b.nCurInputBit
    requires a.Rest() != []
    modifies a, b
    ensures x == y && a.Valid() && b.Valid() && a.pbuf == b.pbuf && a.msg_badread == b.msg_badread
    ensures a.nMsgReadCount == b.nMsgReadCount && a.nBitFieldReadStartByte == b.nBitFieldReadStartByte
    ensures a.nBytesRead == b.nBytesRead && a.nCurInputBit == b.nCurInputBit && a.pInByte == b.pInByte
  {
    hide FromBits, BitReader.Payload, BitReader.Rest;
    SameRest(a, b);
    ghost var bit := a.Rest()[0];
    assert b.Rest()[..1] == [bit];
    OneBitValue(bit);
    x := a.ReadOneBit();
    y := b.ReadBits(1);
    OnePlace(a.nCurInputBit, a.nBytesRead, b.nCurInputBit, b.nBytesRead);
  }

  lemma SameRest(a: BitReader, b: BitReader)
    requires a.Valid() && b.Valid() && a.pbuf == b.pbuf && a.msg_badread == b.msg_badread
    requires a.nBitFieldReadStartByte == b.nBitFieldReadStartByte && a.nBytesRead == b.nBytesRead
    requires a.nCurInputBit == b.nCurInputBit
    ensures a.Rest() == b.Rest() && a.Position() == b.Position()
  {
    hide BytesToBits;
  }

  lemma OneBitValue(bit: bool)
    ensures FromBits([bit]) == if bit then 1 else 0
  {
    assert FromBits([]) == 0;
  }

  /** A position has one representation: the bit counter is 0 only at the very start. */
  lemma OnePlace(bitA: nat, bytesA: nat, bitB: nat, bytesB: nat)
    requires bitA <= 8 && bitB <= 8 && bitA + 8 * bytesA == bitB + 8 * bytesB
    requires (bitA == 0 ==> bytesA == 0) && (bitB == 0 ==> bytesB == 0)
    ensures bitA == bitB && bytesA == bytesB
  {
  }
}
