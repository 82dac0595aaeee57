/** Signed integers and world coordinates inside a bit field. */
module BitCodecs {
  import opened Bits
  import opened BitWriting
  import opened BitReading

  type Int32 = i: int | -0x8000_0000 <= i < 0x8000_0000

  function Abs(i: int): nat {
    if i < 0 then -i else i
  }

  // ----- signed integers

  type SWidth = w: int | 2 <= w <= 32 witness 2

  /** The nearest value that sign and numbits - 1 bits of magnitude can carry. */
  function Clamp(i: int, numbits: SWidth): (r: int)
    ensures Abs(r) < Pow2(numbits - 1)
    ensures forall x :: Abs(x) < Pow2(numbits - 1) ==> Abs(i - r) <= Abs(i - x)
  {
    var most := Pow2(numbits - 1) - 1;
    if i > most then most else if i < -most then -most else i
  }

  function SBits(i: int, numbits: SWidth): (bits: seq<bool>)
    ensures |bits| == numbits
  {
    [Clamp(i, numbits) < 0] + ToBits(Abs(Clamp(i, numbits)), numbits - 1)
  }

  function ParseSBits(bits: seq<bool>): int
    requires bits != []
  {
    var magnitude: int := FromBits(bits[1..]);
    if bits[0] then -magnitude else magnitude
  }

  /** What arrives is the nearest value that the field can carry, so the value itself if it can. */
  lemma SBitsRoundTrip(i: int, numbits: SWidth)
    ensures ParseSBits(SBits(i, numbits)) == Clamp(i, numbits)
    ensures var r := ParseSBits(SBits(i, numbits));
            Abs(r) < Pow2(numbits - 1) && forall x :: Abs(x) < Pow2(numbits - 1) ==> Abs(i - r) <= Abs(i - x)
    ensures Abs(i) < Pow2(numbits - 1) ==> ParseSBits(SBits(i, numbits)) == i
  {
    FromToBits(Abs(Clamp(i, numbits)), numbits - 1);
    assert SBits(i, numbits)[1..] == ToBits(Abs(Clamp(i, numbits)), numbits - 1);
  }

  /** On the wire the sign comes first and then the digits of the magnitude, the lowest first. */
  lemma SBitsOnWire(i: int, numbits: SWidth, k: nat)
    requires 1 <= k < numbits
    ensures SBits(i, numbits)[0] <==> i < 0
    ensures SBits(i, numbits)[k] <==> Digit(Abs(Clamp(i, numbits)), k - 1)
  {
    hide ToBits, Digit;
    BitIsDigit(Abs(Clamp(i, numbits)), numbits - 1, k - 1);
    Pow2Half(numbits - 1);
    assert Pow2(numbits - 1) >= 2;
  }

  /** MSG_WriteSBits. The magnitude of the smallest 32-bit integer is not defined. */
  method WriteSBits(w: BitWriter, data: Int32, numbits: SWidth)
    requires w.Valid() && w.Room(numbits)
    requires numbits == 32 ==> data > -0x8000_0000
    modifies w`pending, w`nCurOutputBit, w`sent, w.pbuf`cursize, w.pbuf`overflowed, w.pbuf.data
    ensures w.Valid()
    ensures w.sent == old(w.sent) + SBits(data, numbits)
  {
    hide ToBits, Pow2, Clamp, BitWriter.Valid;
    var idata := Limited(data, numbits);
    var sigbits := if idata < 0 then 1 else 0;
    w.WriteOneBit(sigbits);
    w.WriteBits(Abs(idata), numbits - 1);
  }

  /** The limiting step of MSG_WriteSBits; a full-width value is left alone. */
  method Limited(data: Int32, numbits: SWidth) returns (idata: int)
    requires numbits == 32 ==> data > -0x8000_0000
    ensures idata == Clamp(data, numbits) && Abs(idata) < 0x8000_0000
    ensures FieldBits(Abs(idata), numbits - 1) == ToBits(Abs(idata), numbits - 1)
  {
    hide ToBits, Pow2;
    Pow2Values();
    Pow2Half(32);
    Pow2Mono(numbits - 1, 31);
    idata := data;
    if numbits < 32 {
      var maxnum := Pow2(numbits - 1) - 1;
      if data > maxnum {
        idata := maxnum;
      } else {
        maxnum := -maxnum;
        if data < maxnum {
          idata := maxnum;
        }
      }
    }
  }

  lemma Pow2Half(n: nat)
    requires n > 0
    ensures Pow2(n) == 2 * Pow2(n - 1)
  {
  }

  /** MSG_ReadSBits */
  method ReadSBits(r: BitReader, numbits: SWidth) returns (result: int)
    requires r.Valid()
    modifies r`msg_badread, r`nMsgReadCount, r`nBytesRead, r`nCurInputBit, r`pInByte, r`requested
    ensures r.Valid() && r.requested == old(r.requested) + numbits
    ensures r.msg_badread <==> numbits > |old(r.Rest())|
    ensures r.Rest() == if r.msg_badread then [] else old(r.Rest())[numbits..]
    ensures !r.msg_badread ==> result == ParseSBits(old(r.Rest())[..numbits])
  {
    hide FromBits, BitReader.Valid, BitReader.Rest;
    ghost var rest := r.Rest();
    var nSignBit := r.ReadOneBit();
    result := r.ReadBits(numbits - 1);
    if nSignBit != 0 {
      result := -result;
    }
    if !r.msg_badread {
      assert rest[..numbits][1..] == rest[1..][..numbits - 1];
    }
  }

  // ----- coordinates

  /** `(int32)f` */
  function Trunc(f: real): (i: int)
    ensures f >= 0.0 ==> 0 <= i && i as real <= f < i as real + 1.0
    ensures f <= 0.0 ==> i <= 0 && i as real - 1.0 < f <= i as real
  {
    if f >= 0.0 then f.Floor else -(-f).Floor
  }

  /** `i * 8` in 32-bit arithmetic */
  function Times8(i: int): (r: Int32)
    ensures (8 * i - r) % 0x1_0000_0000 == 0
  {
    (8 * i + 0x8000_0000) % 0x1_0000_0000 - 0x8000_0000
  }

  /** What a coordinate becomes: its whole part, cut off at 12 bits of magnitude. */
  function WholePart(f: real): (i: int)
    ensures -4095 <= i <= 4095
    ensures forall x :: Abs(x) <= 4095 ==> Abs(Trunc(f) - i) <= Abs(Trunc(f) - x)
  {
    var i := Trunc(f);
    if i > 4095 then 4095 else if i < -4095 then -4095 else i
  }

  /** The wire form of a coordinate of given whole part and eighths. */
  function EncodedCoord(whole: nat, fract: nat, negative: bool): seq<bool> {
    [whole != 0, fract != 0] + if whole == 0 && fract == 0 then [] else Magnitudes(whole, fract, negative)
  }

  function Magnitudes(whole: nat, fract: nat, negative: bool): seq<bool> {
    [negative] + (if whole != 0 then ToBits(if whole > 4095 then 4095 else whole, 12) else [])
    + (if fract != 0 then ToBits(fract, 3) else [])
  }

  /** The bits that MSG_WriteBitCoord makes of f. */
  function CoordBits(f: real): seq<bool> {
    EncodedCoord(Abs(Trunc(f)), Abs(Times8(Trunc(f))) % 8, f <= -0.125)
  }

  /** A decoder's result: the bits end too early, or a value and what follows it. */
  datatype Parsed<T> = Short | Parsed(value: T, rest: seq<bool>)

  /** What a coordinate's decoder finds at the front of a bit string: flags for a whole
      part and a fraction, then sign, whole part and eighths as far as flagged. */
  function ParseCoord(bits: seq<bool>): Parsed<real> {
    if |bits| < 2 then Short
    else if !bits[0] && !bits[1] then Parsed(0.0, bits[2..])
    else
      var fractAt := if bits[0] then 15 else 3;
      var end := if bits[1] then fractAt + 3 else fractAt;
      if |bits| < end then Short
      else
        var whole := if bits[0] then FromBits(bits[3..15]) else 0;
        var fract := if bits[1] then FromBits(bits[fractAt..end]) else 0;
        var value := fract as real / 8.0 + whole as real;
        Parsed(if bits[2] then -value else value, bits[end..])
  }

  /** Scaling after the conversion to int leaves no eighths. */
  lemma NoEighths(i: int)
    ensures Abs(Times8(i)) % 8 == 0
  {
    var q := (8 * i + 0x8000_0000) / 0x1_0000_0000;
    var k := i - 0x2000_0000 * q;
    assert Times8(i) == 8 * k;
    hide Times8;
    assert Abs(8 * k) == 8 * Abs(k);
    EightTimes(Abs(k));
  }

  lemma EightTimes(n: nat)
    ensures 8 * n % 8 == 0
  {
  }

  /** A coordinate arrives as its whole part: the fraction is lost on the way. */
  lemma CoordRoundTrip(f: real, rest: seq<bool>)
    ensures ParseCoord(CoordBits(f) + rest) == Parsed(WholePart(f) as real, rest)
  {
    hide ParseCoord, EncodedCoord, Times8;
    NoEighths(Trunc(f));
    EncodedRoundTrip(Abs(Trunc(f)), 0, f <= -0.125, rest);
  }

  /** Any coordinate that is on the wire, with eighths or without, is parsed as what it encodes. */
  lemma EncodedRoundTrip(whole: nat, fract: nat, negative: bool, rest: seq<bool>)
    requires fract < 8
    ensures var v := (if whole > 4095 then 4095 else whole) as real + fract as real / 8.0;
            ParseCoord(EncodedCoord(whole, fract, negative) + rest) == Parsed(if negative then -v else v, rest)
  {
    var v := if whole > 4095 then 4095 else whole;
    Pow2At12();
    SmallPowers(3);
    FromToBits(v, 12);
    FromToBits(fract, 3);
    hide ToBits, FromBits, Pow2;
    var m, e := ToBits(v, 12), ToBits(fract, 3);
    SlicesOfCoord(whole != 0, fract != 0, negative, m, e, rest);
  }

  lemma SlicesOfCoord(w: bool, f: bool, negative: bool, m: seq<bool>, e: seq<bool>, rest: seq<bool>)
    requires |m| == 12 && |e| == 3
    ensures var bits := [w, f] + (if !w && !f then [] else [negative] + (if w then m else []) + (if f then e else [])) + rest;
            var fractAt := if w then 15 else 3;
            && |bits| >= 2 && bits[0] == w && bits[1] == f
            && (!w && !f ==> bits[2..] == rest)
            && (w || f ==>
                  var end := if f then fractAt + 3 else fractAt;
                  && |bits| >= end && bits[2] == negative && bits[end..] == rest
                  && (w ==> bits[3..15] == m) && (f ==> bits[fractAt..fractAt + 3] == e))
  {
  }

  /** The wire form: flags for a whole part and for eighths, then, if one is up, the sign and the
      digits of what is flagged, the lowest first. */
  lemma CoordOnWire(whole: nat, fract: nat, negative: bool, k: nat)
    requires fract < 8
    ensures var bits, at := EncodedCoord(whole, fract, negative), if whole != 0 then 15 else 3;
            && |bits| == (if whole == 0 && fract == 0 then 2 else if fract == 0 then at else at + 3)
            && (bits[0] <==> whole != 0) && (bits[1] <==> fract != 0)
            && (whole != 0 || fract != 0 ==> (bits[2] <==> negative))
            && (whole != 0 && k < 12 ==> (bits[3 + k] <==> Digit(if whole > 4095 then 4095 else whole, k)))
            && (fract != 0 && k < 3 ==> (bits[at + k] <==> Digit(fract, k)))
  {
    hide ToBits, Digit;
    if k < 12 {
      BitIsDigit(if whole > 4095 then 4095 else whole, 12, k);
    }
    if k < 3 {
      BitIsDigit(fract, 3, k);
    }
  }

  /** What is sent of a number: nothing but the flags if it is less than one, else its whole part. */
  lemma CoordBitsAre(f: real)
    ensures -1.0 < f < 1.0 ==> CoordBits(f) == [false, false]
    ensures f <= -1.0 || f >= 1.0 ==> CoordBits(f) == EncodedCoord(Abs(Trunc(f)), 0, f < 0.0) && Trunc(f) != 0
  {
    hide Times8, Magnitudes;
    NoEighths(Trunc(f));
  }

  /** The round trip is exact for the whole numbers that 12 bits hold, and for no others. */
  lemma CoordExact(f: real)
    ensures ParseCoord(CoordBits(f)) == Parsed(f, []) <==> f == f.Floor as real && -4095.0 <= f <= 4095.0
  {
    hide ParseCoord, CoordBits;
    CoordRoundTrip(f, []);
    assert CoordBits(f) + [] == CoordBits(f);
    if WholePart(f) as real == f {
      assert f == f.Floor as real;
    }
  }

  /** A coordinate that does not arrive. */
  lemma HalfLost()
    ensures ParseCoord(CoordBits(1.5)) == Parsed(1.0, [])
  {
    hide ParseCoord, CoordBits;
    CoordRoundTrip(1.5, []);
    assert CoordBits(1.5) + [] == CoordBits(1.5);
  }

  /** MSG_WriteBitCoord */
  method WriteBitCoord(w: BitWriter, f: real)
    requires -2147483648.0 < f < 2147483648.0
    requires w.Valid() && w.Room(|CoordBits(f)|)
    modifies w`pending, w`nCurOutputBit, w`sent, w.pbuf`cursize, w.pbuf`overflowed, w.pbuf.data
    ensures w.Valid()
    ensures w.sent == old(w.sent) + CoordBits(f)
  {
    hide ToBits, Trunc, Times8, Magnitudes, BitWriter.Valid;
    TruncFits(f);
    var signbit := if f <= -0.125 then 1 else 0;
    var intval := Abs(Trunc(f));
    var fractval := Abs(Times8(Trunc(f))) % 8;
    ghost var sent := w.sent;
    w.WriteOneBit(intval);
    w.WriteOneBit(fractval);
    assert w.sent == sent + [intval != 0, fractval != 0];
    if intval != 0 || fractval != 0 {
      WriteMagnitudes(w, intval, fractval, signbit);
    }
  }

  method WriteMagnitudes(w: BitWriter, intval: UInt32, fractval: UInt32, signbit: UInt32)
    requires fractval < 8
    requires w.Valid() && w.Room(|Magnitudes(intval, fractval, signbit != 0)|)
    modifies w`pending, w`nCurOutputBit, w`sent, w.pbuf`cursize, w.pbuf`overflowed, w.pbuf.data
    ensures w.Valid()
    ensures w.sent == old(w.sent) + Magnitudes(intval, fractval, signbit != 0)
  {
    hide ToBits, FieldBits, BitWriter.Valid;
    ghost var sent := w.sent;
    ghost var whole := if intval != 0 then ToBits(if intval > 4095 then 4095 else intval, 12) else [];
    w.WriteOneBit(signbit);
    if intval != 0 {
      WholeField(intval);
      w.WriteBits(intval, 12);
    }
    assert w.sent == sent + ([signbit != 0] + whole);
    if fractval != 0 {
      FractField(fractval);
      w.WriteBits(fractval, 3);
    }
  }

  lemma TruncFits(f: real)
    requires -2147483648.0 < f < 2147483648.0
    ensures Abs(Trunc(f)) < 0x8000_0000
  {
  }

  lemma WholeField(i: UInt32)
    ensures FieldBits(i, 12) == ToBits(if i > 4095 then 4095 else i, 12)
  {
    hide ToBits;
    Pow2At12();
  }

  lemma FractField(i: nat)
    requires i < 8
    ensures FieldBits(i, 3) == ToBits(i, 3)
  {
    hide ToBits;
    assert Pow2(3) == 8;
  }

  /** MSG_ReadBitCoord */
  method ReadBitCoord(r: BitReader) returns (value: real)
    requires r.Valid()
    modifies r`msg_badread, r`nMsgReadCount, r`nBytesRead, r`nCurInputBit, r`pInByte, r`requested
    ensures r.Valid() && (old(r.msg_badread) ==> r.msg_badread)
    ensures match ParseCoord(old(r.Rest())) {
              case Short => r.msg_badread
              case Parsed(v, rest) => !r.msg_badread && value == v && r.Rest() == rest
            }
  {
    hide FromBits, BitReader.Valid, BitReader.Rest;
    ghost var rest := r.Rest();
    value := 0.0;
    var intval := r.ReadOneBit();
    var fractval := r.ReadOneBit();
    if intval != 0 || fractval != 0 {
      var signbit := r.ReadOneBit();
      assert !r.msg_badread ==> r.Rest() == rest[3..];
      if intval != 0 {
        intval := r.ReadBits(12);
        assert !r.msg_badread ==> r.Rest() == rest[15..] && rest[3..][..12] == rest[3..15];
      }
      if fractval != 0 {
        ghost var at := if rest != [] && rest[0] then 15 else 3;
        fractval := r.ReadBits(3);
        assert !r.msg_badread ==> r.Rest() == rest[at + 3..] && rest[at..][..3] == rest[at..at + 3];
      }
      value := fractval as real / 8.0 + intval as real;
      if signbit != 0 {
        value := -value;
      }
    }
  }

  // ----- vectors of coordinates

  datatype Vec3 = Vec3(x: real, y: real, z: real)

  /** Whether a component is worth sending. */
  predicate Flagged(f: real) {
    f <= -0.125 || f >= 0.125
  }

  function ComponentBits(f: real): seq<bool> {
    if Flagged(f) then CoordBits(f) else []
  }

  /** The bits that MSG_WriteBitVec3Coord makes of a vector. */
  function Vec3Bits(v: Vec3): seq<bool> {
    [Flagged(v.x), Flagged(v.y), Flagged(v.z)] + ComponentBits(v.x) + ComponentBits(v.y) + ComponentBits(v.z)
  }

  /** A component that is not flagged keeps its value. */
  function ParseComponent(flag: bool, bits: seq<bool>, before: real): Parsed<real> {
    if flag then ParseCoord(bits) else Parsed(before, bits)
  }

  function ParseVec3(bits: seq<bool>, before: Vec3): Parsed<Vec3> {
    if |bits| < 3 then Short
    else ParseX(bits[0], bits[1], bits[2], bits[3..], before)
  }

  function ParseX(flagX: bool, flagY: bool, flagZ: bool, bits: seq<bool>, before: Vec3): Parsed<Vec3> {
    match ParseComponent(flagX, bits, before.x)
    case Short => Short
    case Parsed(x, rest) => ParseY(flagY, flagZ, rest, before.(x := x))
  }

  function ParseY(flagY: bool, flagZ: bool, bits: seq<bool>, before: Vec3): Parsed<Vec3> {
    match ParseComponent(flagY, bits, before.y)
    case Short => Short
    case Parsed(y, rest) => ParseZ(flagZ, rest, before.(y := y))
  }

  function ParseZ(flagZ: bool, bits: seq<bool>, before: Vec3): Parsed<Vec3> {
    match ParseComponent(flagZ, bits, before.z)
    case Short => Short
    case Parsed(z, rest) => Parsed(before.(z := z), rest)
  }

  lemma ComponentRoundTrip(f: real, rest: seq<bool>)
    ensures ParseComponent(Flagged(f), ComponentBits(f) + rest, 0.0) == Parsed(WholePart(f) as real, rest)
  {
    hide ParseCoord, CoordBits;
    if Flagged(f) {
      CoordRoundTrip(f, rest);
    } else {
      assert ComponentBits(f) + rest == rest;
    }
  }

  /** A vector read into a zero vector arrives as its whole parts, and reading stays in step. */
  lemma Vec3RoundTrip(v: Vec3, rest: seq<bool>)
    ensures ParseVec3(Vec3Bits(v) + rest, Vec3(0.0, 0.0, 0.0))
            == Parsed(Vec3(WholePart(v.x) as real, WholePart(v.y) as real, WholePart(v.z) as real), rest)
  {
    hide ParseComponent, ComponentBits, WholePart, Flagged;
    var x, y, z := ComponentBits(v.x), ComponentBits(v.y), ComponentBits(v.z);
    ComponentRoundTrip(v.x, y + (z + rest));
    ComponentRoundTrip(v.y, z + rest);
    ComponentRoundTrip(v.z, rest);
    assert (Vec3Bits(v) + rest)[3..] == x + (y + (z + rest));
  }

  /** On the wire: three flags, in the order of the components, then the flagged components. */
  lemma Vec3OnWire(v: Vec3)
    ensures var bits := Vec3Bits(v);
            && |bits| >= 3
            && (bits[0] <==> v.x <= -0.125 || v.x >= 0.125)
            && (bits[1] <==> v.y <= -0.125 || v.y >= 0.125)
            && (bits[2] <==> v.z <= -0.125 || v.z >= 0.125)
            && bits[3..] == (if bits[0] then CoordBits(v.x) else []) + (if bits[1] then CoordBits(v.y) else [])
                            + (if bits[2] then CoordBits(v.z) else [])
  {
    hide CoordBits;
  }

  /** Components without a flag keep their value, and the others are read in their order. */
  lemma Vec3Kept(bits: seq<bool>, before: Vec3)
    ensures ParseVec3([false, false, false] + bits, before) == Parsed(before, bits)
    ensures ParseVec3([true, false, false] + bits, before)
            == match ParseCoord(bits) case Short => Short case Parsed(f, rest) => Parsed(before.(x := f), rest)
    ensures ParseVec3([false, true, false] + bits, before)
            == match ParseCoord(bits) case Short => Short case Parsed(f, rest) => Parsed(before.(y := f), rest)
    ensures ParseVec3([false, false, true] + bits, before)
            == match ParseCoord(bits) case Short => Short case Parsed(f, rest) => Parsed(before.(z := f), rest)
  {
    hide ParseCoord;
    assert ([false, false, false] + bits)[3..] == bits && ([true, false, false] + bits)[3..] == bits;
    assert ([false, true, false] + bits)[3..] == bits && ([false, false, true] + bits)[3..] == bits;
  }

  /** MSG_WriteBitVec3Coord */
  method WriteBitVec3Coord(w: BitWriter, fa: array<real>)
    requires fa.Length == 3 && forall i :: 0 <= i < 3 ==> -2147483648.0 < fa[i] < 2147483648.0
    requires w.Valid() && w.Room(|Vec3Bits(Vec3(fa[0], fa[1], fa[2]))|)
    modifies w`pending, w`nCurOutputBit, w`sent, w.pbuf`cursize, w.pbuf`overflowed, w.pbuf.data
    ensures w.Valid()
    ensures w.sent == old(w.sent) + Vec3Bits(Vec3(fa[0], fa[1], fa[2]))
  {
    hide BitWriter.Valid, ComponentBits;
    var xflag := fa[0] <= -0.125 || fa[0] >= 0.125;
    var yflag := fa[1] <= -0.125 || fa[1] >= 0.125;
    var zflag := fa[2] <= -0.125 || fa[2] >= 0.125;
    ghost var sent, flags := w.sent, [xflag, yflag, zflag];
    ghost var x, y, z := ComponentBits(fa[0]), ComponentBits(fa[1]), ComponentBits(fa[2]);

    w.WriteOneBit(if xflag then 1 else 0);
    w.WriteOneBit(if yflag then 1 else 0);
    w.WriteOneBit(if zflag then 1 else 0);
    assert w.sent == sent + flags;
    WriteComponent(w, xflag, fa[0]);
    WriteComponent(w, yflag, fa[1]);
    WriteComponent(w, zflag, fa[2]);
    Assembled(sent, flags, x, y, z);
  }

  lemma Assembled(sent: seq<bool>, flags: seq<bool>, x: seq<bool>, y: seq<bool>, z: seq<bool>)
    ensures sent + flags + x + y + z == sent + (flags + x + y + z)
  {
  }

  method WriteComponent(w: BitWriter, flag: bool, f: real)
    requires flag <==> Flagged(f)
    requires -2147483648.0 < f < 2147483648.0
    requires w.Valid() && w.Room(|ComponentBits(f)|)
    modifies w`pending, w`nCurOutputBit, w`sent, w.pbuf`cursize, w.pbuf`overflowed, w.pbuf.data
    ensures w.Valid()
    ensures w.sent == old(w.sent) + ComponentBits(f)
  {
    hide BitWriter.Valid, CoordBits;
    if flag {
      WriteBitCoord(w, f);
    }
  }

  /** MSG_ReadBitVec3Coord */
  method ReadBitVec3Coord(r: BitReader, fa: array<real>)
    requires r.Valid() && fa.Length == 3
    modifies r`msg_badread, r`nMsgReadCount, r`nBytesRead, r`nCurInputBit, r`pInByte, r`requested, fa
    ensures r.Valid()
    ensures match ParseVec3(old(r.Rest()), old(Vec3(fa[0], fa[1], fa[2]))) {
              case Short => r.msg_badread
              case Parsed(v, rest) => !r.msg_badread && Vec3(fa[0], fa[1], fa[2]) == v && r.Rest() == rest
            }
  {
    hide BitReader.Valid, BitReader.Rest, ParseComponent;
    ghost var bits := r.Rest();
    var xflag := r.ReadOneBit();
    var yflag := r.ReadOneBit();
    var zflag := r.ReadOneBit();
    assert !r.msg_badread <==> |bits| >= 3;
    assert !r.msg_badread ==> r.Rest() == bits[3..];
    var x := ReadComponent(r, xflag, fa[0]);
    fa[0] := x;
    var y := ReadComponent(r, yflag, fa[1]);
    fa[1] := y;
    var z := ReadComponent(r, zflag, fa[2]);
    fa[2] := z;
  }

  method ReadComponent(r: BitReader, flag: UInt32, before: real) returns (value: real)
    requires r.Valid()
    modifies r`msg_badread, r`nMsgReadCount, r`nBytesRead, r`nCurInputBit, r`pInByte, r`requested
    ensures r.Valid()
    ensures old(r.msg_badread) ==> r.msg_badread
    ensures !old(r.msg_badread) ==>
              match ParseComponent(flag != 0, old(r.Rest()), before) {
                case Short => r.msg_badread
                case Parsed(v, rest) => !r.msg_badread && value == v && r.Rest() == rest
              }
  {
    hide BitReader.Valid, BitReader.Rest, ParseCoord;
    value := before;
    if flag != 0 {
      value := ReadBitCoord(r);
    }
  }
}
