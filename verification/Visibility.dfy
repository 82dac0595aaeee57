/** Leaf visibility: the run-length decoder, the decoded matrix, the audible matrix built
    from it, and the search for a visible leaf under a node. */
module Visibility {
  import opened Options
  import opened Words

  const MAX_MAP_LEAFS := 32767

  type Byte = bv8

  /** compressed_vis of a leaf; None is NULL, which stands for "sees everything". */
  type Compressed = Option<seq<Byte>>

  /** A map: one entry per leaf, the solid leaf 0 first. */
  datatype Model = Model(leafs: seq<Compressed>)
  {
    ghost predicate Valid() {
      && 1 <= |leafs| && RowBytes() <= MAX_MAP_LEAFS / 8
      && forall i :: 0 <= i < |leafs| ==> Decodable(leafs[i], RowBytes())
    }

    function NumLeafs(): nat
      requires |leafs| >= 1
    {
      |leafs| - 1
    }

    /** The bytes of a decoded row. */
    function RowBytes(): (r: nat)
      requires |leafs| >= 1
      ensures 8 * r >= |leafs| - 1 && (r > 0 ==> 8 * (r - 1) < |leafs| - 1)
    {
      (NumLeafs() + 7) / 8
    }
  }

  // ----- the code

  function Repeat(b: Byte, n: nat): (s: seq<Byte>)
    ensures |s| == n && forall k :: 0 <= k < n ==> s[k] == b
  {
    seq(n, _ => b)
  }

  /** Nonzero bytes stand for themselves, a zero byte for as many zeros as the next byte says. */
  function Expand(code: seq<Byte>): seq<Byte> {
    if code == [] then []
    else if code[0] != 0 then [code[0]] + Expand(code[1..])
    else if |code| == 1 then []
    else Repeat(0, code[1] as nat) + Expand(code[2..])
  }

  /** A piece of a compressed row. */
  datatype Item = Literal(b: Byte) | Run(n: Byte)
  {
    predicate Valid() {
      if Literal? then b != 0 else n != 0
    }

    function Code(): seq<Byte>
      requires Valid()
    {
      if Literal? then [b] else [0, n]
    }

    function Plain(): seq<Byte> {
      if Literal? then [b] else seq(n as nat, _ => 0)
    }
  }

  function Coded(items: seq<Item>): seq<Byte>
    requires forall x :: x in items ==> x.Valid()
  {
    if items == [] then [] else items[0].Code() + Coded(items[1..])
  }

  function Uncoded(items: seq<Item>): seq<Byte> {
    if items == [] then [] else items[0].Plain() + Uncoded(items[1..])
  }

  /** Expansion undoes the coding by nonzero literals and runs of 1 to 255 zeros. */
  lemma {:induction false} ExpandCoded(items: seq<Item>)
    requires forall x :: x in items ==> x.Valid()
    ensures Expand(Coded(items)) == Uncoded(items)
  {
    if items != [] {
      assert items[0] in items;
      ExpandCoded(items[1..]);
      ExpandItem(items[0], Coded(items[1..]));
    }
  }

  /** Every row has a coding. */
  lemma {:induction false} EveryRowCoded(row: seq<Byte>) returns (items: seq<Item>)
    ensures (forall x :: x in items ==> x.Valid()) && Uncoded(items) == row
  {
    items := [];
    if row != [] {
      var rest := EveryRowCoded(row[1..]);
      var first := if row[0] == 0 then Run(1) else Literal(row[0]);
      OneByte(first, row[0]);
      items := [first] + rest;
      assert items[1..] == rest;
    }
  }

  lemma OneByte(item: Item, b: Byte)
    requires item == if b == 0 then Run(1) else Literal(b)
    ensures item.Valid() && item.Plain() == [b]
  {
  }

  lemma ExpandItem(item: Item, tail: seq<Byte>)
    requires item.Valid()
    ensures Expand(item.Code() + tail) == item.Plain() + Expand(tail)
  {
    var code := item.Code() + tail;
    match item
    case Literal(b) =>
      assert code[0] == b && code[1..] == tail;
    case Run(n) =>
      assert code[0] == 0 && code[1] == n && code[2..] == tail;
      assert Repeat(0, n as nat) == item.Plain();
  }

  predicate Decodable(vis: Compressed, byteCount: nat) {
    if vis.None? then byteCount <= MAX_MAP_LEAFS / 8 else byteCount <= |Expand(vis.value)|
  }

  /** The decoded row. */
  function Decoded(vis: Compressed, byteCount: nat): (row: seq<Byte>)
    requires Decodable(vis, byteCount)
    ensures |row| == byteCount
  {
    if vis.None? then Repeat(0xFF, byteCount) else Expand(vis.value)[..byteCount]
  }

  /** Without data every leaf is seen. */
  lemma NoDataSeesAll(byteCount: nat, m: nat)
    requires byteCount <= MAX_MAP_LEAFS / 8 && m < 8 * byteCount
    ensures (Decoded(None, byteCount)[m / 8] >> (m % 8)) & 1 == 1
  {
    OnesEverywhere(m % 8);
  }

  lemma OnesEverywhere(k: nat)
    requires k < 8
    ensures (0xFF as bv8 >> k) & 1 == 1
  {
  }

  lemma NextLiteral(code: seq<Byte>, p: nat)
    requires p < |code| && code[p] != 0
    ensures Expand(code[p..]) == [code[p]] + Expand(code[p + 1..])
  {
    assert code[p..][1..] == code[p + 1..];
  }

  lemma NextRun(code: seq<Byte>, p: nat)
    requires p < |code| && code[p] == 0 && Expand(code[p..]) != []
    ensures p + 1 < |code| && Expand(code[p..]) == Repeat(0, code[p + 1] as nat) + Expand(code[p + 2..])
  {
    assert code[p..][2..] == code[p + 2..];
  }

  lemma NothingLeft(code: seq<Byte>, p: nat)
    requires p <= |code|
    ensures p == |code| ==> Expand(code[p..]) == []
  {
  }

  /** CM_DecompressPVS, writing to out from index at on. */
  method DecompressPVS(vis: Compressed, out: array<Byte>, at: nat, byteCount: nat)
    requires Decodable(vis, byteCount) && at + byteCount <= out.Length
    modifies out
    ensures out[at..at + byteCount] == Decoded(vis, byteCount)
    ensures forall k :: 0 <= k < out.Length && !(at <= k < at + byteCount) ==> out[k] == old(out[k])
  {
    if vis == None {
      forall k | 0 <= k < byteCount {
        out[at + k] := 0xFF;
      }
      return;
    }
    Unpack(vis.value, out, at, byteCount);
  }

  /** The decoding loop of CM_DecompressPVS. */
  method Unpack(code: seq<Byte>, out: array<Byte>, at: nat, byteCount: nat)
    requires byteCount <= |Expand(code)| && at + byteCount <= out.Length
    modifies out
    ensures out[at..at + byteCount] == Expand(code)[..byteCount]
    ensures forall k :: 0 <= k < out.Length && !(at <= k < at + byteCount) ==> out[k] == old(out[k])
  {
    hide Expand;
    ghost var all := Expand(code);
    var p: nat, n: nat := 0, 0;
    assert code[0..] == code;
    while n < byteCount
      invariant n <= byteCount && p <= |code|
      invariant n <= |all| && forall k :: 0 <= k < n ==> out[at + k] == all[k]
      invariant n < byteCount ==> all[n..] == Expand(code[p..])
      invariant forall k :: 0 <= k < out.Length && !(at <= k < at + byteCount) ==> out[k] == old(out[k])
      decreases |code| - p
    {
      NothingLeft(code, p);
      if code[p] != 0 {
        NextLiteral(code, p);
        Ahead(all, n, [code[p]], Expand(code[p + 1..]));
        out[at + n] := code[p];
        n := n + 1;
        p := p + 1;
      } else {
        ghost var n0 := n;
        NextRun(code, p);
        p, n := UnpackRun(code, out, at, byteCount, p, n);
        RunAhead(code, p - 2, all, n0, n, byteCount);
      }
    }
  }

  /** A run of zeros, cut off where the output ends. */
  method UnpackRun(code: seq<Byte>, out: array<Byte>, at: nat, byteCount: nat, p: nat, n: nat) returns (p': nat, n': nat)
    requires p + 1 < |code| && n <= byteCount && at + byteCount <= out.Length
    modifies out
    ensures p' == p + 2 && n' == if code[p + 1] as nat > byteCount - n then byteCount else n + code[p + 1] as nat
    ensures forall k :: 0 <= k < out.Length ==> out[k] == if at + n <= k < at + n' then 0 else old(out[k])
  {
    var c := code[p + 1] as nat;
    p' := p + 2;
    if c > byteCount - n {
      c := byteCount - n;
    }
    ClearBytes(out, at + n, c);
    n' := n + c;
  }

  /** What the expansion holds where a run stands, and behind it unless it was cut off. */
  lemma RunAhead(code: seq<Byte>, p: nat, all: seq<Byte>, n: nat, n': nat, byteCount: nat)
    requires p + 1 < |code| && code[p] == 0 && n <= |all| && all[n..] == Expand(code[p..])
    requires n < byteCount <= |all| && n' == if code[p + 1] as nat > byteCount - n then byteCount else n + code[p + 1] as nat
    ensures n' <= |all| && forall k :: n <= k < n' ==> all[k] == 0
    ensures n' < byteCount ==> all[n'..] == Expand(code[p + 2..])
  {
    hide Expand;
    NextRun(code, p);
    Ahead(all, n, Repeat(0, code[p + 1] as nat), Expand(code[p + 2..]));
  }

  lemma Ahead(all: seq<Byte>, n: nat, x: seq<Byte>, tail: seq<Byte>)
    requires n <= |all| && all[n..] == x + tail
    ensures n + |x| <= |all| && all[n + |x|..] == tail
    ensures forall k :: n <= k < n + |x| ==> all[k] == x[k - n]
  {
    assert all == all[..n] + (x + tail);
    assert all[n + |x|..] == all[n..][|x|..];
  }

  /** Q_memset(&out[at], 0, n) */
  method ClearBytes(out: array<Byte>, at: nat, n: nat)
    requires at + n <= out.Length
    modifies out
    ensures forall k :: 0 <= k < out.Length ==> out[k] == if at <= k < at + n then 0 else old(out[k])
  {
    forall k | 0 <= k < n {
      out[at + k] := 0;
    }
  }

  // ----- which models the tables can be made for

  /** Up to 32760 leaves besides leaf 0, each with no data or with enough of it. */
  lemma ValidIff(model: Model)
    ensures model.Valid() <==>
              && 1 <= |model.leafs| && |model.leafs| - 1 <= 32760
              && forall i :: 0 <= i < |model.leafs| && model.leafs[i].Some? ==>
                     8 * |Expand(model.leafs[i].value)| >= |model.leafs| - 1
  {
    hide Expand;
    if |model.leafs| >= 1 && |model.leafs| - 1 <= 32760 {
      forall i | 0 <= i < |model.leafs|
        ensures Decodable(model.leafs[i], model.RowBytes()) <==>
                  (model.leafs[i].Some? ==> 8 * |Expand(model.leafs[i].value)| >= |model.leafs| - 1)
      {
      }
    }
  }

  // ----- rows of bits

  function BitMask(k: nat): Byte
    requires k < 8
  {
    match k
    case 0 => 0x01
    case 1 => 0x02
    case 2 => 0x04
    case 3 => 0x08
    case 4 => 0x10
    case 5 => 0x20
    case 6 => 0x40
    case _ => 0x80
  }

  predicate HasBit(b: Byte, k: nat)
    requires k < 8
  {
    b & BitMask(k) != 0
  }

  /** Bit m of a byte string. */
  predicate BitAt(row: seq<Byte>, m: nat)
    requires m < 8 * |row|
  {
    HasBit(row[m / 8], m % 8)
  }

  lemma HasBitIs(b: Byte, k: nat)
    requires k < 8
    ensures HasBit(b, k) <==> (b >> k) & 1 == 1
  {
  }

  /** Bit m is binary digit m % 8 of byte m / 8. */
  lemma BitAtIs(row: seq<Byte>, m: nat)
    requires m < 8 * |row|
    ensures BitAt(row, m) <==> (row[m / 8] >> (m % 8)) & 1 == 1
  {
    HasBitIs(row[m / 8], m % 8);
  }

  /** Row i of a matrix of rows of rb bytes. */
  function Row(matrix: seq<Byte>, rb: nat, i: nat): (row: seq<Byte>)
    requires i * rb + rb <= |matrix|
    ensures |row| == rb
  {
    matrix[i * rb..i * rb + rb]
  }

  lemma RowByte(matrix: seq<Byte>, rb: nat, i: nat, k: nat)
    requires i * rb + rb <= |matrix| && k < rb
    ensures Row(matrix, rb, i)[k] == matrix[i * rb + k]
  {
  }

  lemma RowInside(rb: nat, count: nat, i: nat)
    requires i < count
    ensures i * rb + rb <= count * rb
  {
    assert (i + 1) * rb <= count * rb;
  }

  lemma NextRow(rb: nat, i: nat)
    ensures (i + 1) * rb == i * rb + rb
  {
  }

  function OrByte(x: Byte, y: Byte): Byte {
    x | y
  }

  lemma BitOfOr(x: Byte, y: Byte, k: nat)
    requires k < 8
    ensures HasBit(OrByte(x, y), k) <==> HasBit(x, k) || HasBit(y, k)
  {
  }

  lemma BytesOfOr(v: bv32, w: bv32, k: nat)
    requires k < 4
    ensures ByteOf(v | w, k) == OrByte(ByteOf(v, k), ByteOf(w, k))
  {
    match k
    case 0 => assert (v | w) & 0xFF == (v & 0xFF) | (w & 0xFF);
    case 1 => assert ((v | w) >> 8) & 0xFF == ((v >> 8) & 0xFF) | ((w >> 8) & 0xFF);
    case 2 => assert ((v | w) >> 16) & 0xFF == ((v >> 16) & 0xFF) | ((w >> 16) & 0xFF);
    case _ => assert ((v | w) >> 24) & 0xFF == ((v >> 24) & 0xFF) | ((w >> 24) & 0xFF);
  }

  // ----- the audible matrix

  /** Bit m is heard in row i: it is visible there, or visible from one of the first upto
      leaves visible there. Bit b stands for leaf b + 1. */
  ghost predicate Heard(pvs: seq<Byte>, rb: nat, count: nat, i: nat, m: nat, upto: nat)
    requires |pvs| == count * rb && i < count && m < 8 * rb && upto <= 8 * rb
  {
    RowInside(rb, count, i);
    || BitAt(Row(pvs, rb, i), m)
    || exists b :: 0 <= b < upto && Relays(pvs, rb, count, i, m, b)
  }

  /** The leaf of bit b is visible in row i and sees bit m. */
  ghost predicate Relays(pvs: seq<Byte>, rb: nat, count: nat, i: nat, m: nat, b: nat)
    requires |pvs| == count * rb && i < count && m < 8 * rb && b < 8 * rb
  {
    RowInside(rb, count, i);
    && BitAt(Row(pvs, rb, i), b)
    && b + 1 < count
    && (RowInside(rb, count, b + 1); BitAt(Row(pvs, rb, b + 1), m))
  }

  /** One pass of the inner loop of CM_CalcPAS: dest[l] |= src[l] for all words of a row. */
  method OrRow(dest: array<Byte>, at: nat, src: array<Byte>, from: nat, rowwords: nat)
    requires dest != src
    requires at + 4 * rowwords <= dest.Length && from + 4 * rowwords <= src.Length
    modifies dest
    ensures forall k :: 0 <= k < dest.Length ==>
              dest[k] == if at <= k < at + 4 * rowwords then OrByte(old(dest[k]), src[from + k - at]) else old(dest[k])
  {
    hide Word, ByteOf, OrByte;
    for l := 0 to rowwords
      invariant forall k :: 0 <= k < dest.Length ==>
                  dest[k] == if at <= k < at + 4 * l then OrByte(old(dest[k]), src[from + k - at]) else old(dest[k])
    {
      OrWord(dest, at + 4 * l, src, from + 4 * l);
    }
  }

  method OrWord(dest: array<Byte>, d: nat, src: array<Byte>, s: nat)
    requires dest != src && d + 4 <= dest.Length && s + 4 <= src.Length
    modifies dest
    ensures forall k :: 0 <= k < dest.Length ==>
              dest[k] == if d <= k < d + 4 then OrByte(old(dest[k]), src[s + k - d]) else old(dest[k])
  {
    hide Word, ByteOf, OrByte;
    var v := Word(dest[d], dest[d + 1], dest[d + 2], dest[d + 3]);
    var w := Word(src[s], src[s + 1], src[s + 2], src[s + 3]);
    BytesOfWord(dest[d], dest[d + 1], dest[d + 2], dest[d + 3]);
    BytesOfWord(src[s], src[s + 1], src[s + 2], src[s + 3]);
    BytesOfOr(v, w, 0);
    BytesOfOr(v, w, 1);
    BytesOfOr(v, w, 2);
    BytesOfOr(v, w, 3);
    dest[d], dest[d + 1], dest[d + 2], dest[d + 3] := ByteOf(v | w, 0), ByteOf(v | w, 1), ByteOf(v | w, 2), ByteOf(v | w, 3);
  }

  lemma HeardNext(pvs: seq<Byte>, rb: nat, count: nat, i: nat, m: nat, u: nat)
    requires |pvs| == count * rb && i < count && m < 8 * rb && u < 8 * rb
    ensures Heard(pvs, rb, count, i, m, u + 1) <==> Heard(pvs, rb, count, i, m, u) || Relays(pvs, rb, count, i, m, u)
  {
    hide Relays, Row, BitAt;
    RowInside(rb, count, i);
    if Heard(pvs, rb, count, i, m, u + 1) && !BitAt(Row(pvs, rb, i), m) {
      var b :| 0 <= b < u + 1 && Relays(pvs, rb, count, i, m, b);
    }
  }

  /** Row i of the audible matrix is complete up to the first upto relays. */
  ghost predicate RowBuilt(pas: seq<Byte>, pvs: seq<Byte>, rb: nat, count: nat, i: nat, upto: nat)
    requires |pas| == |pvs| == count * rb && i < count && upto <= 8 * rb
  {
    RowInside(rb, count, i);
    forall m :: 0 <= m < 8 * rb ==> (BitAt(Row(pas, rb, i), m) <==> Heard(pvs, rb, count, i, m, upto))
  }

  /** A row copied from the visible matrix has heard nothing yet. */
  lemma RowCopied(pas: seq<Byte>, pvs: seq<Byte>, rb: nat, count: nat, i: nat)
    requires |pas| == |pvs| == count * rb && i < count
    requires i * rb + rb <= |pvs| && Row(pas, rb, i) == Row(pvs, rb, i)
    ensures RowBuilt(pas, pvs, rb, count, i, 0)
  {
    hide Row, BitAt;
    RowInside(rb, count, i);
  }

  /** A bit that relays nothing leaves the row complete. */
  lemma NothingRelayed(pas: seq<Byte>, pvs: seq<Byte>, rb: nat, count: nat, i: nat, u: nat)
    requires |pas| == |pvs| == count * rb && i < count && u < 8 * rb
    requires RowBuilt(pas, pvs, rb, count, i, u)
    requires i * rb + rb <= |pvs| && (!BitAt(Row(pvs, rb, i), u) || u + 1 >= count)
    ensures RowBuilt(pas, pvs, rb, count, i, u + 1)
  {
    hide Heard, Row, BitAt;
    RowInside(rb, count, i);
    forall m | 0 <= m < 8 * rb ensures BitAt(Row(pas, rb, i), m) <==> Heard(pvs, rb, count, i, m, u + 1) {
      HeardNext(pvs, rb, count, i, m, u);
    }
  }

  /** Or-ing in the row of the leaf that bit u stands for adds what it relays. */
  lemma LeafRelayed(pas: seq<Byte>, pas': seq<Byte>, pvs: seq<Byte>, rb: nat, count: nat, i: nat, u: nat)
    requires |pas| == |pas'| == |pvs| == count * rb && i < count && u < 8 * rb && u + 1 < count
    requires RowBuilt(pas, pvs, rb, count, i, u)
    requires i * rb + rb <= |pvs| && (u + 1) * rb + rb <= |pvs| && BitAt(Row(pvs, rb, i), u)
    requires forall x :: i * rb <= x < i * rb + rb ==> pas'[x] == OrByte(pas[x], pvs[(u + 1) * rb + x - i * rb])
    ensures RowBuilt(pas', pvs, rb, count, i, u + 1)
  {
    hide Heard, Relays, BitAt, Row, OrByte;
    RowInside(rb, count, i);
    RowOred(pas, pas', pvs, rb, i, u);
    forall m | 0 <= m < 8 * rb ensures BitAt(Row(pas', rb, i), m) <==> Heard(pvs, rb, count, i, m, u + 1) {
      HeardNext(pvs, rb, count, i, m, u);
      RelaysSet(pvs, rb, count, i, m, u);
      BitRelayed(Row(pas, rb, i), Row(pas', rb, i), Row(pvs, rb, u + 1), m);
    }
  }

  /** A leaf that is heard relays what it sees. */
  lemma RelaysSet(pvs: seq<Byte>, rb: nat, count: nat, i: nat, m: nat, u: nat)
    requires |pvs| == count * rb && i < count && m < 8 * rb && u < 8 * rb && u + 1 < count
    requires i * rb + rb <= |pvs| && (u + 1) * rb + rb <= |pvs| && BitAt(Row(pvs, rb, i), u)
    ensures Relays(pvs, rb, count, i, m, u) <==> BitAt(Row(pvs, rb, u + 1), m)
  {
    hide BitAt, Row;
  }

  lemma RowOred(pas: seq<Byte>, pas': seq<Byte>, pvs: seq<Byte>, rb: nat, i: nat, u: nat)
    requires |pas| == |pas'| == |pvs| && i * rb + rb <= |pvs| && (u + 1) * rb + rb <= |pvs|
    requires forall x :: i * rb <= x < i * rb + rb ==> pas'[x] == OrByte(pas[x], pvs[(u + 1) * rb + x - i * rb])
    ensures forall k :: 0 <= k < rb ==> Row(pas', rb, i)[k] == OrByte(Row(pas, rb, i)[k], Row(pvs, rb, u + 1)[k])
  {
    hide OrByte;
    SliceOred(pas, pas', pvs, i * rb, (u + 1) * rb, rb, Row(pas, rb, i), Row(pas', rb, i), Row(pvs, rb, u + 1));
  }

  lemma SliceOred(pas: seq<Byte>, pas': seq<Byte>, pvs: seq<Byte>, at: nat, from: nat, n: nat,
                  row: seq<Byte>, row': seq<Byte>, src: seq<Byte>)
    requires |pas| == |pas'| == |pvs| && at + n <= |pvs| && from + n <= |pvs|
    requires row == pas[at..at + n] && row' == pas'[at..at + n] && src == pvs[from..from + n]
    requires forall x :: at <= x < at + n ==> pas'[x] == OrByte(pas[x], pvs[from + x - at])
    ensures forall k :: 0 <= k < n ==> row'[k] == OrByte(row[k], src[k])
  {
    hide OrByte;
    forall k | 0 <= k < n ensures row'[k] == OrByte(row[k], src[k]) {
      assert pas'[at + k] == OrByte(pas[at + k], pvs[from + (at + k) - at]);
    }
  }

  lemma BitRelayed(row: seq<Byte>, row': seq<Byte>, src: seq<Byte>, m: nat)
    requires |row| == |row'| == |src| && m < 8 * |row|
    requires forall k :: 0 <= k < |row| ==> row'[k] == OrByte(row[k], src[k])
    ensures BitAt(row', m) <==> BitAt(row, m) || BitAt(src, m)
  {
    hide OrByte, HasBit;
    var j := m / 8;
    assert row'[j] == OrByte(row[j], src[j]);
    BitOfOr(row[j], src[j], m % 8);
  }

  lemma ZeroByte(row: seq<Byte>, j: nat, k: nat)
    requires j < |row| && row[j] == 0 && k < 8
    ensures !BitAt(row, 8 * j + k)
  {
    hide HasBit;
    assert (8 * j + k) / 8 == j && (8 * j + k) % 8 == k;
    ZeroMasked(k);
  }

  lemma ZeroMasked(k: nat)
    requires k < 8
    ensures !HasBit(0, k)
  {
  }

  /** The body of the row loop of CM_CalcPAS, after the row has been copied. */
  method BuildRow(pas: array<Byte>, pvs: array<Byte>, rb: nat, count: nat, i: nat)
    requires pas != pvs && pas.Length == pvs.Length == count * rb && i < count && rb % 4 == 0
    requires RowBuilt(pas[..], pvs[..], rb, count, i, 0)
    modifies pas
    ensures RowBuilt(pas[..], pvs[..], rb, count, i, 8 * rb)
    ensures forall x :: 0 <= x < pas.Length && !(i * rb <= x < i * rb + rb) ==> pas[x] == old(pas[x])
  {
    hide RowBuilt, HasBit, OrByte;
    RowInside(rb, count, i);
    var j := 0;
    while j < rb
      invariant 0 <= j <= rb
      invariant RowBuilt(pas[..], pvs[..], rb, count, i, 8 * j)
      invariant forall x :: 0 <= x < pas.Length && !(i * rb <= x < i * rb + rb) ==> pas[x] == old(pas[x])
    {
      var bitbyte := pvs[i * rb + j];
      if bitbyte == 0 {
        SkipByte(pas[..], pvs[..], rb, count, i, j);
      } else {
        var k := 0;
        while k < 8
          invariant 0 <= k <= 8
          invariant RowBuilt(pas[..], pvs[..], rb, count, i, 8 * j + k)
          invariant forall x :: 0 <= x < pas.Length && !(i * rb <= x < i * rb + rb) ==> pas[x] == old(pas[x])
        {
          RelayBit(pas, pvs, rb, count, i, j, k, bitbyte);
          k := k + 1;
        }
      }
      j := j + 1;
    }
  }

  lemma {:induction false} SkipByte(pas: seq<Byte>, pvs: seq<Byte>, rb: nat, count: nat, i: nat, j: nat)
    requires |pas| == |pvs| == count * rb && i < count && j < rb
    requires i * rb + rb <= |pvs| && pvs[i * rb + j] == 0
    requires RowBuilt(pas, pvs, rb, count, i, 8 * j)
    ensures RowBuilt(pas, pvs, rb, count, i, 8 * j + 8)
  {
    hide RowBuilt, BitAt;
    var k := 0;
    while k < 8
      invariant 0 <= k <= 8 && RowBuilt(pas, pvs, rb, count, i, 8 * j + k)
    {
      ZeroByte(Row(pvs, rb, i), j, k);
      NothingRelayed(pas, pvs, rb, count, i, 8 * j + k);
      k := k + 1;
    }
  }

  lemma RowBit(pvs: seq<Byte>, rb: nat, i: nat, j: nat, k: nat)
    requires i * rb + rb <= |pvs| && j < rb && k < 8
    ensures BitAt(Row(pvs, rb, i), 8 * j + k) <==> HasBit(pvs[i * rb + j], k)
  {
    hide HasBit;
    assert (8 * j + k) / 8 == j && (8 * j + k) % 8 == k;
  }

  /** The innermost body of CM_CalcPAS: bit k of byte j of the row. */
  method RelayBit(pas: array<Byte>, pvs: array<Byte>, rb: nat, count: nat, i: nat, j: nat, k: nat, bitbyte: Byte)
    requires pas != pvs && pas.Length == pvs.Length == count * rb && i < count && rb % 4 == 0 && j < rb && k < 8
    requires i * rb + rb <= pvs.Length && bitbyte == pvs[i * rb + j]
    requires RowBuilt(pas[..], pvs[..], rb, count, i, 8 * j + k)
    modifies pas
    ensures RowBuilt(pas[..], pvs[..], rb, count, i, 8 * j + k + 1)
    ensures forall x :: 0 <= x < pas.Length && !(i * rb <= x < i * rb + rb) ==> pas[x] == old(pas[x])
  {
    hide RowBuilt, HasBit, OrByte, BitAt;
    RowBit(pvs[..], rb, i, j, k);
    hide Row;
    if !HasBit(bitbyte, k) {
      NothingRelayed(pas[..], pvs[..], rb, count, i, 8 * j + k);
      return;
    }
    var index := j * 8 + k + 1;
    if index >= count {
      NothingRelayed(pas[..], pvs[..], rb, count, i, 8 * j + k);
      return;
    }
    RelayLeaf(pas, pvs, rb, count, i, index);
  }

  /** Or-ing in the row of a leaf that is seen. */
  method RelayLeaf(pas: array<Byte>, pvs: array<Byte>, rb: nat, count: nat, i: nat, index: nat)
    requires pas != pvs && pas.Length == pvs.Length == count * rb && i < count && rb % 4 == 0
    requires 1 <= index < count && index <= 8 * rb
    requires i * rb + rb <= pvs.Length && BitAt(Row(pvs[..], rb, i), index - 1)
    requires RowBuilt(pas[..], pvs[..], rb, count, i, index - 1)
    modifies pas
    ensures RowBuilt(pas[..], pvs[..], rb, count, i, index)
    ensures forall x :: 0 <= x < pas.Length && !(i * rb <= x < i * rb + rb) ==> pas[x] == old(pas[x])
  {
    hide RowBuilt, OrByte, BitAt, Row;
    RowInside(rb, count, index);
    ghost var before := pas[..];
    OrRow(pas, i * rb, pvs, index * rb, rb / 4);
    LeafRelayed(before, pas[..], pvs[..], rb, count, i, index - 1);
  }

  // ----- the tables of a map

  function Aligned(rows: nat): (rb: nat)
    ensures rb % 4 == 0 && rows <= rb < rows + 4
  {
    (rows + 3) / 4 * 4
  }

  /** Row i of the visible matrix: the decoded row of leaf i, padded to whole words. */
  ghost predicate RowDecoded(pvs: seq<Byte>, leafs: seq<Compressed>, rows: nat, rb: nat, i: nat)
    requires |pvs| == |leafs| * rb && rows <= rb && i < |leafs| && Decodable(leafs[i], rows)
  {
    RowInside(rb, |leafs|, i);
    Row(pvs, rb, i) == Decoded(leafs[i], rows) + Repeat(0, rb - rows)
  }

  class VisTables {
    var gPVS: array?<Byte>
    var gPAS: array?<Byte>
    var gPVSRowBytes: nat

    constructor ()
      ensures gPVS == null && gPAS == null
    {
      gPVS, gPAS, gPVSRowBytes := null, null, 0;
    }

    /** The tables are not there, or they are those of the model. */
    ghost predicate BuiltFor(model: Model)
      requires model.Valid()
      reads this, gPVS, gPAS
    {
      gPVS != null ==>
        && gPAS != null && gPAS != gPVS
        && gPVSRowBytes == Aligned(model.RowBytes())
        && gPVS.Length == gPAS.Length == |model.leafs| * gPVSRowBytes
        && (forall i :: 0 <= i < |model.leafs| ==> RowDecoded(gPVS[..], model.leafs, model.RowBytes(), gPVSRowBytes, i))
        && (forall i :: 0 <= i < |model.leafs| ==>
              RowBuilt(gPAS[..], gPVS[..], gPVSRowBytes, |model.leafs|, i, 8 * gPVSRowBytes))
    }

    /** CM_FreePAS */
    method FreePAS()
      modifies this
      ensures gPVS == null && gPAS == null && gPVSRowBytes == old(gPVSRowBytes)
    {
      gPAS := null;
      gPVS := null;
    }

    /** CM_CalcPAS */
    method CalcPAS(model: Model)
      requires model.Valid()
      modifies this
      ensures gPVS != null && BuiltFor(model)
      ensures Built(gPAS[..], gPVS[..], gPVSRowBytes, |model.leafs|)
      ensures var rb, count := gPVSRowBytes, |model.leafs|;
              forall i, m :: 1 <= i < count && 1 <= m < count ==>
                (Marked(gPAS[..], rb, count, i, m) <==>
                   || Marked(gPVS[..], rb, count, i, m)
                   || exists x :: 1 <= x < count && Marked(gPVS[..], rb, count, i, x) && Marked(gPVS[..], rb, count, x, m))
      ensures forall i :: 0 <= i < |model.leafs| ==> RowDecoded(gPVS[..], model.leafs, model.RowBytes(), gPVSRowBytes, i)
    {
      hide Decoded, RowBuilt;
      FreePAS();
      var rows := model.RowBytes();
      var count := |model.leafs|;
      var rb := Aligned(rows);
      gPVSRowBytes := rb;
      var pvs := DecodeAll(model.leafs, rows, rb);
      var pas := BuildAll(pvs, count, rb);
      gPVS, gPAS := pvs, pas;
      TablesBuilt(this, model);
      hide Built, Marked, RowDecoded;
      AllAudible(pas[..], pvs[..], rb, count);
    }

    /** Mod_LeafPVS, by the number of the leaf: the bytes that its result points at. */
    method LeafPVS(leafnum: nat, model: Model) returns (row: seq<Byte>)
      requires model.Valid() && leafnum < |model.leafs| && BuiltFor(model)
      ensures |row| >= model.RowBytes()
      ensures row[..model.RowBytes()] == if leafnum == 0 then Repeat(0xFF, model.RowBytes())
                                        else Decoded(model.leafs[leafnum], model.RowBytes())
    {
      hide Decoded, RowBuilt, Row, Decodable;
      if leafnum == 0 {
        return Repeat(0xFF, MAX_MAP_LEAFS / 8);
      }
      if gPVS == null {
        row := DecompressVis(model.leafs[leafnum], model);
      } else {
        assert RowDecoded(gPVS[..], model.leafs, model.RowBytes(), gPVSRowBytes, leafnum);
        row := RowBytesAt(gPVS, gPVSRowBytes, |model.leafs|, leafnum);
      }
    }
  }

  /** Tables that were built hold the two relations, and have a bit for every leaf. */
  lemma TablesBuilt(tables: VisTables, model: Model)
    requires model.Valid() && tables.BuiltFor(model) && tables.gPVS != null
    ensures Built(tables.gPAS[..], tables.gPVS[..], tables.gPVSRowBytes, |model.leafs|)
  {
    hide RowBuilt;
  }

  /** CM_LeafPVS: the bytes at `&gPVS[gPVSRowBytes * leafnum]`, a row's worth of them. */
  method RowBytesAt(gPVS: array<Byte>, rb: nat, count: nat, leafnum: nat) returns (row: seq<Byte>)
    requires gPVS.Length == count * rb && leafnum < count
    ensures leafnum * rb + rb <= gPVS.Length && row == Row(gPVS[..], rb, leafnum)
  {
    RowInside(rb, count, leafnum);
    assert rb * leafnum == leafnum * rb;
    row := gPVS[rb * leafnum..rb * leafnum + rb];
  }

  /** Mod_DecompressVis */
  method DecompressVis(vis: Compressed, model: Model) returns (row: seq<Byte>)
    requires model.Valid() && Decodable(vis, model.RowBytes())
    ensures |row| >= model.RowBytes() && row[..model.RowBytes()] == Decoded(vis, model.RowBytes())
  {
    if vis == None {
      return Repeat(0xFF, MAX_MAP_LEAFS / 8);
    }
    var decompressed := new Byte[MAX_MAP_LEAFS / 8];
    DecompressPVS(vis, decompressed, 0, model.RowBytes());
    row := decompressed[..];
    assert row[..model.RowBytes()] == decompressed[0..0 + model.RowBytes()];
  }

  /** The decoding loop of CM_CalcPAS, into a zeroed matrix. */
  method DecodeAll(leafs: seq<Compressed>, rows: nat, rb: nat) returns (pvs: array<Byte>)
    requires rows <= rb && forall i :: 0 <= i < |leafs| ==> Decodable(leafs[i], rows)
    ensures fresh(pvs) && pvs.Length == |leafs| * rb
    ensures forall i :: 0 <= i < |leafs| ==> RowDecoded(pvs[..], leafs, rows, rb, i)
  {
    hide RowDecoded, Decodable, DecodedTo;
    pvs := new Byte[|leafs| * rb](_ => 0);
    NoneDecoded(pvs[..], leafs, rows, rb);
    var scan: nat := 0;
    for i := 0 to |leafs|
      invariant DecodedTo(pvs[..], leafs, rows, rb, i, scan)
    {
      DecodeRow(leafs, rows, rb, pvs, i, scan);
      scan := scan + rb;
    }
    AllDecoded(pvs[..], leafs, rows, rb, scan);
  }

  /** The rows before i, which starts at scan, are decoded, and the others are zero. */
  ghost predicate DecodedTo(pvs: seq<Byte>, leafs: seq<Compressed>, rows: nat, rb: nat, i: nat, scan: nat)
    requires rows <= rb && i <= |leafs| && forall r :: 0 <= r < |leafs| ==> Decodable(leafs[r], rows)
  {
    && |pvs| == |leafs| * rb && scan == i * rb
    && (forall r :: 0 <= r < i ==> RowDecoded(pvs, leafs, rows, rb, r))
    && (forall x :: scan <= x < |pvs| ==> pvs[x] == 0)
  }

  lemma NoneDecoded(pvs: seq<Byte>, leafs: seq<Compressed>, rows: nat, rb: nat)
    requires rows <= rb && forall r :: 0 <= r < |leafs| ==> Decodable(leafs[r], rows)
    requires |pvs| == |leafs| * rb && forall x :: 0 <= x < |pvs| ==> pvs[x] == 0
    ensures DecodedTo(pvs, leafs, rows, rb, 0, 0)
  {
  }

  lemma AllDecoded(pvs: seq<Byte>, leafs: seq<Compressed>, rows: nat, rb: nat, scan: nat)
    requires rows <= rb && forall r :: 0 <= r < |leafs| ==> Decodable(leafs[r], rows)
    requires DecodedTo(pvs, leafs, rows, rb, |leafs|, scan)
    ensures |pvs| == |leafs| * rb && forall i :: 0 <= i < |leafs| ==> RowDecoded(pvs, leafs, rows, rb, i)
  {
  }

  method DecodeRow(leafs: seq<Compressed>, rows: nat, rb: nat, pvs: array<Byte>, i: nat, scan: nat)
    requires rows <= rb && i < |leafs| && forall r :: 0 <= r < |leafs| ==> Decodable(leafs[r], rows)
    requires DecodedTo(pvs[..], leafs, rows, rb, i, scan)
    modifies pvs
    ensures DecodedTo(pvs[..], leafs, rows, rb, i + 1, scan + rb)
  {
    hide RowDecoded, Decodable;
    RowInside(rb, |leafs|, i);
    NextRow(rb, i);
    ghost var before := pvs[..];
    DecodeOne(leafs, rows, rb, pvs, i, scan);
    RowsStillDecoded(before, pvs[..], leafs, rows, rb, i, scan);
  }

  lemma RowsStillDecoded(pvs: seq<Byte>, pvs': seq<Byte>, leafs: seq<Compressed>, rows: nat, rb: nat, i: nat, scan: nat)
    requires |pvs| == |pvs'| == |leafs| * rb && rows <= rb && i < |leafs| && scan == i * rb
    requires forall r :: 0 <= r < i ==> Decodable(leafs[r], rows)
    requires forall x :: 0 <= x < scan && x < |pvs| ==> pvs'[x] == pvs[x]
    requires forall r :: 0 <= r < i ==> RowDecoded(pvs, leafs, rows, rb, r)
    ensures forall r :: 0 <= r < i ==> RowDecoded(pvs', leafs, rows, rb, r)
  {
    hide RowDecoded, Decodable;
    forall r | 0 <= r < i ensures RowDecoded(pvs', leafs, rows, rb, r) {
      RowsApart(rb, |leafs|, r, i);
      StillDecoded(pvs, pvs', leafs, rows, rb, r);
    }
  }

  /** Row i of the decoding loop. */
  method DecodeOne(leafs: seq<Compressed>, rows: nat, rb: nat, pvs: array<Byte>, i: nat, scan: nat)
    requires rows <= rb && i < |leafs| && Decodable(leafs[i], rows)
    requires pvs.Length == |leafs| * rb && scan == i * rb && scan + rb <= pvs.Length
    requires forall x :: scan <= x < scan + rb ==> pvs[x] == 0
    modifies pvs
    ensures RowDecoded(pvs[..], leafs, rows, rb, i)
    ensures forall x :: 0 <= x < pvs.Length && !(scan <= x < scan + rb) ==> pvs[x] == old(pvs[x])
  {
    hide Decoded, Decodable, Row;
    DecompressPVS(leafs[i], pvs, scan, rows);
    Padded(pvs[..], rows, rb, i);
  }

  lemma Padded(pvs: seq<Byte>, rows: nat, rb: nat, i: nat)
    requires i * rb + rb <= |pvs| && rows <= rb
    requires forall x :: i * rb + rows <= x < i * rb + rb ==> pvs[x] == 0
    ensures Row(pvs, rb, i) == pvs[i * rb..i * rb + rows] + Repeat(0, rb - rows)
  {
  }

  lemma StillDecoded(pvs: seq<Byte>, pvs': seq<Byte>, leafs: seq<Compressed>, rows: nat, rb: nat, r: nat)
    requires |pvs| == |pvs'| == |leafs| * rb && rows <= rb && r < |leafs| && Decodable(leafs[r], rows)
    requires r * rb + rb <= |pvs| && forall x :: r * rb <= x < r * rb + rb ==> pvs'[x] == pvs[x]
    requires RowDecoded(pvs, leafs, rows, rb, r)
    ensures RowDecoded(pvs', leafs, rows, rb, r)
  {
    hide Decoded, Decodable;
    assert Row(pvs', rb, r) == Row(pvs, rb, r);
  }

  lemma RowsApart(rb: nat, count: nat, r: nat, i: nat)
    requires r < i < count
    ensures r * rb + rb <= i * rb <= count * rb
  {
    assert (r + 1) * rb <= i * rb;
    assert i * rb <= count * rb;
  }

  /** The audible-matrix loop of CM_CalcPAS. */
  method BuildAll(pvs: array<Byte>, count: nat, rb: nat) returns (pas: array<Byte>)
    requires pvs.Length == count * rb && rb % 4 == 0
    ensures fresh(pas) && pas.Length == count * rb
    ensures forall i :: 0 <= i < count ==> RowBuilt(pas[..], pvs[..], rb, count, i, 8 * rb)
  {
    hide RowBuilt;
    pas := new Byte[count * rb](_ => 0);
    for i := 0 to count
      invariant forall r :: 0 <= r < i ==> RowBuilt(pas[..], pvs[..], rb, count, r, 8 * rb)
    {
      RowInside(rb, count, i);
      ghost var before := pas[..];
      BuildOne(pas, pvs, count, rb, i);
      forall r | 0 <= r < i ensures RowBuilt(pas[..], pvs[..], rb, count, r, 8 * rb) {
        RowsApart(rb, count, r, i);
        SameRow(before, pas[..], pvs[..], rb, count, r, 8 * rb);
      }
    }
  }

  /** Row i of the audible-matrix loop. */
  method BuildOne(pas: array<Byte>, pvs: array<Byte>, count: nat, rb: nat, i: nat)
    requires pas != pvs && pas.Length == pvs.Length == count * rb && rb % 4 == 0
    requires i < count && i * rb + rb <= pas.Length
    modifies pas
    ensures RowBuilt(pas[..], pvs[..], rb, count, i, 8 * rb)
    ensures forall x :: 0 <= x < pas.Length && !(i * rb <= x < i * rb + rb) ==> pas[x] == old(pas[x])
  {
    hide RowBuilt;
    forall k | 0 <= k < rb {
      pas[i * rb + k] := pvs[i * rb + k];
    }
    assert Row(pas[..], rb, i) == Row(pvs[..], rb, i);
    RowCopied(pas[..], pvs[..], rb, count, i);
    BuildRow(pas, pvs, rb, count, i);
  }

  lemma SameRow(pas: seq<Byte>, pas': seq<Byte>, pvs: seq<Byte>, rb: nat, count: nat, r: nat, upto: nat)
    requires |pas| == |pas'| == |pvs| == count * rb && r < count && upto <= 8 * rb
    requires r * rb + rb <= |pas|
    requires forall x :: r * rb <= x < r * rb + rb ==> pas'[x] == pas[x]
    requires RowBuilt(pas, pvs, rb, count, r, upto)
    ensures RowBuilt(pas', pvs, rb, count, r, upto)
  {
    assert Row(pas', rb, r) == Row(pas, rb, r);
  }

  // ----- what the audible matrix means for leaves

  /** Leaf m is marked in the row of leaf i; leaf m has bit m - 1. */
  ghost predicate Marked(matrix: seq<Byte>, rb: nat, count: nat, i: nat, m: nat)
    requires |matrix| == count * rb && 1 <= i < count && 1 <= m < count && count <= 8 * rb + 1
  {
    var at := i * rb + (m - 1) / 8;
    at < |matrix| && (matrix[at] >> ((m - 1) % 8)) & 1 == 1
  }

  lemma MarkedIs(matrix: seq<Byte>, rb: nat, count: nat, i: nat, m: nat)
    requires |matrix| == count * rb && 1 <= i < count && 1 <= m < count && count <= 8 * rb + 1
    requires i * rb + rb <= |matrix|
    ensures Marked(matrix, rb, count, i, m) <==> BitAt(Row(matrix, rb, i), m - 1)
  {
    hide BitAt, Row;
    var k := (m - 1) / 8;
    BitAtIs(Row(matrix, rb, i), m - 1);
    RowByte(matrix, rb, i, k);
  }

  /** Both matrices are as CM_CalcPAS leaves them. */
  ghost predicate Built(pas: seq<Byte>, pvs: seq<Byte>, rb: nat, count: nat) {
    && |pas| == |pvs| == count * rb && count <= 8 * rb + 1
    && forall i :: 0 <= i < count ==> RowBuilt(pas, pvs, rb, count, i, 8 * rb)
  }

  lemma MarkedRow(pas: seq<Byte>, pvs: seq<Byte>, rb: nat, count: nat, x: nat)
    requires |pas| == |pvs| == count * rb && 1 <= x < count <= 8 * rb + 1
    ensures x * rb + rb <= |pvs|
    ensures forall y :: 1 <= y < count ==>
              (Marked(pvs, rb, count, x, y) <==> BitAt(Row(pvs, rb, x), y - 1))
              && (Marked(pas, rb, count, x, y) <==> BitAt(Row(pas, rb, x), y - 1))
  {
    hide BitAt, Row, Marked;
    RowInside(rb, count, x);
    forall y | 1 <= y < count
      ensures Marked(pvs, rb, count, x, y) <==> BitAt(Row(pvs, rb, x), y - 1)
      ensures Marked(pas, rb, count, x, y) <==> BitAt(Row(pas, rb, x), y - 1)
    {
      MarkedIs(pvs, rb, count, x, y);
      MarkedIs(pas, rb, count, x, y);
    }
  }

  /** A leaf is audible from another exactly if it is visible from it, or from a leaf visible from it. */
  lemma AudibleRelation(pas: seq<Byte>, pvs: seq<Byte>, rb: nat, count: nat, i: nat, m: nat)
    requires Built(pas, pvs, rb, count) && 1 <= i < count && 1 <= m < count
    ensures Marked(pas, rb, count, i, m) <==>
              || Marked(pvs, rb, count, i, m)
              || exists x :: 1 <= x < count && Marked(pvs, rb, count, i, x) && Marked(pvs, rb, count, x, m)
  {
    hide BitAt, Row, Marked;
    RowInside(rb, count, i);
    forall x | 1 <= x < count
      ensures x * rb + rb <= |pvs|
      ensures forall y :: 1 <= y < count ==>
                (Marked(pvs, rb, count, x, y) <==> BitAt(Row(pvs, rb, x), y - 1))
                && (Marked(pas, rb, count, x, y) <==> BitAt(Row(pas, rb, x), y - 1))
    {
      MarkedRow(pas, pvs, rb, count, x);
    }
    assert RowBuilt(pas, pvs, rb, count, i, 8 * rb);
    assert Marked(pas, rb, count, i, m) <==> Heard(pvs, rb, count, i, m - 1, 8 * rb);
    if Heard(pvs, rb, count, i, m - 1, 8 * rb) && !Marked(pvs, rb, count, i, m) {
      var b :| 0 <= b < 8 * rb && Relays(pvs, rb, count, i, m - 1, b);
      assert Marked(pvs, rb, count, i, b + 1) && Marked(pvs, rb, count, b + 1, m);
    }
    if exists x :: 1 <= x < count && Marked(pvs, rb, count, i, x) && Marked(pvs, rb, count, x, m) {
      var x :| 1 <= x < count && Marked(pvs, rb, count, i, x) && Marked(pvs, rb, count, x, m);
      assert Relays(pvs, rb, count, i, m - 1, x - 1);
    }
  }

  lemma AllAudible(pas: seq<Byte>, pvs: seq<Byte>, rb: nat, count: nat)
    requires Built(pas, pvs, rb, count)
    ensures forall i, m :: 1 <= i < count && 1 <= m < count ==>
              (Marked(pas, rb, count, i, m) <==>
                 || Marked(pvs, rb, count, i, m)
                 || exists x :: 1 <= x < count && Marked(pvs, rb, count, i, x) && Marked(pvs, rb, count, x, m))
  {
    hide Marked, RowBuilt;
    forall i, m | 1 <= i < count && 1 <= m < count
      ensures Marked(pas, rb, count, i, m) <==>
                || Marked(pvs, rb, count, i, m)
                || exists x :: 1 <= x < count && Marked(pvs, rb, count, i, x) && Marked(pvs, rb, count, x, m)
    {
      AudibleRelation(pas, pvs, rb, count, i, m);
    }
  }

  /** If sight goes both ways between leaves, so does sound. */
  lemma AudibleSymmetric(pas: seq<Byte>, pvs: seq<Byte>, rb: nat, count: nat, i: nat, m: nat)
    requires Built(pas, pvs, rb, count) && 1 <= i < count && 1 <= m < count
    requires forall x, y :: 1 <= x < count && 1 <= y < count ==> (Marked(pvs, rb, count, x, y) <==> Marked(pvs, rb, count, y, x))
    ensures Marked(pas, rb, count, i, m) <==> Marked(pas, rb, count, m, i)
  {
    hide Marked, Built;
    AudibleRelation(pas, pvs, rb, count, i, m);
    AudibleRelation(pas, pvs, rb, count, m, i);
  }

  /** The padding of the rows stays silent. */
  lemma PaddingSilent(pas: seq<Byte>, pvs: seq<Byte>, leafs: seq<Compressed>, rows: nat, rb: nat, i: nat, m: nat)
    requires Built(pas, pvs, rb, |leafs|) && rows <= rb && i < |leafs| && 8 * rows <= m < 8 * rb
    requires forall r :: 0 <= r < |leafs| ==> Decodable(leafs[r], rows) && RowDecoded(pvs, leafs, rows, rb, r)
    requires i * rb + rb <= |pas|
    ensures !BitAt(Row(pas, rb, i), m)
  {
    hide Row, BitAt, RowDecoded, Decodable;
    var count := |leafs|;
    assert RowBuilt(pas, pvs, rb, count, i, 8 * rb);
    RowInside(rb, count, i);
    PaddingUnseen(pvs, leafs, rows, rb, i, m);
    forall b | 0 <= b < 8 * rb ensures !Relays(pvs, rb, count, i, m, b) {
      if b + 1 < count {
        RowInside(rb, count, b + 1);
        PaddingUnseen(pvs, leafs, rows, rb, b + 1, m);
      }
    }
  }

  lemma PaddingUnseen(pvs: seq<Byte>, leafs: seq<Compressed>, rows: nat, rb: nat, i: nat, m: nat)
    requires |pvs| == |leafs| * rb && rows <= rb && i < |leafs| && Decodable(leafs[i], rows)
    requires RowDecoded(pvs, leafs, rows, rb, i) && 8 * rows <= m < 8 * rb && i * rb + rb <= |pvs|
    ensures !BitAt(Row(pvs, rb, i), m)
  {
    hide BitAt, Decoded, Decodable, Row;
    var row := Row(pvs, rb, i);
    assert row == Decoded(leafs[i], rows) + Repeat(0, rb - rows);
    assert row[m / 8] == 0;
    ZeroByte(row, m / 8, m % 8);
  }

  // ----- headnode visibility

  /** A node of a map's tree; a solid leaf and a missing child both end the search. */
  datatype Node = Missing | Solid | Leaf(leafnum: nat) | Split(left: Node, right: Node)

  /** The non-solid leaves under a node, from left to right. */
  function LeavesUnder(node: Node): seq<nat> {
    match node
    case Missing => []
    case Solid => []
    case Leaf(n) => [n]
    case Split(l, r) => LeavesUnder(l) + LeavesUnder(r)
  }

  predicate InRange(leaves: seq<nat>, visbits: seq<Byte>) {
    forall k :: 0 <= k < |leaves| ==> leaves[k] < 8 * |visbits|
  }

  function FirstVisible(leaves: seq<nat>, visbits: seq<Byte>): Option<nat>
    requires InRange(leaves, visbits)
  {
    if leaves == [] then None
    else if BitAt(visbits, leaves[0]) then Some(leaves[0])
    else FirstVisible(leaves[1..], visbits)
  }

  /** It is the leftmost leaf whose bit is set, and there is none exactly if no bit is set. */
  lemma {:induction false} FirstVisibleIsLeftmost(leaves: seq<nat>, visbits: seq<Byte>) returns (k: nat)
    requires InRange(leaves, visbits)
    ensures FirstVisible(leaves, visbits).Some? <==> k < |leaves|
    ensures k <= |leaves| && forall h :: 0 <= h < k ==> !BitAt(visbits, leaves[h])
    ensures k < |leaves| ==> BitAt(visbits, leaves[k]) && FirstVisible(leaves, visbits) == Some(leaves[k])
  {
    hide BitAt;
    k := 0;
    if leaves != [] && !BitAt(visbits, leaves[0]) {
      var t := FirstVisibleIsLeftmost(leaves[1..], visbits);
      k := t + 1;
      forall h | 0 <= h < k ensures !BitAt(visbits, leaves[h]) {
        assert h > 0 ==> leaves[h] == leaves[1..][h - 1];
      }
    }
  }

  lemma {:induction false} FirstVisibleConcat(a: seq<nat>, b: seq<nat>, visbits: seq<Byte>)
    requires InRange(a + b, visbits)
    ensures InRange(a, visbits) && InRange(b, visbits)
    ensures FirstVisible(a + b, visbits)
            == if FirstVisible(a, visbits).Some? then FirstVisible(a, visbits) else FirstVisible(b, visbits)
  {
    hide BitAt;
    assert forall k :: 0 <= k < |a| ==> (a + b)[k] == a[k];
    assert forall k :: 0 <= k < |b| ==> (a + b)[|a| + k] == b[k];
    if a == [] {
      assert a + b == b;
    } else {
      assert (a + b)[1..] == a[1..] + b;
      FirstVisibleConcat(a[1..], b, visbits);
    }
  }

  // ----- the search by paths

  /** What stands at the end of a path of turns, where true is to the right. */
  function At(node: Node, path: seq<bool>): Node
    decreases |path|
  {
    if path == [] then node
    else if node.Split? then At(if path[0] then node.right else node.left, path[1..])
    else Missing
  }

  /** The bit of a leaf is set. */
  predicate Lit(visbits: seq<Byte>, n: nat) {
    n / 8 < |visbits| && (visbits[n / 8] >> (n % 8)) & 1 == 1
  }

  /** Path p turns left where path q, after the same turns, turns right. */
  ghost predicate LeftOf(p: seq<bool>, q: seq<bool>) {
    exists k :: 0 <= k < |p| && k < |q| && p[..k] == q[..k] && !p[k] && q[k]
  }

  ghost predicate NoneLit(node: Node, visbits: seq<Byte>) {
    forall p :: At(node, p).Leaf? ==> !Lit(visbits, At(node, p).leafnum)
  }

  /** Leaf n stands at the end of a path, its bit is set, and that of no leaf to the left of it is. */
  ghost predicate LeftmostLit(node: Node, visbits: seq<Byte>, p: seq<bool>, n: nat) {
    && At(node, p) == Leaf(n) && Lit(visbits, n)
    && forall q :: At(node, q).Leaf? && LeftOf(q, p) ==> !Lit(visbits, At(node, q).leafnum)
  }

  lemma {:induction false} SearchByPaths(node: Node, visbits: seq<Byte>) returns (p: seq<bool>)
    requires InRange(LeavesUnder(node), visbits)
    ensures match FirstVisible(LeavesUnder(node), visbits)
            case None => NoneLit(node, visbits)
            case Some(n) => LeftmostLit(node, visbits, p, n)
    decreases node
  {
    hide BitAt, InRange, Lit;
    p := [];
    match node
    case Missing =>
    case Solid =>
    case Leaf(n) =>
      OneLeaf(n, visbits);
      BitAtLit(visbits, n);
    case Split(l, r) =>
      FirstVisibleConcat(LeavesUnder(l), LeavesUnder(r), visbits);
      var pl := SearchByPaths(l, visbits);
      var pr := SearchByPaths(r, visbits);
      hide FirstVisible;
      if FirstVisible(LeavesUnder(l), visbits).Some? {
        p := [false] + pl;
        LeftmostInLeft(l, r, visbits, pl, FirstVisible(LeavesUnder(l), visbits).value);
      } else if FirstVisible(LeavesUnder(r), visbits).Some? {
        p := [true] + pr;
        LeftmostInRight(l, r, visbits, pr, FirstVisible(LeavesUnder(r), visbits).value);
      } else {
        NoneInEither(l, r, visbits);
      }
  }

  lemma BitAtLit(visbits: seq<Byte>, n: nat)
    requires n < 8 * |visbits|
    ensures BitAt(visbits, n) <==> Lit(visbits, n)
  {
    BitAtIs(visbits, n);
  }

  lemma FirstTurn(l: Node, r: Node, turn: bool, p: seq<bool>)
    ensures At(Split(l, r), [turn] + p) == At(if turn then r else l, p)
  {
    assert ([turn] + p)[1..] == p;
  }

  lemma LaterTurns(turn: bool, p: seq<bool>, other: bool, q: seq<bool>)
    requires LeftOf([turn] + p, [other] + q)
    ensures (turn == other && LeftOf(p, q)) || (!turn && other)
  {
    var k :| 0 <= k < |[turn] + p| && k < |[other] + q| && ([turn] + p)[..k] == ([other] + q)[..k]
             && !([turn] + p)[k] && ([other] + q)[k];
    if k > 0 {
      assert ([turn] + p)[..k] == [turn] + p[..k - 1] && ([other] + q)[..k] == [other] + q[..k - 1];
      assert ([turn] + p)[..k][0] == turn && ([other] + q)[..k][0] == other;
      assert ([turn] + p[..k - 1])[1..] == p[..k - 1] && ([other] + q[..k - 1])[1..] == q[..k - 1];
    }
  }

  lemma NoneInEither(l: Node, r: Node, visbits: seq<Byte>)
    requires NoneLit(l, visbits) && NoneLit(r, visbits)
    ensures NoneLit(Split(l, r), visbits)
  {
    hide Lit;
    forall p | At(Split(l, r), p).Leaf? ensures !Lit(visbits, At(Split(l, r), p).leafnum) {
      assert p == [p[0]] + p[1..];
      FirstTurn(l, r, p[0], p[1..]);
    }
  }

  lemma LeftmostInLeft(l: Node, r: Node, visbits: seq<Byte>, p: seq<bool>, n: nat)
    requires LeftmostLit(l, visbits, p, n)
    ensures LeftmostLit(Split(l, r), visbits, [false] + p, n)
  {
    hide Lit, LeftOf;
    FirstTurn(l, r, false, p);
    forall q | At(Split(l, r), q).Leaf? && LeftOf(q, [false] + p) ensures !Lit(visbits, At(Split(l, r), q).leafnum) {
      assert q == [q[0]] + q[1..];
      FirstTurn(l, r, q[0], q[1..]);
      LaterTurns(q[0], q[1..], false, p);
    }
  }

  lemma LeftmostInRight(l: Node, r: Node, visbits: seq<Byte>, p: seq<bool>, n: nat)
    requires NoneLit(l, visbits) && LeftmostLit(r, visbits, p, n)
    ensures LeftmostLit(Split(l, r), visbits, [true] + p, n)
  {
    hide Lit, LeftOf;
    FirstTurn(l, r, true, p);
    forall q | At(Split(l, r), q).Leaf? && LeftOf(q, [true] + p) ensures !Lit(visbits, At(Split(l, r), q).leafnum) {
      assert q == [q[0]] + q[1..];
      FirstTurn(l, r, q[0], q[1..]);
      LaterTurns(q[0], q[1..], true, p);
    }
  }

  /** CM_HeadnodeVisible: the left child by recursion, the right one by going round the loop. */
  method HeadnodeVisible(node: Node, visbits: seq<Byte>) returns (visible: bool, first: nat)
    requires forall n :: n in LeavesUnder(node) ==> n / 8 < |visbits|
    ensures InRange(LeavesUnder(node), visbits)
    ensures FirstVisible(LeavesUnder(node), visbits) == if visible then Some(first) else None
    ensures if visible then exists p :: LeftmostLit(node, visbits, p, first) else NoneLit(node, visbits)
    decreases node
  {
    AllInRange(LeavesUnder(node), visbits);
    ghost var path := SearchByPaths(node, visbits);
    hide BitAt, InRange, FirstVisible, NoneLit, LeftmostLit, LeavesUnder;
    EndsOfTree(visbits);
    first := 0;
    var leaf := node;
    while !leaf.Missing? && !leaf.Solid?
      invariant leaf == node || leaf < node
      invariant InRange(LeavesUnder(leaf), visbits)
      invariant FirstVisible(LeavesUnder(node), visbits) == FirstVisible(LeavesUnder(leaf), visbits)
      decreases leaf
    {
      if leaf.Leaf? {
        OneLeaf(leaf.leafnum, visbits);
        if !BitAt(visbits, leaf.leafnum) {
          return false, first;
        }
        return true, leaf.leafnum;
      }
      FirstVisibleConcat(LeavesUnder(leaf.left), LeavesUnder(leaf.right), visbits);
      AllInRange(LeavesUnder(leaf.left), visbits);
      visible, first := HeadnodeVisible(leaf.left, visbits);
      if visible {
        return;
      }
      leaf := leaf.right;
    }
    visible := false;
  }

  lemma AllInRange(leaves: seq<nat>, visbits: seq<Byte>)
    ensures InRange(leaves, visbits) <==> forall n :: n in leaves ==> n / 8 < |visbits|
  {
    if InRange(leaves, visbits) {
      forall n | n in leaves ensures n / 8 < |visbits| {
        var k :| 0 <= k < |leaves| && leaves[k] == n;
      }
    }
    if forall n :: n in leaves ==> n / 8 < |visbits| {
      forall k | 0 <= k < |leaves| ensures leaves[k] < 8 * |visbits| {
        assert leaves[k] in leaves;
      }
    }
  }

  lemma EndsOfTree(visbits: seq<Byte>)
    ensures LeavesUnder(Missing) == LeavesUnder(Solid) == [] && FirstVisible([], visbits) == None
    ensures forall n: nat :: LeavesUnder(Leaf(n)) == [n]
    ensures forall l, r :: LeavesUnder(Split(l, r)) == LeavesUnder(l) + LeavesUnder(r)
  {
  }

  lemma OneLeaf(n: nat, visbits: seq<Byte>)
    requires InRange([n], visbits)
    ensures n < 8 * |visbits| && FirstVisible([n], visbits) == if BitAt(visbits, n) then Some(n) else None
  {
    hide BitAt;
    assert [n][0] == n;
  }
}
