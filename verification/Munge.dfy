/** The packet obfuscators COM_Munge and COM_UnMunge: three table-driven pairs, and
    the unrolled forms of the second pair. */
module Munge {
  import opened Words

  // ----- words in a byte buffer

  /** bswap, LongSwap */
  function Swap(w: bv32): bv32 {
    Word(ByteOf(w, 3), ByteOf(w, 2), ByteOf(w, 1), ByteOf(w, 0))
  }

  /** Word i of a buffer. */
  function WordAt(s: seq<bv8>, i: nat): bv32
    requires 4 * i + 4 <= |s|
  {
    Word(s[4 * i], s[4 * i + 1], s[4 * i + 2], s[4 * i + 3])
  }

  method SetWord(data: array<bv8>, i: nat, w: bv32)
    requires 4 * i + 4 <= data.Length
    modifies data
    ensures WordAt(data[..], i) == w
    ensures forall k :: 0 <= k < data.Length && !(4 * i <= k < 4 * i + 4) ==> data[k] == old(data[k])
  {
    hide ByteOf, Word;
    WordOfBytes(w);
    data[4 * i], data[4 * i + 1], data[4 * i + 2], data[4 * i + 3] := ByteOf(w, 0), ByteOf(w, 1), ByteOf(w, 2), ByteOf(w, 3);
  }

  // ----- the masks

  /** mungify_table, mungify_table2, mungify_table3 */
  const Table1: seq<bv8> := [0x7A, 0x64, 0x05, 0xF1, 0x1B, 0x9B, 0xA0, 0xB5, 0xCA, 0xED, 0x61, 0x0D, 0x4A, 0xDF, 0x8E, 0xC7]
  const Table2: seq<bv8> := [0x05, 0x61, 0x7A, 0xED, 0x1B, 0xCA, 0x0D, 0x9B, 0x4A, 0xF1, 0x64, 0xC7, 0xB5, 0x8E, 0xDF, 0xA0]
  const Table3: seq<bv8> := [0x20, 0x07, 0x13, 0x61, 0x03, 0x45, 0x17, 0x72, 0x0A, 0x2D, 0x48, 0x0C, 0x4A, 0x12, 0xA9, 0xB5]

  /** The tables as words, lowest byte first. */
  lemma TableWords()
    ensures WordAt(Table1, 0) == 0xF105647A && WordAt(Table1, 1) == 0xB5A09B1B
            && WordAt(Table1, 2) == 0x0D61EDCA && WordAt(Table1, 3) == 0xC78EDF4A
    ensures WordAt(Table2, 0) == 0xED7A6105 && WordAt(Table2, 1) == 0x9B0DCA1B
            && WordAt(Table2, 2) == 0xC764F14A && WordAt(Table2, 3) == 0xA0DF8EB5
    ensures WordAt(Table3, 0) == 0x61130720 && WordAt(Table3, 1) == 0x72174503
            && WordAt(Table3, 2) == 0x0C482D0A && WordAt(Table3, 3) == 0xB5A9124A
  {
  }

  /** `0xa5 | (j << j) | j | table[(i + j) & 0x0f]` */
  function MaskByte(table: seq<bv8>, i: nat, j: nat): bv8
    requires |table| == 16 && j < 4
  {
    0xA5 | (if j == 0 then 0 else if j == 1 then 2 else if j == 2 then 8 else 24) | (j as bv8) | table[(i + j) % 16]
  }

  function Mask(table: seq<bv8>, i: nat): bv32
    requires |table| == 16
  {
    Word(MaskByte(table, i, 0), MaskByte(table, i, 1), MaskByte(table, i, 2), MaskByte(table, i, 3))
  }

  /** What munging makes of one word, and what unmunging makes of it. */
  function MungedWord(c: bv32, sq: bv32, mask: bv32): bv32 {
    Xor(Xor(Swap(Xor(c, !sq)), mask), sq)
  }

  function UnmungedWord(c: bv32, sq: bv32, mask: bv32): bv32 {
    Xor(Swap(Xor(Xor(c, sq), mask)), !sq)
  }

  lemma MungeRoundTrip(c: bv32, sq: bv32, mask: bv32)
    ensures UnmungedWord(MungedWord(c, sq, mask), sq, mask) == c
    ensures MungedWord(UnmungedWord(c, sq, mask), sq, mask) == c
  {
    hide Xor, Swap;
    var w := Swap(Xor(c, !sq));
    XorLaws(Xor(w, mask), sq, 0);
    XorLaws(w, mask, 0);
    SwapTwice(Xor(c, !sq));
    XorLaws(c, !sq, 0);
    var v := Xor(Xor(c, sq), mask);
    XorLaws(Swap(v), !sq, 0);
    SwapTwice(v);
    XorLaws(Xor(c, sq), mask, 0);
    XorLaws(c, sq, 0);
  }

  /** The words that the unrolled forms have in place of a table. */
  function Unrolled(k: nat): bv32 {
    match k
    case 0 => 0xFFFFE7A5
    case 1 => 0xBFEFFFE5
    case 2 => 0xFFBFEFFF
    case 3 => 0xBFEFBFED
    case 4 => 0xBFAFEFBF
    case 5 => 0xFFBFAFEF
    case 6 => 0xFFEFBFAD
    case 7 => 0xFFFFEFBF
    case 8 => 0xFFEFF7EF
    case 9 => 0xBFEFE7F5
    case 10 => 0xBFBFE7E5
    case 11 => 0xFFAFB7E7
    case 12 => 0xBFFFAFB5
    case 13 => 0xBFAFFFAF
    case 14 => 0xFFAFA7FF
    case _ => 0xFFEFA7A5
  }

  /** They are the masks of the second table, which repeat every sixteen words. */
  lemma UnrolledMasks(i: nat)
    ensures Mask(Table2, i) == Unrolled(i % 16)
  {
    hide Unrolled, Word, MaskByte;
    MaskPeriod(Table2, i);
    UnrolledMask(i % 16);
  }

  lemma MaskPeriod(table: seq<bv8>, i: nat)
    requires |table| == 16
    ensures Mask(table, i) == Mask(table, i % 16)
  {
    hide Word, MaskByte;
    MaskBytePeriod(table, i, 0);
    MaskBytePeriod(table, i, 1);
    MaskBytePeriod(table, i, 2);
    MaskBytePeriod(table, i, 3);
  }

  lemma MaskBytePeriod(table: seq<bv8>, i: nat, j: nat)
    requires |table| == 16 && j < 4
    ensures MaskByte(table, i, j) == MaskByte(table, i % 16, j)
  {
    assert (i + j) % 16 == (i % 16 + j) % 16;
  }

  lemma UnrolledMask(k: nat)
    requires k < 16
    ensures Mask(Table2, k) == Unrolled(k)
  {
    match k
    case 0 =>
    case 1 =>
    case 2 =>
    case 3 =>
    case 4 =>
    case 5 =>
    case 6 =>
    case 7 =>
    case 8 =>
    case 9 =>
    case 10 =>
    case 11 =>
    case 12 =>
    case 13 =>
    case 14 =>
    case 15 =>
  }

  lemma SwapLinear(x: bv32, y: bv32)
    ensures Swap(Xor(x, y)) == Xor(Swap(x), Swap(y))
  {
  }

  lemma SwapTwice(x: bv32)
    ensures Swap(Swap(x)) == x
  {
  }

  /** `bswap(~seq) ^ seq` */
  function FoldedSeq(sq: bv32): bv32 {
    Xor(Swap(!sq), sq)
  }

  /** Folding the sequence number into one word, as the unrolled forms do, changes nothing. */
  lemma UnrolledForm(c: bv32, sq: bv32, mask: bv32)
    ensures Xor(Xor(Swap(c), FoldedSeq(sq)), mask) == MungedWord(c, sq, mask)
    ensures Swap(Xor(Xor(c, FoldedSeq(sq)), mask)) == UnmungedWord(c, sq, mask)
  {
    hide Swap, Xor;
    SwapLinear(c, !sq);
    XorRegroup(Swap(c), Swap(!sq), sq, mask);
    XorRegroup(c, Swap(!sq), sq, mask);
    SwapLinear(Xor(Xor(c, sq), mask), Swap(!sq));
    SwapTwice(!sq);
  }

  // ----- whole buffers

  datatype Direction = Munging | Unmunging

  function NewWord(d: Direction, c: bv32, sq: bv32, mask: bv32): bv32 {
    if d == Munging then MungedWord(c, sq, mask) else UnmungedWord(c, sq, mask)
  }

  /** t is s with its first n words changed, but for words lo to hi, which are kept as
      is every byte behind the n words. */
  ghost predicate DoneExcept(d: Direction, s: seq<bv8>, t: seq<bv8>, n: nat, lo: nat, hi: nat, sq: bv32, table: seq<bv8>)
    requires 4 * n <= |s| && |table| == 16
  {
    && |t| == |s| && lo <= hi <= n
    && (forall i :: 0 <= i < lo || hi <= i < n ==> WordAt(t, i) == NewWord(d, WordAt(s, i), sq, Mask(table, i)))
    && (forall i :: lo <= i < hi ==> WordAt(t, i) == WordAt(s, i))
    && (forall k :: 4 * n <= k < |s| ==> t[k] == s[k])
  }

  /** t is s with its first n words changed and nothing else. */
  ghost predicate Done(d: Direction, s: seq<bv8>, t: seq<bv8>, n: nat, sq: bv32, table: seq<bv8>)
    requires 4 * n <= |s| && |table| == 16
  {
    DoneExcept(d, s, t, n, n, n, sq, table)
  }

  /** Buffers that agree word by word and behind the words are equal. */
  lemma SameWords(s: seq<bv8>, t: seq<bv8>, n: nat)
    requires |s| == |t| && 4 * n <= |s|
    requires forall i :: 0 <= i < n ==> WordAt(s, i) == WordAt(t, i)
    requires forall k :: 4 * n <= k < |s| ==> t[k] == s[k]
    ensures s == t
  {
    hide Word;
    forall k | 0 <= k < |s| ensures s[k] == t[k] {
      if k < 4 * n {
        var i := k / 4;
        assert WordAt(s, i) == WordAt(t, i);
        WordInjective(s[4 * i], s[4 * i + 1], s[4 * i + 2], s[4 * i + 3], t[4 * i], t[4 * i + 1], t[4 * i + 2], t[4 * i + 3]);
      }
    }
  }

  /** There is one result: the loops and the unrolled forms agree. */
  lemma DoneUnique(d: Direction, s: seq<bv8>, t: seq<bv8>, u: seq<bv8>, n: nat, sq: bv32, table: seq<bv8>)
    requires 4 * n <= |s| && |table| == 16
    requires Done(d, s, t, n, sq, table) && Done(d, s, u, n, sq, table)
    ensures t == u
  {
    hide NewWord, Mask, WordAt;
    SameWords(t, u, n);
  }

  /** Each direction undoes the other, for every buffer, length, sequence number and table. */
  lemma EachUndoesOther(d: Direction, e: Direction, s: seq<bv8>, t: seq<bv8>, u: seq<bv8>, n: nat, sq: bv32, table: seq<bv8>)
    requires 4 * n <= |s| && |table| == 16 && d != e
    requires Done(d, s, t, n, sq, table) && Done(e, t, u, n, sq, table)
    ensures u == s
  {
    hide MungedWord, UnmungedWord, Mask, WordAt;
    forall i | 0 <= i < n ensures WordAt(u, i) == WordAt(s, i) {
      MungeRoundTrip(WordAt(s, i), sq, Mask(table, i));
      assert WordAt(t, i) == NewWord(d, WordAt(s, i), sq, Mask(table, i));
    }
    SameWords(s, u, n);
  }

  // ----- munging byte by byte

  /** Swapping reverses the bytes. */
  lemma SwapReverses(w: bv32, k: nat)
    requires k < 4
    ensures ByteOf(Swap(w), k) == ByteOf(w, 3 - k)
  {
    hide Word, ByteOf;
    BytesOfWord(ByteOf(w, 3), ByteOf(w, 2), ByteOf(w, 1), ByteOf(w, 0));
  }

  lemma MaskByteIs(table: seq<bv8>, i: nat, k: nat)
    requires |table| == 16 && k < 4
    ensures MaskByte(table, i, k) == table[(i + k) % 16] | [0xA5, 0xA7, 0xAF, 0xBF][k]
  {
    var b := table[(i + k) % 16];
    MaskBits(b);
  }

  lemma MaskBits(b: bv8)
    ensures 0xA5 | 0 | 0 | b == b | 0xA5 && 0xA5 | 2 | 1 | b == b | 0xA7
    ensures 0xA5 | 8 | 2 | b == b | 0xAF && 0xA5 | 24 | 3 | b == b | 0xBF
  {
  }

  lemma ByteOfXor(x: bv32, y: bv32, k: nat)
    requires k < 4
    ensures ByteOf(Xor(x, y), k) == ByteOf(x, k) ^ ByteOf(y, k)
  {
    match k
    case 0 =>
    case 1 =>
    case 2 =>
    case _ =>
  }

  lemma BytesOfWordAt(s: seq<bv8>, i: nat, k: nat)
    requires 4 * i + 4 <= |s| && k < 4
    ensures ByteOf(WordAt(s, i), k) == s[4 * i + k]
  {
    hide Word, ByteOf;
    BytesOfWord(s[4 * i], s[4 * i + 1], s[4 * i + 2], s[4 * i + 3]);
  }

  lemma ByteOfMask(table: seq<bv8>, i: nat, k: nat)
    requires |table| == 16 && k < 4
    ensures ByteOf(Mask(table, i), k) == MaskByte(table, i, k)
  {
    hide Word, ByteOf, MaskByte;
    BytesOfWord(MaskByte(table, i, 0), MaskByte(table, i, 1), MaskByte(table, i, 2), MaskByte(table, i, 3));
  }

  /** A munged buffer: the bytes of every word are reversed and exclusive-or-ed with those of the
      complement of the sequence number, reversed too, of the mask, and of the sequence number. */
  lemma MungedBytes(s: seq<bv8>, t: seq<bv8>, n: nat, sq: bv32, table: seq<bv8>, i: nat, k: nat)
    requires 4 * n <= |s| && |table| == 16 && i < n && k < 4
    requires Done(Munging, s, t, n, sq, table)
    ensures |t| == |s| && forall b :: 4 * n <= b < |s| ==> t[b] == s[b]
    ensures t[4 * i + k] == s[4 * i + 3 - k] ^ ByteOf(!sq, 3 - k) ^ MaskByte(table, i, k) ^ ByteOf(sq, k)
  {
    hide Swap, WordAt, ByteOf, Xor, Mask, MaskByte;
    var c, mask := WordAt(s, i), Mask(table, i);
    assert WordAt(t, i) == MungedWord(c, sq, mask);
    BytesOfWordAt(t, i, k);
    BytesOfWordAt(s, i, 3 - k);
    ByteOfMask(table, i, k);
    ByteOfXor(Xor(Swap(Xor(c, !sq)), mask), sq, k);
    ByteOfXor(Swap(Xor(c, !sq)), mask, k);
    SwapReverses(Xor(c, !sq), k);
    ByteOfXor(c, !sq, 3 - k);
  }

  /** The inverse. */
  lemma UnmungedBytes(s: seq<bv8>, t: seq<bv8>, n: nat, sq: bv32, table: seq<bv8>, i: nat, k: nat)
    requires 4 * n <= |s| && |table| == 16 && i < n && k < 4
    requires Done(Unmunging, s, t, n, sq, table)
    ensures |t| == |s| && forall b :: 4 * n <= b < |s| ==> t[b] == s[b]
    ensures t[4 * i + k] == s[4 * i + 3 - k] ^ ByteOf(sq, 3 - k) ^ MaskByte(table, i, 3 - k) ^ ByteOf(!sq, k)
  {
    hide Swap, WordAt, ByteOf, Xor, Mask, MaskByte;
    var c, mask := WordAt(s, i), Mask(table, i);
    assert WordAt(t, i) == UnmungedWord(c, sq, mask);
    BytesOfWordAt(t, i, k);
    BytesOfWordAt(s, i, 3 - k);
    ByteOfMask(table, i, 3 - k);
    ByteOfXor(Swap(Xor(Xor(c, sq), mask)), !sq, k);
    SwapReverses(Xor(Xor(c, sq), mask), k);
    ByteOfXor(Xor(c, sq), mask, 3 - k);
    ByteOfXor(c, sq, 3 - k);
  }

  // ----- how many words a length stands for

  /** `len / 4` of a signed length, which is cut off towards zero. */
  function Quarter(len: int): int {
    if len >= 0 then len / 4 else -(-len / 4)
  }

  /** The words that the loop forms change: none for a negative length. */
  function LoopWords(len: int): nat {
    if len >= 0 then len / 4 else 0
  }

  /** The words that the unrolled forms change. For a negative length no block is done, but the
      switch still looks at the low four bits of the number of words. */
  function UnrolledWords(len: int): nat {
    if len >= 0 then len / 4 else Quarter(len) % 16
  }

  /** A length that is not negative stands for the whole words in it, in both forms. */
  lemma WordCounts(len: int)
    ensures len >= 0 ==> 4 * Quarter(len) <= len < 4 * Quarter(len) + 4
    ensures len <= 0 ==> 4 * Quarter(len) - 4 < len <= 4 * Quarter(len)
    ensures if len < 0 then LoopWords(len) == 0 else 4 * LoopWords(len) <= len < 4 * LoopWords(len) + 4
    ensures if len < 0 then UnrolledWords(len) < 16 && (Quarter(len) - UnrolledWords(len)) % 16 == 0
            else 4 * UnrolledWords(len) <= len < 4 * UnrolledWords(len) + 4
  {
  }

  /** The buffer with its first n words changed. */
  function Changed(d: Direction, s: seq<bv8>, n: nat, sq: bv32, table: seq<bv8>): seq<bv8>
    requires 4 * n <= |s| && |table| == 16
  {
    seq(|s|, k requires 0 <= k < |s| =>
      if k < 4 * n then ByteOf(NewWord(d, WordAt(s, k / 4), sq, Mask(table, k / 4)), k % 4) else s[k])
  }

  lemma ChangedIsDone(d: Direction, s: seq<bv8>, n: nat, sq: bv32, table: seq<bv8>)
    requires 4 * n <= |s| && |table| == 16
    ensures Done(d, s, Changed(d, s, n, sq, table), n, sq, table)
  {
    hide Changed, ByteOf, NewWord, Word, Mask;
    var t := Changed(d, s, n, sq, table);
    ChangedBytes(d, s, n, sq, table);
    forall i | 0 <= i < n ensures WordAt(t, i) == NewWord(d, WordAt(s, i), sq, Mask(table, i)) {
      WordOfBytes(NewWord(d, WordAt(s, i), sq, Mask(table, i)));
    }
  }

  lemma ChangedBytes(d: Direction, s: seq<bv8>, n: nat, sq: bv32, table: seq<bv8>)
    requires 4 * n <= |s| && |table| == 16
    ensures var t := Changed(d, s, n, sq, table);
            && |t| == |s|
            && (forall i :: 0 <= i < n ==>
                  var w := NewWord(d, WordAt(s, i), sq, Mask(table, i));
                  && t[4 * i] == ByteOf(w, 0) && t[4 * i + 1] == ByteOf(w, 1)
                  && t[4 * i + 2] == ByteOf(w, 2) && t[4 * i + 3] == ByteOf(w, 3))
            && forall k :: 4 * n <= k < |s| ==> t[k] == s[k]
  {
    hide ByteOf, NewWord, Word, Mask, WordAt;
    forall i | 0 <= i < n
      ensures 4 * i / 4 == (4 * i + 1) / 4 == (4 * i + 2) / 4 == (4 * i + 3) / 4 == i
      ensures 4 * i % 4 == 0 && (4 * i + 1) % 4 == 1 && (4 * i + 2) % 4 == 2 && (4 * i + 3) % 4 == 3
    {
    }
  }

  /** The loop and the unrolled form agree on every buffer exactly for lengths above -4 and
      those whose number of words is a multiple of sixteen. */
  lemma FormsAgree(d: Direction, len: int)
    ensures (forall s, sq :: |s| >= 4 * UnrolledWords(len) && |s| >= len ==>
                Changed(d, s, UnrolledWords(len), sq, Table2) == Changed(d, s, LoopWords(len), sq, Table2))
            <==> len > -4 || Quarter(len) % 16 == 0
  {
    hide Changed;
    if len > -4 || Quarter(len) % 16 == 0 {
      assert UnrolledWords(len) == LoopWords(len);
    } else {
      var s := seq(4 * UnrolledWords(len), _ => 0 as bv8);
      ZerosChange(d, s, UnrolledWords(len));
      assert Changed(d, s, UnrolledWords(len), 0, Table2) != Changed(d, s, LoopWords(len), 0, Table2);
    }
  }

  lemma ZerosChange(d: Direction, s: seq<bv8>, n: nat)
    requires n > 0 && |s| == 4 * n && forall k :: 0 <= k < |s| ==> s[k] == 0
    ensures Changed(d, s, n, 0, Table2) != Changed(d, s, 0, 0, Table2)
  {
    hide Changed, Mask, NewWord, DoneExcept;
    ChangedIsDone(d, s, n, 0, Table2);
    ChangedIsDone(d, s, 0, 0, Table2);
    FirstWordChanges(d, s, Changed(d, s, n, 0, Table2), n);
    FirstWordKept(d, s, Changed(d, s, 0, 0, Table2));
  }

  lemma FirstWordKept(d: Direction, s: seq<bv8>, t: seq<bv8>)
    requires Done(d, s, t, 0, 0, Table2)
    ensures t == s
  {
    hide NewWord, Mask, WordAt;
  }

  lemma FirstWordChanges(d: Direction, s: seq<bv8>, t: seq<bv8>, n: nat)
    requires n > 0 && |s| == 4 * n && forall k :: 0 <= k < |s| ==> s[k] == 0
    requires Done(d, s, t, n, 0, Table2)
    ensures t != s
  {
    hide Mask, NewWord, Unrolled;
    UnrolledMasks(0);
    ZeroWord(d);
    assert WordAt(s, 0) == 0;
    assert WordAt(t, 0) == NewWord(d, 0, 0, Unrolled(0));
  }

  lemma ZeroWord(d: Direction)
    ensures NewWord(d, 0, 0, Unrolled(0)) != 0
  {
  }

  // ----- the table-driven loops

  /** COM_Munge, COM_Munge3, and the loop form of COM_Munge2: one loop, three tables. */
  method MungeLoop(data: array<bv8>, len: int, sq: bv32, table: seq<bv8>)
    requires len <= data.Length && |table| == 16
    modifies data
    ensures Done(Munging, old(data[..]), data[..], LoopWords(len), sq, table)
  {
    hide Mask, MaskByte, Word, Swap, Xor;
    var mungelen := (len - len % 4) / 4;
    ghost var n := LoopWords(len);
    var i := 0;
    while i < mungelen
      invariant 0 <= i <= n && DoneExcept(Munging, old(data[..]), data[..], n, i, n, sq, table)
    {
      ghost var before := data[..];
      var c := WordAt(data[..], i);
      c := Xor(c, !sq);
      c := Swap(c);
      c := XorBytes(c, i, table);
      c := Xor(c, sq);
      SetWord(data, i, c);
      KeptWords(before, data[..], i);
      i := i + 1;
    }
  }

  /** COM_UnMunge, COM_UnMunge3, and the loop form of COM_UnMunge2. */
  method UnmungeLoop(data: array<bv8>, len: int, sq: bv32, table: seq<bv8>)
    requires len <= data.Length && |table| == 16
    modifies data
    ensures Done(Unmunging, old(data[..]), data[..], LoopWords(len), sq, table)
  {
    hide Mask, MaskByte, Word, Swap, Xor;
    var mungelen := (len - len % 4) / 4;
    ghost var n := LoopWords(len);
    var i := 0;
    while i < mungelen
      invariant 0 <= i <= n && DoneExcept(Unmunging, old(data[..]), data[..], n, i, n, sq, table)
    {
      ghost var before := data[..];
      var c := WordAt(data[..], i);
      c := Xor(c, sq);
      c := XorBytes(c, i, table);
      c := Swap(c);
      c := Xor(c, !sq);
      SetWord(data, i, c);
      KeptWords(before, data[..], i);
      i := i + 1;
    }
  }

  /** COM_Munge */
  method Munge1(data: array<bv8>, len: int, sq: bv32)
    requires len <= data.Length
    modifies data
    ensures Done(Munging, old(data[..]), data[..], LoopWords(len), sq, Table1)
  {
    MungeLoop(data, len, sq, Table1);
  }

  /** COM_UnMunge */
  method Unmunge1(data: array<bv8>, len: int, sq: bv32)
    requires len <= data.Length
    modifies data
    ensures Done(Unmunging, old(data[..]), data[..], LoopWords(len), sq, Table1)
  {
    UnmungeLoop(data, len, sq, Table1);
  }

  /** COM_Munge3 */
  method Munge3(data: array<bv8>, len: int, sq: bv32)
    requires len <= data.Length
    modifies data
    ensures Done(Munging, old(data[..]), data[..], LoopWords(len), sq, Table3)
  {
    MungeLoop(data, len, sq, Table3);
  }

  /** COM_UnMunge3 */
  method Unmunge3(data: array<bv8>, len: int, sq: bv32)
    requires len <= data.Length
    modifies data
    ensures Done(Unmunging, old(data[..]), data[..], LoopWords(len), sq, Table3)
  {
    UnmungeLoop(data, len, sq, Table3);
  }

  /** The byte loop inside the munging loops. */
  method XorBytes(c: bv32, i: nat, table: seq<bv8>) returns (r: bv32)
    requires |table| == 16
    ensures r == Xor(c, Mask(table, i))
  {
    var p := [ByteOf(c, 0), ByteOf(c, 1), ByteOf(c, 2), ByteOf(c, 3)];
    for j := 0 to 4
      invariant |p| == 4
      invariant forall k :: 0 <= k < 4 ==> p[k] == if k < j then ByteOf(c, k) ^ MaskByte(table, i, k) else ByteOf(c, k)
    {
      p := p[j := p[j] ^ MaskByte(table, i, j)];
    }
    r := Word(p[0], p[1], p[2], p[3]);
    XorOfBytes(c, MaskByte(table, i, 0), MaskByte(table, i, 1), MaskByte(table, i, 2), MaskByte(table, i, 3));
  }

  lemma XorOfBytes(c: bv32, m0: bv8, m1: bv8, m2: bv8, m3: bv8)
    ensures Word(ByteOf(c, 0) ^ m0, ByteOf(c, 1) ^ m1, ByteOf(c, 2) ^ m2, ByteOf(c, 3) ^ m3) == Xor(c, Word(m0, m1, m2, m3))
  {
  }

  /** Storing word i leaves every other word as it was. */
  lemma KeptWords(s: seq<bv8>, t: seq<bv8>, i: nat)
    requires |s| == |t| && 4 * i + 4 <= |s|
    requires forall k :: 0 <= k < |s| && !(4 * i <= k < 4 * i + 4) ==> t[k] == s[k]
    ensures forall j :: 0 <= j && j != i && 4 * j + 4 <= |s| ==> WordAt(t, j) == WordAt(s, j)
  {
  }

  /** Changing the first or the last of the kept words as the others were changed. */
  lemma OneMore(d: Direction, s: seq<bv8>, t: seq<bv8>, u: seq<bv8>, n: nat, lo: nat, hi: nat, i: nat,
                sq: bv32, table: seq<bv8>)
    requires 4 * n <= |s| && |table| == 16 && lo < hi && (i == lo || i == hi - 1)
    requires DoneExcept(d, s, t, n, lo, hi, sq, table)
    requires |u| == |t| && WordAt(u, i) == NewWord(d, WordAt(t, i), sq, Mask(table, i))
    requires forall k :: 0 <= k < |t| && !(4 * i <= k < 4 * i + 4) ==> u[k] == t[k]
    ensures i == lo ==> DoneExcept(d, s, u, n, lo + 1, hi, sq, table)
    ensures i == hi - 1 ==> DoneExcept(d, s, u, n, lo, hi - 1, sq, table)
  {
    KeptWords(t, u, i);
    hide WordAt, NewWord, Mask;
  }

  // ----- the unrolled forms

  function Min(a: nat, b: nat): nat {
    if a < b then a else b
  }

  lemma NothingDone(d: Direction, s: seq<bv8>, n: nat, sq: bv32, table: seq<bv8>)
    requires 4 * n <= |s| && |table| == 16
    ensures DoneExcept(d, s, s, n, 0, n, sq, table)
  {
  }

  lemma AllDone(d: Direction, s: seq<bv8>, t: seq<bv8>, n: nat, k: nat, sq: bv32, table: seq<bv8>)
    requires 4 * n <= |s| && |table| == 16
    requires DoneExcept(d, s, t, n, k, k, sq, table)
    ensures Done(d, s, t, n, sq, table)
  {
  }

  /** One line of the unrolled COM_Munge2: the next word of a block, or the last of the tail. */
  method MungeStep(data: array<bv8>, pc: nat, k: nat, mSeq: bv32, mask: bv32,
                    ghost s: seq<bv8>, ghost n: nat, ghost lo: nat, ghost hi: nat, ghost sq: bv32)
    requires 4 * n <= data.Length == |s| && lo < hi && (pc + k == lo || pc + k == hi - 1)
    requires DoneExcept(Munging, s, data[..], n, lo, hi, sq, Table2)
    requires mSeq == FoldedSeq(sq) && pc % 16 == 0 && k < 16 && mask == Unrolled(k)
    modifies data
    ensures pc + k == lo ==> DoneExcept(Munging, s, data[..], n, lo + 1, hi, sq, Table2)
    ensures pc + k == hi - 1 ==> DoneExcept(Munging, s, data[..], n, lo, hi - 1, sq, Table2)
  {
    hide Mask, Unrolled, Word, Swap, Xor, FoldedSeq, MungedWord, UnmungedWord;
    var i := pc + k;
    UnrolledMasks(i);
    UnrolledForm(WordAt(data[..], i), sq, mask);
    ghost var before := data[..];
    assert hi <= n;
    hide DoneExcept;
    SetWord(data, i, Xor(Xor(Swap(WordAt(data[..], i)), mSeq), mask));
    OneMore(Munging, s, before, data[..], n, lo, hi, i, sq, Table2);
  }

  /** COM_Munge2, sixteen words at a time and then a switch whose cases fall through. */
  method Munge2(data: array<bv8>, len: int, sq: bv32)
    requires len <= data.Length && 4 * UnrolledWords(len) <= data.Length
    modifies data
    ensures Done(Munging, old(data[..]), data[..], UnrolledWords(len), sq, Table2)
  {
    hide DoneExcept, FoldedSeq;
    var mSeq := FoldedSeq(sq);
    var words := Quarter(len);
    var end := words - words % 16;
    var pc := 0;
    ghost var s, n := data[..], UnrolledWords(len);
    NothingDone(Munging, s, n, sq, Table2);
    while pc < end
      invariant pc % 16 == 0 && (pc == 0 || pc <= end) && pc <= n
      invariant DoneExcept(Munging, s, data[..], n, pc, n, sq, Table2)
    {
      MungeStepBlock(data, pc, mSeq, s, n, sq);
      pc := pc + 16;
    }
    MungeStepTail(data, pc, words % 16, mSeq, s, n, sq);
  }

  method MungeStepBlock(data: array<bv8>, pc: nat, mSeq: bv32, ghost s: seq<bv8>, ghost n: nat, ghost sq: bv32)
    requires 4 * n <= data.Length == |s| && pc % 16 == 0 && pc + 16 <= n
    requires DoneExcept(Munging, s, data[..], n, pc, n, sq, Table2) && mSeq == FoldedSeq(sq)
    modifies data
    ensures DoneExcept(Munging, s, data[..], n, pc + 16, n, sq, Table2)
  {
    hide DoneExcept, FoldedSeq;
    MungeStep(data, pc, 0, mSeq, 0xFFFFE7A5, s, n, pc + 0, n, sq);
    MungeStep(data, pc, 1, mSeq, 0xBFEFFFE5, s, n, pc + 1, n, sq);
    MungeStep(data, pc, 2, mSeq, 0xFFBFEFFF, s, n, pc + 2, n, sq);
    MungeStep(data, pc, 3, mSeq, 0xBFEFBFED, s, n, pc + 3, n, sq);
    MungeStep(data, pc, 4, mSeq, 0xBFAFEFBF, s, n, pc + 4, n, sq);
    MungeStep(data, pc, 5, mSeq, 0xFFBFAFEF, s, n, pc + 5, n, sq);
    MungeStep(data, pc, 6, mSeq, 0xFFEFBFAD, s, n, pc + 6, n, sq);
    MungeStep(data, pc, 7, mSeq, 0xFFFFEFBF, s, n, pc + 7, n, sq);
    MungeStep(data, pc, 8, mSeq, 0xFFEFF7EF, s, n, pc + 8, n, sq);
    MungeStep(data, pc, 9, mSeq, 0xBFEFE7F5, s, n, pc + 9, n, sq);
    MungeStep(data, pc, 10, mSeq, 0xBFBFE7E5, s, n, pc + 10, n, sq);
    MungeStep(data, pc, 11, mSeq, 0xFFAFB7E7, s, n, pc + 11, n, sq);
    MungeStep(data, pc, 12, mSeq, 0xBFFFAFB5, s, n, pc + 12, n, sq);
    MungeStep(data, pc, 13, mSeq, 0xBFAFFFAF, s, n, pc + 13, n, sq);
    MungeStep(data, pc, 14, mSeq, 0xFFAFA7FF, s, n, pc + 14, n, sq);
    MungeStep(data, pc, 15, mSeq, 0xFFEFA7A5, s, n, pc + 15, n, sq);
  }

  /** A case label of the switch with its line: `case k + 1: pc[k] = ...`. Control is past
      the label exactly if at least k + 1 words are left. */
  method MungeCase(data: array<bv8>, rest: nat, pc: nat, k: nat, mSeq: bv32, mask: bv32,
                    ghost s: seq<bv8>, ghost n: nat, ghost sq: bv32)
    requires 4 * n <= data.Length == |s| && pc % 16 == 0 && n == pc + rest && k < 15 && mask == Unrolled(k)
    requires DoneExcept(Munging, s, data[..], n, pc, pc + Min(rest, k + 1), sq, Table2) && mSeq == FoldedSeq(sq)
    modifies data
    ensures DoneExcept(Munging, s, data[..], n, pc, pc + Min(rest, k), sq, Table2)
  {
    hide DoneExcept, FoldedSeq, Unrolled;
    if rest >= k + 1 {
      MungeStep(data, pc, k, mSeq, mask, s, n, pc, pc + k + 1, sq);
    }
  }

  method MungeStepTail(data: array<bv8>, pc: nat, rest: nat, mSeq: bv32, ghost s: seq<bv8>, ghost n: nat, ghost sq: bv32)
    requires 4 * n <= data.Length == |s| && pc % 16 == 0 && n == pc + rest && rest < 16
    requires DoneExcept(Munging, s, data[..], n, pc, n, sq, Table2) && mSeq == FoldedSeq(sq)
    modifies data
    ensures Done(Munging, s, data[..], n, sq, Table2)
  {
    hide DoneExcept, FoldedSeq;
    MungeCase(data, rest, pc, 14, mSeq, 0xFFAFA7FF, s, n, sq);
    MungeCase(data, rest, pc, 13, mSeq, 0xBFAFFFAF, s, n, sq);
    MungeCase(data, rest, pc, 12, mSeq, 0xBFFFAFB5, s, n, sq);
    MungeCase(data, rest, pc, 11, mSeq, 0xFFAFB7E7, s, n, sq);
    MungeCase(data, rest, pc, 10, mSeq, 0xBFBFE7E5, s, n, sq);
    MungeCase(data, rest, pc, 9, mSeq, 0xBFEFE7F5, s, n, sq);
    MungeCase(data, rest, pc, 8, mSeq, 0xFFEFF7EF, s, n, sq);
    MungeCase(data, rest, pc, 7, mSeq, 0xFFFFEFBF, s, n, sq);
    MungeCase(data, rest, pc, 6, mSeq, 0xFFEFBFAD, s, n, sq);
    MungeCase(data, rest, pc, 5, mSeq, 0xFFBFAFEF, s, n, sq);
    MungeCase(data, rest, pc, 4, mSeq, 0xBFAFEFBF, s, n, sq);
    MungeCase(data, rest, pc, 3, mSeq, 0xBFEFBFED, s, n, sq);
    MungeCase(data, rest, pc, 2, mSeq, 0xFFBFEFFF, s, n, sq);
    MungeCase(data, rest, pc, 1, mSeq, 0xBFEFFFE5, s, n, sq);
    MungeCase(data, rest, pc, 0, mSeq, 0xFFFFE7A5, s, n, sq);
    AllDone(Munging, s, data[..], n, pc, sq, Table2);
  }

  /** One line of the unrolled COM_UnMunge2: the next word of a block, or the last of the tail. */
  method UnmungeStep(data: array<bv8>, pc: nat, k: nat, mSeq: bv32, mask: bv32,
                    ghost s: seq<bv8>, ghost n: nat, ghost lo: nat, ghost hi: nat, ghost sq: bv32)
    requires 4 * n <= data.Length == |s| && lo < hi && (pc + k == lo || pc + k == hi - 1)
    requires DoneExcept(Unmunging, s, data[..], n, lo, hi, sq, Table2)
    requires mSeq == FoldedSeq(sq) && pc % 16 == 0 && k < 16 && mask == Unrolled(k)
    modifies data
    ensures pc + k == lo ==> DoneExcept(Unmunging, s, data[..], n, lo + 1, hi, sq, Table2)
    ensures pc + k == hi - 1 ==> DoneExcept(Unmunging, s, data[..], n, lo, hi - 1, sq, Table2)
  {
    hide Mask, Unrolled, Word, Swap, Xor, FoldedSeq, MungedWord, UnmungedWord;
    var i := pc + k;
    UnrolledMasks(i);
    UnrolledForm(WordAt(data[..], i), sq, mask);
    ghost var before := data[..];
    assert hi <= n;
    hide DoneExcept;
    SetWord(data, i, Swap(Xor(Xor(WordAt(data[..], i), mSeq), mask)));
    OneMore(Unmunging, s, before, data[..], n, lo, hi, i, sq, Table2);
  }

  /** COM_UnMunge2, sixteen words at a time and then a switch whose cases fall through. */
  method Unmunge2(data: array<bv8>, len: int, sq: bv32)
    requires len <= data.Length && 4 * UnrolledWords(len) <= data.Length
    modifies data
    ensures Done(Unmunging, old(data[..]), data[..], UnrolledWords(len), sq, Table2)
  {
    hide DoneExcept, FoldedSeq;
    var mSeq := FoldedSeq(sq);
    var words := Quarter(len);
    var end := words - words % 16;
    var pc := 0;
    ghost var s, n := data[..], UnrolledWords(len);
    NothingDone(Unmunging, s, n, sq, Table2);
    while pc < end
      invariant pc % 16 == 0 && (pc == 0 || pc <= end) && pc <= n
      invariant DoneExcept(Unmunging, s, data[..], n, pc, n, sq, Table2)
    {
      UnmungeStepBlock(data, pc, mSeq, s, n, sq);
      pc := pc + 16;
    }
    UnmungeStepTail(data, pc, words % 16, mSeq, s, n, sq);
  }

  method UnmungeStepBlock(data: array<bv8>, pc: nat, mSeq: bv32, ghost s: seq<bv8>, ghost n: nat, ghost sq: bv32)
    requires 4 * n <= data.Length == |s| && pc % 16 == 0 && pc + 16 <= n
    requires DoneExcept(Unmunging, s, data[..], n, pc, n, sq, Table2) && mSeq == FoldedSeq(sq)
    modifies data
    ensures DoneExcept(Unmunging, s, data[..], n, pc + 16, n, sq, Table2)
  {
    hide DoneExcept, FoldedSeq;
    UnmungeStep(data, pc, 0, mSeq, 0xFFFFE7A5, s, n, pc + 0, n, sq);
    UnmungeStep(data, pc, 1, mSeq, 0xBFEFFFE5, s, n, pc + 1, n, sq);
    UnmungeStep(data, pc, 2, mSeq, 0xFFBFEFFF, s, n, pc + 2, n, sq);
    UnmungeStep(data, pc, 3, mSeq, 0xBFEFBFED, s, n, pc + 3, n, sq);
    UnmungeStep(data, pc, 4, mSeq, 0xBFAFEFBF, s, n, pc + 4, n, sq);
    UnmungeStep(data, pc, 5, mSeq, 0xFFBFAFEF, s, n, pc + 5, n, sq);
    UnmungeStep(data, pc, 6, mSeq, 0xFFEFBFAD, s, n, pc + 6, n, sq);
    UnmungeStep(data, pc, 7, mSeq, 0xFFFFEFBF, s, n, pc + 7, n, sq);
    UnmungeStep(data, pc, 8, mSeq, 0xFFEFF7EF, s, n, pc + 8, n, sq);
    UnmungeStep(data, pc, 9, mSeq, 0xBFEFE7F5, s, n, pc + 9, n, sq);
    UnmungeStep(data, pc, 10, mSeq, 0xBFBFE7E5, s, n, pc + 10, n, sq);
    UnmungeStep(data, pc, 11, mSeq, 0xFFAFB7E7, s, n, pc + 11, n, sq);
    UnmungeStep(data, pc, 12, mSeq, 0xBFFFAFB5, s, n, pc + 12, n, sq);
    UnmungeStep(data, pc, 13, mSeq, 0xBFAFFFAF, s, n, pc + 13, n, sq);
    UnmungeStep(data, pc, 14, mSeq, 0xFFAFA7FF, s, n, pc + 14, n, sq);
    UnmungeStep(data, pc, 15, mSeq, 0xFFEFA7A5, s, n, pc + 15, n, sq);
  }

  /** A case label of the switch with its line: `case k + 1: pc[k] = ...`. Control is past
      the label exactly if at least k + 1 words are left. */
  method UnmungeCase(data: array<bv8>, rest: nat, pc: nat, k: nat, mSeq: bv32, mask: bv32,
                    ghost s: seq<bv8>, ghost n: nat, ghost sq: bv32)
    requires 4 * n <= data.Length == |s| && pc % 16 == 0 && n == pc + rest && k < 15 && mask == Unrolled(k)
    requires DoneExcept(Unmunging, s, data[..], n, pc, pc + Min(rest, k + 1), sq, Table2) && mSeq == FoldedSeq(sq)
    modifies data
    ensures DoneExcept(Unmunging, s, data[..], n, pc, pc + Min(rest, k), sq, Table2)
  {
    hide DoneExcept, FoldedSeq, Unrolled;
    if rest >= k + 1 {
      UnmungeStep(data, pc, k, mSeq, mask, s, n, pc, pc + k + 1, sq);
    }
  }

  method UnmungeStepTail(data: array<bv8>, pc: nat, rest: nat, mSeq: bv32, ghost s: seq<bv8>, ghost n: nat, ghost sq: bv32)
    requires 4 * n <= data.Length == |s| && pc % 16 == 0 && n == pc + rest && rest < 16
    requires DoneExcept(Unmunging, s, data[..], n, pc, n, sq, Table2) && mSeq == FoldedSeq(sq)
    modifies data
    ensures Done(Unmunging, s, data[..], n, sq, Table2)
  {
    hide DoneExcept, FoldedSeq;
    UnmungeCase(data, rest, pc, 14, mSeq, 0xFFAFA7FF, s, n, sq);
    UnmungeCase(data, rest, pc, 13, mSeq, 0xBFAFFFAF, s, n, sq);
    UnmungeCase(data, rest, pc, 12, mSeq, 0xBFFFAFB5, s, n, sq);
    UnmungeCase(data, rest, pc, 11, mSeq, 0xFFAFB7E7, s, n, sq);
    UnmungeCase(data, rest, pc, 10, mSeq, 0xBFBFE7E5, s, n, sq);
    UnmungeCase(data, rest, pc, 9, mSeq, 0xBFEFE7F5, s, n, sq);
    UnmungeCase(data, rest, pc, 8, mSeq, 0xFFEFF7EF, s, n, sq);
    UnmungeCase(data, rest, pc, 7, mSeq, 0xFFFFEFBF, s, n, sq);
    UnmungeCase(data, rest, pc, 6, mSeq, 0xFFEFBFAD, s, n, sq);
    UnmungeCase(data, rest, pc, 5, mSeq, 0xFFBFAFEF, s, n, sq);
    UnmungeCase(data, rest, pc, 4, mSeq, 0xBFAFEFBF, s, n, sq);
    UnmungeCase(data, rest, pc, 3, mSeq, 0xBFEFBFED, s, n, sq);
    UnmungeCase(data, rest, pc, 2, mSeq, 0xFFBFEFFF, s, n, sq);
    UnmungeCase(data, rest, pc, 1, mSeq, 0xBFEFFFE5, s, n, sq);
    UnmungeCase(data, rest, pc, 0, mSeq, 0xFFFFE7A5, s, n, sq);
    AllDone(Unmunging, s, data[..], n, pc, sq, Table2);
  }
}
