/** The bounded message buffer `sizebuf_t`. */
module SizeBuffer {
  import opened Bits

  class SizeBuf {
    const data: array<Byte>
    var cursize: nat
    var allowOverflow: bool  // SIZEBUF_ALLOW_OVERFLOW
    var overflowed: bool     // SIZEBUF_OVERFLOWED

    /** Only a request longer than the whole buffer leaves the size behind its end. */
    ghost predicate Valid()
      reads this
    {
      (InBounds() || overflowed) && (overflowed ==> allowOverflow)
    }

    ghost predicate InBounds()
      reads this
    {
      cursize <= data.Length
    }

    constructor (maxsize: nat, allowOverflow: bool)
      ensures Valid() && fresh(data) && data.Length == maxsize
      ensures cursize == 0 && !overflowed && this.allowOverflow == allowOverflow
    {
      data := new Byte[maxsize](_ => 0);
      cursize := 0;
      this.allowOverflow := allowOverflow;
      overflowed := false;
    }

    method Clear()
      modifies `cursize, `overflowed
      ensures Valid() && cursize == 0 && !overflowed
    {
      overflowed := false;
      cursize := 0;
    }

    predicate HasSpace(length: nat)
      reads this
    {
      cursize + length <= data.Length
    }

    /** Reserves `length` bytes and returns the index of the first. A request that
        does not fit restarts the buffer and raises the overflow flag; without
        permission to overflow it is a fatal error, hence the precondition. */
    method GetSpace(length: nat) returns (at: nat)
      requires Valid()
      requires HasSpace(length) || allowOverflow
      modifies `cursize, `overflowed
      ensures Valid()
      ensures at + length == cursize
      ensures if old(HasSpace(length)) then at == old(cursize) && overflowed == old(overflowed)
              else at == 0 && overflowed
    {
      if !HasSpace(length) {
        Clear();
        overflowed := true;
      }
      at := cursize;
      cursize := length + cursize;
    }
  }

  /** A byte sequence with the bytes from `at` on replaced. */
  function Spliced(s: seq<Byte>, at: nat, bytes: seq<Byte>): (r: seq<Byte>)
    requires at + |bytes| <= |s|
    ensures |r| == |s|
  {
    s[..at] + bytes + s[at + |bytes|..]
  }

  /** `*(uint32 *)&data[at] = w` */
  method StoreWord(data: array<Byte>, at: nat, w: UInt32)
    requires at + 4 <= data.Length
    modifies data
    ensures data[..] == Spliced(old(data[..]), at, WordBytes(w))
    ensures forall i :: 0 <= i < at || at + 4 <= i < data.Length ==> data[i] == old(data[i])
  {
    var bytes := WordBytes(w);
    data[at], data[at + 1], data[at + 2], data[at + 3] := bytes[0], bytes[1], bytes[2], bytes[3];
    assert data[at..at + 4] == bytes;
    assert data[..] == data[..at] + data[at..at + 4] + data[at + 4..];
  }
}
