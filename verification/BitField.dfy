/** bit_field.h: a growing field of bits in chunks of 64, and the reference that walks over it. */
module BitFieldModel {

  const CHUNK: nat := 64

  /** A machine word seen as its bits. */
  type Word = s: seq<bool> | |s| == 64 witness seq(64, i => false)

  // ---------------------------------------------------------------- references

  /** A chunk pointer, as an index from any fixed chunk, and a bit within the chunk. */
  class BitReference {
    var chunk: int
    var bit: int

    ghost predicate Valid()
      reads this
    {
      0 <= bit < CHUNK
    }

    /** The position counted in bits from the start of chunk 0. */
    ghost function Position(): int
      reads this
    {
      chunk * CHUNK + bit
    }

    constructor (chunk: int, bit: int)
      requires 0 <= bit < CHUNK
      ensures Valid() && this.chunk == chunk && this.bit == bit
    {
      this.chunk, this.bit := chunk, bit;
    }

    method Increment()
      requires Valid()
      modifies this
      ensures Valid() && Position() == old(Position()) + 1
    {
      if bit == CHUNK - 1 {
        chunk, bit := chunk + 1, 0;
      } else {
        bit := bit + 1;
      }
    }

    method Decrement()
      requires Valid()
      modifies this
      ensures Valid() && Position() == old(Position()) - 1
    {
      if bit == 0 {
        chunk, bit := chunk - 1, CHUNK - 1;
      } else {
        bit := bit - 1;
      }
    }

    /** Moves by any signed distance, with a quotient that is truncated towards zero. */
    method Advance(n: int)
      requires Valid()
      modifies this
      ensures Valid() && Position() == old(Position()) + n
      ensures 0 <= bit < 64 && 64 * chunk + bit == old(64 * chunk + bit) + n
    {
      chunk := chunk + TruncatedQuotient(n);
      var newBit := if n < 0 then bit - (-n) % CHUNK else bit + n % CHUNK;
      if newBit >= CHUNK {
        chunk, bit := chunk + 1, newBit - CHUNK;
      } else if newBit < 0 {
        chunk, bit := chunk - 1, CHUNK + newBit;
      } else {
        bit := newBit;
      }
    }

    method DistanceTo(o: BitReference) returns (d: int)
      ensures Position() + d == o.Position()
      ensures 64 * chunk + bit + d == 64 * o.chunk + o.bit
    {
      d := (o.chunk - chunk) * CHUNK + (o.bit - bit);
    }
  }

  /** Division as the machine does it. */
  function TruncatedQuotient(n: int): int {
    if n < 0 then -((-n) / CHUNK) else n / CHUNK
  }

  /** A position has one chunk and one bit only, so equal references are equal positions. */
  lemma PositionUnique(c: int, b: int, d: int, e: int)
    requires 0 <= b < CHUNK && 0 <= e < CHUNK
    ensures c * CHUNK + b == d * CHUNK + e <==> c == d && b == e
  {
  }

  // ---------------------------------------------------------------- the field

  /** How many chunks a field of `chunks` has once `nbits` bits are asked for. Exactly the fields that are
      too small grow, and a used one grows by at least 64 chunks. */
  function GrownTo(chunks: nat, nbits: nat): (r: nat)
    ensures nbits <= r * CHUNK
    ensures r == chunks <==> nbits <= chunks * CHUNK
    ensures 0 < chunks < r ==> r >= chunks + 64
  {
    var req := (nbits + CHUNK - 1) / CHUNK;
    if req <= chunks then chunks
    else if chunks == 0 || req > chunks + 64 then req
    else chunks + 64
  }

  class BitField {
    var buf: array<Word>

    constructor ()
      ensures fresh(buf) && buf.Length == 0
    {
      buf := new Word[0];
    }

    ghost function Size(): nat
      reads this
    {
      buf.Length * CHUNK
    }

    ghost function Bit(idx: nat): bool
      requires idx < Size()
      reads this, buf
    {
      buf[idx / CHUNK][idx % CHUNK]
    }

    /** Grows to hold `nbits` bits, by at least 64 chunks after the first time; what is there stays. */
    method Reserve(nbits: nat)
      modifies this
      ensures buf == old(buf) || fresh(buf)
      ensures buf.Length == GrownTo(old(buf.Length), nbits) && nbits <= 64 * buf.Length
      ensures nbits <= Size() && old(Size()) <= Size()
      ensures forall k :: 0 <= k < old(Size()) ==> Bit(k) == old(Bit(k))
      ensures nbits <= old(Size()) ==> buf == old(buf)
    {
      var req := (nbits + CHUNK - 1) / CHUNK;
      if req <= buf.Length {
        return;
      }
      if buf.Length == 0 {
        buf := new Word[req];
        return;
      }
      var newSize := if buf.Length + 64 >= req then buf.Length + 64 else req;
      var newBuf := new Word[newSize];
      for i := 0 to buf.Length
        invariant buf == old(buf) && fresh(newBuf)
        invariant forall k :: 0 <= k < i ==> newBuf[k] == buf[k]
      {
        newBuf[i] := buf[i];
      }
      buf := newBuf;
    }

    method SetBit(idx: nat)
      modifies this, buf
      ensures buf == old(buf) || fresh(buf)
      ensures idx < Size() && Bit(idx)
      ensures old(Size()) <= Size() && forall k :: 0 <= k < old(Size()) && k != idx ==> Bit(k) == old(Bit(k))
    {
      Reserve(idx + 1);
      Write(idx, true);
    }

    method ClearBit(idx: nat)
      modifies this, buf
      ensures buf == old(buf) || fresh(buf)
      ensures idx < Size() && !Bit(idx)
      ensures old(Size()) <= Size() && forall k :: 0 <= k < old(Size()) && k != idx ==> Bit(k) == old(Bit(k))
    {
      Reserve(idx + 1);
      Write(idx, false);
    }

    /** set_bit_fast and clear_bit_fast */
    method Write(idx: nat, v: bool)
      requires idx < Size()
      modifies buf
      ensures Bit(idx) == v
      ensures forall k :: 0 <= k < Size() && k != idx ==> Bit(k) == old(Bit(k))
    {
      var c, b := idx / CHUNK, idx % CHUNK;
      buf[c] := buf[c][b := v];
      forall k | 0 <= k < Size() && k != idx
        ensures Bit(k) == old(Bit(k))
      {
        PositionUnique(k / CHUNK, k % CHUNK, c, b);
      }
    }

    /** Bits beyond the field read as cleared. */
    method GetBit(idx: nat) returns (v: bool)
      ensures v <==> idx < 64 * buf.Length && Bit(idx)
    {
      if idx >= buf.Length * CHUNK {
        return false;
      }
      v := buf[idx / CHUNK][idx % CHUNK];
    }
  }
}
