/**
 Plain byte arrays: the simple model that symbolic memory must behave like.
 */
module ByteArrays {
  import opened Bits

  type Bytes = seq<nat>

  /** Which memory position, counted from the start of an access of `n` bytes,
      holds the byte of significance `i`. */
  function Position(littleEndian: bool, n: nat, i: nat): (p: nat)
    requires i < n
    ensures p < n
  {
    if littleEndian then i else n - i - 1
  }

  /** Byte `i` of a value, the least significant byte first. */
  function ByteOf(v: nat, i: nat): nat {
    ExtractBits(8 * i, 8, v)
  }

  function SetByte(c: Bytes, p: nat, v: nat): (c': Bytes)
    ensures |c'| == |c|
  {
    if p < |c| then c[p := v] else c
  }

  /** Stores the first `m` of the `n` bytes of `v` at 32-bit positions from `off`. */
  function WriteSome(c: Bytes, off: nat, n: nat, v: nat, littleEndian: bool, m: nat): (c': Bytes)
    requires m <= n
    ensures |c'| == |c|
  {
    if m == 0 then c
    else
      SetByte(WriteSome(c, off, n, v, littleEndian, m - 1),
              Wrap(32, off + Position(littleEndian, n, m - 1)), ByteOf(v, m - 1))
  }

  function WriteValue(c: Bytes, off: nat, n: nat, v: nat, littleEndian: bool): (c': Bytes)
    ensures |c'| == |c|
  {
    WriteSome(c, off, n, v, littleEndian, n)
  }

  /** The value of the `m` least significant bytes of an access of `n` bytes. */
  function ReadSome(c: Bytes, off: nat, n: nat, littleEndian: bool, m: nat): nat
    requires m <= n && off + n <= |c|
  {
    if m == 0 then 0
    else
      ConcatBits(8 * (m - 1), c[off + Position(littleEndian, n, m - 1)],
                 ReadSome(c, off, n, littleEndian, m - 1))
  }

  function ReadValue(c: Bytes, off: nat, n: nat, littleEndian: bool): nat
    requires off + n <= |c|
  {
    ReadSome(c, off, n, littleEndian, n)
  }

  // ---------------------------------------------------------------- round trips

  lemma PositionUnique(littleEndian: bool, n: nat, i: nat, j: nat)
    requires i < n && j < n && i != j
    ensures Position(littleEndian, n, i) != Position(littleEndian, n, j)
  {
  }

  lemma PositionInRange(c: Bytes, off: nat, n: nat, littleEndian: bool, i: nat)
    requires i < n && off + n <= |c| <= Pow2(32)
    ensures Wrap(32, off + Position(littleEndian, n, i)) == off + Position(littleEndian, n, i) < |c|
  {
    hide Pow2;
    WrapId(32, off + Position(littleEndian, n, i));
  }

  /** After a write, byte `i` of the value is at its place ... */
  lemma {:induction false} WrittenByte(c: Bytes, off: nat, n: nat, v: nat, littleEndian: bool, m: nat, i: nat)
    requires i < m <= n && off + n <= |c| <= Pow2(32)
    ensures WriteSome(c, off, n, v, littleEndian, m)[off + Position(littleEndian, n, i)] == ByteOf(v, i)
  {
    hide Pow2, Wrap, ByteOf;
    PositionInRange(c, off, n, littleEndian, m - 1);
    PositionInRange(c, off, n, littleEndian, i);
    if i < m - 1 {
      WrittenByte(c, off, n, v, littleEndian, m - 1, i);
      PositionUnique(littleEndian, n, i, m - 1);
    }
  }

  /** ... and every position outside the access is unchanged. */
  lemma {:induction false} UnwrittenByte(c: Bytes, off: nat, n: nat, v: nat, littleEndian: bool, m: nat, p: nat)
    requires m <= n && off + n <= |c| <= Pow2(32) && p < |c| && (p < off || off + n <= p)
    ensures WriteSome(c, off, n, v, littleEndian, m)[p] == c[p]
  {
    hide Pow2, Wrap, ByteOf;
    if m > 0 {
      PositionInRange(c, off, n, littleEndian, m - 1);
      UnwrittenByte(c, off, n, v, littleEndian, m - 1, p);
    }
  }

  lemma {:induction false} ReadsBack(c: Bytes, off: nat, n: nat, v: nat, littleEndian: bool, m: nat)
    requires m <= n && off + n <= |c| <= Pow2(32)
    ensures ReadSome(WriteValue(c, off, n, v, littleEndian), off, n, littleEndian, m) == Wrap(8 * m, v)
  {
    hide Pow2, ConcatBits, ExtractBits;
    if m > 0 {
      ReadsBack(c, off, n, v, littleEndian, m - 1);
      WrittenByte(c, off, n, v, littleEndian, n, m - 1);
      ExtractMerge(v, 0, 8, 8 * (m - 1));
      LowBits(8 * m, v);
      LowBits(8 * (m - 1), v);
    } else {
      NoBits(v);
    }
  }

  lemma NoBits(v: nat)
    ensures Wrap(0, v) == 0
  {
  }

  lemma LowBits(w: nat, v: nat)
    ensures ExtractBits(0, w, v) == Wrap(w, v)
  {
    assert ShiftRight(v, 0) == v;
  }

  /** A value written and read back at the same place comes back whole, in either
      byte order. */
  lemma ReadOverWrite(c: Bytes, off: nat, n: nat, v: nat, littleEndian: bool)
    requires off + n <= |c| <= Pow2(32) && v < Pow2(8 * n)
    ensures ReadValue(WriteValue(c, off, n, v, littleEndian), off, n, littleEndian) == v
  {
    hide Pow2;
    ReadsBack(c, off, n, v, littleEndian, n);
    WrapId(8 * n, v);
  }

  // ------------------------------------------------------------------ byte order

  lemma ByteOfMeaning(v: nat, i: nat)
    ensures ByteOf(v, i) == (v / Pow2(8 * i)) % 256
  {
    assert Pow2(8) == 256;
  }

  lemma {:induction false} ReadRange(c: Bytes, off: nat, n: nat, littleEndian: bool, m: nat)
    requires m <= n && off + n <= |c| && forall p :: 0 <= p < |c| ==> c[p] < 256
    ensures ReadSome(c, off, n, littleEndian, m) < Pow2(8 * m)
  {
    hide Pow2, ConcatBits;
    if m > 0 {
      ReadRange(c, off, n, littleEndian, m - 1);
      assert Pow2(8) == 256 by { ByteBound(); }
      ConcatRange(8, 8 * (m - 1), c[off + Position(littleEndian, n, m - 1)], ReadSome(c, off, n, littleEndian, m - 1));
    } else {
      assert Pow2(0) == 1 by { NoBits(0); ByteBound(); }
    }
  }

  lemma ByteBound()
    ensures Pow2(8) == 256 && Pow2(0) == 1
  {
  }

  /** Byte `i` of what is read is the byte at its place. */
  lemma {:induction false} ReadByte(c: Bytes, off: nat, n: nat, littleEndian: bool, m: nat, i: nat)
    requires i < m <= n && off + n <= |c| && forall p :: 0 <= p < |c| ==> c[p] < 256
    ensures ByteOf(ReadSome(c, off, n, littleEndian, m), i) == c[off + Position(littleEndian, n, i)]
  {
    hide Pow2, ConcatBits, ExtractBits;
    var low := ReadSome(c, off, n, littleEndian, m - 1);
    var high := c[off + Position(littleEndian, n, m - 1)];
    ReadRange(c, off, n, littleEndian, m - 1);
    if i < m - 1 {
      ReadByte(c, off, n, littleEndian, m - 1, i);
      ExtractConcatLow(8 * (m - 1), high, low, 8 * i, 8);
    } else {
      ByteBound();
      ExtractConcatHigh(8 * (m - 1), high, low, 8 * i, 8);
      ExtractAll(8, high);
    }
  }
}
