/** The packed bit buffer behind the code artifact: a byte array of
    ceil(size / 8) bytes, bit `i` stored in byte `i / 8` under mask
    `1 << (i % 8)` (least significant bit first). */
module BitBuffer {
  import opened Basics

  /** The Java `masks` table: mask `k` selects bit `k` of a byte. */
  const Masks: seq<bv8> := [0x01, 0x02, 0x04, 0x08, 0x10, 0x20, 0x40, 0x80]

  /** Mask `k` is the single bit `1 << k`. */
  lemma MasksAreShifts()
    ensures |Masks| == 8
    ensures forall k: nat :: k < 8 ==> Masks[k] == 1 << k
  {
  }

  /** Number of bytes `new BitArray(size)` allocates. Java's `/` and `%`
      truncate toward zero, so a size in -7..-1 gives zero bytes; a size of
      -8 or less would give a negative length and is excluded. */
  function ByteCount(size: int): (n: nat)
    requires size > -8
    ensures size >= 0 ==> 8 * n >= size && 8 * n < size + 8
    ensures size <= 0 ==> n == 0
  {
    if size <= 0 then 0 else (size + 7) / 8
  }

  /** Bit `i` of a packed byte sequence. */
  function BitAt(bytes: seq<bv8>, i: nat): bool
    requires i < 8 * |bytes|
  {
    bytes[i / 8] & Masks[i % 8] != 0
  }

  /** Every bit of a packed byte sequence, in index order. */
  function Unpack(bytes: seq<bv8>): (bits: Bits)
    ensures |bits| == 8 * |bytes|
  {
    seq(8 * |bytes|, i requires 0 <= i < 8 * |bytes| => BitAt(bytes, i))
  }

  /** The byte value `set` stores: the old byte with its mask `k` or-ed in
      when the bit is set, and-ed out when it is cleared. Bit `k` of the
      result is the new bit and the other seven bits are those of `x`. */
  function WithBit(x: bv8, k: nat, bit: bool): (y: bv8)
    requires k < 8
    ensures forall m :: 0 <= m < 8 ==>
              (y & Masks[m] != 0) == if m == k then bit else x & Masks[m] != 0
  {
    var y := if bit then x | Masks[k] else x & !Masks[k];
    MaskBits(x, k, bit, y);
    y
  }

  /** Or-ing in or and-ing out one mask leaves the other masks' bits alone. */
  lemma MaskBits(x: bv8, k: nat, bit: bool, y: bv8)
    requires k < 8 && y == if bit then x | Masks[k] else x & !Masks[k]
    ensures forall m :: 0 <= m < 8 ==>
              (y & Masks[m] != 0) == if m == k then bit else x & Masks[m] != 0
  {
    forall m | 0 <= m < 8
      ensures (y & Masks[m] != 0) == if m == k then bit else x & Masks[m] != 0
    {
      MaskBit(x, k, bit, m);
    }
  }

  lemma MaskBit(x: bv8, k: nat, bit: bool, m: nat)
    requires k < 8 && m < 8
    ensures ((if bit then x | Masks[k] else x & !Masks[k]) & Masks[m] != 0) ==
            if m == k then bit else x & Masks[m] != 0
  {
    var mk, mm := Masks[k], Masks[m];
    assert (k == m) == (mk == mm);
    SingleBits(x, mk, mm, bit);
  }

  /** The bit-vector fact behind `WithBit`, for any two one-bit masks. */
  lemma SingleBits(x: bv8, mk: bv8, mm: bv8, bit: bool)
    requires mk in Masks && mm in Masks
    ensures ((if bit then x | mk else x & !mk) & mm != 0) == if mk == mm then bit else x & mm != 0
  {
    assert mk != 0 && mk & (mk - 1) == 0;
    assert mm != 0 && mm & (mm - 1) == 0;
  }

  /** Replacing the byte that holds bit `index` by that byte with the bit
      set or cleared changes that one bit and no other. */
  lemma UpdateByte(before: seq<bv8>, after: seq<bv8>, index: nat, bit: bool)
    requires index < 8 * |before|
    requires after == before[index / 8 := WithBit(before[index / 8], index % 8, bit)]
    ensures Unpack(after) == Unpack(before)[index := bit]
  {
    forall j | 0 <= j < 8 * |after|
      ensures BitAt(after, j) == if j == index then bit else BitAt(before, j)
    {
      UpdateBit(before, after, index, bit, j);
    }
  }

  lemma UpdateBit(before: seq<bv8>, after: seq<bv8>, index: nat, bit: bool, j: nat)
    requires index < 8 * |before| && j < 8 * |before|
    requires after == before[index / 8 := WithBit(before[index / 8], index % 8, bit)]
    ensures BitAt(after, j) == if j == index then bit else BitAt(before, j)
  {
    var q, k, m := index / 8, index % 8, j % 8;
    if j / 8 == q {
      assert j == 8 * q + m && index == 8 * q + k;
    }
  }

  class BitArray {
    var bytes: array<bv8>
    var size: int

    ghost predicate Valid()
      reads this
    {
      size > -8 && bytes.Length == ByteCount(size)
    }

    /** The bits the buffer holds, padding bits included. */
    ghost function Bits(): (bits: Bits)
      reads this, bytes
      ensures |bits| == 8 * bytes.Length
    {
      Unpack(bytes[..])
    }

    constructor (size: int)
      requires size > -8
      ensures Valid() && fresh(bytes) && this.size == size
      ensures forall i :: 0 <= i < bytes.Length ==> bytes[i] == 0
      ensures Bits() == seq(8 * ByteCount(size), _ => false)
    {
      this.size := size;
      var sizeInBytes := if size < 0 then 0 else size / 8;
      if size % 8 > 0 && size > 0 {
        sizeInBytes := sizeInBytes + 1;
      }
      bytes := new bv8[sizeInBytes](_ => 0);
      new;
      assert forall i :: 0 <= i < 8 * bytes.Length ==> !BitAt(bytes[..], i);
    }

    /** Sets bit `index` when `value` is non-zero and clears it otherwise. */
    method Set(index: int, value: int)
      requires Valid()
      requires 0 <= index < 8 * bytes.Length
      modifies bytes
      ensures Valid()
      ensures Bits() == old(Bits())[index := value != 0]
    {
      var byteIndex := index / 8;
      var bitIndex := index % 8;
      ghost var before := bytes[..];
      bytes[byteIndex] := WithBit(bytes[byteIndex], bitIndex, value != 0);
      UpdateByte(before, bytes[..], index, value != 0);
    }

    /** Reads bit `index`; `true` stands for the character '1'. */
    method Get(index: int) returns (bit: bool)
      requires Valid()
      requires 0 <= index < 8 * bytes.Length
      ensures bit == Bits()[index]
    {
      var byteIndex := index / 8;
      var bitIndex := index % 8;
      bit := bytes[byteIndex] & Masks[bitIndex] != 0;
    }

    function SizeInBytes(): (n: nat)
      reads this
      requires Valid()
      ensures n == ByteCount(size)
    {
      bytes.Length
    }
  }
}
