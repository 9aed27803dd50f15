/** The code artifact written by `saveCode` and read by `readCoded`: the
    bit count as a 4-byte big-endian `int` (`writeInt`), then the
    ceil(count / 8) bytes of a `BitArray` holding the bits. */
module CodeArtifact {
  import opened Basics
  import opened BitBuffer

  /** `readInt`: four big-endian bytes as a two's-complement 32-bit value. */
  function ReadInt(bytes: seq<bv8>): (n: int)
    requires |bytes| == 4
    ensures -0x8000_0000 <= n < 0x8000_0000
  {
    var u := ((bytes[0] as int * 0x100 + bytes[1] as int) * 0x100 + bytes[2] as int) * 0x100
             + bytes[3] as int;
    if u >= 0x8000_0000 then u - 0x1_0000_0000 else u
  }

  /** `writeInt`: the inverse of `ReadInt`. */
  function IntBytes(n: int): (bytes: seq<bv8>)
    requires -0x8000_0000 <= n < 0x8000_0000
    ensures |bytes| == 4 && ReadInt(bytes) == n
  {
    var u := if n < 0 then n + 0x1_0000_0000 else n;
    var q1 := u / 0x100;
    var q2 := q1 / 0x100;
    var q3 := q2 / 0x100;
    var b0, b1, b2, b3 := q3, q2 % 0x100, q1 % 0x100, u % 0x100;
    assert u == ((b0 * 0x100 + b1) * 0x100 + b2) * 0x100 + b3;
    [ByteOf(b0), ByteOf(b1), ByteOf(b2), ByteOf(b3)]
  }

  /** What one `dis.read(bytes, 0, len)` leaves in a fresh zeroed buffer
      of `len` bytes: the bytes still in the stream, up to `len`, and zeros
      after them. */
  function ReadInto(available: seq<bv8>, len: nat): (buffer: seq<bv8>)
    ensures |buffer| == len
    ensures forall k :: 0 <= k < len ==> buffer[k] == if k < |available| then available[k] else 0
  {
    if |available| >= len then available[..len]
    else available + seq(len - |available|, _ => 0)
  }

  /** What `readCoded` returns for the bytes of a code artifact. A stream
      shorter than the 4-byte count fails with end of file; a count of -8 or
      less makes `new BitArray` allocate a negative-length array; a count in
      -7..0 gives no bits. */
  function ParseCode(data: seq<bv8>): (r: Result<Bits>)
    ensures r.Ok? ==> |data| >= 4 && |r.value| == if ReadInt(data[..4]) <= 0 then 0 else ReadInt(data[..4])
  {
    if |data| < 4 then Err(EndOfFile)
    else
      var n := ReadInt(data[..4]);
      if n <= -8 then Err(NegativeArraySize)
      else if n <= 0 then Ok([])
      else Ok(Unpack(ReadInto(data[4..], ByteCount(n)))[..n])
  }

  /** The bit count followed by packed bytes that hold the bits reads back
      as those bits. */
  lemma ParsePacked(code: Bits, packed: seq<bv8>)
    requires |code| < 0x8000_0000
    requires |packed| == ByteCount(|code|) && Unpack(packed)[..|code|] == code
    ensures ParseCode(IntBytes(|code|) + packed) == Ok(code)
  {
    var data := IntBytes(|code|) + packed;
    assert data[..4] == IntBytes(|code|);
    assert data[4..] == packed;
    if |code| == 0 {
      assert code == [];
    } else {
      assert ReadInto(packed, ByteCount(|code|)) == packed;
    }
  }

  /** `saveCode` without the stream: set every bit of a fresh `BitArray`,
      then write the count and the array's bytes. The padding bits of the
      last byte stay zero, and `readCoded` reads the bits back. */
  method SaveCode(code: Bits) returns (bytes: seq<bv8>)
    requires |code| < 0x8000_0000
    ensures |bytes| == 4 + ByteCount(|code|) && bytes[..4] == IntBytes(|code|)
    ensures Unpack(bytes[4..]) == code + seq(8 * ByteCount(|code|) - |code|, _ => false)
    ensures ParseCode(bytes) == Ok(code)
  {
    var size := |code|;
    var bitArray := new BitArray(size);
    var i := 0;
    while i < size
      invariant 0 <= i <= size
      invariant bitArray.Valid() && bitArray.size == size && fresh(bitArray.bytes)
      invariant bitArray.Bits() == code[..i] + seq(8 * bitArray.bytes.Length - i, _ => false)
    {
      bitArray.Set(i, if code[i] then 1 else 0);
      assert code[..i + 1] == code[..i] + [code[i]];
      i := i + 1;
    }
    assert code[..i] == code;
    var packed := bitArray.bytes[..bitArray.SizeInBytes()];
    assert packed == bitArray.bytes[..];
    bytes := IntBytes(size) + packed;
    assert bytes[4..] == packed;
    assert Unpack(packed)[..size] == code;
    ParsePacked(code, packed);
  }

  /** `readCoded` without the stream: read the count, allocate a
      `BitArray` of that many bits, fill its bytes from the stream, and read
      its bits one by one. */
  method ReadCoded(data: seq<bv8>) returns (r: Result<Bits>)
    ensures r == ParseCode(data)
  {
    if |data| < 4 {
      return Err(EndOfFile);
    }
    var dataSizeBits := ReadInt(data[..4]);
    if dataSizeBits <= -8 {
      return Err(NegativeArraySize);
    }
    var bitArray := new BitArray(dataSizeBits);
    ReadBytes(bitArray.bytes, data[4..]);
    var code := ReadBits(bitArray);
    return Ok(code);
  }

  /** `dis.read(buffer, 0, buffer.length)` on a zeroed buffer: copies the
      bytes left in the stream, up to the buffer's length. */
  method ReadBytes(buffer: array<bv8>, available: seq<bv8>)
    requires forall j :: 0 <= j < buffer.Length ==> buffer[j] == 0
    modifies buffer
    ensures buffer[..] == ReadInto(available, buffer.Length)
  {
    var k := 0;
    while k < buffer.Length && k < |available|
      invariant 0 <= k <= buffer.Length && k <= |available|
      invariant forall j :: 0 <= j < buffer.Length ==> buffer[j] == if j < k then available[j] else 0
    {
      buffer[k] := available[k];
      k := k + 1;
    }
  }

  /** The loop `for (i = 0; i < bitArray.size; i++) code.append(bitArray.get(i))`. */
  method ReadBits(bitArray: BitArray) returns (code: Bits)
    requires bitArray.Valid()
    ensures code == if bitArray.size <= 0 then [] else bitArray.Bits()[..bitArray.size]
  {
    code := [];
    var i := 0;
    while i < bitArray.size
      invariant 0 <= i <= (if bitArray.size < 0 then 0 else bitArray.size)
      invariant code == bitArray.Bits()[..i]
    {
      var bit := bitArray.Get(i);
      code := code + [bit];
      i := i + 1;
    }
  }
}
