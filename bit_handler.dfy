/** The bit stream engine: a buffered byte reader and writer over a file's bytes,
    and the bit register that packs variable-width codes into bytes and unpacks them. */
module BitHandler {
  import opened Bits

  /** Size of the reader's and the writer's staging buffer, in bytes. */
  const BufferSize: int := 1024

  /** The value a `char` holding byte `b` has: bytes 128..255 read back as negative. */
  function Signed(b: byte): (c: int)
    ensures -128 <= c < 128 && (c < 0 <==> b >= 128)
  {
    if b >= 128 then b - 256 else b
  }

  /** ReadNext's conversion of a buffered `char` to the byte it holds. */
  function Unsigned(c: int): (b: byte)
    requires -128 <= c < 128
    ensures Signed(b) == c
  {
    if c < 0 then c + 256 else (256 + c) % 256
  }

  lemma {:induction false} UnsignedSigned(b: byte)
    ensures Unsigned(Signed(b)) == b
  {
  }

  /** Buffered reader over the bytes of one file. */
  class BitReader {
    /** The file's contents. */
    const source: seq<byte>
    /** How many bytes of `source` the underlying stream has handed out. */
    var streamPos: nat
    /** The staging buffer, holding `char`s as the source does. */
    var buffer: array<int>
    var byteCount: int
    var currentIndex: int
    /** How many times ReadNext was called since the stream was (re)opened. */
    ghost var consumed: nat

    ghost predicate Valid()
      reads this, buffer
    {
      && buffer.Length == BufferSize
      && 0 <= currentIndex < BufferSize
      && currentIndex + byteCount <= BufferSize
      && streamPos <= |source|
      && (forall k :: 0 <= k < BufferSize ==> -128 <= buffer[k] < 128)
      // a fill that delivered less than a whole buffer reached the end of the file
      && (currentIndex + byteCount < BufferSize ==> streamPos == |source|)
      && (consumed <= |source| ==>
            && 0 <= byteCount
            && consumed + byteCount == streamPos
            && forall j :: currentIndex <= j < currentIndex + byteCount ==>
                 Unsigned(buffer[j]) == source[consumed + (j - currentIndex)])
      && (consumed >= |source| ==> streamPos == |source| && byteCount <= 0)
    }

    /** The bytes ReadNext has still to return from the file. */
    ghost function Remaining(): seq<byte>
      reads this
    {
      if consumed <= |source| then source[consumed..] else []
    }

    constructor (contents: seq<byte>)
      ensures Valid() && fresh(buffer)
      ensures source == contents && consumed == 0 && Remaining() == contents
    {
      source := contents;
      streamPos := 0;
      buffer := new int[BufferSize](_ => 0);
      byteCount := 0;
      currentIndex := 0;
      consumed := 0;
      new;
      FillBuffer();
    }

    /** Moves the next (at most) BufferSize bytes of the file into the buffer. */
    method FillBuffer()
      requires buffer.Length == BufferSize && streamPos <= |source|
      requires forall k :: 0 <= k < BufferSize ==> -128 <= buffer[k] < 128
      modifies this`streamPos, this`byteCount, buffer
      ensures byteCount == if |source| - old(streamPos) < BufferSize then |source| - old(streamPos) else BufferSize
      ensures streamPos == old(streamPos) + byteCount
      ensures forall k :: 0 <= k < BufferSize ==> -128 <= buffer[k] < 128
      ensures forall k :: 0 <= k < byteCount ==> Unsigned(buffer[k]) == source[old(streamPos) + k]
    {
      var n := if |source| - streamPos < BufferSize then |source| - streamPos else BufferSize;
      var k := 0;
      while k < n
        invariant 0 <= k <= n && streamPos == old(streamPos) && n <= |source| - streamPos
        invariant forall i :: 0 <= i < BufferSize ==> -128 <= buffer[i] < 128
        invariant forall i :: 0 <= i < k ==> Unsigned(buffer[i]) == source[streamPos + i]
      {
        buffer[k] := Signed(source[streamPos + k]);
        UnsignedSigned(source[streamPos + k]);
        k := k + 1;
      }
      byteCount := n;
      streamPos := streamPos + n;
    }

    /** Returns the next byte of the file. Past the end of the file the source reads
        a stale buffer slot; the model returns that slot's byte, which is unspecified. */
    method ReadNext() returns (b: byte)
      requires Valid()
      modifies this, buffer
      ensures Valid() && buffer == old(buffer)
      ensures consumed == old(consumed) + 1
      ensures old(consumed) < |source| ==> b == source[old(consumed)]
      ensures Remaining() == if old(Remaining()) == [] then [] else old(Remaining())[1..]
    {
      var c := buffer[currentIndex];
      if c < 0 {
        b := c + 256;
      } else {
        b := (256 + c) % 256;
      }
      currentIndex := currentIndex + 1;
      byteCount := byteCount - 1;
      consumed := consumed + 1;
      if currentIndex == BufferSize {
        FillBuffer();
        currentIndex := 0;
      }
    }

    /** Reopens the file and starts again from its first byte. */
    method Reset()
      requires Valid()
      modifies this, buffer
      ensures Valid() && buffer == old(buffer)
      ensures consumed == 0 && Remaining() == source
    {
      streamPos := 0;
      currentIndex := 0;
      consumed := 0;
      FillBuffer();
    }

    /** True when the buffer holds no unread byte: then the whole file has been read. */
    function Empty(): (r: bool)
      reads this, buffer
      requires Valid()
      ensures consumed <= |source| ==> (r <==> consumed == |source|)
    {
      byteCount == 0
    }
  }

  /** Buffered writer onto a byte sink. `stream` is what has reached the sink. */
  class BitWriter {
    var buffer: array<byte>
    var byteCount: int
    var currentIndex: int
    var stream: seq<byte>
    /** Everything written so far: the sink's contents followed by the staged bytes. */
    ghost var written: seq<byte>

    ghost predicate Valid()
      reads this, buffer
    {
      && buffer.Length == BufferSize && 0 <= byteCount <= currentIndex < BufferSize
      && written == stream + buffer[..byteCount]
    }

    /** No flush has happened in the middle of the buffer: OutBuffer leaves
        `currentIndex` where it was, so writing after such a flush misplaces bytes. */
    ghost predicate Aligned()
      reads this
    {
      currentIndex == byteCount
    }

    ghost function Written(): seq<byte>
      reads this
    {
      written
    }

    constructor ()
      ensures Valid() && Aligned() && fresh(buffer)
      ensures stream == [] && Written() == []
    {
      buffer := new byte[BufferSize](_ => 0);
      byteCount := 0;
      currentIndex := 0;
      stream := [];
      written := [];
    }

    method WriteNext(symbol: byte)
      requires Valid() && Aligned()
      modifies this, buffer
      ensures Valid() && Aligned() && buffer == old(buffer)
      ensures Written() == old(Written()) + [symbol]
      ensures old(currentIndex) == BufferSize - 1 ==> byteCount == 0 && stream == Written()
      ensures old(currentIndex) < BufferSize - 1 ==> stream == old(stream)
    {
      buffer[currentIndex] := symbol;
      currentIndex := currentIndex + 1;
      byteCount := byteCount + 1;
      written := written + [symbol];
      assert buffer[..byteCount] == old(buffer[..byteCount]) + [symbol];
      if currentIndex == BufferSize {
        OutBuffer();
        currentIndex := 0;
      }
    }

    /** Hands the staged bytes to the sink. */
    method OutBuffer()
      requires buffer.Length == BufferSize && 0 <= byteCount <= BufferSize
      modifies this`stream, this`byteCount
      ensures stream == old(stream) + buffer[..old(byteCount)]
      ensures byteCount == 0
    {
      stream := stream + buffer[..byteCount];
      byteCount := 0;
    }

    method Close()
      requires Valid()
      modifies this`stream, this`byteCount
      ensures Valid() && stream == old(Written()) && byteCount == 0
    {
      OutBuffer();
    }
  }

  /** The register of pending bits. The oldest bit is the most significant one. */
  class BitString {
    var length: int
    var value: int

    ghost predicate Valid()
      reads this
    {
      0 <= length && 0 <= value < Pow2(length)
    }

    /** The pending bits, oldest first. */
    ghost function Pending(): (r: seq<bool>)
      reads this
      requires Valid()
      ensures |r| == length
    {
      ToBits(length, value)
    }

    constructor (bitStringLength: int, bitString: int)
      requires 0 <= bitStringLength && 0 <= bitString < Pow2(bitStringLength)
      ensures Valid() && length == bitStringLength && value == bitString
    {
      length := bitStringLength;
      value := bitString;
    }

    /** Appends the `bitsCount` low bits of `bits` after the pending bits. */
    method AddBits(bitsCount: int, bits: int)
      requires Valid() && 0 <= bitsCount && 0 <= bits < Pow2(bitsCount)
      modifies this
      ensures Valid()
      ensures length == old(length) + bitsCount && value == old(value) * Pow2(bitsCount) + bits
      ensures Pending() == old(Pending()) + ToBits(bitsCount, bits)
    {
      length := length + bitsCount;
      // the shift leaves the low bitsCount bits zero, so or-ing in `bits` adds it
      value := value * Pow2(bitsCount) + bits;
      ToBitsAppend(old(length), bitsCount, old(value), bits);
      ShiftOrBound(old(value), old(length), bits, bitsCount);
    }

    /** Removes the `bitsLength` oldest pending bits and returns their value. */
    method GetBits(bitsLength: int) returns (r: int)
      requires Valid() && 0 <= bitsLength <= length
      modifies this
      ensures Valid()
      ensures length == old(length) - bitsLength
      ensures r == old(value) / Pow2(length) && value == old(value) % Pow2(length)
      ensures 0 <= r < Pow2(bitsLength)
      ensures r == FromBits(old(Pending())[..bitsLength])
      ensures Pending() == old(Pending())[bitsLength..]
    {
      var residualBitsCount := length - bitsLength;
      length := length - bitsLength;
      r := value / Pow2(residualBitsCount);
      value := value % Pow2(residualBitsCount);
      ToBitsSplit(bitsLength, old(length), old(value));
      var q := QuotientBound(bitsLength, old(length), old(value));
      FromToBits(bitsLength, r);
    }

    /** On an empty register, GetBits takes back exactly what AddBits put in and leaves the
        register empty again. */
    method AddThenGet(bitsCount: int, bits: int) returns (r: int)
      requires Valid() && length == 0 && 0 <= bitsCount && 0 <= bits < Pow2(bitsCount)
      modifies this
      ensures Valid() && r == bits && length == 0 && value == 0
    {
      AddBits(bitsCount, bits);
      r := GetBits(bitsCount);
    }

    predicate IsResidueFull(bitsLength: int)
      reads this
      requires Valid()
      ensures IsResidueFull(bitsLength) <==> |Pending()| >= bitsLength
    {
      length >= bitsLength
    }

    function GetLength(): (r: int)
      reads this
      requires Valid()
      ensures r == |Pending()|
    {
      length
    }

    /** Appends a code and drains every whole byte into the writer. */
    method Update(writer: BitWriter, bitsCount: int, bits: int)
      requires Valid() && writer.Valid() && writer.Aligned()
      requires 0 <= bitsCount && 0 <= bits < Pow2(bitsCount)
      modifies this, writer, writer.buffer
      ensures Valid() && writer.Valid() && writer.Aligned() && writer.buffer == old(writer.buffer)
      ensures length < 8
      ensures ByteBits(writer.Written()) + Pending()
           == old(ByteBits(writer.Written()) + Pending()) + ToBits(bitsCount, bits)
    {
      AddBits(bitsCount, bits);
      while IsResidueFull(8)
        invariant Valid() && writer.Valid() && writer.Aligned() && writer.buffer == old(writer.buffer)
        invariant ByteBits(writer.Written()) + Pending()
               == old(ByteBits(writer.Written()) + Pending()) + ToBits(bitsCount, bits)
        decreases length
      {
        ghost var w, p := writer.Written(), Pending();
        var b := GetBits(8);
        writer.WriteNext(b);
        DrainStep(w, p, b);
      }
    }
  }

  lemma {:induction false} ShiftOrBound(v: nat, l: nat, b: nat, n: nat)
    requires v < Pow2(l) && b < Pow2(n)
    ensures v * Pow2(n) + b < Pow2(l + n)
  {
    var p := Pow2(n);
    Pow2Add(l, n);
    assert v * p + b < (v + 1) * p;
    assert v + 1 <= Pow2(l);
    assert (v + 1) * p <= Pow2(l) * p;
  }

  /** Moving the oldest eight pending bits into the output as one byte keeps
      output-then-pending unchanged. */
  lemma {:induction false} DrainStep(w: seq<byte>, p: seq<bool>, b: byte)
    requires |p| >= 8 && b == FromBits(p[..8])
    ensures ByteBits(w + [b]) + p[8..] == ByteBits(w) + p
  {
    var q := p[..8];
    ToFromBits(q);
    assert ToBits(8, b) == q;
    ByteBitsSnoc(w, b);
    AppendAssoc(ByteBits(w), q, p[8..]);
    assert q + p[8..] == p;
  }
}
