/** The bitstream container of src/lib.rs: a `Compressed` value is either a bit vector or a
    byte vector, with conversions between the two views (zero right-padding, MSB-first). */
module Container {
  import opened Errors
  import opened Bits

  datatype Compressed = Binaries(bits: seq<byte>) | Bytes(bytes: seq<byte>)

  /** Bitwise exclusive or of two naturals. */
  function Xor(a: nat, b: nat): nat
    decreases a + b
  {
    if a == 0 then b
    else if b == 0 then a
    else 2 * Xor(a / 2, b / 2) + (if a % 2 == b % 2 then 0 else 1)
  }

  lemma {:induction false} XorBelow(a: nat, b: nat, k: nat)
    requires a < Pow2(k) && b < Pow2(k)
    ensures Xor(a, b) < Pow2(k)
    decreases a + b
  {
    if a != 0 && b != 0 {
      XorBelow(a / 2, b / 2, k - 1);
    }
  }

  /** One step of `to_byte`'s fold on u8: `(result << 1) ^ bit`, the shift dropping the top bit. */
  function ShiftIn(acc: byte, bit: byte): byte {
    XorBelow((2 * acc as int) % 256, bit as int, 8);
    Xor((2 * acc as int) % 256, bit as int) as byte
  }

  lemma ShiftInBit(acc: byte, b: byte)
    requires acc < 128 && b <= 1
    ensures ShiftIn(acc, b) as int == 2 * acc as int + b as int
  {
    var a := 2 * acc as int;
    assert a % 256 == a;
    if a != 0 && b != 0 {
      assert Xor(a / 2, b as int / 2) == a / 2;
    }
  }

  /** `to_byte`: fold the bits, first bit first, into one u8. */
  function ToByte(bits: seq<byte>): byte {
    if bits == [] then 0 else ShiftIn(ToByte(bits[..|bits| - 1]), bits[|bits| - 1])
  }

  /** On at most 8 binary digits, `to_byte` is their MSB-first value. */
  lemma {:induction false} ToByteValue(bits: seq<byte>)
    requires IsBits(bits) && |bits| <= 8
    ensures ToByte(bits) as int == Value(bits)
  {
    if bits != [] {
      var init := bits[..|bits| - 1];
      ToByteValue(init);
      ValueBound(init);
      assert Pow2(|init|) <= 128 by {
        var k := |init|;
        assert k <= 7;
        assert Pow2(7) == 128;
        Pow2Monotone(k, 7);
      }
      ShiftInBit(ToByte(init), bits[|bits| - 1]);
    }
  }

  lemma {:induction false} Pow2Monotone(j: nat, k: nat)
    requires j <= k
    ensures Pow2(j) <= Pow2(k)
  {
    if j < k {
      Pow2Monotone(j, k - 1);
    }
  }

  /** The eight bits `to_binary` produces for one byte: its `{:b}` numeral left-padded with '0'. */
  function ByteBits(b: byte): seq<byte> {
    PadLeft(Numeral(b as nat), 8)
  }

  lemma ByteBitsShape(b: byte)
    ensures |Numeral(b as nat)| <= 8 && |ByteBits(b)| == 8
  {
    assert Pow2(8) == 256;
    NumeralPadLeft(b as nat, 8);
    PaddedDigits(b as nat, 8);
  }

  /** The eight bits of a byte are binary digits whose value, and whose `to_byte`, is the byte. */
  lemma ByteBitsProps(b: byte)
    ensures |ByteBits(b)| == 8 && IsBits(ByteBits(b))
    ensures Value(ByteBits(b)) == b as int && ToByte(ByteBits(b)) == b
  {
    assert Pow2(8) == 256;
    NumeralPadLeft(b as nat, 8);
    PaddedDigits(b as nat, 8);
    ToByteValue(ByteBits(b));
  }

  /** The bit view of a byte vector: 8 bits per byte, MSB-first. */
  function Unpack(bytes: seq<byte>): (r: seq<byte>)
    ensures |r| == 8 * |bytes|
  {
    if bytes == [] then []
    else
      ByteBitsShape(bytes[0]);
      ByteBits(bytes[0]) + Unpack(bytes[1..])
  }

  /** The bit view of bytes holds only binary digits. */
  lemma {:induction false} UnpackIsBits(bytes: seq<byte>)
    ensures IsBits(Unpack(bytes))
  {
    if bytes != [] {
      ByteBitsProps(bytes[0]);
      UnpackIsBits(bytes[1..]);
    }
  }

  /** Byte i of a vector occupies bits 8i to 8i+8 of its bit view. */
  lemma UnpackAt(bytes: seq<byte>, i: nat)
    requires i < |bytes|
    ensures Unpack(bytes)[8 * i .. 8 * i + 8] == ByteBits(bytes[i])
  {
    var pre, x, post := bytes[..i], bytes[i], bytes[i + 1..];
    SplitAt(bytes, i);
    UnpackAppend(pre + [x], post);
    UnpackAppend(pre, [x]);
    ByteBitsShape(x);
    assert Unpack([x]) == ByteBits(x) + Unpack([]);
    SliceMiddle(Unpack(pre), ByteBits(x), Unpack(post));
  }

  lemma SplitAt(s: seq<byte>, i: nat)
    requires i < |s|
    ensures s == (s[..i] + [s[i]]) + s[i + 1..]
  {
    assert s[..i + 1] == s[..i] + [s[i]];
    assert s == s[..i + 1] + s[i + 1..];
  }

  lemma SliceMiddle(a: seq<byte>, b: seq<byte>, c: seq<byte>)
    ensures ((a + b) + c)[|a| .. |a| + |b|] == b
  {
    assert forall k :: 0 <= k < |b| ==> ((a + b) + c)[|a| + k] == b[k];
  }

  lemma {:induction false} UnpackAppend(a: seq<byte>, b: seq<byte>)
    ensures Unpack(a + b) == Unpack(a) + Unpack(b)
  {
    if a != [] {
      assert (a + b)[1..] == a[1..] + b;
      UnpackAppend(a[1..], b);
    } else {
      assert a + b == b;
    }
  }

  /** The number of zero bits `to_bytes` appends to reach a multiple of 8. */
  function PadCount(n: nat): nat {
    if n % 8 == 0 then 0 else 8 - n % 8
  }

  function PadRight8(bits: seq<byte>): (r: seq<byte>)
    ensures |r| % 8 == 0 && |r| == 8 * ((|bits| + 7) / 8)
  {
    bits + Zeros(PadCount(|bits|))
  }

  /** One `to_byte` per 8-bit chunk of a bit vector whose length is a multiple of 8. */
  function PackChunks(bits: seq<byte>): (r: seq<byte>)
    requires |bits| % 8 == 0
    ensures |r| == |bits| / 8
  {
    if bits == [] then [] else [ToByte(bits[..8])] + PackChunks(bits[8..])
  }

  /** Byte i of the byte view is `to_byte` of bits 8i .. 8i+8. */
  lemma {:induction false} PackChunksAt(bits: seq<byte>, i: nat)
    requires |bits| % 8 == 0 && i < |bits| / 8
    ensures PackChunks(bits)[i] == ToByte(bits[8 * i .. 8 * i + 8])
  {
    if i > 0 {
      PackChunksAt(bits[8..], i - 1);
      DropSlice(bits, 8, 8 * (i - 1), 8 * (i - 1) + 8);
    }
  }

  /** A slice of what is left after dropping d elements is a slice of the whole. */
  lemma DropSlice(s: seq<byte>, d: nat, lo: nat, hi: nat)
    requires lo <= hi && d + hi <= |s|
    ensures s[d..][lo..hi] == s[d + lo .. d + hi]
  { }

  /** The byte view of a bit vector: zero right-padding to a multiple of 8, then MSB-first bytes. */
  function Pack(bits: seq<byte>): (r: seq<byte>)
    ensures |r| == (|bits| + 7) / 8
  {
    PackChunks(PadRight8(bits))
  }

  /** What `to_binaries` returns. */
  function BitsOf(c: Compressed): seq<byte> {
    match c
    case Binaries(bits) => bits
    case Bytes(bytes) => Unpack(bytes)
  }

  /** What `to_bytes` returns. */
  function BytesOf(c: Compressed): seq<byte> {
    match c
    case Binaries(bits) => Pack(bits)
    case Bytes(bytes) => bytes
  }

  lemma {:induction false} PackChunksUnpack(bytes: seq<byte>)
    ensures PackChunks(Unpack(bytes)) == bytes
  {
    if bytes != [] {
      var u := Unpack(bytes);
      ByteBitsProps(bytes[0]);
      assert u[..8] == ByteBits(bytes[0]) && u[8..] == Unpack(bytes[1..]);
      PackChunksUnpack(bytes[1..]);
    }
  }

  /** Bytes to bits and back is the identity. */
  lemma PackUnpack(bytes: seq<byte>)
    ensures Pack(Unpack(bytes)) == bytes
  {
    assert PadRight8(Unpack(bytes)) == Unpack(bytes);
    PackChunksUnpack(bytes);
  }

  lemma {:induction false} UnpackPackChunks(bits: seq<byte>)
    requires |bits| % 8 == 0 && IsBits(bits)
    ensures Unpack(PackChunks(bits)) == bits
  {
    if bits != [] {
      var chunk := bits[..8];
      assert IsBits(chunk);
      ToByteValue(chunk);
      DigitsOfValue(chunk);
      NumeralPadLeft(Value(chunk), 8);
      assert ByteBits(ToByte(chunk)) == chunk;
      var p := PackChunks(bits);
      assert p[0] == ToByte(chunk) && p[1..] == PackChunks(bits[8..]);
      UnpackPackChunks(bits[8..]);
      assert bits == chunk + bits[8..];
    }
  }

  /** Bits to bytes and back restores the bits followed by the zero padding. */
  lemma UnpackPack(bits: seq<byte>)
    requires IsBits(bits)
    ensures Unpack(Pack(bits)) == PadRight8(bits)
  {
    UnpackPackChunks(PadRight8(bits));
  }

  /** `to_bytes(Binaries(to_binaries(Bytes(b)))) == b`. */
  lemma BytesBitsBytes(bytes: seq<byte>)
    ensures BytesOf(Binaries(BitsOf(Bytes(bytes)))) == bytes
  {
    PackUnpack(bytes);
  }

  /** `to_binary`: each byte is formatted as a `{:b}` numeral, left-padded with '0' to 8 digits,
      and its digits appended. */
  method ToBinary(bytes: seq<byte>) returns (binaries: seq<byte>)
    ensures binaries == Unpack(bytes)
  {
    binaries := [];
    for k := 0 to |bytes|
      invariant binaries == Unpack(bytes[..k])
    {
      var a := FormatByte(bytes[k]);
      UnpackPrefix(bytes, k);
      binaries := binaries + a;
    }
    assert bytes[..|bytes|] == bytes;
  }

  lemma UnpackPrefix(bytes: seq<byte>, k: nat)
    requires k < |bytes|
    ensures Unpack(bytes[..k + 1]) == Unpack(bytes[..k]) + ByteBits(bytes[k])
  {
    UnpackAppend(bytes[..k], [bytes[k]]);
    ByteBitsShape(bytes[k]);
    assert Unpack([bytes[k]]) == ByteBits(bytes[k]) + Unpack([]);
    assert bytes[..k + 1] == bytes[..k] + [bytes[k]];
  }

  /** The body of `to_binary`'s loop: the `{:b}` numeral of one byte, with '0' inserted at the
      front until it is eight digits long. */
  method FormatByte(b: byte) returns (a: seq<byte>)
    ensures a == ByteBits(b)
  {
    a := Numeral(b as nat);
    ByteBitsShape(b);
    assert Zeros(8 - |a|) + a == ByteBits(b);
    while |a| < 8
      invariant |a| <= 8
      invariant Zeros(8 - |a|) + a == ByteBits(b)
      decreases 8 - |a|
    {
      assert Zeros(8 - |a|) == Zeros(8 - |a| - 1) + [0];
      a := [0] + a;
    }
    assert Zeros(0) + a == a;
  }

  /** The `chunks(8)` loop: `to_byte` of every 8-bit chunk, in order. */
  method ChunkBytes(bits: seq<byte>) returns (bytes: seq<byte>)
    requires |bits| % 8 == 0
    ensures bytes == PackChunks(bits)
  {
    bytes := [];
    var chunks := bits;
    while chunks != []
      invariant |chunks| % 8 == 0
      invariant bytes + PackChunks(chunks) == PackChunks(bits)
    {
      var b := ToByte(chunks[..8]);
      assert (bytes + [b]) + PackChunks(chunks[8..]) == bytes + PackChunks(chunks);
      bytes := bytes + [b];
      chunks := chunks[8..];
    }
  }

  /** `Compressed::to_bytes`. */
  method ToBytes(c: Compressed) returns (bytes: seq<byte>)
    ensures bytes == BytesOf(c)
  {
    match c
    case Binaries(b) =>
      var binaries := b;
      while |binaries| % 8 != 0
        invariant |b| <= |binaries| <= |b| + PadCount(|b|)
        invariant binaries == b + Zeros(|binaries| - |b|)
        decreases |b| + PadCount(|b|) - |binaries|
      {
        binaries := binaries + [0];
      }
      assert |binaries| == |b| + PadCount(|b|);
      bytes := ChunkBytes(binaries);
    case Bytes(bs) =>
      bytes := bs;
  }

  /** `Compressed::to_binaries`. */
  method ToBinaries(c: Compressed) returns (bits: seq<byte>)
    ensures bits == BitsOf(c)
  {
    match c
    case Binaries(b) =>
      bits := b;
    case Bytes(bs) =>
      bits := ToBinary(bs);
  }

  /** `Compressed::combine`: the bits of one container followed by the bits of the other. */
  function Combine(a: Compressed, b: Compressed): (r: Compressed)
    ensures r.Binaries?
    ensures |BitsOf(r)| == |BitsOf(a)| + |BitsOf(b)|
    ensures BitsOf(r)[..|BitsOf(a)|] == BitsOf(a) && BitsOf(r)[|BitsOf(a)|..] == BitsOf(b)
  {
    Binaries(BitsOf(a) + BitsOf(b))
  }

  /** Two byte containers combine to the bits of the joined byte vectors. */
  lemma CombineBytes(x: seq<byte>, y: seq<byte>)
    ensures BytesOf(Combine(Bytes(x), Bytes(y))) == x + y
  {
    UnpackAppend(x, y);
    PackUnpack(x + y);
  }

  /** `Compressed::from_bytes`. */
  function FromBytes(bytes: seq<byte>): (c: Compressed)
    ensures BytesOf(c) == bytes && BitsOf(c) == Unpack(bytes)
  {
    Bytes(bytes)
  }

  /** `Compressed::from_binaries`. */
  function FromBinaries(bits: seq<byte>): (c: Compressed)
    ensures BitsOf(c) == bits && BytesOf(c) == Pack(bits)
  {
    Binaries(bits)
  }
}
