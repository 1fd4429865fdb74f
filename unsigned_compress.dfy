/** Compression of the fixed-size unsigned codec (src/unsigned/compress.rs).

    A number is written as q = num / 30 in a k-bit field followed by a 4-bit field for
    num % 30: the even variants store (num % 30) / 2, the others a flag bit (1 when
    num % 30 > 15, which then has 15 taken off) and the rest. The fields are packed into a
    fixed number of bytes, 8 bits at a time with `to_byte`. The bounds are the largest values
    whose quotient fits in k bits. */
module UnsignedCompress {
  import opened Errors
  import opened Bits
  import opened Container
  import Comprezable
  import opened UnsignedDecompress

  /** `encode(n, 2, bit_size)` of this file: a do-while loop that inserts each digit in front,
      so zero is written as one 0 digit, then zeros in front up to bit_size. `from_digit` of a
      remainder mod 2 always succeeds, so EncodeErr is never returned. */
  method Encode(num: nat, bitSize: nat) returns (r: Result<seq<byte>, CompressError>)
    ensures r == Ok(PadLeft(Numeral(num), bitSize))
  {
    var n := num;
    var binaries: seq<byte> := [];
    while true
      invariant if binaries == [] then n == num else n > 0 && Numeral(num) == Digits(n) + binaries
      decreases n
    {
      DigitStep(num, n, binaries);
      binaries := [(n % 2) as byte] + binaries;
      n := n / 2;
      if n == 0 {
        break;
      }
    }
    ghost var d := Numeral(num);
    while |binaries| < bitSize
      invariant |d| <= |binaries| <= Max(bitSize, |d|)
      invariant binaries == PadLeft(d, |binaries|)
    {
      Comprezable.PadLeftStep(d, |binaries|);
      binaries := [0] + binaries;
    }
    r := Ok(binaries);
  }

  /** One pass of the do-while loop: the digit written in front keeps the numeral split as the
      digits still to come followed by the digits written. */
  lemma DigitStep(num: nat, n: nat, binaries: seq<byte>)
    requires if binaries == [] then n == num else n > 0 && Numeral(num) == Digits(n) + binaries
    ensures Numeral(num) == Digits(n / 2) + ([(n % 2) as byte] + binaries)
  {
    assert n > 0 ==> Digits(n) == Digits(n / 2) + [(n % 2) as byte];
  }

  /** `encode_64`: the same loops as the generic `encode` of src/comprezable.rs. */
  method Encode64(num: nat, bitSize: nat) returns (r: Result<seq<byte>, CompressError>)
    ensures r == Ok(PadLeft(Digits(num), bitSize))
  {
    var res := Comprezable.Encode(num, bitSize);
    r := Ok(res);
  }

  /** Which of the two encoders a variant calls: the u32 variants `encode`, the u64 ones
      `encode_64`. Both write the same field once it is at least one bit wide. */
  datatype Encoder = Narrow | Wide

  method EncodeWith(e: Encoder, num: nat, bitSize: nat) returns (r: Result<seq<byte>, CompressError>)
    requires bitSize >= 1
    ensures r == Ok(PadLeft(Digits(num), bitSize))
  {
    match e {
      case Narrow =>
        r := Encode(num, bitSize);
        NumeralPadLeft(num, bitSize);
      case Wide =>
        r := Encode64(num, bitSize);
    }
  }

  /** The bits of an even variant: num / 30 in k bits, then (num % 30) / 2 in 4 bits. */
  function EvenBits(num: nat, k: nat): seq<byte> {
    PadLeft(Digits(num / 30), k) + PadLeft(Digits((num % 30) / 2), 4)
  }

  /** The flag bit of a flagged variant: 1 when num % 30 exceeds 15. */
  function Flag(num: nat): byte {
    if num % 30 > 15 then 1 else 0
  }

  /** The 4-bit remainder of a flagged variant: num % 30, less 15 when the flag is set. */
  function Rest15(num: nat): nat {
    if num % 30 > 15 then num % 30 - 15 else num % 30
  }

  /** The bits of a flagged variant: num / 30 in k bits, the flag, the remainder in 4 bits. */
  function FlaggedBits(num: nat, k: nat): seq<byte> {
    PadLeft(Digits(num / 30), k) + [Flag(num)] + PadLeft(Digits(Rest15(num)), 4)
  }

  /** The checks, fields and byte packing shared by the even variants of 2 to 4 bytes. */
  method CompressEven(num: nat, limit: nat, k: nat, e: Encoder) returns (r: Result<seq<byte>, CompressError>)
    requires k >= 1 && (k + 4) % 8 == 0 && limit / 30 < Pow2(k)
    ensures num % 2 != 0 ==> r == Err(NotEven)
    ensures num % 2 == 0 && num > limit ==> r == Err(Overflow)
    ensures num % 2 == 0 && num <= limit ==> |EvenBits(num, k)| == k + 4 && r == Ok(PackChunks(EvenBits(num, k)))
  {
    if num % 2 != 0 {
      return Err(NotEven);
    }
    if num > limit {
      return Err(Overflow);
    }
    var mult25 := num / 30;
    var remainder := num % 30;
    var mult25Bit := EncodeWith(e, mult25, k);
    var remainderBit := EncodeWith(e, remainder / 2, 4);
    var bits := mult25Bit.value + remainderBit.value;
    assert |bits| == k + 4 by {
      QuotientFits(num, limit, k);
      EvenFields(num, k);
    }
    var bytes := ChunkBytes(bits);
    r := Ok(bytes);
  }

  /** The checks, fields and byte packing shared by the flagged variants. */
  method CompressFlagged(num: nat, limit: nat, k: nat, e: Encoder) returns (r: Result<seq<byte>, CompressError>)
    requires k >= 1 && (k + 5) % 8 == 0 && limit / 30 < Pow2(k)
    ensures num > limit ==> r == Err(Overflow)
    ensures num <= limit ==> |FlaggedBits(num, k)| == k + 5 && r == Ok(PackChunks(FlaggedBits(num, k)))
  {
    if num > limit {
      return Err(Overflow);
    }
    var mult25 := num / 30;
    var remainder := num % 30;
    var mult25Bit := EncodeWith(e, mult25, k);
    var minus12: byte;
    if remainder > 15 {
      remainder := remainder - 15;
      minus12 := 1;
    } else {
      minus12 := 0;
    }
    var remainderBit := EncodeWith(e, remainder, 4);
    var bits := mult25Bit.value + [minus12] + remainderBit.value;
    assert |bits| == k + 5 by {
      QuotientFits(num, limit, k);
      FlaggedFields(num, k);
    }
    var bytes := ChunkBytes(bits);
    r := Ok(bytes);
  }

  /** Field widths of the even layout; with a quotient that fits, the layout is k + 4 binary
      digits whose two fields read back as the quotient and half the remainder. */
  lemma EvenFields(num: nat, k: nat)
    ensures |PadLeft(Digits(num / 30), k)| >= k
    ensures |PadLeft(Digits((num % 30) / 2), 4)| == 4
    ensures num / 30 < Pow2(k) ==> |EvenBits(num, k)| == k + 4 && IsBits(EvenBits(num, k))
    ensures num / 30 < Pow2(k) ==> Value(EvenBits(num, k)[..k]) == num / 30
    ensures num / 30 < Pow2(k) ==> Value(EvenBits(num, k)[k..]) == (num % 30) / 2
  {
    var hi, lo := PadLeft(Digits(num / 30), k), PadLeft(Digits((num % 30) / 2), 4);
    assert Pow2(4) == 16;
    PaddedDigits((num % 30) / 2, 4);
    if num / 30 < Pow2(k) {
      PaddedDigits(num / 30, k);
      IsBitsAppend(hi, lo);
      assert EvenBits(num, k)[..k] == hi;
      assert EvenBits(num, k)[k..] == lo;
    }
  }

  /** The same for the flagged layout: k + 5 digits, the flag at position k. */
  lemma FlaggedFields(num: nat, k: nat)
    ensures |PadLeft(Digits(Rest15(num)), 4)| == 4
    ensures num / 30 < Pow2(k) ==> |FlaggedBits(num, k)| == k + 5 && IsBits(FlaggedBits(num, k))
    ensures num / 30 < Pow2(k) ==> Value(FlaggedBits(num, k)[..k]) == num / 30
    ensures num / 30 < Pow2(k) ==> FlaggedBits(num, k)[k] == Flag(num)
    ensures num / 30 < Pow2(k) ==> Value(FlaggedBits(num, k)[k + 1..]) == Rest15(num)
  {
    assert Pow2(4) == 16;
    PaddedDigits(Rest15(num), 4);
    if num / 30 < Pow2(k) {
      PaddedDigits(num / 30, k);
      Layout3(PadLeft(Digits(num / 30), k), Flag(num), PadLeft(Digits(Rest15(num)), 4));
    }
  }

  /** The parts of a field laid out as a, then x, then b. */
  lemma Layout3(a: seq<byte>, x: byte, b: seq<byte>)
    requires IsBits(a) && x <= 1 && IsBits(b)
    ensures IsBits(a + [x] + b)
    ensures (a + [x] + b)[..|a|] == a && (a + [x] + b)[|a|] == x && (a + [x] + b)[|a| + 1..] == b
  {
    IsBitsAppend(a, [x]);
    IsBitsAppend(a + [x], b);
    assert (a + [x] + b)[..|a|] == a;
    assert (a + [x] + b)[|a| + 1..] == b;
  }

  /** Decoding the packed bytes reads the packed bits unchanged. */
  lemma DecodePacked(bits: seq<byte>, size: nat, k: nat)
    requires |bits| == 8 * size && IsBits(bits)
    ensures DecodeEven(PackChunks(bits), size, k) == DecompressNumEven(bits, k)
    ensures DecodeFlagged(PackChunks(bits), size, k) == DecompressNum(bits, k)
  {
    UnpackPackChunks(bits);
  }

  /** 30 times the quotient plus twice half the remainder is an even number. */
  lemma EvenSplit(num: nat)
    requires num % 2 == 0
    ensures 30 * (num / 30) + 2 * ((num % 30) / 2) == num
  {
    var q, m := num / 30, num % 30;
    assert num == 30 * q + m;
    assert m == num - 2 * (15 * q);
    assert m % 2 == 0;
  }

  /** The even layout decodes back (the partner of the even variants). */
  lemma EvenRoundTrip(num: nat, k: nat)
    requires num % 2 == 0 && num / 30 < Pow2(k) && k >= 1 && (k + 4) % 8 == 0
    ensures |EvenBits(num, k)| == k + 4
    ensures DecodeEven(PackChunks(EvenBits(num, k)), (k + 4) / 8, k) == Ok(num)
  {
    EvenFields(num, k);
    EvenDecode(EvenBits(num, k), k, (k + 4) / 8, num);
  }

  /** Packed even fields whose parts read num / 30 and (num % 30) / 2 decode to num. */
  lemma EvenDecode(bits: seq<byte>, k: nat, size: nat, num: nat)
    requires num % 2 == 0 && k >= 1 && |bits| == k + 4 && |bits| == 8 * size && IsBits(bits)
    requires Value(bits[..k]) == num / 30 && Value(bits[k..]) == (num % 30) / 2
    ensures DecodeEven(PackChunks(bits), size, k) == Ok(num)
  {
    DecodePacked(bits, size, k);
    EvenRead(bits, k, num / 30, (num % 30) / 2);
    EvenSplit(num);
  }

  /** `decompress_num_even` on a field whose two parts read q and r. */
  lemma EvenRead(bits: seq<byte>, k: nat, q: nat, r: nat)
    requires k >= 1 && |bits| == k + 4 && IsBits(bits)
    requires Value(bits[..k]) == q && Value(bits[k..]) == r
    ensures DecompressNumEven(bits, k) == Ok(30 * q + 2 * r)
  { }

  /** The flagged layout decodes back: 30q + 15 * flag + rest is num. */
  lemma FlaggedRoundTrip(num: nat, k: nat)
    requires num / 30 < Pow2(k) && k >= 1 && (k + 5) % 8 == 0
    ensures |FlaggedBits(num, k)| == k + 5
    ensures DecodeFlagged(PackChunks(FlaggedBits(num, k)), (k + 5) / 8, k) == Ok(num)
  {
    FlaggedFields(num, k);
    FlaggedDecode(FlaggedBits(num, k), k, (k + 5) / 8, num);
  }

  /** Packed flagged fields whose parts read num / 30, the flag and the rest decode to num. */
  lemma FlaggedDecode(bits: seq<byte>, k: nat, size: nat, num: nat)
    requires k >= 1 && |bits| == k + 5 && |bits| == 8 * size && IsBits(bits)
    requires Value(bits[..k]) == num / 30 && bits[k] == Flag(num) && Value(bits[k + 1..]) == Rest15(num)
    ensures DecodeFlagged(PackChunks(bits), size, k) == Ok(num)
  {
    DecodePacked(bits, size, k);
    FlaggedRead(bits, k, num / 30, Flag(num), Rest15(num));
    FlaggedSplit(num);
  }

  /** `decompress_num` on a field whose three parts read q, f and rest. */
  lemma FlaggedRead(bits: seq<byte>, k: nat, q: nat, f: byte, rest: nat)
    requires k >= 1 && |bits| == k + 5 && IsBits(bits)
    requires Value(bits[..k]) == q && bits[k] == f && Value(bits[k + 1..]) == rest
    ensures DecompressNum(bits, k) == Ok(30 * q + 15 * f as int + rest)
  { }

  /** 30 times the quotient, plus 15 when the flag is set, plus the rest is the number. */
  lemma FlaggedSplit(num: nat)
    ensures 30 * (num / 30) + 15 * Flag(num) as int + Rest15(num) == num
  {
    assert num == 30 * (num / 30) + num % 30;
  }

  /** The powers of two behind the bounds: each bound is the largest number whose quotient by
      30 fits the quotient field. */
  lemma Bounds()
    ensures Pow2(4) == 16 && Pow2(11) == 2048 && Pow2(12) == 4096
    ensures Pow2(19) == 524288 && Pow2(20) == 1048576
    ensures Pow2(27) == 134217728 && Pow2(28) == 268435456
    ensures 478 / 30 < Pow2(4) && 122878 / 30 < Pow2(12) && 61439 / 30 < Pow2(11)
    ensures 31457278 / 30 < Pow2(20) && 15728639 / 30 < Pow2(19)
    ensures 8053063678 / 30 < Pow2(28) && 4026531839 / 30 < Pow2(27)
    ensures (478 + 2) / 30 == Pow2(4) && (122878 + 2) / 30 == Pow2(12) && (61439 + 1) / 30 == Pow2(11)
    ensures (31457278 + 2) / 30 == Pow2(20) && (15728639 + 1) / 30 == Pow2(19)
    ensures (8053063678 + 2) / 30 == Pow2(28) && (4026531839 + 1) / 30 == Pow2(27)
  {
    assert Pow2(4) == 16;
    assert Pow2(8) == 256;
    assert Pow2(11) == 2048;
    assert Pow2(12) == 4096;
    assert Pow2(16) == 65536;
    assert Pow2(19) == 524288;
    assert Pow2(20) == 1048576;
    assert Pow2(24) == 16777216;
    assert Pow2(27) == 134217728;
    assert Pow2(28) == 268435456;
  }

  /** A quotient below the bound's fits its field. */
  lemma QuotientFits(num: nat, limit: nat, k: nat)
    requires num <= limit && limit / 30 < Pow2(k)
    ensures num / 30 < Pow2(k)
  { }

  /** `compress_478_even`: one byte. It checks `num > 479`, but 479 is odd and is refused as
      NotEven first, so the even numbers up to 478 are exactly the ones accepted. */
  method Compress478Even(num: nat) returns (r: Result<seq<byte>, CompressError>)
    ensures r.Ok? <==> num % 2 == 0 && num <= 478
    ensures num % 2 != 0 ==> r == Err(NotEven)
    ensures num % 2 == 0 && num > 478 ==> r == Err(Overflow)
    ensures r.Ok? ==> |EvenBits(num, 4)| == 8 && r.value == [ToByte(EvenBits(num, 4))] && r.value == PackChunks(EvenBits(num, 4))
    ensures r.Ok? ==> |r.value| == 1 && DecodeEven(r.value, 1, 4) == Ok(num)
  {
    if num % 2 != 0 {
      return Err(NotEven);
    }
    if num > 479 {
      return Err(Overflow);
    }
    var mult25 := num / 30;
    var remainder := num % 30;
    var mult25Bit := Encode(mult25, 4);
    var remainderBit := Encode(remainder / 2, 4);
    var bits := mult25Bit.value + remainderBit.value;
    OneByteEven(num, bits);
    var bytes := ToByte(bits);
    r := Ok([bytes]);
  }

  /** The one-byte even layout: 8 binary digits whose `to_byte` decompresses back. */
  lemma OneByteEven(num: nat, bits: seq<byte>)
    requires num % 2 == 0 && num <= 479
    requires bits == PadLeft(Numeral(num / 30), 4) + PadLeft(Numeral((num % 30) / 2), 4)
    ensures |bits| == 8 && bits == EvenBits(num, 4) && PackChunks(bits) == [ToByte(bits)]
    ensures DecodeEven([ToByte(bits)], 1, 4) == Ok(num)
  {
    NumeralPadLeft(num / 30, 4);
    NumeralPadLeft((num % 30) / 2, 4);
    assert bits == EvenBits(num, 4);
    assert Pow2(4) == 16;
    EvenRoundTrip(num, 4);
    PackOne(bits);
  }

  /** A single 8-bit chunk packs into its one `to_byte`. */
  lemma PackOne(bits: seq<byte>)
    requires |bits| == 8
    ensures PackChunks(bits) == [ToByte(bits)]
  {
    assert bits[..8] == bits && bits[8..] == [];
  }

  /** `compress_122_878_even`: two bytes. */
  method Compress122878Even(num: nat) returns (r: Result<seq<byte>, CompressError>)
    ensures r.Ok? <==> num % 2 == 0 && num <= 122878
    ensures num % 2 != 0 ==> r == Err(NotEven)
    ensures num % 2 == 0 && num > 122878 ==> r == Err(Overflow)
    ensures r.Ok? ==> |EvenBits(num, 12)| == 16 && r.value == PackChunks(EvenBits(num, 12))
    ensures r.Ok? ==> |r.value| == 2 && DecodeEven(r.value, 2, 12) == Ok(num)
  {
    Bounds();
    r := CompressEven(num, 122878, 12, Narrow);
    if r.Ok? {
      EvenRoundTrip(num, 12);
    }
  }

  /** `compress_61_439`: two bytes. */
  method Compress61439(num: nat) returns (r: Result<seq<byte>, CompressError>)
    ensures r.Ok? <==> num <= 61439
    ensures num > 61439 ==> r == Err(Overflow)
    ensures r.Ok? ==> |FlaggedBits(num, 11)| == 16 && r.value == PackChunks(FlaggedBits(num, 11))
    ensures r.Ok? ==> |r.value| == 2 && DecodeFlagged(r.value, 2, 11) == Ok(num)
  {
    Bounds();
    r := CompressFlagged(num, 61439, 11, Narrow);
    if r.Ok? {
      FlaggedRoundTrip(num, 11);
    }
  }

  /** `compress_31_457_278_even`: three bytes. */
  method Compress31457278Even(num: nat) returns (r: Result<seq<byte>, CompressError>)
    ensures r.Ok? <==> num % 2 == 0 && num <= 31457278
    ensures num % 2 != 0 ==> r == Err(NotEven)
    ensures num % 2 == 0 && num > 31457278 ==> r == Err(Overflow)
    ensures r.Ok? ==> |EvenBits(num, 20)| == 24 && r.value == PackChunks(EvenBits(num, 20))
    ensures r.Ok? ==> |r.value| == 3 && DecodeEven(r.value, 3, 20) == Ok(num)
  {
    Bounds();
    r := CompressEven(num, 31457278, 20, Wide);
    if r.Ok? {
      EvenRoundTrip(num, 20);
    }
  }

  /** `compress_15_728_639`: three bytes. */
  method Compress15728639(num: nat) returns (r: Result<seq<byte>, CompressError>)
    ensures r.Ok? <==> num <= 15728639
    ensures num > 15728639 ==> r == Err(Overflow)
    ensures r.Ok? ==> |FlaggedBits(num, 19)| == 24 && r.value == PackChunks(FlaggedBits(num, 19))
    ensures r.Ok? ==> |r.value| == 3 && DecodeFlagged(r.value, 3, 19) == Ok(num)
  {
    Bounds();
    r := CompressFlagged(num, 15728639, 19, Wide);
    if r.Ok? {
      FlaggedRoundTrip(num, 19);
    }
  }

  /** `compress_8_053_063_678_even`: four bytes. */
  method Compress8053063678Even(num: nat) returns (r: Result<seq<byte>, CompressError>)
    ensures r.Ok? <==> num % 2 == 0 && num <= 8053063678
    ensures num % 2 != 0 ==> r == Err(NotEven)
    ensures num % 2 == 0 && num > 8053063678 ==> r == Err(Overflow)
    ensures r.Ok? ==> |EvenBits(num, 28)| == 32 && r.value == PackChunks(EvenBits(num, 28))
    ensures r.Ok? ==> |r.value| == 4 && DecodeEven(r.value, 4, 28) == Ok(num)
  {
    Bounds();
    r := CompressEven(num, 8053063678, 28, Wide);
    if r.Ok? {
      EvenRoundTrip(num, 28);
    }
  }

  /** `compress_4_026_531_839`: four bytes. */
  method Compress4026531839(num: nat) returns (r: Result<seq<byte>, CompressError>)
    ensures r.Ok? <==> num <= 4026531839
    ensures num > 4026531839 ==> r == Err(Overflow)
    ensures r.Ok? ==> |FlaggedBits(num, 27)| == 32 && r.value == PackChunks(FlaggedBits(num, 27))
    ensures r.Ok? ==> |r.value| == 4 && DecodeFlagged(r.value, 4, 27) == Ok(num)
  {
    Bounds();
    r := CompressFlagged(num, 4026531839, 27, Wide);
    if r.Ok? {
      FlaggedRoundTrip(num, 27);
    }
  }

  /** The example in src/main.rs: 1234 = 30 · 41 + 4 is stored by `compress_61_439` as 41 in 11 bits,
      flag 0 and 4 in 4 bits, that is the two bytes 5 and 36, which decompress back to 1234. */
  lemma Main1234()
    ensures FlaggedBits(1234, 11) == [0, 0, 0, 0, 0, 1, 0, 1, 0, 0, 1, 0, 0, 1, 0, 0]
    ensures PackChunks(FlaggedBits(1234, 11)) == [5, 36]
    ensures DecodeFlagged([5, 36], 2, 11) == Ok(1234)
  {
    FlaggedOf1234();
    UnpackOf5And36();
    var bytes: seq<byte> := [5, 36];
    PackChunksUnpack(bytes);
    assert Pow2(11) == 2048 by { Bounds(); }
    FlaggedRoundTrip(1234, 11);
  }

  lemma FlaggedOf1234()
    ensures FlaggedBits(1234, 11) == [0, 0, 0, 0, 0, 1, 0, 1, 0, 0, 1, 0, 0, 1, 0, 0]
  {
    assert 1234 / 30 == 41 && 1234 % 30 == 4;
    assert Flag(1234) == 0 && Rest15(1234) == 4;
    assert Digits(1) == [1];
    assert Digits(2) == Digits(1) + [0];
    assert Digits(4) == Digits(2) + [0];
    assert Digits(5) == Digits(2) + [1];
    assert Digits(10) == Digits(5) + [0];
    assert Digits(20) == Digits(10) + [0];
    assert Digits(41) == Digits(20) + [1];
    assert Zeros(5) == [0, 0, 0, 0, 0] && Zeros(1) == [0];
    assert PadLeft(Digits(41), 11) == Zeros(5) + Digits(41);
    assert PadLeft(Digits(4), 4) == Zeros(1) + Digits(4);
  }

  lemma UnpackOf5And36()
    ensures Unpack([5, 36]) == [0, 0, 0, 0, 0, 1, 0, 1, 0, 0, 1, 0, 0, 1, 0, 0]
  {
    ByteBitsOf5();
    ByteBitsOf36();
    var bytes: seq<byte> := [5, 36];
    assert Unpack(bytes[1..]) == ByteBits(36) + Unpack([]);
    assert Unpack(bytes) == ByteBits(5) + Unpack(bytes[1..]);
  }

  lemma ByteBitsOf5()
    ensures ByteBits(5) == [0, 0, 0, 0, 0, 1, 0, 1]
  {
    assert Digits(1) == [1];
    assert Digits(2) == Digits(1) + [0];
    assert Digits(5) == Digits(2) + [1];
    assert Zeros(5) == [0, 0, 0, 0, 0];
    assert ByteBits(5) == Zeros(5) + Digits(5);
  }

  lemma ByteBitsOf36()
    ensures ByteBits(36) == [0, 0, 1, 0, 0, 1, 0, 0]
  {
    assert Digits(1) == [1];
    assert Digits(2) == Digits(1) + [0];
    assert Digits(4) == Digits(2) + [0];
    assert Digits(9) == Digits(4) + [1];
    assert Digits(18) == Digits(9) + [0];
    assert Digits(36) == Digits(18) + [0];
    assert Zeros(2) == [0, 0];
    assert ByteBits(36) == Zeros(2) + Digits(36);
  }
}
