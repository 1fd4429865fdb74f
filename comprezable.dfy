/** The `Comprezable` implementations for the integer types (src/comprezable.rs).

    An integer field with bound `bound` is stored in `w + 3` bits, w being the number of
    binary digits of bound / 8: first v / 8 in w bits, then v % 8 in 3 bits. A signed field
    puts a sign bit in front (0 for negative, 1 otherwise) and stores the magnitude.
    The unsigned implementations (u8, u16, u32, u64, u128) are identical apart from the type,
    and so are the signed ones (i8 ... i128); machine widths are not modelled, so each family
    is one set of members here. */
module Comprezable {
  import opened Errors
  import opened Bits
  import opened Container
  import opened Schema

  function Abs(x: int): nat {
    if x < 0 then -x else x
  }

  /** `Vec::reverse`. */
  function Reverse(s: seq<byte>): (r: seq<byte>)
    ensures |r| == |s|
  {
    if s == [] then [] else [s[|s| - 1]] + Reverse(s[..|s| - 1])
  }

  /** `encode(num, 2, bit_size)`: the binary digits of num, most significant first, with zeros
      inserted in front up to bit_size digits. Zero has no digits before the padding. */
  method Encode(num: nat, bitSize: nat) returns (res: seq<byte>)
    ensures res == PadLeft(Digits(num), bitSize)
    ensures |res| == Max(bitSize, BitLength(num))
    ensures IsBits(res) && Value(res) == num
  {
    var n := num;
    res := [];
    while n != 0
      invariant Digits(num) == Digits(n) + Reverse(res)
      decreases n
    {
      var remainder := (n % 2) as byte;
      DigitsStep(num, n, res);
      n := n / 2;
      res := res + [remainder];
    }
    res := Reverse(res);
    ghost var d := Digits(num);
    while |res| < bitSize
      invariant |d| <= |res| <= Max(bitSize, |d|)
      invariant res == PadLeft(d, |res|)
    {
      PadLeftStep(d, |res|);
      res := [0] + res;
    }
    EncodeFacts(num, bitSize);
  }

  /** One step of the remainder loop keeps the digits already produced. */
  lemma DigitsStep(num: nat, n: nat, res: seq<byte>)
    requires n != 0 && Digits(num) == Digits(n) + Reverse(res)
    ensures Digits(num) == Digits(n / 2) + Reverse(res + [(n % 2) as byte])
  {
    var x, hi, rv := (n % 2) as byte, Digits(n / 2), Reverse(res);
    ReverseSnoc(res, x);
    calc {
      Digits(num);
      Digits(n) + rv;
      (hi + [x]) + rv;
      { SeqAssoc(hi, [x], rv); }
      hi + ([x] + rv);
      hi + Reverse(res + [x]);
    }
  }

  lemma SeqAssoc(a: seq<byte>, b: seq<byte>, c: seq<byte>)
    ensures (a + b) + c == a + (b + c)
  { }

  /** The padded digits of num are binary digits with value num, never truncated. */
  lemma EncodeFacts(num: nat, bitSize: nat)
    ensures |PadLeft(Digits(num), bitSize)| == Max(bitSize, BitLength(num))
    ensures IsBits(PadLeft(Digits(num), bitSize)) && Value(PadLeft(Digits(num), bitSize)) == num
  {
    DigitsValue(num);
    PadLeftBits(Digits(num), bitSize);
    ValuePadLeft(Digits(num), bitSize);
  }

  lemma ReverseSnoc(s: seq<byte>, x: byte)
    ensures Reverse(s + [x]) == [x] + Reverse(s)
  {
    assert (s + [x])[..|s|] == s;
  }

  lemma PadLeftStep(d: seq<byte>, k: nat)
    requires |d| <= k
    ensures PadLeft(d, k + 1) == [0] + PadLeft(d, k)
  {
    assert Zeros(k + 1 - |d|) == [0] + Zeros(k - |d|);
  }

  /** The quotient width `find_mult_8_bit_size` computes for a bound: the number of binary
      digits of bound / 8. */
  function Width(bound: nat): nat {
    BitLength(bound / 8)
  }

  /** `find_mult_8_bit_size(num, 8, 0, 2)`: the least number of bits that holds num / 8. */
  method FindMult8BitSize(num: nat) returns (res: nat)
    ensures res == Width(num)
    ensures num / 8 < Pow2(res)
    ensures res > 0 ==> Pow2(res - 1) <= num / 8
  {
    var n: nat := num / 8;
    res := 0;
    while n != 0
      invariant res + BitLength(n) == BitLength(num / 8)
      decreases n
    {
      n := n / 2;
      res := res + 1;
    }
    WidthLeast(num, res);
    if res > 0 {
      WidthLeast(num, res - 1);
    }
  }

  /** The width is the least one whose quotient field holds bound / 8:
      bound / 8 < 2^k exactly when Width(bound) <= k. */
  lemma WidthLeast(bound: nat, k: nat)
    ensures bound / 8 < Pow2(k) <==> Width(bound) <= k
  {
    DigitsFit(bound / 8, k);
  }

  /** A larger bound never gets a narrower quotient field. */
  lemma WidthMonotone(a: nat, b: nat)
    requires a <= b
    ensures Width(a) <= Width(b)
  {
    BitLengthMonotone(a / 8, b / 8);
  }

  /** Every value up to the bound has its quotient fit in the bound's width. */
  lemma WidthFits(v: nat, bound: nat)
    requires v <= bound
    ensures v / 8 < Pow2(Width(bound))
  {
    WidthLeast(bound, Width(bound));
  }

  /** The field `compress_num` produces: v / 8 in w bits, then v % 8 in 3 bits. */
  function PackedBits(v: nat, w: nat): seq<byte> {
    PadLeft(Digits(v / 8), w) + PadLeft(Digits(v % 8), 3)
  }

  /** `compress_num(num, w, 8, 2, 0)`. */
  method CompressNum(num: nat, w: nat) returns (r: seq<byte>)
    ensures r == PackedBits(num, w)
  {
    var mult8Bit := Encode(num / 8, w);
    var remainderBit := Encode(num % 8, 3);
    r := mult8Bit + remainderBit;
  }

  /** When the quotient fits in w bits, the packed field is simply the (w+3)-bit binary numeral
      of v: w+3 binary digits whose value is v. */
  lemma PackedBitsNumeral(v: nat, w: nat)
    requires v / 8 < Pow2(w)
    ensures |PackedBits(v, w)| == w + 3 && IsBits(PackedBits(v, w))
    ensures Value(PackedBits(v, w)) == v
    ensures PackedBits(v, w) == PadLeft(Digits(v), w + 3)
  {
    var hi, lo := PadLeft(Digits(v / 8), w), PadLeft(Digits(v % 8), 3);
    PaddedDigits(v / 8, w);
    assert Pow2(3) == 8;
    PaddedDigits(v % 8, 3);
    ValueAppend(hi, lo);
    assert |lo| == 3 && Value(hi) == v / 8 && Value(lo) == v % 8;
    assert Value(hi + lo) == (v / 8) * 8 + v % 8;
    IsBitsAppend(hi, lo);
    DigitsOfValue(hi + lo);
  }

  /** `Comprezable::compress` without a bound, for every implementing type (the integers and
      the blob `Vec<u8>` alike): not supported. */
  function CompressWithoutBound<T>(v: T): (r: Result<Compressed, CompressError>)
    ensures r.Err? && r.error == DataNoSupported
  {
    Err(DataNoSupported)
  }

  /** `max_binaries` of the unsigned types: a fixed-width field as wide as the encoding of the
      bound itself. */
  function MaxBinariesUnsigned(bound: nat): (c: BinaryChunk)
    ensures c.Single? && c.size == |PackedBits(bound, Width(bound))|
  {
    WidthFits(bound, bound);
    PackedBitsNumeral(bound, Width(bound));
    Single(Width(bound) + 3)
  }

  /** Every admissible value's field is exactly as wide as the schema says. */
  lemma UnsignedFieldWidth(v: nat, bound: nat)
    requires v <= bound
    ensures |PackedBits(v, Width(bound))| == MaxBinariesUnsigned(bound).size
  {
    WidthFits(v, bound);
    PackedBitsNumeral(v, Width(bound));
  }

  /** `compress_to_binaries` of the unsigned types. */
  method CompressToBinariesUnsigned(v: nat, bound: nat) returns (r: Result<Compressed, CompressError>)
    ensures r.Err? <==> v > bound
    ensures r.Err? ==> r.error == Overflow
    ensures r.Ok? ==> r.value == Binaries(PackedBits(v, Width(bound)))
    ensures r.Ok? ==> |BitsOf(r.value)| == MaxBinariesUnsigned(bound).size
    ensures r.Ok? && bound >= 8 ==> DecompressUnsigned(r.value) == Ok(v)
    ensures r.Ok? ==> DecompressUnsignedFixed(r.value) == Ok(v)
  {
    if v > bound {
      return Err(Overflow);
    }
    var mult8BitSize := FindMult8BitSize(bound);
    var compressed := CompressNum(v, mult8BitSize);
    r := Ok(Binaries(compressed));
    UnsignedFieldWidth(v, bound);
    if bound >= 8 {
      UnsignedRoundTrip(v, bound);
    }
    UnsignedRoundTripFixed(v, bound);
  }

  /** `decompress` of the unsigned types: the last 3 bits are v % 8, the bits before them
      v / 8. Fewer than 3 bits make `len() - 3` underflow (a panic, WrongBytesLength here); a
      field that does not parse, the empty quotient field included, is BinariesToIntErr. */
  function DecompressUnsigned(c: Compressed): (r: Result<nat, DecompressError>)
    ensures r.Ok? <==> |BitsOf(c)| > 3 && IsBits(BitsOf(c))
    ensures r.Ok? ==> r.value == Value(BitsOf(c))
    ensures |BitsOf(c)| < 3 ==> r == Err(WrongBytesLength)
    ensures r.Err? && |BitsOf(c)| >= 3 ==> r.error == BinariesToIntErr
  {
    var b := BitsOf(c);
    if |b| < 3 then Err(WrongBytesLength)
    else
      var splitAt := |b| - 3;
      match ParseBits(b[..splitAt])
      case None => Err(BinariesToIntErr)
      case Some(mult8) =>
        match ParseBits(b[splitAt..])
        case None => Err(BinariesToIntErr)
        case Some(remainder) =>
          JoinFields(b, splitAt);
          Ok(mult8 * 8 + remainder)
  }

  /** A field split at the last three bits: reading both halves and recombining them reads
      the whole field; and the halves are binary digits iff the whole is. */
  lemma JoinFields(b: seq<byte>, splitAt: nat)
    requires splitAt + 3 == |b|
    ensures IsBits(b) <==> IsBits(b[..splitAt]) && IsBits(b[splitAt..])
    ensures Value(b[..splitAt]) * 8 + Value(b[splitAt..]) == Value(b)
  {
    assert b == b[..splitAt] + b[splitAt..];
    ValueAppend(b[..splitAt], b[splitAt..]);
    assert Pow2(3) == 8;
    if IsBits(b[..splitAt]) && IsBits(b[splitAt..]) {
      forall i | 0 <= i < |b|
        ensures b[i] <= 1
      {
        if i < splitAt {
          assert b[i] == b[..splitAt][i];
        } else {
          assert b[i] == b[splitAt..][i - splitAt];
        }
      }
    }
  }

  /** Decompressing a compressed unsigned value gives it back, once the bound is at least 8. */
  lemma UnsignedRoundTrip(v: nat, bound: nat)
    requires v <= bound && bound >= 8
    ensures DecompressUnsigned(Binaries(PackedBits(v, Width(bound)))) == Ok(v)
  {
    WidthFits(v, bound);
    WidthLeast(bound, 0);
    PackedBitsNumeral(v, Width(bound));
  }

  /** With a bound below 8 the quotient field is empty, so no compressed value decompresses. */
  lemma SmallBoundFails(v: nat, bound: nat)
    requires v <= bound < 8
    ensures DecompressUnsigned(Binaries(PackedBits(v, Width(bound)))) == Err(BinariesToIntErr)
  {
    assert Width(bound) == 0;
    assert Pow2(0) == 1;
    PackedBitsNumeral(v, 0);
  }

  /** `decompress` of the unsigned types with an empty quotient field read as 0. */
  function DecompressUnsignedFixed(c: Compressed): (r: Result<nat, DecompressError>)
    ensures r.Ok? <==> |BitsOf(c)| >= 3 && IsBits(BitsOf(c))
    ensures r.Ok? ==> r.value == Value(BitsOf(c))
    ensures r.Err? ==> r.error == if |BitsOf(c)| < 3 then WrongBytesLength else BinariesToIntErr
  {
    var b := BitsOf(c);
    if |b| < 3 then Err(WrongBytesLength)
    else
      var splitAt := |b| - 3;
      var mult8 := if splitAt == 0 then Some(0) else ParseBits(b[..splitAt]);
      match mult8
      case None => Err(BinariesToIntErr)
      case Some(q) =>
        match ParseBits(b[splitAt..])
        case None => Err(BinariesToIntErr)
        case Some(remainder) =>
          JoinFields(b, splitAt);
          Ok(q * 8 + remainder)
  }

  /** With the empty quotient read as 0, every bound round-trips. */
  lemma UnsignedRoundTripFixed(v: nat, bound: nat)
    requires v <= bound
    ensures DecompressUnsignedFixed(Binaries(PackedBits(v, Width(bound)))) == Ok(v)
  {
    WidthFits(v, bound);
    PackedBitsNumeral(v, Width(bound));
  }

  /** The field of a signed value: the sign bit (0 for negative, 1 otherwise), then the
      magnitude packed as an unsigned value. */
  function SignedBits(v: int, w: nat): seq<byte> {
    [if v < 0 then 0 else 1] + PackedBits(Abs(v), w)
  }

  /** `max_binaries` of the signed types: wide enough for the sign bit and the packed bound. */
  function MaxBinariesSigned(bound: int): (c: BinaryChunk)
    ensures c.Single? && c.size == |SignedBits(bound, Width(Abs(bound)))|
  {
    WidthFits(Abs(bound), Abs(bound));
    PackedBitsNumeral(Abs(bound), Width(Abs(bound)));
    Single(Width(Abs(bound)) + 4)
  }

  /** `compress_to_binaries` of the signed types. A negative bound rejects every value. */
  method CompressToBinariesSigned(v: int, bound: int) returns (r: Result<Compressed, CompressError>)
    ensures r.Err? <==> Abs(v) > bound
    ensures r.Err? ==> r.error == Overflow
    ensures r.Ok? ==> r.value == Binaries(SignedBits(v, Width(Abs(bound))))
    ensures r.Ok? ==> |BitsOf(r.value)| == MaxBinariesSigned(bound).size
    ensures r.Ok? && bound >= 8 ==> DecompressSigned(r.value) == Ok(v)
    ensures r.Ok? ==> DecompressSignedFixed(r.value) == Ok(v)
  {
    if Abs(v) > bound {
      return Err(Overflow);
    }
    var mult8BitSize := FindMult8BitSize(Abs(bound));
    var compressed := CompressNum(Abs(v), mult8BitSize);
    var res := compressed;
    if v < 0 {
      res := [0] + res;
    } else {
      res := [1] + res;
    }
    assert res == SignedBits(v, Width(Abs(bound)));
    r := Ok(Binaries(res));
    SignedFieldFacts(v, bound);
  }

  lemma SignedFieldFacts(v: int, bound: int)
    requires Abs(v) <= bound
    ensures |SignedBits(v, Width(Abs(bound)))| == MaxBinariesSigned(bound).size
    ensures bound >= 8 ==> DecompressSigned(Binaries(SignedBits(v, Width(Abs(bound))))) == Ok(v)
    ensures DecompressSignedFixed(Binaries(SignedBits(v, Width(Abs(bound))))) == Ok(v)
  {
    assert Abs(bound) == bound;
    WidthFits(Abs(v), bound);
    PackedBitsNumeral(Abs(v), Width(bound));
    if bound >= 8 {
      SignedRoundTrip(v, bound);
    }
    SignedRoundTripFixed(v, bound);
  }

  /** `decompress` of the signed types: remove the sign bit (an empty field panics on
      `remove(0)`, WrongBytesLength here), read the magnitude as the unsigned decompression
      does, then apply the sign; a sign other than 0 or 1 panics (MalformedFlag here). */
  function DecompressSigned(c: Compressed): (r: Result<int, DecompressError>)
    ensures r.Ok? <==> |BitsOf(c)| > 4 && BitsOf(c)[0] <= 1 && IsBits(BitsOf(c)[1..])
    ensures r.Ok? ==> r.value == if BitsOf(c)[0] == 0 then -(Value(BitsOf(c)[1..]) as int) else Value(BitsOf(c)[1..])
    ensures |BitsOf(c)| < 4 ==> r == Err(WrongBytesLength)
    ensures r == Err(MalformedFlag) <==> |BitsOf(c)| > 4 && IsBits(BitsOf(c)[1..]) && BitsOf(c)[0] > 1
  {
    var b := BitsOf(c);
    if |b| == 0 then Err(WrongBytesLength)
    else
      var sign := b[0];
      var rest := b[1..];
      match DecompressUnsigned(Binaries(rest))
      case Err(e) => Err(e)
      case Ok(magnitude) =>
        if sign == 0 then Ok(-(magnitude as int))
        else if sign == 1 then Ok(magnitude)
        else Err(MalformedFlag)
  }

  /** `decompress` of the signed types with an empty quotient field read as 0. */
  function DecompressSignedFixed(c: Compressed): (r: Result<int, DecompressError>)
    ensures r.Ok? <==> |BitsOf(c)| >= 4 && BitsOf(c)[0] <= 1 && IsBits(BitsOf(c)[1..])
    ensures r.Ok? ==> r.value == if BitsOf(c)[0] == 0 then -(Value(BitsOf(c)[1..]) as int) else Value(BitsOf(c)[1..])
  {
    var b := BitsOf(c);
    if |b| == 0 then Err(WrongBytesLength)
    else
      var sign := b[0];
      match DecompressUnsignedFixed(Binaries(b[1..]))
      case Err(e) => Err(e)
      case Ok(magnitude) =>
        if sign == 0 then Ok(-(magnitude as int))
        else if sign == 1 then Ok(magnitude)
        else Err(MalformedFlag)
  }

  /** Decompressing a compressed signed value gives it back, once the bound is at least 8. */
  lemma SignedRoundTrip(v: int, bound: int)
    requires Abs(v) <= bound && bound >= 8
    ensures DecompressSigned(Binaries(SignedBits(v, Width(bound)))) == Ok(v)
  {
    WidthFits(Abs(v), bound);
    WidthLeast(bound, 0);
    PackedBitsNumeral(Abs(v), Width(bound));
    assert SignedBits(v, Width(bound))[1..] == PackedBits(Abs(v), Width(bound));
  }

  /** With a bound below 8 the signed field fails to decompress as well. */
  lemma SignedSmallBoundFails(v: int, bound: int)
    requires Abs(v) <= bound < 8
    ensures DecompressSigned(Binaries(SignedBits(v, Width(bound)))) == Err(BinariesToIntErr)
  {
    assert Width(bound) == 0;
    assert Pow2(0) == 1;
    var m := PackedBits(Abs(v), 0);
    PackedBitsNumeral(Abs(v), 0);
    var b := SignedBits(v, 0);
    assert b[1..] == m;
    assert DecompressUnsigned(Binaries(m)) == Err(BinariesToIntErr);
    assert BitsOf(Binaries(b)) == b && |b| == 4;
  }

  /** With the empty quotient read as 0, every signed value within its bound round-trips. */
  lemma SignedRoundTripFixed(v: int, bound: int)
    requires Abs(v) <= bound
    ensures DecompressSignedFixed(Binaries(SignedBits(v, Width(bound)))) == Ok(v)
  {
    WidthFits(Abs(v), bound);
    PackedBitsNumeral(Abs(v), Width(bound));
    assert SignedBits(v, Width(bound))[1..] == PackedBits(Abs(v), Width(bound));
  }

  /** The field read by `max_binaries` is the compressed field: cutting a buffer that starts
      with an unsigned field by the type's schema returns the field and leaves the rest. */
  lemma UnsignedChunkRoundTrip(v: nat, bound: nat, rest: seq<byte>)
    requires v <= bound
    ensures var bits := PackedBits(v, Width(bound));
      ChunkOne(bits + rest, MaxBinariesUnsigned(bound)) == Read(Ok(bits), rest)
  {
    var bits := PackedBits(v, Width(bound));
    UnsignedFieldWidth(v, bound);
    assert (bits + rest)[..|bits|] == bits && (bits + rest)[|bits|..] == rest;
  }

  /** The same for a signed field. */
  lemma SignedChunkRoundTrip(v: int, bound: int, rest: seq<byte>)
    requires Abs(v) <= bound
    ensures var bits := SignedBits(v, Width(bound));
      ChunkOne(bits + rest, MaxBinariesSigned(bound)) == Read(Ok(bits), rest)
  {
    var bits := SignedBits(v, Width(bound));
    WidthFits(Abs(v), bound);
    PackedBitsNumeral(Abs(v), Width(bound));
    assert (bits + rest)[..|bits|] == bits && (bits + rest)[|bits|..] == rest;
  }

  /** Bound 478 and value 122: the width is 6, the field is 122 / 8 = 15 in 6 bits followed by
      122 % 8 = 2 in 3 bits, and it decompresses back to 122. */
  lemma UnsignedExample()
    ensures Width(478) == 6
    ensures PackedBits(122, Width(478)) == [0, 0, 1, 1, 1, 1, 0, 1, 0]
    ensures DecompressUnsigned(Binaries(PackedBits(122, Width(478)))) == Ok(122)
  {
    WidthOf478();
    PackedOf122();
    UnsignedRoundTrip(122, 478);
  }

  lemma WidthOf478()
    ensures Width(478) == 6
  {
    assert 478 / 8 == 59;
    assert Digits(1) == [1];
    assert Digits(3) == Digits(1) + [1];
    assert Digits(7) == Digits(3) + [1];
    assert Digits(14) == Digits(7) + [0];
    assert Digits(29) == Digits(14) + [1];
    assert Digits(59) == Digits(29) + [1];
  }

  lemma PackedOf122()
    ensures PackedBits(122, 6) == [0, 0, 1, 1, 1, 1, 0, 1, 0]
  {
    assert 122 / 8 == 15 && 122 % 8 == 2;
    DigitsOf15();
    assert Digits(2) == [1] + [0];
    assert Zeros(2) == [0, 0] && Zeros(1) == [0];
    assert PadLeft(Digits(15), 6) == Zeros(2) + Digits(15);
    assert PadLeft(Digits(2), 3) == Zeros(1) + Digits(2);
  }

  lemma DigitsOf15()
    ensures Digits(15) == [1, 1, 1, 1]
  {
    assert Digits(1) == [1];
    assert Digits(3) == Digits(1) + [1];
    assert Digits(7) == Digits(3) + [1];
    assert Digits(15) == Digits(7) + [1];
  }

  /** Bound 100 and value -78: the sign bit 0, then 78 / 8 = 9 in 4 bits and 78 % 8 = 6 in 3
      bits; it decompresses back to -78. */
  lemma SignedExample()
    ensures Width(100) == 4
    ensures SignedBits(-78, Width(100)) == [0, 1, 0, 0, 1, 1, 1, 0]
    ensures DecompressSigned(Binaries(SignedBits(-78, Width(100)))) == Ok(-78)
  {
    assert 100 / 8 == 12;
    assert Digits(1) == [1];
    assert Digits(3) == Digits(1) + [1];
    assert Digits(6) == Digits(3) + [0];
    assert Digits(12) == Digits(6) + [0];
    SignedOf78();
    SignedRoundTrip(-78, 100);
  }

  lemma SignedOf78()
    ensures SignedBits(-78, 4) == [0, 1, 0, 0, 1, 1, 1, 0]
  {
    assert Abs(-78) == 78 && 78 / 8 == 9 && 78 % 8 == 6;
    DigitsOf9();
    DigitsOf6();
    assert PadLeft(Digits(9), 4) == Digits(9);
    assert PadLeft(Digits(6), 3) == Digits(6);
    assert PackedBits(78, 4) == [1, 0, 0, 1] + [1, 1, 0];
  }

  lemma DigitsOf9()
    ensures Digits(9) == [1, 0, 0, 1]
  {
    assert Digits(1) == [1];
    assert Digits(2) == Digits(1) + [0];
    assert Digits(4) == Digits(2) + [0];
    assert Digits(9) == Digits(4) + [1];
  }

  lemma DigitsOf6()
    ensures Digits(6) == [1, 1, 0]
  {
    assert Digits(1) == [1];
    assert Digits(3) == Digits(1) + [1];
    assert Digits(6) == Digits(3) + [0];
  }
}
