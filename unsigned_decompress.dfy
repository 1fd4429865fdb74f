/** Decompression of the fixed-size unsigned codec (src/unsigned/decompress.rs).

    Each variant takes an exact number of bytes, turns them into bits, and splits the bits at
    a fixed position: the quotient num / 30 comes first, then either (num % 30) / 2 in 4 bits
    (the even variants) or a flag bit that stands for 15 followed by the rest of num % 30 in
    4 bits. The u32 and u64 helper pairs (`decompress_num_even` / `decompress_num_even_u64`,
    `decompress_num` / `decompress_num_u64`) differ only in the integer type, and machine
    widths are not modelled, so each pair is one function here. */
module UnsignedDecompress {
  import opened Errors
  import opened Bits
  import opened Container

  /** `to_binaries`: never fails; the bits are those of `Compressed::to_binaries` on bytes
      (its loop pads with '0' while the numeral is not 8 digits long, which for a byte's
      numeral of at most 8 digits is the same as while it is shorter). */
  method ToBinaries(bytes: seq<byte>) returns (r: Result<seq<byte>, DecompressError>)
    ensures r == Ok(Unpack(bytes))
  {
    var binaries := ToBinary(bytes);
    r := Ok(binaries);
  }

  /** `decompress_num_even`: 30 times the quotient field plus twice the remainder field.
      Splitting past the end and a field that does not parse (the empty field included) are
      panics in the source and errors here. */
  function DecompressNumEven(bits: seq<byte>, splitAt: nat): (r: Result<nat, DecompressError>)
    ensures r.Ok? <==> 0 < splitAt < |bits| && IsBits(bits)
    ensures r.Ok? ==> r.value == 30 * Value(bits[..splitAt]) + 2 * Value(bits[splitAt..])
    ensures splitAt > |bits| ==> r == Err(WrongBytesLength)
  {
    if splitAt > |bits| then Err(WrongBytesLength)
    else
      match ParseBits(bits[..splitAt])
      case None => Err(BinariesToIntErr)
      case Some(mult25) =>
        match ParseBits(bits[splitAt..])
        case None => Err(BinariesToIntErr)
        case Some(remainder) =>
          SplitBits(bits, splitAt);
          Ok(mult25 * 30 + remainder * 2)
  }

  /** A field split in two is binary digits iff both halves are. */
  lemma SplitBits(bits: seq<byte>, splitAt: nat)
    requires splitAt <= |bits|
    ensures IsBits(bits) <==> IsBits(bits[..splitAt]) && IsBits(bits[splitAt..])
  {
    assert bits == bits[..splitAt] + bits[splitAt..];
    IsBitsAppend(bits[..splitAt], bits[splitAt..]);
  }

  /** `decompress_num`: 30 times the quotient field, plus the remainder field, plus 15 when
      the flag bit after the quotient is 1. The flag is examined after both fields parse; a
      flag other than 0 or 1 is a panic in the source (MalformedFlag here). */
  function DecompressNum(bits: seq<byte>, splitAt: nat): (r: Result<nat, DecompressError>)
    ensures r.Ok? <==> 0 < splitAt && splitAt + 1 < |bits| && IsBits(bits)
    ensures r.Ok? ==>
      r.value == 30 * Value(bits[..splitAt]) + 15 * bits[splitAt] as int + Value(bits[splitAt + 1..])
    ensures splitAt >= |bits| ==> r == Err(WrongBytesLength)
  {
    if splitAt >= |bits| then Err(WrongBytesLength)
    else
      var remainder15 := bits[splitAt..];
      var minus15 := remainder15[..1];
      var remainderBits := remainder15[1..];
      match ParseBits(bits[..splitAt])
      case None => Err(BinariesToIntErr)
      case Some(mult25) =>
        match ParseBits(remainderBits)
        case None => Err(BinariesToIntErr)
        case Some(remainder) =>
          FlagBits(bits, splitAt);
          if minus15[0] == 1 then Ok(mult25 * 30 + remainder + 15)
          else if minus15[0] == 0 then Ok(mult25 * 30 + remainder)
          else Err(MalformedFlag)
  }

  /** A field split into quotient, flag and remainder is binary digits iff all three are. */
  lemma FlagBits(bits: seq<byte>, splitAt: nat)
    requires splitAt < |bits|
    ensures bits[splitAt..][1..] == bits[splitAt + 1..]
    ensures IsBits(bits) <==>
      IsBits(bits[..splitAt]) && bits[splitAt] <= 1 && IsBits(bits[splitAt + 1..])
  {
    assert bits == bits[..splitAt] + ([bits[splitAt]] + bits[splitAt + 1..]);
    IsBitsAppend(bits[..splitAt], [bits[splitAt]] + bits[splitAt + 1..]);
    IsBitsAppend([bits[splitAt]], bits[splitAt + 1..]);
  }

  /** What an even variant returns for a byte vector: exactly `size` bytes are required. */
  function DecodeEven(bytes: seq<byte>, size: nat, splitAt: nat): Result<nat, DecompressError> {
    if |bytes| != size then Err(WrongBytesLength) else DecompressNumEven(Unpack(bytes), splitAt)
  }

  /** What a flagged variant returns for a byte vector. */
  function DecodeFlagged(bytes: seq<byte>, size: nat, splitAt: nat): Result<nat, DecompressError> {
    if |bytes| != size then Err(WrongBytesLength) else DecompressNum(Unpack(bytes), splitAt)
  }

  /** A byte vector of the right length always decodes: its bits are binary digits and both
      fields are non-empty. */
  lemma DecodeEvenTotal(bytes: seq<byte>, size: nat, splitAt: nat)
    requires |bytes| == size && 0 < splitAt < 8 * size
    ensures DecodeEven(bytes, size, splitAt).Ok?
  {
    UnpackIsBits(bytes);
  }

  lemma DecodeFlaggedTotal(bytes: seq<byte>, size: nat, splitAt: nat)
    requires |bytes| == size && 0 < splitAt && splitAt + 1 < 8 * size
    ensures DecodeFlagged(bytes, size, splitAt).Ok?
  {
    UnpackIsBits(bytes);
  }

  /** `decompress_478_even`. */
  method Decompress478Even(bytes: seq<byte>) returns (r: Result<nat, DecompressError>)
    ensures r == DecodeEven(bytes, 1, 4)
    ensures r.Ok? <==> |bytes| == 1
    ensures r.Err? ==> r.error == WrongBytesLength
  {
    if |bytes| != 1 {
      return Err(WrongBytesLength);
    }
    var binaries := ToBinaries(bytes);
    r := DecompressNumEven(binaries.value, 4);
    DecodeEvenTotal(bytes, 1, 4);
  }

  /** `decompress_122_878_even`. */
  method Decompress122878Even(bytes: seq<byte>) returns (r: Result<nat, DecompressError>)
    ensures r == DecodeEven(bytes, 2, 12)
    ensures r.Ok? <==> |bytes| == 2
    ensures r.Err? ==> r.error == WrongBytesLength
  {
    if |bytes| != 2 {
      return Err(WrongBytesLength);
    }
    var binaries := ToBinaries(bytes);
    r := DecompressNumEven(binaries.value, 12);
    DecodeEvenTotal(bytes, 2, 12);
  }

  /** `decompress_61_439`. */
  method Decompress61439(bytes: seq<byte>) returns (r: Result<nat, DecompressError>)
    ensures r == DecodeFlagged(bytes, 2, 11)
    ensures r.Ok? <==> |bytes| == 2
    ensures r.Err? ==> r.error == WrongBytesLength
  {
    if |bytes| != 2 {
      return Err(WrongBytesLength);
    }
    var binaries := ToBinaries(bytes);
    r := DecompressNum(binaries.value, 11);
    DecodeFlaggedTotal(bytes, 2, 11);
  }

  /** `decompress_31_457_278_even`. */
  method Decompress31457278Even(bytes: seq<byte>) returns (r: Result<nat, DecompressError>)
    ensures r == DecodeEven(bytes, 3, 20)
    ensures r.Ok? <==> |bytes| == 3
    ensures r.Err? ==> r.error == WrongBytesLength
  {
    if |bytes| != 3 {
      return Err(WrongBytesLength);
    }
    var binaries := ToBinaries(bytes);
    r := DecompressNumEven(binaries.value, 20);
    DecodeEvenTotal(bytes, 3, 20);
  }

  /** `decompress_15_728_639`. */
  method Decompress15728639(bytes: seq<byte>) returns (r: Result<nat, DecompressError>)
    ensures r == DecodeFlagged(bytes, 3, 19)
    ensures r.Ok? <==> |bytes| == 3
    ensures r.Err? ==> r.error == WrongBytesLength
  {
    if |bytes| != 3 {
      return Err(WrongBytesLength);
    }
    var binaries := ToBinaries(bytes);
    r := DecompressNum(binaries.value, 19);
    DecodeFlaggedTotal(bytes, 3, 19);
  }

  /** `decompress_8_053_063_678_even`. */
  method Decompress8053063678Even(bytes: seq<byte>) returns (r: Result<nat, DecompressError>)
    ensures r == DecodeEven(bytes, 4, 28)
    ensures r.Ok? <==> |bytes| == 4
    ensures r.Err? ==> r.error == WrongBytesLength
  {
    if |bytes| != 4 {
      return Err(WrongBytesLength);
    }
    var binaries := ToBinaries(bytes);
    r := DecompressNumEven(binaries.value, 28);
    DecodeEvenTotal(bytes, 4, 28);
  }

  /** `decompress_4_026_531_839`. */
  method Decompress4026531839(bytes: seq<byte>) returns (r: Result<nat, DecompressError>)
    ensures r == DecodeFlagged(bytes, 4, 27)
    ensures r.Ok? <==> |bytes| == 4
    ensures r.Err? ==> r.error == WrongBytesLength
  {
    if |bytes| != 4 {
      return Err(WrongBytesLength);
    }
    var binaries := ToBinaries(bytes);
    r := DecompressNum(binaries.value, 27);
    DecodeFlaggedTotal(bytes, 4, 27);
  }
}
