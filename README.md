# comprez in Dafny

This project models the core of **comprez**, a Rust bit-packing codec, and proves properties
of the model. The codec turns integers and byte blobs into short bit strings. It then turns
those bit strings back into values, guided by a schema of field widths.

The modelled parts are:

- **The bit container** (`src/lib.rs`).
  - `Compressed` holds either bits (`Binaries`) or bytes (`Bytes`).
  - `to_bytes` right-pads the bits with zeros to a multiple of 8 and folds each 8-bit chunk
    MSB-first with `to_byte`.
  - `to_binaries` expands each byte to 8 bits with `to_binary`.
  - `combine` concatenates the bit views of two containers.
- **The decode-side splitter** (`src/lib.rs`).
  - `BinaryChunk` is a schema tree: `Single(width)`, `Nested(children)` or `Delimeter`.
  - `chunk_up_v2` consumes a shared bit buffer from the front, one schema node at a time.
  - `delimeter_chunk_v2` reads a self-terminating length prefix and then that many bytes of
    payload.
- **The bounded-integer packer** (`src/comprezable.rs`).
  - A value `v <= bound` is written as `v / 8` in `w` bits, then `v % 8` in 3 bits. Here `w`
    is the bit length of `bound / 8`.
  - Signed values get one sign bit in front: 0 for negative, 1 otherwise.
  - `compress_metalength` writes a length as 7-bit groups. Each group sits behind a flag bit,
    and only the last group's flag is 1.
  - A byte blob is framed as its metalength followed by its LZ4-compressed bytes.
  - The ten per-width impls of the source are copies of two algorithms. Here they are one
    unsigned model over `nat` and one signed model over `int`, each taking the bound as a
    parameter.
- **The legacy fixed-size codec** (`src/unsigned/compress.rs`, `src/unsigned/decompress.rs`).
  - A number is stored as `num / 30` in a k-bit field. After it comes either
    `(num % 30) / 2` in 4 bits (the even-only variants) or a "+15" flag bit and a 4-bit rest.
  - The result is packed into exactly 1 to 4 bytes.

Modules follow the source:

| module | file | models |
|---|---|---|
| `Errors` | errors.dfy | the error variants, plus `Option` and `Result` |
| `Bits` | bits.dfy | bit vectors, binary value, digits, left padding, parsing |
| `Container` | container.dfy | `Compressed`, `to_byte`, `to_binary`, `to_bytes`, `to_binaries`, `combine`, `from_*` |
| `Schema` | schema.dfy | `BinaryChunk`, `flatten`, `chunk_up_v2`, `delimeter_chunk_v2` (a `Buffer` class stands for the shared `&mut Vec<u8>`) |
| `Comprezable` | comprezable.dfy | `encode`, `find_mult_8_bit_size`, `compress_num`, the unsigned and signed impls |
| `Blob` | blob.dfy | `compress_metalength` and the `Vec<u8>` impl |
| `UnsignedCompress` | unsigned_compress.dfy | the seven `Unsigned::compress_*`, `encode`, `encode_64` |
| `UnsignedDecompress` | unsigned_decompress.dfy | the seven `Unsigned::decompress_*` and their helpers |

Conventions:

- **Bits** are `seq<byte>`, with `byte` the integers 0 to 255. The source also keeps bits in
  `Vec<u8>`, so a malformed sign or flag value can be represented.
- **Parsing a field.** The source writes a field out as a string and parses it with
  `from_str_radix(_, 2)`. Here this is `Bits.ParseBits`, which fails on an empty field or on any
  element above 1.
- **Panics become errors:**
  - a short buffer, or a `drain`, `remove` or `split_at` past the end: `WrongBytesLength`;
  - a failed `unwrap` of a parse: `BinariesToIntErr`;
  - a sign or flag other than 0 or 1: `MalformedFlag`. This variant exists only in the model.
  - a failed LZ4 decompression: `PayloadErr`. This variant also exists only in the model.
  - The `unwrap()` of a missing bound is the exception: the model takes the bound itself (see
    "Left out").
- **Imperative source code** is modelled as methods with loops, each proved against a
  specification function. The properties are then proved about those functions. This covers
  the buffer-draining loops, `to_bytes` and `to_binary`, `encode`, `find_mult_8_bit_size`,
  `compress_metalength` and the `compress_*` builders.
- **Where the code and its description disagree, the model follows the code.**
  `compress_metalength(0)` is two groups, `00000000 10000000`, because `encode(0, 2, 8)` already
  yields eight zeros and 8 bits split into a 7-bit and a 1-bit group (`Blob.MetalengthZero`).

## Model

| member | source | states |
|---|---|---|
| Bits.ParseBits | src/comprezable.rs:61-69 | a field parses iff it is non-empty and all 0/1; its value is the MSB-first binary value |
| Bits.DigitsValue | src/comprezable.rs:628-642 | the digits of n are binary and read back as n |
| Bits.DigitsFit | src/comprezable.rs:645-654 | n < 2^k iff n has at most k binary digits |
| Bits.BitLengthMonotone | src/comprezable.rs:645-654 | a larger number never has fewer binary digits |
| Bits.DigitsOfValue | src/lib.rs:198-211 | the digits of a 0/1 field's value are that field without its leading zeros |
| Bits.PaddedDigits | src/comprezable.rs:638-640 | for n < 2^k, n padded to k bits is k binary digits whose value is n: no digit is lost |
| Bits.ValueAppend | src/lib.rs:191-196 | the value of a + b is value(a) · 2^len(b) + value(b) |
| Container.ToByteValue | src/lib.rs:191-196 | on at most 8 binary digits, the shift-and-xor fold is their MSB-first value |
| Container.ByteBitsProps | src/lib.rs:201-207 | a byte's padded numeral is 8 binary digits with the byte's value, and `to_byte` inverts it |
| Container.ToBinary | src/lib.rs:198-211 | the loop yields the 8-bit MSB-first expansion of each byte, in order |
| Container.FormatByte | src/lib.rs:202-206 | the pad loop yields the byte's numeral left-padded with zeros to 8 digits |
| Container.UnpackAt | src/lib.rs:198-211 | bits 8i .. 8i+8 of the expansion are byte i's 8 bits |
| Container.UnpackAppend | src/lib.rs:198-211 | expanding a concatenation is the concatenation of the expansions |
| Container.ChunkBytes | src/lib.rs:90-95 | the chunk loop yields one `to_byte` per 8-bit chunk |
| Container.PackChunksAt | src/lib.rs:90-95 | byte i of the packed view is `to_byte` of bits 8i .. 8i+8 |
| Container.ToBytes | src/lib.rs:83-101 | `to_bytes` is the zero-padded MSB-first packing for bits, and the identity for bytes |
| Container.Pack | src/lib.rs:83-101 | packing n bits gives ceil(n/8) bytes |
| Container.ToBinaries | src/lib.rs:105-114 | `to_binaries` is the expansion for bytes and the identity for bits |
| Container.PackUnpack | src/lib.rs:83-114 | expanding bytes and packing them again gives the bytes back |
| Container.UnpackPack | src/lib.rs:83-114 | packing bits and expanding them again gives the bits followed by their zero padding |
| Container.UnpackPackChunks | src/lib.rs:83-114 | for a whole number of bytes of binary digits, packing then expanding is the identity |
| Container.BytesBitsBytes | src/lib.rs:83-114 | `to_bytes(Binaries(to_binaries(Bytes b))) == b` |
| Container.Combine | src/lib.rs:123-129 | `combine` gives bits: the first stream's bits, then the second's |
| Container.CombineBytes | src/lib.rs:123-129 | combining two byte containers and packing gives the two byte strings concatenated |
| Container.FromBytes | src/lib.rs:132-134 | the container's byte view is the bytes, and its bit view their expansion |
| Container.FromBinaries | src/lib.rs:137-139 | the container's bit view is the bits, and its byte view their packing |
| Schema.ChunkOneSuffix | src/lib.rs:166-187 | what reading one node leaves is a suffix of the buffer: bits are removed only from the front |
| Schema.ChunkUpSuffix | src/lib.rs:166-187 | the same for a sequence of nodes |
| Schema.ReadGroupsSuffix | src/lib.rs:218-235 | the group loop removes bits only from the front |
| Schema.DelimeterSuffix | src/lib.rs:215-262 | `delimeter_chunk_v2` removes bits only from the front, on success and on error |
| Schema.ChunkOneFixed | src/lib.rs:166-187 | a Delimeter-free node reads Ok iff the buffer holds the sum of its widths; it then takes exactly that prefix and leaves the rest |
| Schema.ChunkUpFixed | src/lib.rs:166-187 | a Delimeter-free schema reads Ok iff the buffer holds sum(flatten); then there is one piece per node, the pieces concatenate to the consumed prefix, and the rest is left |
| Schema.ChunkUpErrPersists | src/lib.rs:166-187 | after the first failing node, the nodes that follow do not change the outcome |
| Schema.ChunkUpCount | src/lib.rs:166-187 | a successful read yields one piece per schema node, for every schema, Delimeter nodes included |
| Schema.ChunkUpCompose | src/lib.rs:166-187 | when each node reads its own field off any stream, the schema reads the concatenated fields back as those pieces, in order, and leaves the rest |
| Schema.ChunkUpV2 | src/lib.rs:166-187 | the method leaves the buffer and returns the result exactly as `ChunkUp` of the old buffer says |
| Schema.DelimeterChunkV2 | src/lib.rs:215-262 | the method leaves the buffer and returns the result exactly as `DelimeterRead` of the old buffer says |
| Schema.FlattenAllAppend | src/lib.rs:151-163 | the `fold` of `flatten` over a schema distributes over concatenation: the widths of a + b are those of a followed by those of b (what `flatten` means for reading is stated by Schema.ChunkUpFixed) |
| Schema.FlattenExample | src/lib.rs:296-298 | the test schema flattens to the widths 1, 3, 5, 2 |
| Schema.ChunkUpExample | src/lib.rs:295-305 | on 1..16 the test schema reads [1], [2,3,4], [5..9] and [10,11], and leaves 12..16 |
| Comprezable.Encode | src/comprezable.rs:628-642 | `encode` yields binary digits, MSB first, left-padded to bit_size and never truncated; their value is the number |
| Comprezable.FindMult8BitSize | src/comprezable.rs:645-654 | the loop returns the bit length of num/8: the least w with num/8 < 2^w |
| Comprezable.WidthLeast | src/comprezable.rs:645-654 | bound/8 fits k bits iff the width is at most k |
| Comprezable.WidthMonotone | src/comprezable.rs:645-654 | the width is non-decreasing in the bound |
| Comprezable.WidthFits | src/comprezable.rs:41-43 | for every v <= bound, v/8 fits the bound's width |
| Comprezable.CompressNum | src/comprezable.rs:588-597 | `compress_num` writes v/8 in w bits, then v%8 in 3 bits |
| Comprezable.PackedBitsNumeral | src/comprezable.rs:588-597 | when v/8 fits w bits, the field is w+3 binary digits whose value is v |
| Comprezable.CompressWithoutBound | src/comprezable.rs:31-33 | `compress` without a bound returns DataNoSupported, for the integers and (src/comprezable.rs:561-563) for `Vec<u8>` |
| Comprezable.MaxBinariesUnsigned | src/comprezable.rs:48-52 | `max_binaries` is Single(width + 3), the length of the bound's own field |
| Comprezable.UnsignedFieldWidth | src/comprezable.rs:36-52 | every admissible value's field is exactly as long as `max_binaries` says |
| Comprezable.CompressToBinariesUnsigned | src/comprezable.rs:36-46 | Overflow iff value > bound, checked before any bits; otherwise the packed field, of the schema's length, which decodes back for bound >= 8 |
| Comprezable.DecompressUnsigned | src/comprezable.rs:54-72 | Ok iff more than 3 bits, all 0/1; the value is 8·(all but the last 3) + (the last 3); fewer than 3 bits is WrongBytesLength, other failures BinariesToIntErr |
| Comprezable.JoinFields | src/comprezable.rs:56-71 | the two fields are 0/1 iff the whole field is, and 8·q + r is the whole field's value |
| Comprezable.UnsignedRoundTrip | src/comprezable.rs:36-72 | for bound >= 8 and v <= bound, decompressing the compressed field gives v |
| Comprezable.SmallBoundFails | src/comprezable.rs:54-72 | for bound < 8 every admissible value fails to decompress with BinariesToIntErr |
| Comprezable.DecompressUnsignedFixed | src/comprezable.rs:54-72 | with an empty quotient field read as 0: Ok iff at least 3 bits, all 0/1, with the field's value |
| Comprezable.UnsignedRoundTripFixed | src/comprezable.rs:36-72 | with the corrected decoder, every v <= bound round-trips |
| Comprezable.MaxBinariesSigned | src/comprezable.rs:272-275 | the signed `max_binaries` is Single(width + 4), the length of the bound's signed field |
| Comprezable.CompressToBinariesSigned | src/comprezable.rs:252-270 | Overflow iff abs(v) > bound; otherwise the sign bit (0 iff v < 0) before the packed abs(v), of the schema's length, which decodes back for bound >= 8 |
| Comprezable.SignedFieldFacts | src/comprezable.rs:252-306 | an admissible signed field has the schema's length and decodes back to v |
| Comprezable.DecompressSigned | src/comprezable.rs:277-306 | Ok iff more than 4 bits, a 0/1 sign and a 0/1 rest; negated iff the sign is 0; MalformedFlag iff the rest parses but the sign is not 0/1 |
| Comprezable.DecompressSignedFixed | src/comprezable.rs:277-306 | with an empty quotient read as 0: Ok iff at least 4 bits with a 0/1 sign and rest |
| Comprezable.SignedRoundTrip | src/comprezable.rs:252-306 | for bound >= 8 and abs(v) <= bound, decompressing the compressed field gives v |
| Comprezable.SignedSmallBoundFails | src/comprezable.rs:277-306 | for bound < 8 every admissible signed value fails with BinariesToIntErr |
| Comprezable.SignedRoundTripFixed | src/comprezable.rs:252-306 | with the corrected decoder, every abs(v) <= bound round-trips |
| Comprezable.UnsignedChunkRoundTrip | src/comprezable.rs:36-52 | the splitter, given `max_binaries`, takes exactly the compressed field off the front of any stream |
| Comprezable.SignedChunkRoundTrip | src/comprezable.rs:252-275 | the same for the signed field |
| Comprezable.UnsignedExample | src/comprezable.rs:36-72 | bound 478 has width 6, 122 packs as `001111` `010`, and that field decompresses to 122 |
| Comprezable.SignedExample | src/comprezable.rs:252-306 | bound 100 has width 4, -78 packs as sign 0, `1001`, `110`, and that field decompresses to -78 |
| Blob.AlignedShape | src/comprezable.rs:601-609 | the padded binary of n is a non-empty multiple of 8 bits with value n |
| Blob.Groups | src/comprezable.rs:612-619 | a non-empty input gives at least one group, the last 8 bits long |
| Blob.GroupsFramed | src/comprezable.rs:612-622 | flattening the groups with the last flag set is the framed form |
| Blob.FramedLength | src/comprezable.rs:612-622 | k bits frame into 8·ceil(k/7) bits |
| Blob.FramedFlags | src/comprezable.rs:612-620 | every 8-bit group of the framed form starts with its flag; the last flag is 1 and all others 0 |
| Blob.AlignedLength | src/comprezable.rs:601-609 | the padded binary of n is 8k bits, k being the bytes its digits need, at least one |
| Blob.MetalengthShape | src/comprezable.rs:599-624 | `compress_metalength(n)` is 8·ceil(8k/7) bits, and only the flag of its last group is 1 |
| Blob.ReadFramed | src/lib.rs:218-235 | the group loop reads a framed field back as its 7-bit payloads, with the last group's zero padding, and stops after it |
| Blob.FullChunksDropsPad | src/lib.rs:238-242 | dropping the trailing partial chunk removes the group padding |
| Blob.MetalengthRoundTrip | src/lib.rs:215-262 | `delimeter_chunk_v2(compress_metalength(m) + payload + rest)` returns the 8m-bit payload and leaves rest |
| Blob.CompressMetalength | src/comprezable.rs:599-624 | the method builds the metalength field |
| Blob.ChunkGroups | src/comprezable.rs:612-619 | the chunk loop yields the groups of the spec function |
| Blob.PadGroup | src/comprezable.rs:613-618 | a group is a 0 flag, the chunk, then zeros up to 8 bits |
| Blob.CompressToBinaries | src/comprezable.rs:565-573 | the result is bits: the metalength of the compressed byte count, then those bytes' bits; the Delimeter schema reads exactly the payload back off any stream |
| Blob.Decompress | src/comprezable.rs:579-582 | Ok iff LZ4 accepts the byte view, with LZ4's output; PayloadErr otherwise |
| Blob.BlobChunk | src/comprezable.rs:565-577 | the Delimeter schema reads a framed blob's payload back and leaves the rest of the stream |
| Blob.BlobRoundTrip | src/comprezable.rs:565-582 | for a lossless LZ4, splitting a framed blob and decompressing it gives the data back |
| Blob.RecordRoundTrip | src/lib.rs:166-187 | a record of an unsigned field, a signed field and a blob, read with the schema the three `max_binaries` give, yields the two fields and the compressed bytes in order, and leaves the rest |
| Blob.MetalengthZero | src/comprezable.rs:599-624 | the metalength of 0 is two groups, `00000000 10000000` |
| Blob.MetalengthSixteen | src/lib.rs:273-274 | the metalength of 16 is the bits of the bytes [8, 128], the test's prefix |
| Blob.AlignedSixteen | src/comprezable.rs:601-609 | 16 padded to 8 bits is `00010000` |
| Blob.VecTestDelimeter | src/lib.rs:271-279 | the test's buffer [8, 128] + 16 bytes reads back exactly the bits of the 16 bytes, whose packing is the bytes |
| UnsignedCompress.Encode | src/unsigned/compress.rs:210-228 | the do-while `encode` yields the numeral of n (a single 0 for 0), left-padded to bit_size |
| UnsignedCompress.Encode64 | src/unsigned/compress.rs:230-242 | `encode_64` yields the digits of n (none for 0), left-padded to bit_size |
| UnsignedCompress.EncodeWith | src/unsigned/compress.rs:210-242 | for a field of at least one bit, both encoders write the same field |
| UnsignedCompress.CompressEven | src/unsigned/compress.rs:31-54 | NotEven for odd input, before Overflow above the limit; otherwise the packed even layout of k + 4 bits |
| UnsignedCompress.CompressFlagged | src/unsigned/compress.rs:56-86 | Overflow above the limit; otherwise the packed flagged layout of k + 5 bits |
| UnsignedCompress.EvenFields | src/unsigned/compress.rs:18-24 | with a quotient that fits, the even layout is k + 4 binary digits: the quotient, then half the remainder |
| UnsignedCompress.FlaggedFields | src/unsigned/compress.rs:61-77 | with a quotient that fits, the flagged layout is k + 5 binary digits: the quotient, the flag, the rest |
| UnsignedCompress.EvenRoundTrip | src/unsigned/compress.rs:18-27 | the even layout of an even n whose quotient fits decodes back to n |
| UnsignedCompress.FlaggedRoundTrip | src/unsigned/compress.rs:61-85 | the flagged layout of any n whose quotient fits decodes back to n |
| UnsignedCompress.Bounds | src/unsigned/compress.rs:14-175 | each maximum is the largest admissible value whose quotient still fits its 4, 11, 12, 19, 20, 27 or 28 bits |
| UnsignedCompress.Compress478Even | src/unsigned/compress.rs:10-28 | NotEven for odd input, Overflow for even input above 478, otherwise exactly the one byte `to_byte` of n/30 in 4 bits then (n%30)/2 in 4 bits, which decompresses back |
| UnsignedCompress.Compress122878Even | src/unsigned/compress.rs:31-54 | NotEven for odd, Overflow above 122 878, otherwise exactly the packed even layout (n/30 in 12 bits, (n%30)/2 in 4), 2 bytes that decompress back |
| UnsignedCompress.Compress61439 | src/unsigned/compress.rs:56-86 | Overflow above 61 439, otherwise exactly the packed flagged layout (n/30 in 11 bits, the flag, the rest in 4), 2 bytes that decompress back |
| UnsignedCompress.Compress31457278Even | src/unsigned/compress.rs:89-112 | NotEven for odd, Overflow above 31 457 278, otherwise exactly the packed even layout (n/30 in 20 bits), 3 bytes that decompress back |
| UnsignedCompress.Compress15728639 | src/unsigned/compress.rs:114-143 | Overflow above 15 728 639, otherwise exactly the packed flagged layout (n/30 in 19 bits), 3 bytes that decompress back |
| UnsignedCompress.Compress8053063678Even | src/unsigned/compress.rs:146-170 | NotEven for odd, Overflow above 8 053 063 678, otherwise exactly the packed even layout (n/30 in 28 bits), 4 bytes that decompress back |
| UnsignedCompress.Compress4026531839 | src/unsigned/compress.rs:172-201 | Overflow above 4 026 531 839, otherwise exactly the packed flagged layout (n/30 in 27 bits), 4 bytes that decompress back |
| UnsignedCompress.OneByteEven | src/unsigned/compress.rs:18-27 | for even n <= 479 the two 4-bit fields are the even layout, 8 binary digits whose single byte is their packing and decompresses back to n |
| UnsignedCompress.EvenDecode | src/unsigned/decompress.rs:7-27 | packed even fields reading num/30 and (num%30)/2 decode back to an even num |
| UnsignedCompress.FlaggedDecode | src/unsigned/decompress.rs:29-38 | packed flagged fields reading num/30, the flag and the rest decode back to num |
| UnsignedCompress.Main1234 | src/main.rs:8-15 | 1234 is stored by `compress_61_439` as the bytes 5, 36, which `decompress_61_439` reads back as 1234 |
| Comprezable.EncodeFacts | src/comprezable.rs:628-642 | the padded digits are never truncated, are binary, and have the number's value |
| UnsignedDecompress.ToBinaries | src/unsigned/decompress.rs:98-111 | never fails; yields each byte's 8 bits, MSB first |
| UnsignedDecompress.DecompressNumEven | src/unsigned/decompress.rs:113-125 | Ok iff both fields are non-empty and 0/1; the value is 30·q + 2·r; a split past the end is WrongBytesLength |
| UnsignedDecompress.DecompressNum | src/unsigned/decompress.rs:127-144 | Ok iff quotient and rest are non-empty and all bits 0/1; the value is 30·q + 15·flag + rest |
| UnsignedDecompress.DecodeEvenTotal | src/unsigned/decompress.rs:7-27 | an input of the right length always decodes |
| UnsignedDecompress.DecodeFlaggedTotal | src/unsigned/decompress.rs:29-38 | the same for the flagged variants |
| UnsignedDecompress.Decompress478Even | src/unsigned/decompress.rs:7-16 | WrongBytesLength unless exactly 1 byte; otherwise Ok, split at 4 |
| UnsignedDecompress.Decompress122878Even | src/unsigned/decompress.rs:18-27 | WrongBytesLength unless exactly 2 bytes; otherwise Ok, split at 12 |
| UnsignedDecompress.Decompress61439 | src/unsigned/decompress.rs:29-38 | WrongBytesLength unless exactly 2 bytes; otherwise Ok, split at 11 with a flag |
| UnsignedDecompress.Decompress31457278Even | src/unsigned/decompress.rs:41-50 | WrongBytesLength unless exactly 3 bytes; otherwise Ok, split at 20 |
| UnsignedDecompress.Decompress15728639 | src/unsigned/decompress.rs:52-62 | WrongBytesLength unless exactly 3 bytes; otherwise Ok, split at 19 with a flag |
| UnsignedDecompress.Decompress8053063678Even | src/unsigned/decompress.rs:64-73 | WrongBytesLength unless exactly 4 bytes; otherwise Ok, split at 28 |
| UnsignedDecompress.Decompress4026531839 | src/unsigned/decompress.rs:75-84 | WrongBytesLength unless exactly 4 bytes; otherwise Ok, split at 27 with a flag |

## Left out

- Machine integer widths are not modelled: values are `nat` and `int`. So the model has no
  `u8` overflow in `mult_8 * 8` of `decompress`, no `i8::abs(i8::MIN)` panic, no `u128` cap on
  the metalength parse (src/lib.rs:245), no `u32` / `u64` overflow in the legacy codec, and no
  `usize` limit on lengths.
- Each `_u64` twin and the `u32` original in src/unsigned/decompress.rs differ only in integer
  width. Each pair is one function here.
- The radix parameter of `encode`, `compress_num` and `find_mult_8_bit_size` is fixed at 2, the
  only value the source passes. The legacy `encode` therefore never returns `EncodeErr`.
- UnsignedCompress.Encode: `from_digit(n % 2, 2)` always succeeds, so its `EncodeErr` branch is
  not reachable and not modelled.
- `from_str_radix` applied to a field rendered with `to_string` accepts elements such as 10 or
  11, whose decimal renderings are binary digits. `Bits.ParseBits` rejects every element above 1,
  so fields holding such values decode differently in the model.
- LZ4 (`compress_prepend_size`, `decompress_size_prepended`) is a parameter: a pair of
  functions. Blob.BlobRoundTrip assumes its round trip as a precondition. Its internals are not
  part of this model.
- Comprezable.CompressToBinariesUnsigned, Comprezable.MaxBinariesUnsigned,
  Comprezable.CompressToBinariesSigned, Comprezable.MaxBinariesSigned: the bound is an
  `Option` in the source and is `unwrap()`ed (src/comprezable.rs:37, 50, 253, 273 and the same
  lines of every per-width copy). The model takes the unwrapped bound, so the panic on `None`
  is not modelled.
- Error message strings and `CompressError::create` / `DecompressError::create` are left out;
  only the variants are kept. src/error.rs is not part of this model.
- Schema.DelimeterChunkV2, Schema.ChunkUpV2: on an error the model leaves the buffer state that
  the specification functions say. This is what the source's drains and removes leave, but
  `chunk_up_v2` never returns `Err` (src/lib.rs:185): the source panics instead, following the
  panics-become-errors convention above, on a `Single` drain past the end of the buffer
  (src/lib.rs:170), on a nested error under `unwrap` (src/lib.rs:175), and on any
  `delimeter_chunk_v2` error under `unwrap` (src/lib.rs:179), which covers a bad flag and an
  unparseable length.
- `Compressed::extend_to_res` (src/lib.rs:117-120) is a trivial wrapper that appends
  `to_binaries` to a caller's vector. It is left out because it states nothing beyond
  `to_binaries`.
- The `comprez_macro` derive, the struct assembly and tests/compress_test.rs are not part of
  this model.
- benches/compress_benchmark.rs is not part of this model.
- The commented-out file-reading tests of src/comprezable.rs are not part of this model.
- src/main.rs prints. Its round trip of 1234 is stated by UnsignedCompress.Main1234; the
  prints are not modelled.
- Blob.MaxBinaries: the blob's `max_binaries` is `Delimeter` (src/comprezable.rs:575-577). Its
  meaning is stated through Blob.CompressToBinaries and Blob.BlobChunk, not by a contract of its
  own.

## Findings

| source | as written | input that shows it | evidently intended | confidence | as-written member | corrected member |
|---|---|---|---|---|---|---|
| src/comprezable.rs:54-72 | unsigned `decompress` parses the quotient field with `from_str_radix`, and that field is empty when bound < 8 because the bound's width is then 0 | a `u8` with `max_num = 5` and value 3: `compress_to_binaries` gives `011`, the quotient field is `""`, and decompression returns BinariesToIntErr | an empty quotient field reads as 0, so every admissible value round-trips | not executed | Comprezable.DecompressUnsigned, shown by Comprezable.SmallBoundFails | Comprezable.DecompressUnsignedFixed, proved by Comprezable.UnsignedRoundTripFixed |
| src/comprezable.rs:277-306 | the signed `decompress` has the same empty quotient field when bound < 8 | an `i8` with `max_num = 5` and value -3: the field is `0011`, and decompression returns BinariesToIntErr | the sign, then an empty quotient read as 0 | not executed | Comprezable.DecompressSigned, shown by Comprezable.SignedSmallBoundFails | Comprezable.DecompressSignedFixed, proved by Comprezable.SignedRoundTripFixed |
