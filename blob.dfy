/** The `Comprezable` implementation for byte vectors (src/comprezable.rs): the vector is
    compressed by an external LZ4 codec and stored as a metalength (the number of compressed
    bytes, split into 7-bit groups, each behind a continuation flag) followed by the
    compressed bytes. `delimeter_chunk_v2` (src/lib.rs) reads it back. */
module Blob {
  import opened Errors
  import opened Bits
  import opened Container
  import opened Schema
  import Comprezable

  /** The metalength before grouping: at least 8 binary digits of n, then zeros in front up to
      a multiple of 8. */
  function Aligned(n: nat): seq<byte> {
    var e := PadLeft(Digits(n), 8);
    if |e| % 8 != 0 then Zeros(8 - |e| % 8) + e else e
  }

  lemma AlignedShape(n: nat)
    ensures |Aligned(n)| % 8 == 0 && |Aligned(n)| >= 8
    ensures IsBits(Aligned(n)) && Value(Aligned(n)) == n
  {
    var e := PadLeft(Digits(n), 8);
    DigitsValue(n);
    ValuePadLeft(Digits(n), 8);
    PadLeftBits(Digits(n), 8);
    assert |e| >= 8 && IsBits(e) && Value(e) == n;
    if |e| % 8 != 0 {
      var z := Zeros(8 - |e| % 8);
      IsBitsAppend(z, e);
      ValueAppend(z, e);
      ValueZeros(8 - |e| % 8);
      assert Value(z) * Pow2(|e|) == 0;
      assert Aligned(n) == z + e;
      AlignUp(|e|);
    } else {
      assert Aligned(n) == e;
    }
  }

  lemma AlignUp(k: nat)
    requires k % 8 != 0
    ensures (8 - k % 8 + k) % 8 == 0
  {
    var q := k / 8;
    assert k == 8 * q + k % 8;
    assert 8 - k % 8 + k == 8 * (q + 1);
  }

  /** One group for a chunk of at most 7 bits: a 0 in front, zeros pushed after up to 8 bits. */
  function Group(c: seq<byte>): seq<byte>
    requires |c| <= 7
  {
    [0] + c + Zeros(7 - |c|)
  }

  /** `chunks(7)` mapped to groups. */
  function Groups(b: seq<byte>): (r: seq<seq<byte>>)
    ensures |b| > 0 ==> r != [] && |r[|r| - 1]| == 8
    decreases |b|
  {
    if |b| == 0 then []
    else if |b| <= 7 then [Group(b)]
    else [Group(b[..7])] + Groups(b[7..])
  }

  /** The first bit of the last group set to 1. */
  function MarkLast(gs: seq<seq<byte>>): seq<seq<byte>>
    requires gs != [] && |gs[|gs| - 1]| > 0
  {
    gs[..|gs| - 1] + [[1] + gs[|gs| - 1][1..]]
  }

  /** The flagged groups of a non-empty bit field: 7 bits per group behind a flag that is 0
      on every group but the last, the last group's bits padded with zeros after them. */
  function Framed(b: seq<byte>): seq<byte>
    decreases |b|
  {
    if |b| <= 7 then [1] + b + Zeros(7 - |b|) else [0] + b[..7] + Framed(b[7..])
  }

  /** `compress_metalength(n)`. */
  function MetalengthBits(n: nat): seq<byte> {
    Framed(Aligned(n))
  }

  lemma {:induction false} ConcatCons(p: seq<byte>, ps: seq<seq<byte>>)
    ensures Concat([p] + ps) == p + Concat(ps)
    decreases |ps|
  {
    if ps != [] {
      var init := ps[..|ps| - 1];
      assert ([p] + ps)[..|ps|] == [p] + init;
      ConcatCons(p, init);
    } else {
      assert [p] + ps == [] + [p];
    }
  }

  /** Marking the last of the `chunks(7)` groups and flattening gives the flagged groups. */
  lemma {:induction false} GroupsFramed(b: seq<byte>)
    requires |b| > 0
    ensures Concat(MarkLast(Groups(b))) == Framed(b)
    decreases |b|
  {
    if |b| <= 7 {
      var g := Group(b);
      assert Groups(b) == [g];
      assert g[1..] == b + Zeros(7 - |b|);
      assert [g][..0] == [];
      assert [1] + g[1..] == [1] + b + Zeros(7 - |b|);
      assert MarkLast([g]) == [] + [[1] + b + Zeros(7 - |b|)];
      ConcatAppend([], [1] + b + Zeros(7 - |b|));
    } else {
      var g := Group(b[..7]);
      var gs := Groups(b[7..]);
      GroupsFramed(b[7..]);
      assert MarkLast([g] + gs) == [g] + MarkLast(gs);
      ConcatCons(g, MarkLast(gs));
    }
  }

  /** The groups come in flagged bytes: 8 bits per 7-bit group, partial last group included. */
  lemma {:induction false} FramedLength(b: seq<byte>)
    requires |b| > 0
    ensures |Framed(b)| == 8 * ((|b| + 6) / 7)
    decreases |b|
  {
    if |b| > 7 {
      FramedLength(b[7..]);
    }
  }

  /** Every group of the framed form starts with its flag, and only the last flag is 1. */
  lemma {:induction false} FramedFlags(b: seq<byte>)
    requires |b| > 0
    ensures |Framed(b)| >= 8 && |Framed(b)| % 8 == 0
    ensures forall j :: 0 <= j < |Framed(b)| && j % 8 == 0 ==>
      Framed(b)[j] == if j == |Framed(b)| - 8 then 1 else 0
    decreases |b|
  {
    FramedLength(b);
    if |b| > 7 {
      var t := Framed(b[7..]);
      FramedFlags(b[7..]);
      assert Framed(b) == [0] + b[..7] + t;
      forall j | 0 <= j < |Framed(b)| && j % 8 == 0
        ensures Framed(b)[j] == if j == |Framed(b)| - 8 then 1 else 0
      {
        if j > 0 {
          assert Framed(b)[j] == t[j - 8];
        }
      }
    }
  }

  /** The padded binary of n is k bytes long, k being the number of bytes its digits need
      (at least one). */
  lemma AlignedLength(n: nat)
    ensures |Aligned(n)| == 8 * Max(1, (BitLength(n) + 7) / 8)
  {
    var e := PadLeft(Digits(n), 8);
    var l := BitLength(n);
    assert |e| == Max(8, l);
    if l <= 8 {
      assert |e| == 8;
    } else {
      var q, m := l / 8, l % 8;
      assert l == 8 * q + m;
      if m == 0 {
        assert (l + 7) / 8 == q;
      } else {
        assert (l + 7) / 8 == q + 1;
        assert |Aligned(n)| == 8 - m + l;
      }
    }
  }

  /** `compress_metalength(n)` is 8·ceil(8k/7) bits, for the k bytes of the padded binary of n:
      one flagged byte per 7-bit group, each group starting with its flag, the last flag 1 and
      all others 0. */
  lemma MetalengthShape(n: nat)
    ensures var k := Max(1, (BitLength(n) + 7) / 8);
      |MetalengthBits(n)| == 8 * ((8 * k + 6) / 7)
    ensures forall j :: 0 <= j < |MetalengthBits(n)| && j % 8 == 0 ==>
      MetalengthBits(n)[j] == if j == |MetalengthBits(n)| - 8 then 1 else 0
  {
    AlignedShape(n);
    AlignedLength(n);
    FramedLength(Aligned(n));
    FramedFlags(Aligned(n));
  }

  /** The zeros padding the last group: Pad7(k) bits make k + Pad7(k) a multiple of 7. */
  function Pad7(k: nat): (r: nat)
    ensures r < 7
  {
    if k <= 7 then if k == 0 then 0 else 7 - k else Pad7(k - 7)
  }

  /** The metalength loop of `delimeter_chunk_v2` reads the flagged groups back: it collects
      the grouped bits and the zeros padding the last group, and stops right after them. */
  lemma {:induction false} ReadFramed(b: seq<byte>, metas: seq<byte>, rest: seq<byte>)
    requires |b| > 0
    ensures ReadGroups(Framed(b) + rest, metas) == Read(Ok(metas + b + Zeros(Pad7(|b|))), rest)
    decreases |b|
  {
    var bits := Framed(b) + rest;
    if |b| <= 7 {
      assert bits[0] == 1 && bits[1..8] == b + Zeros(7 - |b|) && bits[8..] == rest;
      assert Pad7(|b|) == 7 - |b|;
      assert metas + bits[1..8] == metas + b + Zeros(7 - |b|);
    } else {
      assert bits[0] == 0 && bits[1..8] == b[..7] && bits[8..] == Framed(b[7..]) + rest;
      ReadFramed(b[7..], metas + b[..7], rest);
      assert metas + b[..7] + b[7..] == metas + b;
    }
  }

  /** Cutting to whole 8-bit chunks drops the zeros of a partial last group. */
  lemma FullChunksDropsPad(a: seq<byte>, z: nat)
    requires |a| % 8 == 0 && z < 8
    ensures FullChunks(a + Zeros(z)) == a
  {
    assert (|a| + z) / 8 * 8 == |a|;
  }

  /** `delimeter_chunk_v2` inverts the metalength framing: a metalength m followed by 8m bits
      reads back exactly those 8m bits, whatever follows them. */
  lemma MetalengthRoundTrip(m: nat, payload: seq<byte>, rest: seq<byte>)
    requires |payload| == 8 * m
    ensures DelimeterRead(MetalengthBits(m) + payload + rest) == Read(Ok(payload), rest)
  {
    var a := Aligned(m);
    AlignedShape(m);
    assert MetalengthBits(m) + payload + rest == Framed(a) + (payload + rest);
    ReadFramed(a, [], payload + rest);
    assert [] + a + Zeros(Pad7(|a|)) == a + Zeros(Pad7(|a|));
    FullChunksDropsPad(a, Pad7(|a|));
    assert ParseBits(a) == Some(m);
    assert (payload + rest)[..8 * m] == payload && (payload + rest)[8 * m..] == rest;
  }

  lemma AlignedOf(n: nat, e: seq<byte>)
    requires e == PadLeft(Digits(n), 8)
    ensures Aligned(n) == if |e| % 8 != 0 then Zeros(8 - |e| % 8) + e else e
  { }

  lemma ZerosCons(n: nat, e: seq<byte>)
    ensures [0] + (Zeros(n) + e) == Zeros(n + 1) + e
  {
    assert Zeros(n + 1) == [0] + Zeros(n);
  }

  /** `compress_metalength`. */
  method CompressMetalength(num: nat) returns (res: seq<byte>)
    ensures res == MetalengthBits(num)
  {
    var binaries := Comprezable.Encode(num, 8);
    ghost var e := binaries;
    AlignedOf(num, e);
    var remainders := |binaries| % 8;
    if remainders != 0 {
      for n := 0 to 8 - remainders
        invariant binaries == Zeros(n) + e
      {
        ZerosCons(n, e);
        binaries := [0] + binaries;
      }
    }
    AlignedShape(num);
    var chunked := ChunkGroups(binaries);
    var last := chunked[|chunked| - 1];
    chunked := chunked[..|chunked| - 1] + [[1] + last[1..]];
    GroupsFramed(binaries);
    res := Concat(chunked);
  }

  /** The `chunks(7).map(..)` step of `compress_metalength`. */
  method ChunkGroups(binaries: seq<byte>) returns (chunked: seq<seq<byte>>)
    ensures chunked == Groups(binaries)
  {
    chunked := [];
    var j := 0;
    while j < |binaries|
      invariant 0 <= j <= |binaries|
      invariant chunked + Groups(binaries[j..]) == Groups(binaries)
      decreases |binaries| - j
    {
      var hi := if j + 7 < |binaries| then j + 7 else |binaries|;
      var temp := PadGroup(binaries[j .. hi]);
      GroupsStep(binaries, j, hi);
      chunked := chunked + [temp];
      j := hi;
    }
    assert binaries[|binaries|..] == [];
  }

  /** The closure of that step: a 0 inserted in front, then zeros pushed up to 8 bits. */
  method PadGroup(chunk: seq<byte>) returns (temp: seq<byte>)
    requires |chunk| <= 7
    ensures temp == Group(chunk)
  {
    temp := [0] + chunk;
    while |temp| < 8
      invariant 1 + |chunk| <= |temp| <= 8
      invariant temp == [0] + chunk + Zeros(|temp| - 1 - |chunk|)
    {
      assert Zeros(|temp| - |chunk|) == Zeros(|temp| - 1 - |chunk|) + [0];
      temp := temp + [0];
    }
  }

  lemma GroupsStep(b: seq<byte>, j: nat, hi: nat)
    requires j < |b| && hi == (if j + 7 < |b| then j + 7 else |b|)
    ensures Groups(b[j..]) == [Group(b[j .. hi])] + Groups(b[hi..])
  {
    if j + 7 < |b| {
      assert b[j..][..7] == b[j .. hi] && b[j..][7..] == b[hi..];
    } else {
      assert b[j..] == b[j .. hi] && b[hi..] == [];
    }
  }

  /** The external LZ4 codec (`compress_prepend_size` / `decompress_size_prepended`). */
  datatype Lz4 = Lz4(compress: seq<byte> -> seq<byte>, decompress: seq<byte> -> Option<seq<byte>>)

  /** The codec restores what it compressed. */
  predicate Lossless(lz: Lz4, data: seq<byte>) {
    lz.decompress(lz.compress(data)) == Some(data)
  }

  /** The stored field: the metalength of the compressed bytes, then their bits. */
  function BlobBits(lz: Lz4, data: seq<byte>): seq<byte> {
    MetalengthBits(|lz.compress(data)|) + Unpack(lz.compress(data))
  }

  /** `compress_to_binaries` of `Vec<u8>`: never fails; the bound argument is ignored. */
  method CompressToBinaries(lz: Lz4, data: seq<byte>) returns (r: Result<Compressed, CompressError>)
    ensures r == Ok(Binaries(BlobBits(lz, data)))
    ensures forall rest :: ChunkOne(BitsOf(r.value) + rest, MaxBinaries()) == Read(Ok(Unpack(lz.compress(data))), rest)
  {
    var compressed := Bytes(lz.compress(data));
    var bytes := ToBytes(compressed);
    var compressedLength := |bytes|;
    var compressedMetalength := CompressMetalength(compressedLength);
    r := Ok(Combine(Binaries(compressedMetalength), compressed));
    forall rest {
      BlobChunk(lz, data, rest);
    }
  }

  /** `max_binaries` of `Vec<u8>`: a delimited field. */
  function MaxBinaries(): BinaryChunk {
    Delimeter
  }

  /** `decompress` of `Vec<u8>`: the bytes of the field handed to the LZ4 decompressor; its
      failure (an `unwrap` panic in the source) is PayloadErr. */
  function Decompress(lz: Lz4, c: Compressed): (r: Result<seq<byte>, DecompressError>)
    ensures r.Ok? <==> lz.decompress(BytesOf(c)).Some?
    ensures r.Ok? ==> lz.decompress(BytesOf(c)) == Some(r.value)
    ensures r.Err? ==> r.error == PayloadErr
  {
    match lz.decompress(BytesOf(c))
    case None => Err(PayloadErr)
    case Some(d) => Ok(d)
  }

  /** The delimited schema cuts exactly the compressed bytes' bits off the front of a buffer
      holding a stored blob. */
  lemma BlobChunk(lz: Lz4, data: seq<byte>, rest: seq<byte>)
    ensures ChunkOne(BlobBits(lz, data) + rest, MaxBinaries()) == Read(Ok(Unpack(lz.compress(data))), rest)
  {
    var p := lz.compress(data);
    MetalengthRoundTrip(|p|, Unpack(p), rest);
  }

  /** A byte vector stored in a buffer comes back: the delimited field is cut off, and
      decompressing it returns the vector, provided the codec is lossless on it. */
  lemma BlobRoundTrip(lz: Lz4, data: seq<byte>, rest: seq<byte>)
    requires Lossless(lz, data)
    ensures var r := ChunkOne(BlobBits(lz, data) + rest, MaxBinaries());
      r.out.Ok? && r.left == rest && Decompress(lz, Binaries(r.out.value)) == Ok(data)
  {
    BlobChunk(lz, data, rest);
    PackUnpack(lz.compress(data));
  }

  /** A record of an unsigned field, a signed field and a byte vector, written one after the
      other: the record's schema reads the two integer fields and the blob's compressed bytes
      back, in order, and leaves what follows the record. */
  lemma RecordRoundTrip(lz: Lz4, u: nat, ub: nat, s: int, sb: int, data: seq<byte>, rest: seq<byte>)
    requires u <= ub && Comprezable.Abs(s) <= sb
    ensures var fields := [Comprezable.PackedBits(u, Comprezable.Width(ub)),
                           Comprezable.SignedBits(s, Comprezable.Width(sb)),
                           BlobBits(lz, data)];
      ChunkUp(Concat(fields) + rest,
              [Comprezable.MaxBinariesUnsigned(ub), Comprezable.MaxBinariesSigned(sb), MaxBinaries()])
        == Read(Ok([fields[0], fields[1], Unpack(lz.compress(data))]), rest)
  {
    var fields := [Comprezable.PackedBits(u, Comprezable.Width(ub)),
                   Comprezable.SignedBits(s, Comprezable.Width(sb)),
                   BlobBits(lz, data)];
    var cs := [Comprezable.MaxBinariesUnsigned(ub), Comprezable.MaxBinariesSigned(sb), MaxBinaries()];
    var ps := [fields[0], fields[1], Unpack(lz.compress(data))];
    forall i, r | 0 <= i < |cs|
      ensures ChunkOne(fields[i] + r, cs[i]) == Read(Ok(ps[i]), r)
    {
      if i == 0 {
        Comprezable.UnsignedChunkRoundTrip(u, ub, r);
      } else if i == 1 {
        Comprezable.SignedChunkRoundTrip(s, sb, r);
      } else {
        BlobChunk(lz, data, r);
      }
    }
    ChunkUpCompose(cs, fields, ps, rest);
  }

  /** The metalength of 0 is two groups, 00000000 10000000: the 8 digits need two 7-bit
      groups. */
  lemma MetalengthZero()
    ensures MetalengthBits(0) == [0, 0, 0, 0, 0, 0, 0, 0, 1, 0, 0, 0, 0, 0, 0, 0]
  {
    assert Aligned(0) == Zeros(8);
  }

  /** The metalength of 16 is the two bytes 8, 128 (the vector test of src/lib.rs). */
  lemma MetalengthSixteen()
    ensures MetalengthBits(16) == Unpack([8, 128])
  {
    var a: seq<byte> := [0, 0, 0, 1, 0, 0, 0, 0];
    AlignedSixteen();
    assert Framed(a[7..]) == [1, 0, 0, 0, 0, 0, 0, 0];
    assert Framed(a) == [0, 0, 0, 0, 1, 0, 0, 0] + [1, 0, 0, 0, 0, 0, 0, 0];
    ByteBitsOfPowers();
    var bs: seq<byte> := [8, 128];
    assert Unpack(bs[1..]) == ByteBits(128) + Unpack([]);
    assert Unpack(bs) == ByteBits(8) + Unpack(bs[1..]);
  }

  lemma AlignedSixteen()
    ensures Aligned(16) == [0, 0, 0, 1, 0, 0, 0, 0]
  {
    assert Digits(1) == [1];
    assert Digits(2) == [1, 0];
    assert Digits(4) == [1, 0, 0];
    assert Digits(8) == [1, 0, 0, 0];
    assert Digits(16) == [1, 0, 0, 0, 0];
    assert Zeros(3) == [0, 0, 0];
    var e := PadLeft(Digits(16), 8);
    assert e == Zeros(3) + [1, 0, 0, 0, 0];
    assert |e| % 8 == 0;
  }

  lemma ByteBitsOfPowers()
    ensures ByteBits(8) == [0, 0, 0, 0, 1, 0, 0, 0]
    ensures ByteBits(128) == [1, 0, 0, 0, 0, 0, 0, 0]
  {
    assert Digits(1) == [1];
    assert Digits(2) == [1, 0];
    assert Digits(4) == [1, 0, 0];
    assert Digits(8) == [1, 0, 0, 0];
    assert Digits(16) == [1, 0, 0, 0, 0];
    assert Digits(32) == [1, 0, 0, 0, 0, 0];
    assert Digits(64) == [1, 0, 0, 0, 0, 0, 0];
    assert Digits(128) == [1, 0, 0, 0, 0, 0, 0, 0];
  }

  /** The vector test of src/lib.rs: the bytes 8, 128 followed by sixteen payload bytes read
      back as those sixteen bytes, whatever their values. */
  lemma VecTestDelimeter(payload: seq<byte>)
    requires |payload| == 16
    ensures DelimeterRead(Unpack([8, 128] + payload)) == Read(Ok(Unpack(payload)), [])
    ensures Pack(Unpack(payload)) == payload
  {
    UnpackAppend([8, 128], payload);
    MetalengthSixteen();
    MetalengthRoundTrip(16, Unpack(payload), []);
    assert Unpack([8, 128] + payload) == MetalengthBits(16) + Unpack(payload) + [];
    PackUnpack(payload);
  }
}
