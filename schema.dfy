/** The decompression schema of src/lib.rs: a `BinaryChunk` tree says how many bits each
    field of a compressed record takes, and `chunk_up_v2` cuts a bit buffer into those fields,
    consuming them from the front of the buffer. */
module Schema {
  import opened Errors
  import opened Bits

  /** `BinaryChunk`: a fixed-width field, a nested record, or a self-delimiting byte payload. */
  datatype BinaryChunk = Single(size: nat) | Nested(chunks: seq<BinaryChunk>) | Delimeter

  /** The outcome of reading from the front of a buffer: the value read (or the error) and what
      is left of the buffer afterwards. */
  datatype Read<T> = Read(out: Result<T, DecompressError>, left: seq<byte>)

  /** The number of nodes of a schema tree (a termination measure). */
  function Size(c: BinaryChunk): (r: nat)
    ensures r >= 1
    decreases c, 1
  {
    match c
    case Single(_) => 1
    case Nested(cs) => 1 + SizeAll(cs)
    case Delimeter => 1
  }

  function SizeAll(cs: seq<BinaryChunk>): nat
    decreases cs, 0
  {
    if cs == [] then 0 else SizeAll(cs[..|cs| - 1]) + Size(cs[|cs| - 1])
  }

  lemma {:induction false} SizeAt(cs: seq<BinaryChunk>, i: nat)
    requires i < |cs|
    ensures Size(cs[i]) <= SizeAll(cs)
  {
    if i < |cs| - 1 {
      SizeAt(cs[..|cs| - 1], i);
    }
  }

  /** The concatenation of pieces, first piece first. */
  function Concat(ps: seq<seq<byte>>): seq<byte> {
    if ps == [] then [] else Concat(ps[..|ps| - 1]) + ps[|ps| - 1]
  }

  function Sum(ns: seq<nat>): nat {
    if ns == [] then 0 else Sum(ns[..|ns| - 1]) + ns[|ns| - 1]
  }

  /** `BinaryChunk::flatten`: the field widths in order, 0 standing for a delimited payload. */
  function Flatten(c: BinaryChunk): seq<nat>
    decreases c, 1
  {
    match c
    case Single(s) => [s]
    case Nested(cs) => FlattenAll(cs)
    case Delimeter => [0]
  }

  /** The `fold` of `flatten` over a sequence of chunks. */
  function FlattenAll(cs: seq<BinaryChunk>): seq<nat>
    decreases cs, 0
  {
    if cs == [] then [] else FlattenAll(cs[..|cs| - 1]) + Flatten(cs[|cs| - 1])
  }

  /** The fold of `flatten` distributes over a concatenation of schemas: the widths of
      `a + b` are the widths of `a` followed by those of `b`. */
  lemma {:induction false} FlattenAllAppend(a: seq<BinaryChunk>, b: seq<BinaryChunk>)
    ensures FlattenAll(a + b) == FlattenAll(a) + FlattenAll(b)
    decreases |b|
  {
    if b == [] {
      assert a + b == a;
    } else {
      var n := |b| - 1;
      assert (a + b)[..|a + b| - 1] == a + b[..n];
      assert (a + b)[|a + b| - 1] == b[n];
      FlattenAllAppend(a, b[..n]);
    }
  }

  /** A schema made of fixed-width fields only. */
  predicate NoDelimeter(c: BinaryChunk)
    decreases c, 1
  {
    match c
    case Single(_) => true
    case Nested(cs) => NoDelimeterAll(cs)
    case Delimeter => false
  }

  predicate NoDelimeterAll(cs: seq<BinaryChunk>)
    decreases cs, 0
  {
    cs == [] || (NoDelimeterAll(cs[..|cs| - 1]) && NoDelimeter(cs[|cs| - 1]))
  }

  /** The metalength loop of `delimeter_chunk_v2`: each 8-bit group is a flag followed by 7 bits
      of the metalength; flag 0 means more groups follow, flag 1 ends the metalength. `metas`
      is what has been collected so far. */
  function ReadGroups(bits: seq<byte>, metas: seq<byte>): Read<seq<byte>>
    decreases |bits|
  {
    if |bits| < 8 then Read(Err(WrongBytesLength), bits)
    else if bits[0] == 0 then ReadGroups(bits[8..], metas + bits[1..8])
    else if bits[0] == 1 then Read(Ok(metas + bits[1..8]), bits[8..])
    else Read(Err(MalformedFlag), bits[1..])
  }

  /** The collected metalength bits cut to whole 8-bit chunks; a trailing partial chunk is
      dropped. */
  function FullChunks(metas: seq<byte>): seq<byte> {
    metas[..|metas| / 8 * 8]
  }

  /** `delimeter_chunk_v2`: read the metalength m, then take the next m bytes (8m bits). */
  function DelimeterRead(bits: seq<byte>): Read<seq<byte>> {
    var g := ReadGroups(bits, []);
    if g.out.Err? then g
    else
      match ParseBits(FullChunks(g.out.value))
      case None => Read(Err(BinariesToIntErr), g.left)
      case Some(m) =>
        if |g.left| < 8 * m then Read(Err(WrongBytesLength), g.left)
        else Read(Ok(g.left[..8 * m]), g.left[8 * m..])
  }

  /** What `chunk_up_v2` reads for one schema node. */
  function ChunkOne(bits: seq<byte>, c: BinaryChunk): Read<seq<byte>>
    decreases Size(c), 0
  {
    match c
    case Single(s) =>
      if |bits| < s then Read(Err(WrongBytesLength), bits) else Read(Ok(bits[..s]), bits[s..])
    case Nested(cs) =>
      var r := ChunkUp(bits, cs);
      if r.out.Err? then Read(Err(r.out.error), r.left) else Read(Ok(Concat(r.out.value)), r.left)
    case Delimeter =>
      DelimeterRead(bits)
  }

  /** `chunk_up_v2`: one piece per schema node, in order, each read where the previous one
      stopped; the first failing node ends the reading. */
  function ChunkUp(bits: seq<byte>, cs: seq<BinaryChunk>): Read<seq<seq<byte>>>
    decreases SizeAll(cs), 1
  {
    if cs == [] then Read(Ok([]), bits)
    else
      var pre := ChunkUp(bits, cs[..|cs| - 1]);
      if pre.out.Err? then pre
      else
        var one := ChunkOne(pre.left, cs[|cs| - 1]);
        if one.out.Err? then Read(Err(one.out.error), one.left)
        else Read(Ok(pre.out.value + [one.out.value]), one.left)
  }

  /** What is left of a buffer is always a suffix of it: reading only ever removes bits from
      the front. */
  predicate Suffix(left: seq<byte>, bits: seq<byte>) {
    |left| <= |bits| && bits[|bits| - |left|..] == left
  }

  lemma SuffixTrans(a: seq<byte>, b: seq<byte>, c: seq<byte>)
    requires Suffix(a, b) && Suffix(b, c)
    ensures Suffix(a, c)
  {
    assert c[|c| - |a|..] == c[|c| - |b|..][|b| - |a|..];
  }

  lemma {:induction false} ReadGroupsSuffix(bits: seq<byte>, metas: seq<byte>)
    ensures Suffix(ReadGroups(bits, metas).left, bits)
    decreases |bits|
  {
    if |bits| >= 8 && bits[0] == 0 {
      ReadGroupsSuffix(bits[8..], metas);
      ReadGroupsSuffix(bits[8..], metas + bits[1..8]);
      SuffixTrans(ReadGroups(bits[8..], metas + bits[1..8]).left, bits[8..], bits);
    }
  }

  lemma DelimeterSuffix(bits: seq<byte>)
    ensures Suffix(DelimeterRead(bits).left, bits)
  {
    var g := ReadGroups(bits, []);
    ReadGroupsSuffix(bits, []);
    if g.out.Ok? {
      match ParseBits(FullChunks(g.out.value))
      case None =>
      case Some(m) =>
        if |g.left| >= 8 * m {
          SuffixTrans(g.left[8 * m..], g.left, bits);
        }
    }
  }

  lemma {:induction false} ChunkOneSuffix(bits: seq<byte>, c: BinaryChunk)
    ensures Suffix(ChunkOne(bits, c).left, bits)
    decreases Size(c), 0
  {
    match c
    case Single(s) =>
    case Nested(cs) => ChunkUpSuffix(bits, cs);
    case Delimeter => DelimeterSuffix(bits);
  }

  /** Whatever happens, `chunk_up_v2` leaves a suffix of the buffer it was given. */
  lemma {:induction false} ChunkUpSuffix(bits: seq<byte>, cs: seq<BinaryChunk>)
    ensures Suffix(ChunkUp(bits, cs).left, bits)
    decreases SizeAll(cs), 1
  {
    if cs != [] {
      var pre := ChunkUp(bits, cs[..|cs| - 1]);
      ChunkUpSuffix(bits, cs[..|cs| - 1]);
      if pre.out.Ok? {
        ChunkOneSuffix(pre.left, cs[|cs| - 1]);
        SuffixTrans(ChunkOne(pre.left, cs[|cs| - 1]).left, pre.left, bits);
      }
    }
  }

  lemma {:induction false} ConcatAppend(ps: seq<seq<byte>>, p: seq<byte>)
    ensures Concat(ps + [p]) == Concat(ps) + p
  {
    assert (ps + [p])[..|ps|] == ps;
  }

  lemma {:induction false} NoDelimeterPrefix(cs: seq<BinaryChunk>)
    requires cs != [] && NoDelimeterAll(cs)
    ensures NoDelimeterAll(cs[..|cs| - 1]) && NoDelimeter(cs[|cs| - 1])
  { }

  /** On a fixed-width schema the bits read by one node are exactly the sum of its flattened
      widths: reading succeeds iff that many bits are there, and the piece is their prefix. */
  lemma {:induction false} ChunkOneFixed(bits: seq<byte>, c: BinaryChunk)
    requires NoDelimeter(c)
    ensures ChunkOne(bits, c).out.Ok? <==> Sum(Flatten(c)) <= |bits|
    ensures ChunkOne(bits, c).out.Ok? ==>
      ChunkOne(bits, c).out.value == bits[..Sum(Flatten(c))] &&
      ChunkOne(bits, c).left == bits[Sum(Flatten(c))..]
    decreases Size(c), 0
  {
    match c
    case Single(s) =>
      assert Flatten(c) == [s];
      assert Sum([s]) == Sum([]) + s;
    case Nested(cs) =>
      ChunkUpFixed(bits, cs);
  }

  /** `chunk_up_v2` on a fixed-width schema: it succeeds iff the buffer holds the sum of all
      flattened widths; then it yields one piece per node, the pieces joined are exactly the
      first bits of the buffer, and the remainder stays in the buffer. */
  lemma {:induction false} ChunkUpFixed(bits: seq<byte>, cs: seq<BinaryChunk>)
    requires NoDelimeterAll(cs)
    ensures ChunkUp(bits, cs).out.Ok? <==> Sum(FlattenAll(cs)) <= |bits|
    ensures ChunkUp(bits, cs).out.Ok? ==>
      |ChunkUp(bits, cs).out.value| == |cs| &&
      Concat(ChunkUp(bits, cs).out.value) == bits[..Sum(FlattenAll(cs))] &&
      ChunkUp(bits, cs).left == bits[Sum(FlattenAll(cs))..]
    decreases SizeAll(cs), 1
  {
    if cs != [] {
      var init, last := cs[..|cs| - 1], cs[|cs| - 1];
      NoDelimeterPrefix(cs);
      ChunkUpFixed(bits, init);
      SumAppend(FlattenAll(init), Flatten(last));
      var a := Sum(FlattenAll(init));
      var b := Sum(Flatten(last));
      assert Sum(FlattenAll(cs)) == a + b;
      var pre := ChunkUp(bits, init);
      if pre.out.Ok? {
        ChunkOneFixed(pre.left, last);
        assert |pre.left| == |bits| - a;
        var one := ChunkOne(pre.left, last);
        if one.out.Ok? {
          ConcatAppend(pre.out.value, one.out.value);
          TakeTwice(bits, a, b);
        }
      }
    }
  }

  /** Taking a bits and then b more is taking a + b. */
  lemma TakeTwice(bits: seq<byte>, a: nat, b: nat)
    requires a + b <= |bits|
    ensures bits[..a] + bits[a..][..b] == bits[..a + b] && bits[a..][b..] == bits[a + b..]
  {
    assert bits[..a] + bits[a..][..b] == bits[..a + b];
  }

  lemma {:induction false} SumAppend(a: seq<nat>, b: seq<nat>)
    ensures Sum(a + b) == Sum(a) + Sum(b)
    decreases |b|
  {
    if b == [] {
      assert a + b == a;
    } else {
      assert (a + b)[..|a + b| - 1] == a + b[..|b| - 1];
      SumAppend(a, b[..|b| - 1]);
    }
  }

  /** Once a prefix of the schema has failed, the whole reading fails the same way. */
  lemma {:induction false} ChunkUpErrPersists(bits: seq<byte>, cs: seq<BinaryChunk>, j: nat)
    requires j <= |cs| && ChunkUp(bits, cs[..j]).out.Err?
    ensures ChunkUp(bits, cs) == ChunkUp(bits, cs[..j])
    decreases |cs| - j
  {
    if j < |cs| {
      assert cs[..|cs| - 1][..j] == cs[..j];
      ChunkUpErrPersists(bits, cs[..|cs| - 1], j);
      assert cs[..|cs|] == cs;
    } else {
      assert cs[..j] == cs;
    }
  }

  /** Reading the first i+1 nodes is reading the first i, then node i where they stopped. */
  lemma ChunkUpStep(bits: seq<byte>, cs: seq<BinaryChunk>, i: nat)
    requires i < |cs| && ChunkUp(bits, cs[..i]).out.Ok?
    ensures var pre := ChunkUp(bits, cs[..i]);
      var one := ChunkOne(pre.left, cs[i]);
      ChunkUp(bits, cs[..i + 1]) ==
        if one.out.Err? then Read(Err(one.out.error), one.left)
        else Read(Ok(pre.out.value + [one.out.value]), one.left)
  {
    var ci := cs[..i + 1];
    assert ci[..|ci| - 1] == cs[..i] && ci[|ci| - 1] == cs[i];
  }

  /** A successful read yields exactly one piece per schema node, Delimeter nodes included. */
  lemma {:induction false} ChunkUpCount(bits: seq<byte>, cs: seq<BinaryChunk>)
    ensures ChunkUp(bits, cs).out.Ok? ==> |ChunkUp(bits, cs).out.value| == |cs|
    decreases |cs|
  {
    if cs != [] {
      ChunkUpCount(bits, cs[..|cs| - 1]);
    }
  }

  /** Fields written one after another are read back field by field: when every node reads its
      own field off the front of any stream, the schema reads the concatenated fields back as
      the pieces, in order, and leaves whatever follows them. */
  lemma {:induction false} ChunkUpCompose(cs: seq<BinaryChunk>, fs: seq<seq<byte>>, ps: seq<seq<byte>>, rest: seq<byte>)
    requires |fs| == |cs| && |ps| == |cs|
    requires forall i, r :: 0 <= i < |cs| ==> ChunkOne(fs[i] + r, cs[i]) == Read(Ok(ps[i]), r)
    ensures ChunkUp(Concat(fs) + rest, cs) == Read(Ok(ps), rest)
    decreases |cs|
  {
    if cs == [] {
      assert Concat(fs) + rest == rest;
    } else {
      var n := |cs| - 1;
      var tail := fs[n] + rest;
      ConcatLast(fs, rest);
      ComposeInit(cs, fs, ps, tail);
      assert ChunkOne(tail, cs[n]) == Read(Ok(ps[n]), rest);
      ChunkUpNext(Concat(fs) + rest, cs, n, ps[..n], tail);
      assert cs[..n + 1] == cs;
      assert ps[..n] + [ps[n]] == ps;
    }
  }

  /** The concatenated fields followed by a rest split before the last field. */
  lemma {:induction false} ConcatLast(fs: seq<seq<byte>>, rest: seq<byte>)
    requires fs != []
    ensures Concat(fs) + rest == Concat(fs[..|fs| - 1]) + (fs[|fs| - 1] + rest)
  {
    var n := |fs| - 1;
    ConcatAppend(fs[..n], fs[n]);
    assert fs[..n] + [fs[n]] == fs;
  }

  /** The induction step of ChunkUpCompose: the fields but the last read back as their pieces. */
  lemma {:induction false} ComposeInit(cs: seq<BinaryChunk>, fs: seq<seq<byte>>, ps: seq<seq<byte>>, tail: seq<byte>)
    requires |cs| > 0 && |fs| == |cs| && |ps| == |cs|
    requires forall i, r :: 0 <= i < |cs| ==> ChunkOne(fs[i] + r, cs[i]) == Read(Ok(ps[i]), r)
    ensures ChunkUp(Concat(fs[..|cs| - 1]) + tail, cs[..|cs| - 1]) == Read(Ok(ps[..|cs| - 1]), tail)
    decreases |cs|, 0
  {
    var n := |cs| - 1;
    var cs', fs', ps' := cs[..n], fs[..n], ps[..n];
    forall i, r | 0 <= i < |cs'|
      ensures ChunkOne(fs'[i] + r, cs'[i]) == Read(Ok(ps'[i]), r)
    {
      assert cs'[i] == cs[i] && fs'[i] == fs[i] && ps'[i] == ps[i];
    }
    ChunkUpCompose(cs', fs', ps', tail);
  }

  /** The mutable bit buffer (`&mut Vec<u8>`) that decompression reads from. */
  class Buffer {
    var bits: seq<byte>

    constructor(bits: seq<byte>)
      ensures this.bits == bits
    {
      this.bits := bits;
    }
  }

  /** `delimeter_chunk_v2` on the buffer: the value returned and the bits left in the buffer
      are those of `DelimeterRead`. */
  method DelimeterChunkV2(buf: Buffer) returns (r: Result<seq<byte>, DecompressError>)
    modifies buf
    ensures Read(r, buf.bits) == DelimeterRead(old(buf.bits))
  {
    ghost var start := buf.bits;
    var chunkMetas: seq<byte> := [];
    while true
      invariant ReadGroups(buf.bits, chunkMetas) == ReadGroups(start, [])
      decreases |buf.bits|
    {
      if |buf.bits| < 8 {
        return Err(WrongBytesLength);
      }
      ghost var b0 := buf.bits;
      var delimeter := buf.bits[0];
      buf.bits := buf.bits[1..];
      assert buf.bits[..7] == b0[1..8] && buf.bits[7..] == b0[8..];
      if delimeter == 0 {
        chunkMetas := chunkMetas + buf.bits[..7];
        buf.bits := buf.bits[7..];
      } else if delimeter == 1 {
        chunkMetas := chunkMetas + buf.bits[..7];
        buf.bits := buf.bits[7..];
        break;
      } else {
        return Err(MalformedFlag);
      }
    }
    assert ReadGroups(start, []) == Read(Ok(chunkMetas), buf.bits);
    var digits := FullChunks(chunkMetas);
    var parsed := ParseBits(digits);
    if parsed.None? {
      return Err(BinariesToIntErr);
    }
    var meta := parsed.value;
    if |buf.bits| < meta * 8 {
      return Err(WrongBytesLength);
    }
    ghost var mid := buf.bits;
    var resBinaries: seq<byte> := [];
    for n := 0 to meta
      invariant |buf.bits| == |mid| - 8 * n
      invariant resBinaries == mid[..8 * n] && buf.bits == mid[8 * n..]
    {
      if |buf.bits| < 8 {
        return Err(WrongBytesLength);
      }
      assert mid[..8 * n] + buf.bits[..8] == mid[..8 * n + 8];
      resBinaries := resBinaries + buf.bits[..8];
      buf.bits := buf.bits[8..];
    }
    r := Ok(resBinaries);
  }

  /** `BinaryChunk::chunk_up_v2` on the buffer: the pieces returned and the bits left in the
      buffer are those of `ChunkUp`. */
  method ChunkUpV2(buf: Buffer, cs: seq<BinaryChunk>) returns (r: Result<seq<seq<byte>>, DecompressError>)
    modifies buf
    ensures Read(r, buf.bits) == ChunkUp(old(buf.bits), cs)
    decreases SizeAll(cs)
  {
    ghost var start := buf.bits;
    var res: seq<seq<byte>> := [];
    for i := 0 to |cs|
      invariant ChunkUp(start, cs[..i]) == Read(Ok(res), buf.bits)
    {
      assert cs[..i + 1][..i] == cs[..i] && cs[..i + 1][i] == cs[i];
      ghost var before := buf.bits;
      var piece: seq<byte>;
      match cs[i] {
        case Single(s) =>
          if |buf.bits| < s {
            ChunkUpErrPersists(start, cs, i + 1);
            return Err(WrongBytesLength);
          }
          piece := buf.bits[..s];
          buf.bits := buf.bits[s..];
        case Nested(chunks) =>
          SizeAt(cs, i);
          var sub := ChunkUpV2(buf, chunks);
          if sub.Err? {
            ChunkUpErrPersists(start, cs, i + 1);
            return Err(sub.error);
          }
          piece := Concat(sub.value);
        case Delimeter =>
          var d := DelimeterChunkV2(buf);
          if d.Err? {
            ChunkUpErrPersists(start, cs, i + 1);
            return Err(d.error);
          }
          piece := d.value;
      }
      assert ChunkOne(before, cs[i]) == Read(Ok(piece), buf.bits);
      ChunkUpStep(start, cs, i);
      res := res + [piece];
    }
    assert cs[..|cs|] == cs;
    r := Ok(res);
  }

  /** Reading one more field after a successful prefix appends its piece. */
  lemma ChunkUpNext(bits: seq<byte>, cs: seq<BinaryChunk>, i: nat, ps: seq<seq<byte>>, left: seq<byte>)
    requires i < |cs| && ChunkUp(bits, cs[..i]) == Read(Ok(ps), left)
    requires ChunkOne(left, cs[i]).out.Ok?
    ensures ChunkUp(bits, cs[..i + 1]) == Read(Ok(ps + [ChunkOne(left, cs[i]).out.value]), ChunkOne(left, cs[i]).left)
  {
    ChunkUpStep(bits, cs, i);
  }

  /** The schema of the `binary_chunk_v2` test flattens to its widths 1, 3, 5, 2. */
  lemma FlattenExample()
    ensures Flatten(Nested([Single(1), Single(3), Nested([Single(5)]), Single(2)])) == [1, 3, 5, 2]
  {
    var cs := [Single(1), Single(3), Nested([Single(5)]), Single(2)];
    assert cs[..1] == [Single(1)] && cs[..2] == [Single(1), Single(3)];
    assert cs[..3] == [Single(1), Single(3), Nested([Single(5)])];
    assert [Single(5)][..0] == [];
    assert FlattenAll([Single(5)]) == [5];
    assert FlattenAll(cs[..1]) == [1];
    assert FlattenAll(cs[..2]) == [1, 3];
    assert Flatten(Nested([Single(5)])) == [5];
    assert cs[..3][..2] == cs[..2] && cs[..2][..1] == cs[..1] && cs[..1][..0] == [];
    assert FlattenAll(cs[..3]) == [1, 3] + [5];
    assert FlattenAll(cs) == [1, 3, 5] + [2];
  }

  /** The buffer of the `binary_chunk_v2` test: fields of 1, 3, a nested 5 and 2 bits take
      the first 11 elements of 1..16, one piece per field, and leave 12..16. */
  lemma ChunkUpExample()
    ensures ChunkUp([1, 2, 3, 4, 5, 6, 7, 8, 9, 10, 11, 12, 13, 14, 15, 16],
                    [Single(1), Single(3), Nested([Single(5)]), Single(2)])
         == Read(Ok([[1], [2, 3, 4], [5, 6, 7, 8, 9], [10, 11]]), [12, 13, 14, 15, 16])
  {
    var bits: seq<byte> := [1, 2, 3, 4, 5, 6, 7, 8, 9, 10, 11, 12, 13, 14, 15, 16];
    var cs := [Single(1), Single(3), Nested([Single(5)]), Single(2)];
    var p1, p2, p3, p4: seq<byte> := [1], [2, 3, 4], [5, 6, 7, 8, 9], [10, 11];
    ExampleThree(bits, cs);
    var rest := bits[9..];
    assert rest[..2] == p4 && rest[2..] == [12, 13, 14, 15, 16];
    ChunkUpNext(bits, cs, 3, [p1, p2, p3], rest);
    assert [p1, p2, p3] + [p4] == [p1, p2, p3, p4];
    assert cs[..4] == cs;
  }

  /** The first three fields of the test read [1], [2, 3, 4] and [5 .. 9]. */
  lemma ExampleThree(bits: seq<byte>, cs: seq<BinaryChunk>)
    requires bits == [1, 2, 3, 4, 5, 6, 7, 8, 9, 10, 11, 12, 13, 14, 15, 16]
    requires cs == [Single(1), Single(3), Nested([Single(5)]), Single(2)]
    ensures ChunkUp(bits, cs[..3]) == Read(Ok([[1], [2, 3, 4], [5, 6, 7, 8, 9]]), bits[9..])
  {
    var p1, p2, p3: seq<byte> := [1], [2, 3, 4], [5, 6, 7, 8, 9];
    ExamplePrefix(bits, cs);
    var left := bits[4..];
    NestedExample(left);
    assert left[..5] == p3 && left[5..] == bits[9..];
    ChunkUpNext(bits, cs, 2, [p1, p2], left);
    assert [p1, p2] + [p3] == [p1, p2, p3];
  }

  /** The first two fields of the test read 1 and then 2, 3, 4. */
  lemma ExamplePrefix(bits: seq<byte>, cs: seq<BinaryChunk>)
    requires bits == [1, 2, 3, 4, 5, 6, 7, 8, 9, 10, 11, 12, 13, 14, 15, 16]
    requires cs == [Single(1), Single(3), Nested([Single(5)]), Single(2)]
    ensures ChunkUp(bits, cs[..2]) == Read(Ok([[1], [2, 3, 4]]), bits[4..])
  {
    var p1, p2: seq<byte> := [1], [2, 3, 4];
    var none: seq<seq<byte>> := [];
    assert cs[..0] == [];
    assert bits[..1] == p1;
    ChunkUpNext(bits, cs, 0, none, bits);
    assert none + [p1] == [p1];
    var left := bits[1..];
    assert left[..3] == p2 && left[3..] == bits[4..];
    ChunkUpNext(bits, cs, 1, [p1], left);
    assert [p1] + [p2] == [p1, p2];
  }

  /** The nested field of the test reads its 5 bits as one piece. */
  lemma NestedExample(bits: seq<byte>)
    requires bits == [5, 6, 7, 8, 9, 10, 11, 12, 13, 14, 15, 16]
    ensures ChunkOne(bits, Nested([Single(5)])) == Read(Ok(bits[..5]), bits[5..])
  {
    var inner := [Single(5)];
    var none: seq<seq<byte>> := [];
    assert inner[..0] == [] && inner[..1] == inner;
    ChunkUpNext(bits, inner, 0, none, bits);
    assert none + [bits[..5]] == [bits[..5]];
    assert Concat([bits[..5]]) == bits[..5] by {
      assert [bits[..5]][..0] == none;
    }
  }
}
