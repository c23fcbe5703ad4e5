/** The two on-disk forms a compressed file can take, as values: the `com.apple.decmpfs`
    attribute and the resource fork, and which of them a file gets. */
module Container {
  import opened Wrappers
  import opened Bytes

  const CHUNK := 0x10000
  const MAX_XATTR := 3802
  const DECMPFS_MAGIC := 0x636d7066
  const MAX_SUPPORTED_SIZE := 0x7FFF_FFFF
  const RAW_MARK: Byte := 0xFF
  const ATTR_HEADER := 16
  const TRAILER := 50

  const ZLIB_XATTR := 3
  const ZLIB_FORK := 4
  const LZVN_XATTR := 7
  const LZVN_FORK := 8
  const LZFSE_XATTR := 11
  const LZFSE_FORK := 12

  // ---------- the compressor, known only by what zlib promises ----------

  /** zlib's `compress2` at a fixed level, and `uncompress` into a buffer of a given size. */
  datatype Codec = Codec(
    compress: seq<Byte> -> Option<seq<Byte>>,
    uncompress: (seq<Byte>, nat) -> Option<seq<Byte>>)

  function CompressBound(n: nat): nat {
    n + n / 0x1000 + n / 0x4000 + n / 0x200_0000 + 13
  }

  /** The size of the buffer every chunk is compressed into. */
  const BOUND := CompressBound(CHUNK)

  /** `c` is a stream for `s`: within the buffer, with the CM nibble of section 2.2 of RFC 1950,
      and inverted by `uncompress` into any buffer that can hold the result. */
  ghost predicate StreamFor(codec: Codec, s: seq<Byte>, c: seq<Byte>) {
    && 1 <= |c| <= BOUND
    && c[0] % 16 == 8
    && (forall room: nat :: |s| <= room ==> codec.uncompress(c, room) == Some(s))
  }

  ghost predicate Conforming(codec: Codec) {
    && (forall s :: |s| <= CHUNK && codec.compress(s).Some? ==> StreamFor(codec, s, codec.compress(s).value))
    && (forall c, room: nat :: codec.uncompress(c, room).Some? ==> |codec.uncompress(c, room).value| <= room)
  }

  /** A codec to show that the assumptions are consistent, and that files get smaller: a run of
      zeros becomes its length, anything else is stored as it is. */
  const ZERO_RUNS := Codec(ShortenRun, RestoreRun)

  function ShortenRun(s: seq<Byte>): Option<seq<Byte>> {
    if |s| > CHUNK then None
    else if s == Zeros(|s|) then Some([0x78, 0] + LE32(|s|))
    else Some([0x78, 1] + s)
  }

  function RestoreRun(c: seq<Byte>, room: nat): Option<seq<Byte>> {
    if |c| < 2 then None
    else if c[1] != 0 then (if |c| - 2 <= room then Some(c[2..]) else None)
    else if |c| == 6 && FromLE32(c[2..]) <= room then Some(Zeros(FromLE32(c[2..])))
    else None
  }

  lemma ConformingCodecExists()
    ensures Conforming(ZERO_RUNS)
    ensures forall s :: |s| <= CHUNK ==> ZERO_RUNS.compress(s).Some?
  {
    hide ShortenRun, RestoreRun, StreamFor;
    forall s: seq<Byte> | |s| <= CHUNK
      ensures ShortenRun(s).Some? && StreamFor(ZERO_RUNS, s, ShortenRun(s).value)
    {
      RunsComeBack(s);
    }
    forall c, room: nat | RestoreRun(c, room).Some?
      ensures |RestoreRun(c, room).value| <= room
    {
      RunsFit(c, room);
    }
  }

  lemma RunsComeBack(s: seq<Byte>)
    requires |s| <= CHUNK
    ensures ShortenRun(s).Some? && StreamFor(ZERO_RUNS, s, ShortenRun(s).value)
  {
    hide LE32, FromLE32, Zeros;
    Read32(|s|);
    assert ([0x78, 0] + LE32(|s|))[2..] == LE32(|s|);
    assert ([0x78, 1] + s)[2..] == s;
    assert BOUND == 65569;
  }

  lemma RunsFit(c: seq<Byte>, room: nat)
    requires RestoreRun(c, room).Some?
    ensures |RestoreRun(c, room).value| <= room
  {
    hide FromLE32;
  }

  // ---------- chunks and blocks ----------

  function Min(a: int, b: int): int {
    if a < b then a else b
  }

  function NumChunks(size: nat): nat {
    (size + CHUNK - 1) / CHUNK
  }

  function Chunk(data: seq<Byte>, k: nat): (c: seq<Byte>)
    requires k < NumChunks(|data|)
    ensures 0 < |c| == Min(|data| - CHUNK * k, CHUNK)
  {
    data[CHUNK * k..Min(CHUNK * (k + 1), |data|)]
  }

  lemma IsChunk(data: seq<Byte>, k: nat)
    requires k < NumChunks(|data|)
    ensures Chunk(data, k) == data[CHUNK * k..CHUNK * k + Min(|data| - CHUNK * k, CHUNK)]
  {
  }

  lemma ChunkExtends(data: seq<Byte>, k: nat)
    requires k < NumChunks(|data|)
    ensures data[..Min(CHUNK * k, |data|)] + Chunk(data, k) == data[..Min(CHUNK * (k + 1), |data|)]
  {
  }

  /** The block stored for one chunk: its stream, or the chunk itself behind a mark when the
      stream is the longer of the two. A full chunk may only be stored so on request. */
  function Block(codec: Codec, chunk: seq<Byte>, allowLarge: bool): Option<seq<Byte>> {
    match codec.compress(chunk)
    case None => None
    case Some(c) =>
      if |c| <= |chunk| then Some(c)
      else if !allowLarge && |chunk| == CHUNK then None
      else Some([RAW_MARK] + chunk)
  }

  /** The blocks of the first `k` chunks. */
  function Blocks(codec: Codec, data: seq<Byte>, allowLarge: bool, k: nat): (r: Option<seq<seq<Byte>>>)
    requires k <= NumChunks(|data|)
    ensures r.Some? ==> |r.value| == k
  {
    if k == 0 then Some([])
    else
      match Blocks(codec, data, allowLarge, k - 1)
      case None => None
      case Some(bs) =>
        match Block(codec, Chunk(data, k - 1), allowLarge)
        case None => None
        case Some(b) => Some(bs + [b])
  }

  lemma {:induction false} BlocksStayFailed(codec: Codec, data: seq<Byte>, allowLarge: bool, k: nat, n: nat)
    requires k <= n <= NumChunks(|data|)
    requires Blocks(codec, data, allowLarge, k).None?
    ensures Blocks(codec, data, allowLarge, n).None?
    decreases n
  {
    if k < n {
      BlocksStayFailed(codec, data, allowLarge, k, n - 1);
    }
  }

  lemma {:induction false} BlockIs(codec: Codec, data: seq<Byte>, allowLarge: bool, n: nat, j: nat)
    requires j < n <= NumChunks(|data|)
    requires Blocks(codec, data, allowLarge, n).Some?
    ensures Block(codec, Chunk(data, j), allowLarge) == Some(Blocks(codec, data, allowLarge, n).value[j])
    decreases n
  {
    if j < n - 1 {
      BlockIs(codec, data, allowLarge, n - 1, j);
    }
  }

  /** The blocks one after the other. */
  function Packed(bs: seq<seq<Byte>>): seq<Byte> {
    if bs == [] then [] else Packed(bs[..|bs| - 1]) + bs[|bs| - 1]
  }

  lemma PackedSnoc(bs: seq<seq<Byte>>, b: seq<Byte>)
    ensures Packed(bs + [b]) == Packed(bs) + b
  {
    assert (bs + [b])[..|bs|] == bs;
  }

  lemma {:induction false} PackedAt(bs: seq<seq<Byte>>, j: nat)
    requires j < |bs|
    ensures |Packed(bs[..j])| + |bs[j]| == |Packed(bs[..j + 1])| <= |Packed(bs)|
    ensures Packed(bs)[|Packed(bs[..j])|..|Packed(bs[..j + 1])|] == bs[j]
  {
    var init := bs[..|bs| - 1];
    assert bs[..j + 1][..j] == bs[..j];
    if j < |init| {
      PackedAt(init, j);
      assert init[..j] == bs[..j] && init[..j + 1] == bs[..j + 1];
    } else {
      assert bs[..j + 1] == bs;
    }
  }

  /** No block exceeds its chunk by more than the mark. */
  lemma {:induction false} PackedBound(codec: Codec, data: seq<Byte>, allowLarge: bool, k: nat)
    requires k <= NumChunks(|data|)
    requires Blocks(codec, data, allowLarge, k).Some?
    ensures |Packed(Blocks(codec, data, allowLarge, k).value)| <= Min(CHUNK * k, |data|) + k
  {
    if k > 0 {
      PackedBound(codec, data, allowLarge, k - 1);
      var bs := Blocks(codec, data, allowLarge, k - 1).value;
      PackedSnoc(bs, Block(codec, Chunk(data, k - 1), allowLarge).value);
    }
  }

  // ---------- the resource fork ----------

  /** Offset of block `j` from the start of the block table. */
  function BlockOffset(bs: seq<seq<Byte>>, n: nat, j: nat): nat
    requires j <= |bs|
  {
    4 + 8 * n + |Packed(bs[..j])|
  }

  /** Offset and size of every block. */
  function Table(bs: seq<seq<Byte>>, n: nat): (t: seq<Byte>)
    ensures |t| == 8 * |bs|
  {
    if bs == [] then []
    else
      var last := |bs| - 1;
      Table(bs[..last], n) + LE32(BlockOffset(bs, n, last)) + LE32(|bs[last]|)
  }

  lemma TableUnfolds(bs: seq<seq<Byte>>, n: nat)
    requires |bs| > 0
    ensures var last := |bs| - 1;
      Table(bs, n) == Table(bs[..last], n) + LE32(BlockOffset(bs, n, last)) + LE32(|bs[last]|)
  {
    hide LE32, BlockOffset;
  }

  lemma TableSnoc(bs: seq<seq<Byte>>, n: nat, b: seq<Byte>)
    ensures Table(bs + [b], n) == Table(bs, n) + (LE32(4 + 8 * n + |Packed(bs)|) + LE32(|b|))
  {
    hide Table, LE32, Packed;
    assert BlockOffset(bs + [b], n, |bs|) == 4 + 8 * n + |Packed((bs + [b])[..|bs|])|;
    TableUnfolds(bs + [b], n);
    assert (bs + [b])[..|bs|] == bs && (bs + [b])[|bs|] == b;
  }

  lemma {:induction false} TableAt(bs: seq<seq<Byte>>, n: nat, j: nat)
    requires j < |bs|
    ensures Table(bs, n)[8 * j..8 * j + 4] == LE32(BlockOffset(bs, n, j))
    ensures Table(bs, n)[8 * j + 4..8 * j + 8] == LE32(|bs[j]|)
  {
    hide LE32, Packed;
    var last := |bs| - 1;
    var init := bs[..last];
    var offset, size := LE32(BlockOffset(bs, n, last)), LE32(|bs[last]|);
    ForkSlices(Table(init, n), offset, size, []);
    assert Table(bs, n) == Table(init, n) + offset + size + [];
    if j < last {
      TableAt(init, n, j);
      assert init[..j] == bs[..j];
      PrefixSlice(Table(init, n), Table(bs, n), 8 * j, 8 * j + 4);
      PrefixSlice(Table(init, n), Table(bs, n), 8 * j + 4, 8 * j + 8);
    }
  }

  lemma PrefixSlice(p: seq<Byte>, s: seq<Byte>, a: nat, b: nat)
    requires p <= s && a <= b <= |p|
    ensures s[a..b] == p[a..b]
  {
  }

  function MapOffset(bs: seq<seq<Byte>>): nat {
    0x108 + 8 * |bs| + |Packed(bs)|
  }

  /** The resource map that closes the fork. */
  function Trailer(): (t: seq<Byte>)
    ensures |t| == TRAILER
  {
    Zeros(24) + BE16(0x1C) + BE16(0x32) + BE16(0) + BE32(DECMPFS_MAGIC) + BE32(0xA) + LE64(0xFFFF0100) + LE32(0)
  }

  /** Everything before the block table's entries. */
  function ForkHead(mapAt: nat, n: nat): (h: seq<Byte>)
    requires 0x104 <= mapAt
    ensures |h| == 0x108
  {
    BE32(0x100) + BE32(mapAt) + BE32(mapAt - 0x100) + BE32(0x32) + Zeros(0xF0) + BE32(mapAt - 0x104) + LE32(n)
  }

  function Fork(bs: seq<seq<Byte>>): (f: seq<Byte>)
    ensures |f| == MapOffset(bs) + TRAILER
  {
    ForkHead(MapOffset(bs), |bs|) + Table(bs, |bs|) + Packed(bs) + Trailer()
  }

  // What a reader of the fork sees, by position alone.

  function Field(f: seq<Byte>, pos: nat): (v: nat)
    requires pos + 4 <= |f|
  {
    FromBE32(f[pos..pos + 4])
  }

  function LittleField(f: seq<Byte>, pos: nat): (v: nat)
    requires pos + 4 <= |f|
  {
    FromLE32(f[pos..pos + 4])
  }

  function EntryOffset(f: seq<Byte>, j: nat): nat
    requires 0x108 + 8 * j + 8 <= |f|
  {
    LittleField(f, 0x108 + 8 * j)
  }

  function EntrySize(f: seq<Byte>, j: nat): nat
    requires 0x108 + 8 * j + 8 <= |f|
  {
    LittleField(f, 0x108 + 8 * j + 4)
  }

  lemma ForkHeadFields(mapAt: nat, n: nat)
    requires 0x104 <= mapAt < 0x1_0000_0000 && n < 0x1_0000_0000
    ensures var h := ForkHead(mapAt, n);
      && Field(h, 0) == 0x100 && Field(h, 4) == mapAt && Field(h, 8) == mapAt - 0x100 && Field(h, 12) == 0x32
      && h[16..0x100] == Zeros(0xF0)
      && Field(h, 0x100) == mapAt - 0x104 && LittleField(h, 0x104) == n
  {
    hide LE32, BE32, FromLE32, FromBE32;
    var h := ForkHead(mapAt, n);
    Read32(0x100); Read32(mapAt); Read32(mapAt - 0x100); Read32(0x32); Read32(mapAt - 0x104); Read32(n);
    assert h[0..4] == BE32(0x100);
    assert h[4..8] == BE32(mapAt);
    assert h[8..12] == BE32(mapAt - 0x100);
    assert h[12..16] == BE32(0x32);
    assert h[0x100..0x104] == BE32(mapAt - 0x104);
    assert h[0x104..0x108] == LE32(n);
  }

  /** The fork is laid out as "Resource File Format" (Inside Macintosh: More Macintosh Toolbox)
      asks: data and map offsets and lengths agree with each other and with the fork's size, and
      the data's own length word covers everything up to the map. */
  lemma ForkHeader(bs: seq<seq<Byte>>)
    requires |Fork(bs)| < 0x1_0000_0000
    ensures var f := Fork(bs);
      && Field(f, 0) == 0x100
      && Field(f, 0) + Field(f, 8) == Field(f, 4)
      && Field(f, 4) + Field(f, 12) == |f| && Field(f, 12) == TRAILER
      && Field(f, 0x100) + 4 == Field(f, 8)
      && LittleField(f, 0x104) == |bs|
      && f[Field(f, 4)..] == Trailer()
  {
    hide ForkHead, Trailer, Table, Packed, FromLE32, FromBE32;
    var f, mapAt := Fork(bs), MapOffset(bs);
    var h := ForkHead(mapAt, |bs|);
    ForkHeadFields(mapAt, |bs|);
    assert f[..0x108] == h;
    FieldOfPrefix(f, h, 0); FieldOfPrefix(f, h, 4); FieldOfPrefix(f, h, 8); FieldOfPrefix(f, h, 12);
    FieldOfPrefix(f, h, 0x100); FieldOfPrefix(f, h, 0x104);
  }

  lemma FieldOfPrefix(f: seq<Byte>, h: seq<Byte>, pos: nat)
    requires pos + 4 <= |h| && h <= f
    ensures Field(f, pos) == Field(h, pos) && LittleField(f, pos) == LittleField(h, pos)
  {
    assert f[pos..pos + 4] == h[pos..pos + 4];
  }

  /** Entry `j` of the block table leads to block `j`, wherever the fork is read from. */
  lemma ForkEntry(bs: seq<seq<Byte>>, j: nat)
    requires |Fork(bs)| < 0x1_0000_0000 && j < |bs|
    ensures var f := Fork(bs); var at := 0x104 + EntryOffset(f, j);
      && EntryOffset(f, j) == BlockOffset(bs, |bs|, j)
      && EntrySize(f, j) == |bs[j]|
      && at + EntrySize(f, j) <= |f| - TRAILER
      && f[at..at + EntrySize(f, j)] == bs[j]
  {
    ForkEntryReads(bs, j);
    ForkBlockBytes(bs, j);
    hide Fork, BlockOffset, EntryOffset, EntrySize;
  }

  lemma ForkEntryReads(bs: seq<seq<Byte>>, j: nat)
    requires |Fork(bs)| < 0x1_0000_0000 && j < |bs|
    ensures 0x108 + 8 * j + 8 <= |Fork(bs)|
    ensures EntryOffset(Fork(bs), j) == BlockOffset(bs, |bs|, j) && EntrySize(Fork(bs), j) == |bs[j]|
  {
    hide Fork, Table, Packed, BlockOffset, LE32, EntryOffset, EntrySize;
    ForkBounds(bs, j);
    ForkEntryBytes(bs, j);
    EntryReads(Fork(bs), j, BlockOffset(bs, |bs|, j), |bs[j]|);
  }

  lemma EntryReads(f: seq<Byte>, j: nat, offset: nat, size: nat)
    requires 0x108 + 8 * j + 8 <= |f| && offset < 0x1_0000_0000 && size < 0x1_0000_0000
    requires f[0x108 + 8 * j..0x108 + 8 * j + 4] == LE32(offset)
    requires f[0x108 + 8 * j + 4..0x108 + 8 * j + 8] == LE32(size)
    ensures EntryOffset(f, j) == offset && EntrySize(f, j) == size
  {
    hide LE32, FromLE32;
    Read32(offset);
    Read32(size);
  }

  lemma ForkBounds(bs: seq<seq<Byte>>, j: nat)
    requires j < |bs|
    ensures BlockOffset(bs, |bs|, j) + |bs[j]| <= |Fork(bs)|
  {
    PackedAt(bs, j);
  }

  lemma ForkEntryBytes(bs: seq<seq<Byte>>, j: nat)
    requires j < |bs|
    ensures Fork(bs)[0x108 + 8 * j..0x108 + 8 * j + 4] == LE32(BlockOffset(bs, |bs|, j))
    ensures Fork(bs)[0x108 + 8 * j + 4..0x108 + 8 * j + 8] == LE32(|bs[j]|)
  {
    hide ForkHead, Trailer, Table, Packed, LE32;
    var n := |bs|;
    ForkSlices(ForkHead(MapOffset(bs), n), Table(bs, n), Packed(bs), Trailer());
    TableAt(bs, n, j);
    SliceOfSlice(Fork(bs), 0x108, 0x108 + 8 * n, 8 * j, 8 * j + 4);
    SliceOfSlice(Fork(bs), 0x108, 0x108 + 8 * n, 8 * j + 4, 8 * j + 8);
  }

  lemma ForkBlockBytes(bs: seq<seq<Byte>>, j: nat)
    requires j < |bs|
    ensures var f := Fork(bs); var at := 0x104 + BlockOffset(bs, |bs|, j);
      at + |bs[j]| <= |f| - TRAILER && f[at..at + |bs[j]|] == bs[j]
  {
    hide ForkHead, Trailer, Table, Packed;
    var n, p := |bs|, Packed(bs);
    ForkSlices(ForkHead(MapOffset(bs), n), Table(bs, n), p, Trailer());
    PackedAt(bs, j);
    SliceOfSlice(Fork(bs), 0x108 + 8 * n, 0x108 + 8 * n + |p|, |Packed(bs[..j])|, |Packed(bs[..j + 1])|);
  }

  lemma ForkSlices(h: seq<Byte>, t: seq<Byte>, p: seq<Byte>, r: seq<Byte>)
    ensures var f := h + t + p + r;
      && f[|h|..|h| + |t|] == t
      && f[|h| + |t|..|h| + |t| + |p|] == p
  {
  }

  lemma SliceOfSlice(s: seq<Byte>, lo: nat, hi: nat, a: nat, b: nat)
    requires lo <= hi <= |s| && a <= b <= hi - lo
    ensures s[lo..hi][a..b] == s[lo + a..lo + b]
  {
    assert forall i :: 0 <= i < b - a ==> s[lo..hi][a..b][i] == s[lo + a..lo + b][i];
  }

  lemma Adjacent(s: seq<Byte>, a: nat, b: nat, c: nat)
    requires a <= b <= c <= |s|
    ensures s[a..c] == s[a..b] + s[b..c]
  {
  }

  /** The blocks tile the region between the table and the map: the first starts right behind
      the table, each next one where the one before it ends, and the last ends at the map. */
  lemma ForkTiled(bs: seq<seq<Byte>>)
    requires |Fork(bs)| < 0x1_0000_0000 && bs != []
    ensures var f, n := Fork(bs), |bs|;
      && 0x104 + EntryOffset(f, 0) == 0x108 + 8 * n
      && (forall j :: 0 <= j < n - 1 ==> EntryOffset(f, j) + EntrySize(f, j) == EntryOffset(f, j + 1))
      && 0x104 + EntryOffset(f, n - 1) + EntrySize(f, n - 1) == Field(f, 4)
  {
    var f, n := Fork(bs), |bs|;
    ForkHeader(bs);
    assert bs[..0] == [] && bs[..n] == bs;
    forall j | 0 <= j < n
      ensures EntryOffset(f, j) + EntrySize(f, j) == BlockOffset(bs, n, j + 1)
    {
      ForkEntry(bs, j);
      PackedAt(bs, j);
    }
    forall j | 0 <= j < n
      ensures EntryOffset(f, j) == BlockOffset(bs, n, j)
    {
      ForkEntry(bs, j);
    }
  }

  function Word(f: seq<Byte>, pos: nat): (v: nat)
    requires pos + 2 <= |f|
  {
    FromBE16(f[pos..pos + 2])
  }

  /** The map, byte by byte. */
  lemma TrailerBytes()
    ensures Trailer() == Zeros(24) + [0, 0x1C, 0, 0x32, 0, 0] + [0x63, 0x6d, 0x70, 0x66] + [0, 0, 0, 0xA]
      + [0, 1, 0xFF, 0xFF, 0, 0, 0, 0] + [0, 0, 0, 0]
  {
    hide BE16, BE32, LE32, LE64;
    ByteOrder16(0, 0, 0x1C);
    ByteOrder16(0, 0, 0x32);
    ByteOrder16(0, 0, 0);
    ByteOrder32(0, 0x63, 0x6d, 0x70, 0x66);
    ByteOrder32(0, 0, 0, 0, 0xA);
    ByteOrder32(0, 0xFF, 0xFF, 1, 0);
    ByteOrder32(0, 0, 0, 0, 0);
    ByteOrder64(0, 0xFFFF0100);
  }

  /** What "Resource File Format" finds from a map on: one type, with one resource, which has no name,
      no attributes and is the first in the data area. */
  predicate MapsOne(f: seq<Byte>, map': nat, kind: seq<Byte>, id: nat) {
    && map' + 28 <= |f|
    && var types := map' + Word(f, map' + 24);
      && types + 10 <= |f|
      && Word(f, types) == 0 && f[types + 2..types + 6] == kind && Word(f, types + 6) == 0
      && var ref := types + Word(f, types + 8);
        && ref + 12 <= |f|
        && Word(f, ref) == id && Word(f, ref + 2) == 0xFFFF && f[ref + 4..ref + 8] == [0, 0, 0, 0]
  }

  /** The fork is such a file: its one resource is "cmpf" number 1, whose data goes up to the map; the
      list of names is empty and what is reserved is zero. */
  lemma ForkIsResourceFile(bs: seq<seq<Byte>>)
    requires |Fork(bs)| < 0x1_0000_0000
    ensures var f := Fork(bs); var map' := Field(f, 4);
      && map' + 50 == |f| && MapsOne(f, map', [0x63, 0x6d, 0x70, 0x66], 1)
      && map' + Word(f, map' + 26) == |f|
      && Field(f, 0) + 4 <= |f| && Field(f, 0) + 4 + Field(f, Field(f, 0)) == map'
      && f[16..0x100] == Zeros(0xF0) && f[map'..map' + 24] == Zeros(24)
  {
    ForkHeader(bs);
    hide Table, Packed, FromLE32, FromBE32, FromBE16, Zeros, Trailer;
    var f, map' := Fork(bs), MapOffset(bs);
    ForkHeadFields(map', |bs|);
    hide ForkHead;
    assert f[16..0x100] == ForkHead(map', |bs|)[16..0x100];
    MapFields(f, map');
    hide Fork;
  }

  lemma MapFields(f: seq<Byte>, map': nat)
    requires map' + 50 == |f| && f[map'..] == Trailer()
    ensures MapsOne(f, map', [0x63, 0x6d, 0x70, 0x66], 1)
    ensures Word(f, map' + 26) == 50 && f[map'..map' + 24] == Zeros(24)
  {
    TrailerBytes();
    hide Trailer, Zeros;
    var z, t := Zeros(24), f[map'..];
    assert t[24..26] == [0, 0x1C] && t[26..28] == [0, 0x32] && t[28..30] == [0, 0];
    assert t[30..34] == [0x63, 0x6d, 0x70, 0x66] && t[34..36] == [0, 0] && t[36..38] == [0, 0xA];
    assert t[38..40] == [0, 1] && t[40..42] == [0xFF, 0xFF] && t[42..46] == [0, 0, 0, 0] && t[..24] == z;
    assert f[map'..map' + 24] == z;
    MapWords(f, map');
  }

  lemma MapWords(f: seq<Byte>, map': nat)
    requires map' + 50 == |f|
    requires var t := f[map'..];
      && t[24..26] == [0, 0x1C] && t[26..28] == [0, 0x32] && t[28..30] == [0, 0]
      && t[30..34] == [0x63, 0x6d, 0x70, 0x66] && t[34..36] == [0, 0] && t[36..38] == [0, 0xA]
      && t[38..40] == [0, 1] && t[40..42] == [0xFF, 0xFF] && t[42..46] == [0, 0, 0, 0]
    ensures MapsOne(f, map', [0x63, 0x6d, 0x70, 0x66], 1) && Word(f, map' + 26) == 50
  {
    forall a, b | 0 <= a <= b <= 50
      ensures f[map' + a..map' + b] == f[map'..][a..b]
    {
    }
    assert Word(f, map' + 24) == 28 && Word(f, map' + 26) == 50 && Word(f, map' + 28) == 0;
    assert Word(f, map' + 34) == 0 && Word(f, map' + 36) == 10;
    assert Word(f, map' + 38) == 1 && Word(f, map' + 40) == 0xFFFF;
    assert f[map' + 30..map' + 34] == [0x63, 0x6d, 0x70, 0x66] && f[map' + 42..map' + 46] == [0, 0, 0, 0];
  }

  // ---------- size gate ----------

  /** The gate as evaluated: the block count is an unsigned 32-bit variable, and so is its
      product with 9. */
  predicate PassesGate(size: nat) {
    var numBlocks := NumChunks(size) % 0x1_0000_0000;
    size + 0x13A + numBlocks * 9 % 0x1_0000_0000 <= MAX_SUPPORTED_SIZE
  }

  /** The 32-bit arithmetic never lets a file slip through. */
  lemma GateIsExact(size: nat)
    ensures PassesGate(size) <==> size + 0x13A + 9 * NumChunks(size) <= MAX_SUPPORTED_SIZE
    ensures PassesGate(size) ==> NumChunks(size) <= 0x8000
  {
    if size <= MAX_SUPPORTED_SIZE {
      assert NumChunks(size) <= 0x8000;
    }
  }

  /** So the gate sees to it that the fork has no more than 0x7FFFFFFF bytes, and that each of its
      32-bit fields reads back as the value that was to be stored. No weaker gate would do: when
      every block is a raw one, the fork has the right size only if the gate is passed. */
  lemma GateCoversFork(codec: Codec, data: seq<Byte>, allowLarge: bool)
    requires Blocks(codec, data, allowLarge, NumChunks(|data|)).Some?
    ensures var bs := Blocks(codec, data, allowLarge, NumChunks(|data|)).value; var f := Fork(bs);
      PassesGate(|data|) ==>
        && |f| <= MAX_SUPPORTED_SIZE
        && Field(f, 4) == MapOffset(bs) && Field(f, 8) == MapOffset(bs) - 0x100
        && Field(f, 0x100) == MapOffset(bs) - 0x104 && LittleField(f, 0x104) == |bs|
        && (forall j :: 0 <= j < |bs| ==>
              EntryOffset(f, j) == BlockOffset(bs, |bs|, j) && EntrySize(f, j) == |bs[j]|)
    ensures var bs := Blocks(codec, data, allowLarge, NumChunks(|data|)).value;
      AllRaw(data, bs) ==> (PassesGate(|data|) <==> |Fork(bs)| <= MAX_SUPPORTED_SIZE)
  {
    var bs := Blocks(codec, data, allowLarge, NumChunks(|data|)).value;
    GateIsExact(|data|);
    WorstCase(codec, data, allowLarge);
    hide AllRaw, PassesGate, Fork, Blocks, BlockOffset, FromBE32, FromLE32, Packed;
    if PassesGate(|data|) {
      ForkHeader(bs);
      forall j | 0 <= j < |bs|
        ensures EntryOffset(Fork(bs), j) == BlockOffset(bs, |bs|, j) && EntrySize(Fork(bs), j) == |bs[j]|
      {
        ForkEntry(bs, j);
      }
    }
  }

  ghost predicate AllRaw(data: seq<Byte>, bs: seq<seq<Byte>>)
    requires |bs| <= NumChunks(|data|)
  {
    forall j :: 0 <= j < |bs| ==> |bs[j]| == |Chunk(data, j)| + 1
  }

  /** 0x13A + 9 bytes a block is what the fork can need beyond the file's size, and it is needed
      exactly when every block is a raw one. */
  lemma WorstCase(codec: Codec, data: seq<Byte>, allowLarge: bool)
    requires Blocks(codec, data, allowLarge, NumChunks(|data|)).Some?
    ensures var n := NumChunks(|data|); var bs := Blocks(codec, data, allowLarge, n).value;
      && |Fork(bs)| <= |data| + 0x13A + 9 * n
      && (|Fork(bs)| == |data| + 0x13A + 9 * n <==> AllRaw(data, bs))
  {
    PackedBound(codec, data, allowLarge, NumChunks(|data|));
    PackedTight(codec, data, allowLarge, NumChunks(|data|));
  }

  lemma {:induction false} PackedTight(codec: Codec, data: seq<Byte>, allowLarge: bool, k: nat)
    requires k <= NumChunks(|data|)
    requires Blocks(codec, data, allowLarge, k).Some?
    ensures var bs := Blocks(codec, data, allowLarge, k).value;
      |Packed(bs)| == Min(CHUNK * k, |data|) + k <==> AllRaw(data, bs)
  {
    if k > 0 {
      PackedTight(codec, data, allowLarge, k - 1);
      PackedBound(codec, data, allowLarge, k - 1);
      var bs := Blocks(codec, data, allowLarge, k - 1).value;
      var b := Block(codec, Chunk(data, k - 1), allowLarge).value;
      BlockBound(codec, Chunk(data, k - 1), allowLarge);
      hide Packed, Block, Chunk, AllRaw;
      PackedSnoc(bs, b);
      AllRawSnoc(data, bs, b);
    }
  }

  lemma BlockBound(codec: Codec, chunk: seq<Byte>, allowLarge: bool)
    requires Block(codec, chunk, allowLarge).Some?
    ensures |Block(codec, chunk, allowLarge).value| <= |chunk| + 1
  {
  }

  lemma AllRawSnoc(data: seq<Byte>, bs: seq<seq<Byte>>, b: seq<Byte>)
    requires |bs| < NumChunks(|data|)
    ensures AllRaw(data, bs + [b]) <==> AllRaw(data, bs) && |b| == |Chunk(data, |bs|)| + 1
  {
    hide Chunk;
    var all := bs + [b];
    assert forall j :: 0 <= j < |bs| ==> all[j] == bs[j];
    assert all[|bs|] == b;
  }

  // ---------- what becomes of a file ----------

  datatype Options = Options(maxSize: int, allowLarge: bool, minSavings: real)

  /** Left alone before or during compression, or ready to be written in one of two forms. */
  datatype Encoded =
    | Skipped
    | Bailed
    | Inline(attr: seq<Byte>)
    | Forked(attr: seq<Byte>, fork: seq<Byte>)

  function AttrHeader(kind: nat, size: nat): (h: seq<Byte>)
    ensures |h| == ATTR_HEADER
  {
    LE32(DECMPFS_MAGIC) + LE32(kind) + LE64(size)
  }

  lemma AttrHeaderFields(kind: nat, size: nat, rest: seq<Byte>)
    requires kind < 0x1_0000_0000 && size < 0x1_0000_0000_0000_0000
    ensures var a := AttrHeader(kind, size) + rest;
      && LittleField(a, 0) == DECMPFS_MAGIC && LittleField(a, 4) == kind
      && FromLE64(a[8..16]) == size && a[ATTR_HEADER..] == rest
  {
    hide LE32, LE64, FromLE32, FromLE64;
    Read32(DECMPFS_MAGIC);
    Read32(kind);
    Read64(size);
    HeaderSlices(LE32(DECMPFS_MAGIC), LE32(kind), LE64(size), rest);
  }

  lemma HeaderSlices(a: seq<Byte>, b: seq<Byte>, c: seq<Byte>, rest: seq<Byte>)
    requires |a| == |b| == 4 && |c| == 8
    ensures var h := a + b + c + rest; h[0..4] == a && h[4..8] == b && h[8..16] == c && h[16..] == rest
  {
  }

  /** Too little is saved, or nothing. */
  predicate Unprofitable(newSize: nat, size: nat, minSavings: real)
    requires size > 0
  {
    || (minSavings != 0.0 && newSize as real / size as real >= 1.0 - minSavings / 100.0)
    || newSize >= size
  }

  predicate SkippedUnread(size: nat, maxSize: int) {
    (size > maxSize && maxSize != 0) || size == 0 || !PassesGate(size)
  }

  predicate FitsInline(bs: seq<seq<Byte>>) {
    |bs| == 1 && |bs[0]| + ATTR_HEADER <= MAX_XATTR
  }

  function Encode(codec: Codec, data: seq<Byte>, o: Options): Encoded {
    if SkippedUnread(|data|, o.maxSize) then Skipped
    else
      match Blocks(codec, data, o.allowLarge, NumChunks(|data|))
      case None => Bailed
      case Some(bs) =>
        if FitsInline(bs) then Inline(AttrHeader(ZLIB_XATTR, |data|) + bs[0])
        else if Unprofitable(MapOffset(bs) + ATTR_HEADER + TRAILER, |data|, o.minSavings) then Bailed
        else Forked(AttrHeader(ZLIB_FORK, |data|), Fork(bs))
  }

  const TWO_CHUNKS: seq<Byte> := Zeros(2 * CHUNK)
  const PLAIN_OPTIONS := Options(0, false, 0.0)

  /** There are files that get a resource fork, and files whose data goes inline. */
  lemma BothFormsOccur()
    ensures Encode(ZERO_RUNS, TWO_CHUNKS, PLAIN_OPTIONS).Forked?
    ensures Encode(ZERO_RUNS, [7], PLAIN_OPTIONS).Inline?
  {
    hide LE32, AttrHeader, Fork, Blocks, Block, Packed;
    var data := TWO_CHUNKS;
    var b := ZeroBlock();
    assert Chunk(data, 0) == Zeros(CHUNK) && Chunk(data, 1) == Zeros(CHUNK);
    NoBlocks(ZERO_RUNS, data, false);
    var none: seq<seq<Byte>>, one := [], [b];
    NextBlock(ZERO_RUNS, data, false, none, b);
    assert none + [b] == one;
    NextBlock(ZERO_RUNS, data, false, one, b);
    assert one + [b] == [b, b];
    TwoPacked(b);
    assert Chunk([7], 0) == [7];
    NoBlocks(ZERO_RUNS, [7], false);
    var c := SevenBlock();
    NextBlock(ZERO_RUNS, [7], false, none, c);
    assert none + [c] == [c];
  }

  lemma ZeroBlock() returns (b: seq<Byte>)
    ensures Block(ZERO_RUNS, Zeros(CHUNK), false) == Some(b) && |b| == 6
  {
    b := [0x78, 0] + LE32(CHUNK);
  }

  lemma SevenBlock() returns (b: seq<Byte>)
    ensures Block(ZERO_RUNS, [7], false) == Some(b) && |b| == 2
  {
    var s: seq<Byte> := [7];
    b := [RAW_MARK] + s;
    assert s[0] != Zeros(|s|)[0];
    assert ShortenRun(s) == Some([0x78, 1] + s);
  }

  lemma NoBlocks(codec: Codec, data: seq<Byte>, allowLarge: bool)
    ensures Blocks(codec, data, allowLarge, 0) == Some([])
  {
  }

  lemma NextBlock(codec: Codec, data: seq<Byte>, allowLarge: bool, bs: seq<seq<Byte>>, b: seq<Byte>)
    requires |bs| < NumChunks(|data|) && Blocks(codec, data, allowLarge, |bs|) == Some(bs)
    requires Block(codec, Chunk(data, |bs|), allowLarge) == Some(b)
    ensures Blocks(codec, data, allowLarge, |bs| + 1) == Some(bs + [b])
  {
  }

  lemma TwoPacked(b: seq<Byte>)
    ensures |Packed([b, b])| == 2 * |b|
  {
    var one, two := [b], [b, b];
    assert two[..1] == one;
    PackedSnoc([], b);
    assert [] + one == one;
  }
}
