/** The LZVN and LZFSE branches of `compressFile`: a plain table of 32-bit offsets, then the
    compressed chunks, in a buffer that grows with every chunk. */
module LzEncoder {
  import opened Wrappers
  import opened Bytes
  import opened Container

  /** The encoder gives nothing, or an empty result, when it fails on a chunk. */
  datatype LzCodec = LzCodec(encode: seq<Byte> -> Option<seq<Byte>>, decode: seq<Byte> -> Option<seq<Byte>>)

  ghost predicate Inverts(codec: LzCodec) {
    forall s :: s != [] && codec.encode(s).Some? && codec.encode(s).value != [] ==>
      codec.decode(codec.encode(s).value) == Some(s)
  }

  datatype LzKind = LZVN | LZFSE

  function AttrType(kind: LzKind): nat {
    match kind case LZVN => LZVN_XATTR case LZFSE => LZFSE_XATTR
  }

  function ForkType(kind: LzKind): nat {
    match kind case LZVN => LZVN_FORK case LZFSE => LZFSE_FORK
  }

  // ---------- the form on disk ----------

  function LzBlocks(codec: LzCodec, data: seq<Byte>, k: nat): (r: Option<seq<seq<Byte>>>)
    requires k <= NumChunks(|data|)
    ensures r.Some? ==> |r.value| == k
  {
    if k == 0 then Some([])
    else
      match LzBlocks(codec, data, k - 1)
      case None => None
      case Some(bs) =>
        match codec.encode(Chunk(data, k - 1))
        case None => None
        case Some(b) => if b == [] then None else Some(bs + [b])
  }

  lemma {:induction false} LzBlocksStayFailed(codec: LzCodec, data: seq<Byte>, k: nat, n: nat)
    requires k <= n <= NumChunks(|data|) && LzBlocks(codec, data, k).None?
    ensures LzBlocks(codec, data, n).None?
    decreases n
  {
    if k < n {
      LzBlocksStayFailed(codec, data, k, n - 1);
    }
  }

  lemma {:induction false} LzBlockIs(codec: LzCodec, data: seq<Byte>, n: nat, j: nat)
    requires j < n <= NumChunks(|data|) && LzBlocks(codec, data, n).Some?
    ensures var b := LzBlocks(codec, data, n).value[j];
      b != [] && codec.encode(Chunk(data, j)) == Some(b)
    decreases n
  {
    if j < n - 1 {
      LzBlockIs(codec, data, n - 1, j);
    }
  }

  /** Where chunk `|bs|` goes: behind a table of `n` + 1 offsets and the blocks before it. */
  function LzOffset(bs: seq<seq<Byte>>, n: nat): nat {
    4 * (n + 1) + |Packed(bs)|
  }

  function LzTable(bs: seq<seq<Byte>>, n: nat): (t: seq<Byte>)
    ensures |t| == 4 * (|bs| + 1)
  {
    (if bs == [] then [] else LzTable(bs[..|bs| - 1], n)) + LE32(LzOffset(bs, n))
  }

  function LzFork(bs: seq<seq<Byte>>): (f: seq<Byte>)
    ensures |f| == LzOffset(bs, |bs|)
  {
    LzTable(bs, |bs|) + Packed(bs)
  }

  function LzEncode(codec: LzCodec, kind: LzKind, data: seq<Byte>, o: Options): Encoded {
    if SkippedUnread(|data|, o.maxSize) then Skipped
    else
      match LzBlocks(codec, data, NumChunks(|data|))
      case None => Bailed
      case Some(bs) =>
        if FitsInline(bs) then Inline(AttrHeader(AttrType(kind), |data|) + bs[0])
        else if Unprofitable(LzOffset(bs, |bs|) + ATTR_HEADER + TRAILER, |data|, o.minSavings) then Bailed
        else Forked(AttrHeader(ForkType(kind), |data|), LzFork(bs))
  }

  // ---------- what the table says ----------

  lemma {:induction false} LzTableAt(bs: seq<seq<Byte>>, n: nat, j: nat)
    requires j <= |bs|
    ensures LzTable(bs, n)[4 * j..4 * j + 4] == LE32(LzOffset(bs[..j], n))
  {
    hide LE32, Packed;
    if j < |bs| {
      var init := bs[..|bs| - 1];
      LzTableAt(init, n, j);
      assert init[..j] == bs[..j];
      PrefixSlice(LzTable(init, n), LzTable(bs, n), 4 * j, 4 * j + 4);
    } else {
      assert bs[..j] == bs;
    }
  }

  function LzEntry(fork: seq<Byte>, j: nat): nat
    requires 4 * j + 4 <= |fork|
  {
    LittleField(fork, 4 * j)
  }

  /** An entry is the true offset exactly when that fits 32 bits. */
  lemma LzEntryExact(bs: seq<seq<Byte>>, j: nat)
    requires j <= |bs|
    ensures LzEntry(LzFork(bs), j) == LzOffset(bs[..j], |bs|) <==> LzOffset(bs[..j], |bs|) < 0x1_0000_0000
  {
    hide LE32, FromLE32, Packed, LzTable;
    var n := |bs|;
    LzTableAt(bs, n, j);
    PrefixSlice(LzTable(bs, n), LzFork(bs), 4 * j, 4 * j + 4);
    Read32(LzOffset(bs[..j], n));
  }

  /** Entries `j` and `j + 1` cut the non-empty chunk `b` out of the fork. */
  ghost predicate Cut(fork: seq<Byte>, j: nat, b: seq<Byte>) {
    && 4 * j + 8 <= |fork|
    && LzEntry(fork, j) < LzEntry(fork, j + 1) <= |fork|
    && fork[LzEntry(fork, j)..LzEntry(fork, j + 1)] == b
  }

  lemma LzCut(bs: seq<seq<Byte>>, j: nat)
    requires |LzFork(bs)| < 0x1_0000_0000 && j < |bs| && bs[j] != []
    ensures Cut(LzFork(bs), j, bs[j])
  {
    hide LE32, FromLE32, LzTable, Packed, LzEntry;
    var f, n := LzFork(bs), |bs|;
    PackedAt(bs, j);
    LzEntryExact(bs, j);
    LzEntryExact(bs, j + 1);
    assert f[4 * (n + 1)..|f|] == Packed(bs);
    SliceOfSlice(f, 4 * (n + 1), |f|, |Packed(bs[..j])|, |Packed(bs[..j + 1])|);
  }

  /** The format's promise for a fork that fits 32 bits: the first entry is the table's own size,
      the last is the fork's, entries increase strictly, and each chunk lies between two neighbours. */
  lemma LzSlices(bs: seq<seq<Byte>>)
    requires |LzFork(bs)| < 0x1_0000_0000 && forall j :: 0 <= j < |bs| ==> bs[j] != []
    ensures LzEntry(LzFork(bs), 0) == 4 * (|bs| + 1) && LzEntry(LzFork(bs), |bs|) == |LzFork(bs)|
    ensures forall j :: 0 <= j < |bs| ==> Cut(LzFork(bs), j, bs[j])
  {
    hide LE32, FromLE32, LzTable, LzEntry, Cut;
    LzEntryExact(bs, 0);
    LzEntryExact(bs, |bs|);
    assert bs[..0] == [] && bs[..|bs|] == bs;
    forall j | 0 <= j < |bs|
      ensures Cut(LzFork(bs), j, bs[j])
    {
      LzCut(bs, j);
    }
  }

  lemma EmptyPacked()
    ensures Packed([]) == []
  {
  }

  // ---------- a reader that knows only the format ----------

  /** Chunks `k` and on, cut out by the table and decoded, behind what came before them. */
  function ReadChunks(codec: LzCodec, fork: seq<Byte>, n: nat, k: nat, done: seq<Byte>): Option<seq<Byte>>
    requires 4 * (n + 1) <= |fork| && k <= n
    decreases n - k
  {
    if k == n then Some(done)
    else
      var from, to := LzEntry(fork, k), LzEntry(fork, k + 1);
      if !(from <= to <= |fork|) then None
      else
        match codec.decode(fork[from..to])
        case None => None
        case Some(piece) => ReadChunks(codec, fork, n, k + 1, done + piece)
  }

  /** The first entry tells how long the table is. */
  function ReadFork(codec: LzCodec, fork: seq<Byte>): Option<seq<Byte>> {
    if |fork| < 4 then None
    else
      var n := LzEntry(fork, 0) / 4 - 1;
      if n < 0 || 4 * (n + 1) > |fork| then None else ReadChunks(codec, fork, n, 0, [])
  }

  lemma {:induction false} ChunksRead(codec: LzCodec, data: seq<Byte>, fork: seq<Byte>, bs: seq<seq<Byte>>, k: nat)
    requires data != [] && k <= |bs| == NumChunks(|data|) && 4 * (|bs| + 1) <= |fork|
    requires forall j :: 0 <= j < |bs| ==> Cut(fork, j, bs[j]) && codec.decode(bs[j]) == Some(Chunk(data, j))
    ensures ReadChunks(codec, fork, |bs|, k, data[..Min(CHUNK * k, |data|)]) == Some(data)
    decreases |bs| - k
  {
    hide LzEntry, Chunk;
    if k < |bs| {
      assert Cut(fork, k, bs[k]);
      ChunkExtends(data, k);
      ChunksRead(codec, data, fork, bs, k + 1);
    } else {
      assert data[..|data|] == data;
    }
  }

  /** Every fork that is emitted fits 32 bits, because it is smaller than the file; so its table is
      exact and a reader of the format gets the file back. The type names the form. */
  lemma LzRoundTrip(codec: LzCodec, kind: LzKind, data: seq<Byte>, o: Options)
    requires Inverts(codec)
    ensures match LzEncode(codec, kind, data, o)
      case Forked(attr, fork) =>
        && |attr| + |fork| < |data|
        && LittleField(attr, 4) == ForkType(kind) && FromLE64(attr[8..16]) == |data|
        && ReadFork(codec, fork) == Some(data)
      case Inline(attr) =>
        && ATTR_HEADER < |attr| <= MAX_XATTR
        && LittleField(attr, 4) == AttrType(kind) && FromLE64(attr[8..16]) == |data|
        && codec.decode(attr[ATTR_HEADER..]) == Some(data)
      case _ => true
  {
    hide AttrHeader, FromLE64, FromLE32, LzFork, Unprofitable, LzBlocks;
    if !SkippedUnread(|data|, o.maxSize) && LzBlocks(codec, data, NumChunks(|data|)).Some? {
      var bs := LzBlocks(codec, data, NumChunks(|data|)).value;
      GateIsExact(|data|);
      if FitsInline(bs) {
        LzBlockIs(codec, data, 1, 0);
        assert Chunk(data, 0) == data;
        AttrHeaderFields(AttrType(kind), |data|, bs[0]);
      } else if !Unprofitable(LzOffset(bs, |bs|) + ATTR_HEADER + TRAILER, |data|, o.minSavings) {
        AttrHeaderFields(ForkType(kind), |data|, []);
        assert AttrHeader(ForkType(kind), |data|) + [] == AttrHeader(ForkType(kind), |data|);
        Profits(LzOffset(bs, |bs|) + ATTR_HEADER + TRAILER, |data|, o.minSavings);
        LzForkReads(codec, data, bs);
      }
    }
  }

  lemma Profits(newSize: nat, size: nat, minSavings: real)
    requires size > 0 && !Unprofitable(newSize, size, minSavings)
    ensures newSize < size
  {
  }

  lemma LzForkReads(codec: LzCodec, data: seq<Byte>, bs: seq<seq<Byte>>)
    requires Inverts(codec) && data != [] && |LzFork(bs)| < 0x1_0000_0000
    requires LzBlocks(codec, data, NumChunks(|data|)) == Some(bs)
    ensures ReadFork(codec, LzFork(bs)) == Some(data)
  {
    hide LzFork, LzBlocks, Packed, LzEntry, ReadChunks, Chunk, Cut, Inverts;
    forall j | 0 <= j < |bs|
      ensures bs[j] != [] && codec.decode(bs[j]) == Some(Chunk(data, j))
    {
      LzBlockDecodes(codec, data, bs, j);
    }
    LzSlices(bs);
    ChunksRead(codec, data, LzFork(bs), bs, 0);
    ReadsFromStart(codec, data, LzFork(bs), |bs|);
  }

  lemma ReadsFromStart(codec: LzCodec, data: seq<Byte>, fork: seq<Byte>, n: nat)
    requires 4 * (n + 1) <= |fork| && LzEntry(fork, 0) == 4 * (n + 1)
    requires ReadChunks(codec, fork, n, 0, data[..Min(CHUNK * 0, |data|)]) == Some(data)
    ensures ReadFork(codec, fork) == Some(data)
  {
    hide LzEntry, ReadChunks;
    assert data[..Min(CHUNK * 0, |data|)] == [];
  }

  lemma LzBlockDecodes(codec: LzCodec, data: seq<Byte>, bs: seq<seq<Byte>>, j: nat)
    requires Inverts(codec) && LzBlocks(codec, data, NumChunks(|data|)) == Some(bs) && j < |bs|
    ensures bs[j] != [] && codec.decode(bs[j]) == Some(Chunk(data, j))
  {
    LzBlockIs(codec, data, |bs|, j);
  }

  // ---------- the code ----------

  /** `buf` is just as long as what it holds: `|bs|` + 1 entries of the table, and the blocks. */
  ghost predicate LzImage(buf: seq<Byte>, n: nat, bs: seq<seq<Byte>>) {
    && |bs| <= n
    && |buf| == LzOffset(bs, n)
    && buf[..4 * (|bs| + 1)] == LzTable(bs, n)
    && buf[4 * (n + 1)..] == Packed(bs)
  }

  /** The stored entry may have lost its high bits; the next one comes out as if it had not. */
  lemma NextEntry(offset: nat, size: nat)
    ensures LE32(offset % 0x1_0000_0000 + size) == LE32(offset + size)
  {
    hide LE32;
    Truncated32(offset % 0x1_0000_0000 + size);
    Truncated32(offset + size);
    WrapsOnce(offset, size);
  }

  lemma WrapsOnce(offset: nat, size: nat)
    ensures (offset % 0x1_0000_0000 + size) % 0x1_0000_0000 == (offset + size) % 0x1_0000_0000
  {
  }

  lemma LzImageAdds(buf: seq<Byte>, buf': seq<Byte>, n: nat, bs: seq<seq<Byte>>, b: seq<Byte>)
    requires LzImage(buf, n, bs) && |bs| < n
    requires |buf'| == |buf| + |b| && buf'[|buf|..] == b
    requires buf'[..|buf|] == Splice(buf, 4 * (|bs| + 1), LE32(LzEntry(buf, |bs|) + |b|))
    ensures LzImage(buf', n, bs + [b])
  {
    hide LE32, Packed, Splice, LzEntry, LzTable;
    var k := |bs|;
    var e := LE32(LzOffset(bs + [b], n));
    var entry := Splice(buf, 4 * (k + 1), e);
    LzNextEntry(buf, n, bs, b);
    PackedSnoc(bs, b);
    SpliceKeeps(buf, 4 * (k + 1), e, 0, 4 * (k + 1));
    SplicePuts(buf, 4 * (k + 1), e);
    SpliceKeeps(buf, 4 * (k + 1), e, 4 * (n + 1), |buf|);
    LzTableSnoc(bs, n, b);
    PrefixSlice(entry, buf', 0, 4 * (k + 1));
    PrefixSlice(entry, buf', 4 * (k + 1), 4 * (k + 2));
    PrefixSlice(entry, buf', 4 * (n + 1), |buf|);
    Adjacent(buf', 0, 4 * (k + 1), 4 * (k + 2));
    Adjacent(buf', 4 * (n + 1), |buf|, |buf'|);
    assert buf[4 * (n + 1)..|buf|] == buf[4 * (n + 1)..] && buf'[|buf|..|buf'|] == buf'[|buf|..];
    assert buf'[4 * (n + 1)..|buf'|] == buf'[4 * (n + 1)..];
    assert buf'[0..4 * (k + 2)] == buf'[..4 * (k + 2)] && buf[0..4 * (k + 1)] == buf[..4 * (k + 1)];
  }

  lemma LzNextEntry(buf: seq<Byte>, n: nat, bs: seq<seq<Byte>>, b: seq<Byte>)
    requires LzImage(buf, n, bs)
    ensures LE32(LzEntry(buf, |bs|) + |b|) == LE32(LzOffset(bs + [b], n))
  {
    hide LE32, FromLE32, Packed, LzTable;
    var k := |bs|;
    LzTableAt(bs, n, k);
    assert bs[..k] == bs;
    PrefixSlice(LzTable(bs, n), buf, 4 * k, 4 * k + 4);
    Read32(LzOffset(bs, n));
    NextEntry(LzOffset(bs, n), |b|);
    PackedSnoc(bs, b);
  }

  lemma LzTableSnoc(bs: seq<seq<Byte>>, n: nat, b: seq<Byte>)
    ensures LzTable(bs + [b], n) == LzTable(bs, n) + LE32(LzOffset(bs + [b], n))
  {
    assert (bs + [b])[..|bs|] == bs;
  }

  /** The buffer with the next offset entered, for a block of `size` bytes, and room for it. */
  ghost predicate LzGrown(buf': seq<Byte>, buf: seq<Byte>, blockNr: nat, size: nat) {
    && 4 * blockNr + 8 <= |buf|
    && |buf'| == |buf| + size
    && buf'[..|buf|] == Splice(buf, 4 * (blockNr + 1), LE32(LzEntry(buf, blockNr) + size))
  }

  /** First half of a turn of the loop: the next offset is entered and the buffer grows. */
  method EnterOffset(outBuf: array<Byte>, blockNr: nat, size: nat) returns (grown: array<Byte>)
    requires 4 * blockNr + 8 <= outBuf.Length
    modifies outBuf
    ensures fresh(grown) && grown.Length == outBuf.Length + size
    ensures LzGrown(grown[..], old(outBuf[..]), blockNr, size)
  {
    hide LE32, FromLE32, Splice;
    var entry := LittleField(outBuf[..], 4 * blockNr);
    Memcpy(outBuf, 4 * (blockNr + 1), LE32(entry + size));
    grown := Reallocf(outBuf, outBuf.Length + size);
  }

  /** Second half: the block is copied to the buffer's end. */
  method AddChunk(outBuf: array<Byte>, at: nat, b: seq<Byte>, ghost before: seq<Byte>,
                  ghost n: nat, ghost bs: seq<seq<Byte>>)
    requires LzImage(before, n, bs) && |bs| < n && at == |before|
    requires LzGrown(outBuf[..], before, |bs|, |b|)
    modifies outBuf
    ensures LzImage(outBuf[..], n, bs + [b])
  {
    hide LE32, FromLE32, Packed, LzTable, Splice, LzEntry;
    ghost var longer := outBuf[..];
    Memcpy(outBuf, at, b);
    SpliceKeeps(longer, at, b, 0, at);
    SplicePuts(longer, at, b);
    assert outBuf[..][..at] == longer[..at];
    LzImageAdds(before, outBuf[..], n, bs, b);
  }

  method LzCompressFile(codec: LzCodec, kind: LzKind, inBuf: seq<Byte>, o: Options) returns (r: Encoded)
    ensures r == LzEncode(codec, kind, inBuf, o)
  {
    hide LzImage, LzGrown, Packed, Chunk, AttrHeader, Unprofitable, LzFork, PassesGate;
    var filesize := |inBuf|;
    if SkippedUnread(filesize, o.maxSize) {
      return Skipped;
    }
    GateIsExact(filesize);
    var numBlocks := (filesize + CHUNK - 1) / CHUNK;
    var outBuf := OpenTable(numBlocks);
    var outBufSize, outdecmpfsSize := (numBlocks + 1) * 4, ATTR_HEADER;
    var inBufPos, blockNr, currBlockOffset := 0, 0, 0;
    ghost var bs: seq<seq<Byte>> := [];
    EmptyPacked();
    while inBufPos < filesize
      invariant fresh(outBuf)
      invariant blockNr <= numBlocks && inBufPos == CHUNK * blockNr
      invariant LzBlocks(codec, inBuf, blockNr) == Some(bs)
      invariant blockNr == 1 ==> !FitsInline(bs) || numBlocks > 1
      invariant outBuf.Length == outBufSize == LzOffset(bs, numBlocks)
      invariant currBlockOffset == if bs == [] then 0 else outBufSize
      invariant LzImage(outBuf[..], numBlocks, bs)
    {
      var cursor := inBuf[inBufPos..inBufPos + Min(filesize - inBufPos, CHUNK)];
      assert cursor == Chunk(inBuf, blockNr) by { IsChunk(inBuf, blockNr); }
      var block := codec.encode(cursor);
      if block.None? || block.value == [] {
        LzBlocksStayFailed(codec, inBuf, blockNr + 1, numBlocks);
        return Bailed;
      }
      var cmpedsize := |block.value|;
      PackedSnoc(bs, block.value);
      if currBlockOffset == 0 {
        currBlockOffset := outBufSize;
      }
      ghost var before := outBuf[..];
      RoomForEntry(before, numBlocks, bs);
      outBuf := EnterOffset(outBuf, blockNr, cmpedsize);
      outBufSize := outBufSize + cmpedsize;
      if cmpedsize + outdecmpfsSize <= MAX_XATTR && numBlocks <= 1 {
        assert bs + [block.value] == [block.value];
        return Inline(AttrHeader(AttrType(kind), filesize) + block.value);
      }
      if currBlockOffset + cmpedsize <= outBufSize {
        AddChunk(outBuf, currBlockOffset, block.value, before, numBlocks, bs);
      } else {
        assert false;
      }
      bs := bs + [block.value];
      inBufPos, blockNr, currBlockOffset := inBufPos + CHUNK, blockNr + 1, currBlockOffset + cmpedsize;
    }
    if Unprofitable(currBlockOffset + outdecmpfsSize + TRAILER, filesize, o.minSavings) {
      return Bailed;
    }
    assert outBuf[..] == LzFork(bs) by { LzImageIsFork(outBuf[..], bs); }
    r := Forked(AttrHeader(ForkType(kind), filesize), outBuf[..]);
  }

  lemma RoomForEntry(buf: seq<Byte>, n: nat, bs: seq<seq<Byte>>)
    requires LzImage(buf, n, bs) && |bs| < n
    ensures 4 * |bs| + 8 <= |buf| == LzOffset(bs, n)
  {
  }

  /** The table before any chunk: zeroes, but for the first offset. */
  method OpenTable(numBlocks: nat) returns (outBuf: array<Byte>)
    ensures fresh(outBuf) && outBuf.Length == 4 * (numBlocks + 1) && LzImage(outBuf[..], numBlocks, [])
  {
    hide LE32;
    outBuf := new Byte[4 * (numBlocks + 1)](_ => 0);
    ghost var before := outBuf[..];
    Memcpy(outBuf, 0, LE32(4 * (numBlocks + 1)));
    SplicePuts(before, 0, LE32(4 * (numBlocks + 1)));
  }

  lemma LzImageIsFork(buf: seq<Byte>, bs: seq<seq<Byte>>)
    requires LzImage(buf, |bs|, bs)
    ensures buf == LzFork(bs)
  {
    hide LzTable, Packed;
    assert buf == buf[..4 * (|bs| + 1)] + buf[4 * (|bs| + 1)..];
  }
}
