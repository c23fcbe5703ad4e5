/** The ZLIB branch of `compressFile`: one pass over the file that fills an output buffer in
    place, in either of the two ways of sizing that buffer. */
module ZlibEncoder {
  import opened Wrappers
  import opened Bytes
  import opened Container

  /** A C pointer: the block it points into and the offset there. A pointer into a block that has
      since been reallocated still names the old block. */
  datatype Ptr = Ptr(base: array<Byte>, off: nat)

  // ---------- the fork while it is being filled ----------

  /** `buf` holds the fixed header words, the table entries and the bytes of the blocks `bs`, out
      of `n` blocks. The words that depend on the final size are still arbitrary. */
  ghost predicate Image(buf: seq<Byte>, n: nat, bs: seq<seq<Byte>>) {
    && |bs| <= n
    && Cursor(n, bs) <= |buf|
    && buf[0..4] == BE32(0x100)
    && buf[12..16] == BE32(0x32)
    && buf[16..0x100] == Zeros(0xF0)
    && buf[0x104..0x108] == LE32(n)
    && buf[0x108..0x108 + 8 * |bs|] == Table(bs, n)
    && buf[0x108 + 8 * n..Cursor(n, bs)] == Packed(bs)
  }

  /** Where the next block goes. */
  function Cursor(n: nat, bs: seq<seq<Byte>>): nat {
    0x108 + 8 * n + |Packed(bs)|
  }

  lemma ImageGrows(buf: seq<Byte>, buf': seq<Byte>, n: nat, bs: seq<seq<Byte>>)
    requires Image(buf, n, bs) && buf <= buf'
    ensures Image(buf', n, bs)
  {
    hide BE32, LE32, Zeros, Table, Packed;
    PrefixSlice(buf, buf', 0, 4);
    PrefixSlice(buf, buf', 12, 16);
    PrefixSlice(buf, buf', 16, 0x100);
    PrefixSlice(buf, buf', 0x104, 0x108);
    PrefixSlice(buf, buf', 0x108, 0x108 + 8 * |bs|);
    PrefixSlice(buf, buf', 0x108 + 8 * n, Cursor(n, bs));
  }

  /** The block's bytes at the cursor, and its entry in the table. */
  function AddBlock(buf: seq<Byte>, n: nat, k: nat, at: nat, b: seq<Byte>): (r: seq<Byte>)
    requires k < n && 0x108 + 8 * n <= at && at + |b| <= |buf|
    ensures |r| == |buf|
  {
    Splice(Splice(Splice(buf, at, b), 0x108 + 8 * k, LE32(at - 0x104)), 0x10C + 8 * k, LE32(|b|))
  }

  lemma AddBlockKeeps(buf: seq<Byte>, n: nat, k: nat, at: nat, b: seq<Byte>, lo: nat, hi: nat)
    requires k < n && 0x108 + 8 * n <= at && at + |b| <= |buf|
    requires lo <= hi <= 0x108 + 8 * k || 0x110 + 8 * k <= lo <= hi <= at
    ensures AddBlock(buf, n, k, at, b)[lo..hi] == buf[lo..hi]
  {
    hide LE32, Splice;
    var b1 := Splice(buf, at, b);
    var b2 := Splice(b1, 0x108 + 8 * k, LE32(at - 0x104));
    SpliceKeeps(buf, at, b, lo, hi);
    SpliceKeeps(b1, 0x108 + 8 * k, LE32(at - 0x104), lo, hi);
    SpliceKeeps(b2, 0x10C + 8 * k, LE32(|b|), lo, hi);
  }

  lemma AddBlockPuts(buf: seq<Byte>, n: nat, k: nat, at: nat, b: seq<Byte>)
    requires k < n && 0x108 + 8 * n <= at && at + |b| <= |buf|
    ensures AddBlock(buf, n, k, at, b)[0x108 + 8 * k..0x110 + 8 * k] == LE32(at - 0x104) + LE32(|b|)
    ensures AddBlock(buf, n, k, at, b)[at..at + |b|] == b
  {
    hide LE32, Splice;
    var b1 := Splice(buf, at, b);
    var b2 := Splice(b1, 0x108 + 8 * k, LE32(at - 0x104));
    SplicePuts(buf, at, b);
    SpliceKeeps(b1, 0x108 + 8 * k, LE32(at - 0x104), at, at + |b|);
    SpliceKeeps(b2, 0x10C + 8 * k, LE32(|b|), at, at + |b|);
    SpliceJoins(b1, 0x108 + 8 * k, LE32(at - 0x104), LE32(|b|));
    SplicePuts(b1, 0x108 + 8 * k, LE32(at - 0x104) + LE32(|b|));
  }

  lemma ImageAdds(buf: seq<Byte>, n: nat, bs: seq<seq<Byte>>, b: seq<Byte>)
    requires Image(buf, n, bs) && |bs| < n && Cursor(n, bs) + |b| <= |buf|
    ensures Image(AddBlock(buf, n, |bs|, Cursor(n, bs), b), n, bs + [b])
  {
    hide BE32, LE32, Zeros, Table, Packed, AddBlock;
    var k, at := |bs|, Cursor(n, bs);
    var r := AddBlock(buf, n, k, at, b);
    AddBlockKeeps(buf, n, k, at, b, 0, 4);
    AddBlockKeeps(buf, n, k, at, b, 12, 16);
    AddBlockKeeps(buf, n, k, at, b, 16, 0x100);
    AddBlockKeeps(buf, n, k, at, b, 0x104, 0x108);
    AddBlockKeeps(buf, n, k, at, b, 0x108, 0x108 + 8 * k);
    AddBlockKeeps(buf, n, k, at, b, 0x108 + 8 * n, at);
    AddBlockPuts(buf, n, k, at, b);
    TableSnoc(bs, n, b);
    PackedSnoc(bs, b);
    Adjacent(r, 0x108, 0x108 + 8 * k, 0x110 + 8 * k);
    Adjacent(r, 0x108 + 8 * n, at, at + |b|);
  }

  /** The words that close the fork. */
  function Close(buf: seq<Byte>, at: nat): (r: seq<Byte>)
    requires 0x108 <= at && at + TRAILER <= |buf|
    ensures |r| == |buf|
  {
    Splice(Splice(Splice(buf, 4, BE32(at) + BE32(at - 0x100)), 0x100, BE32(at - 0x104)), at, Trailer())
  }

  lemma CloseKeeps(buf: seq<Byte>, at: nat, lo: nat, hi: nat)
    requires 0x108 <= at && at + TRAILER <= |buf|
    requires lo <= hi <= 4 || 12 <= lo <= hi <= 0x100 || 0x104 <= lo <= hi <= at
    ensures Close(buf, at)[lo..hi] == buf[lo..hi]
  {
    hide BE32, Trailer, Splice;
    var b1 := Splice(buf, 4, BE32(at) + BE32(at - 0x100));
    var b2 := Splice(b1, 0x100, BE32(at - 0x104));
    SpliceKeeps(buf, 4, BE32(at) + BE32(at - 0x100), lo, hi);
    SpliceKeeps(b1, 0x100, BE32(at - 0x104), lo, hi);
    SpliceKeeps(b2, at, Trailer(), lo, hi);
  }

  lemma ClosePuts(buf: seq<Byte>, at: nat)
    requires 0x108 <= at && at + TRAILER <= |buf|
    ensures Close(buf, at)[4..12] == BE32(at) + BE32(at - 0x100)
    ensures Close(buf, at)[0x100..0x104] == BE32(at - 0x104)
    ensures Close(buf, at)[at..at + TRAILER] == Trailer()
  {
    hide BE32, Trailer, Splice;
    var b1 := Splice(buf, 4, BE32(at) + BE32(at - 0x100));
    var b2 := Splice(b1, 0x100, BE32(at - 0x104));
    SplicePuts(buf, 4, BE32(at) + BE32(at - 0x100));
    SplicePuts(b1, 0x100, BE32(at - 0x104));
    SplicePuts(b2, at, Trailer());
    SpliceKeeps(b1, 0x100, BE32(at - 0x104), 4, 12);
    SpliceKeeps(b2, at, Trailer(), 4, 12);
    SpliceKeeps(b2, at, Trailer(), 0x100, 0x104);
  }

  /** Closing a complete image gives the fork, whatever arbitrary bytes it still held. */
  lemma ImageCloses(buf: seq<Byte>, bs: seq<seq<Byte>>)
    requires Image(buf, |bs|, bs) && MapOffset(bs) + TRAILER <= |buf|
    ensures Close(buf, MapOffset(bs))[..MapOffset(bs) + TRAILER] == Fork(bs)
  {
    hide BE32, LE32, Zeros, Table, Packed, Trailer, Close;
    var n, at := |bs|, MapOffset(bs);
    var r := Close(buf, at);
    CloseKeeps(buf, at, 0, 4);
    CloseKeeps(buf, at, 12, 16);
    CloseKeeps(buf, at, 16, 0x100);
    CloseKeeps(buf, at, 0x104, 0x108);
    CloseKeeps(buf, at, 0x108, 0x108 + 8 * n);
    CloseKeeps(buf, at, 0x108 + 8 * n, at);
    ClosePuts(buf, at);
    HeadCloses(r, at, n);
    Adjacent(r, 0, 0x108, 0x108 + 8 * n);
    Adjacent(r, 0, 0x108 + 8 * n, at);
    Adjacent(r, 0, at, at + TRAILER);
  }

  lemma HeadCloses(r: seq<Byte>, at: nat, n: nat)
    requires 0x108 <= at && at + TRAILER <= |r|
    requires r[0..4] == BE32(0x100) && r[4..12] == BE32(at) + BE32(at - 0x100) && r[12..16] == BE32(0x32)
    requires r[16..0x100] == Zeros(0xF0) && r[0x100..0x104] == BE32(at - 0x104) && r[0x104..0x108] == LE32(n)
    ensures r[0..0x108] == ForkHead(at, n)
  {
    hide BE32, LE32, Zeros;
    Adjacent(r, 0, 4, 12);
    Adjacent(r, 0, 12, 16);
    Adjacent(r, 0, 16, 0x100);
    Adjacent(r, 0, 0x100, 0x104);
    Adjacent(r, 0, 0x104, 0x108);
  }

  // ---------- steps of the loop ----------

  method Compress2(codec: Codec, outBufBlock: array<Byte>, source: seq<Byte>) returns (ok: bool, cmpedsize: nat)
    requires Conforming(codec) && |source| <= CHUNK && outBufBlock.Length == BOUND
    modifies outBufBlock
    ensures match codec.compress(source)
      case None => !ok
      case Some(c) => ok && 0 < cmpedsize <= BOUND && outBufBlock[..cmpedsize] == c
  {
    var c := codec.compress(source);
    if c.None? {
      return false, 0;
    }
    assert StreamFor(codec, source, c.value);
    ok, cmpedsize := true, |c.value|;
    Memcpy(outBufBlock, 0, c.value);
  }

  /** A stream longer than its chunk makes way for the chunk itself; `ok` is false when that is
      not allowed. */
  method KeepSmaller(codec: Codec, outBufBlock: array<Byte>, source: seq<Byte>, size: nat, allowLarge: bool)
    returns (ok: bool, cmpedsize: nat)
    requires |source| <= CHUNK && outBufBlock.Length == BOUND && size <= BOUND
    requires codec.compress(source) == Some(outBufBlock[..size])
    modifies outBufBlock
    ensures match Block(codec, source, allowLarge)
      case None => !ok
      case Some(b) => ok && cmpedsize <= size && outBufBlock[..cmpedsize] == b
  {
    ok, cmpedsize := true, size;
    if cmpedsize > |source| {
      if !allowLarge && |source| == CHUNK {
        return false, size;
      }
      outBufBlock[0] := RAW_MARK;
      Memcpy(outBufBlock, 1, source);
      cmpedsize := |source|;
      cmpedsize := cmpedsize + 1;
      assert outBufBlock[..cmpedsize] == [RAW_MARK] + source;
    }
  }

  /** The block is copied to the cursor and entered in the table. */
  method StoreBlock(currBlock: Ptr, blockStart: Ptr, inBufPos: nat, b: seq<Byte>,
                    ghost n: nat, ghost bs: seq<seq<Byte>>)
    requires currBlock.base == blockStart.base && blockStart.off == 0x104
    requires |bs| < n && currBlock.off == Cursor(n, bs) && inBufPos == CHUNK * |bs|
    requires currBlock.off + |b| <= currBlock.base.Length
    requires Image(currBlock.base[..], n, bs)
    modifies currBlock.base
    ensures Image(currBlock.base[..], n, bs + [b])
  {
    hide Image, Splice, LE32, Packed;
    ghost var before := currBlock.base[..];
    Memcpy(currBlock.base, currBlock.off, b);
    Memcpy(blockStart.base, blockStart.off + inBufPos / CHUNK * 8 + 0x4, LE32(currBlock.off - blockStart.off));
    Memcpy(blockStart.base, blockStart.off + inBufPos / CHUNK * 8 + 0x8, LE32(|b|));
    assert currBlock.base[..] == AddBlock(before, n, |bs|, currBlock.off, b);
    ImageAdds(before, n, bs, b);
  }

  /** The trailer's fields, one after the other. */
  method WriteTrailer(trailer: Ptr)
    requires trailer.off + TRAILER <= trailer.base.Length
    modifies trailer.base
    ensures trailer.base[..] == Splice(old(trailer.base[..]), trailer.off, Trailer())
  {
    hide Splice, LE32, LE64, BE16, BE32, Zeros;
    ghost var s := trailer.base[..];
    var base, off := trailer.base, trailer.off;
    Memcpy(base, off, Zeros(24));
    Memcpy(base, off + 24, BE16(0x1C));
    SpliceJoins(s, off, Zeros(24), BE16(0x1C));
    ghost var done := Zeros(24) + BE16(0x1C);
    Memcpy(base, off + 26, BE16(0x32));
    SpliceJoins(s, off, done, BE16(0x32));
    done := done + BE16(0x32);
    Memcpy(base, off + 28, BE16(0));
    SpliceJoins(s, off, done, BE16(0));
    done := done + BE16(0);
    Memcpy(base, off + 30, BE32(DECMPFS_MAGIC));
    SpliceJoins(s, off, done, BE32(DECMPFS_MAGIC));
    done := done + BE32(DECMPFS_MAGIC);
    Memcpy(base, off + 34, BE32(0xA));
    SpliceJoins(s, off, done, BE32(0xA));
    done := done + BE32(0xA);
    Memcpy(base, off + 38, LE64(0xFFFF0100));
    SpliceJoins(s, off, done, LE64(0xFFFF0100));
    done := done + LE64(0xFFFF0100);
    Memcpy(base, off + 46, LE32(0));
    SpliceJoins(s, off, done, LE32(0));
  }

  /** The words written once the last block is in place; `fork` is what goes to disk. */
  method CloseFork(outBuf: array<Byte>, blockStart: Ptr, currBlock: Ptr, ghost bs: seq<seq<Byte>>)
    returns (fork: seq<Byte>)
    requires currBlock == Ptr(outBuf, MapOffset(bs)) && blockStart == Ptr(outBuf, 0x104)
    requires currBlock.off + TRAILER <= outBuf.Length
    requires Image(outBuf[..], |bs|, bs)
    modifies outBuf
    ensures fork == Fork(bs)
  {
    hide Image, Splice, BE32, Trailer, Packed, Fork;
    ghost var before := outBuf[..];
    Memcpy(outBuf, 4, BE32(currBlock.off));
    Memcpy(outBuf, 8, BE32(currBlock.off - 0x100));
    SpliceJoins(before, 4, BE32(currBlock.off), BE32(currBlock.off - 0x100));
    Memcpy(blockStart.base, blockStart.off - 4, BE32(currBlock.off - 0x104));
    WriteTrailer(currBlock);
    assert outBuf[..] == Close(before, currBlock.off);
    ImageCloses(before, bs);
    fork := outBuf[..currBlock.off + TRAILER];
    assert fork == outBuf[..][..currBlock.off + TRAILER];
  }

  /** The header words known from the start. */
  method OpenFork(outBuf: array<Byte>, numBlocks: nat) returns (blockStart: Ptr, currBlock: Ptr)
    requires 0x108 + 8 * numBlocks <= outBuf.Length
    modifies outBuf
    ensures blockStart == Ptr(outBuf, 0x104) && currBlock == Ptr(outBuf, Cursor(numBlocks, []))
    ensures Image(outBuf[..], numBlocks, [])
  {
    hide Splice, LE32, BE32, Zeros;
    ghost var s0 := outBuf[..];
    Memcpy(outBuf, 0, BE32(0x100));
    ghost var s1 := outBuf[..];
    Memcpy(outBuf, 12, BE32(0x32));
    ghost var s2 := outBuf[..];
    Memcpy(outBuf, 16, Zeros(0xF0));
    ghost var s3 := outBuf[..];
    blockStart := Ptr(outBuf, 0x104);
    Memcpy(blockStart.base, blockStart.off, LE32(numBlocks));
    currBlock := Ptr(outBuf, blockStart.off + 4 + numBlocks * 8);
    SplicePuts(s0, 0, BE32(0x100));
    SplicePuts(s1, 12, BE32(0x32));
    SplicePuts(s2, 16, Zeros(0xF0));
    SplicePuts(s3, 0x104, LE32(numBlocks));
    SpliceKeeps(s1, 12, BE32(0x32), 0, 4);
    SpliceKeeps(s2, 16, Zeros(0xF0), 0, 4);
    SpliceKeeps(s2, 16, Zeros(0xF0), 12, 16);
    SpliceKeeps(s3, 0x104, LE32(numBlocks), 0, 4);
    SpliceKeeps(s3, 0x104, LE32(numBlocks), 12, 16);
    SpliceKeeps(s3, 0x104, LE32(numBlocks), 16, 0x100);
  }

  /** One step of growing the output buffer; the pointers into it are worked out anew. */
  method Grow(outBuf: array<Byte>, size: nat, currBlockOffset: nat, ghost n: nat, ghost bs: seq<seq<Byte>>)
    returns (grown: array<Byte>, blockStart: Ptr, currBlock: Ptr)
    requires outBuf.Length <= size && Image(outBuf[..], n, bs)
    ensures fresh(grown) && grown.Length == size && Image(grown[..], n, bs)
    ensures blockStart == Ptr(grown, 0x104) && currBlock == Ptr(grown, currBlockOffset)
  {
    hide Image;
    grown := Reallocf(outBuf, size);
    assert outBuf[..] <= grown[..];
    ImageGrows(outBuf[..], grown[..], n, bs);
    blockStart := Ptr(grown, 0x104);
    currBlock := Ptr(grown, currBlockOffset);
  }

  // ---------- the whole pass ----------

  /** What the loop keeps about the buffer's size and the running offset. With a single
      allocation the offset counts from the end of the table and the buffer has room for the
      worst case; with a growing buffer the offset counts from the start of the buffer, once
      the first chunk has set it, and the allocation runs ahead of it. */
  ghost predicate Sized(singleShot: bool, size: nat, n: nat, bs: seq<seq<Byte>>, room: nat,
                        outBufSize: int, currBlockOffset: int, currBlockLen: int) {
    if singleShot then
      && room == outBufSize == size + 0x13A + n * 9
      && currBlockOffset == |Packed(bs)|
      && currBlockLen == size + 0x32 + n
    else if bs == [] then
      && room == outBufSize == Cursor(n, bs)
      && currBlockOffset == 0
    else
      && room == outBufSize + 1
      && currBlockOffset == Cursor(n, bs) <= outBufSize
  }

  /** The growing buffer gets `cmpedsize` more bytes; the first time, the running offset is set. */
  method GrowBy(outBuf: array<Byte>, outBufSize: int, currBlockOffset: int, cmpedsize: nat,
                ghost filesize: nat, ghost n: nat, ghost bs: seq<seq<Byte>>)
    returns (grown: array<Byte>, newSize: int, blockStart: Ptr, currBlock: Ptr, newOffset: int, newLen: int)
    requires cmpedsize > 0 && Image(outBuf[..], n, bs)
    requires exists len :: Sized(false, filesize, n, bs, outBuf.Length, outBufSize, currBlockOffset, len)
    ensures fresh(grown) && Image(grown[..], n, bs)
    ensures blockStart == Ptr(grown, 0x104) && currBlock == Ptr(grown, Cursor(n, bs))
    ensures grown.Length == newSize + 1 && newLen == newSize
    ensures newOffset == Cursor(n, bs) && newOffset + cmpedsize <= newSize
  {
    hide Image, Packed;
    newOffset := currBlockOffset;
    if newOffset == 0 {
      newOffset := outBufSize;
    }
    newSize := outBufSize + cmpedsize;
    grown, blockStart, currBlock := Grow(outBuf, newSize + 1, newOffset, n, bs);
    newLen := newSize;
  }

  /** A chunk becomes a block in `outBufBlock`; a growing output buffer is made to fit it. */
  method MakeBlock(codec: Codec, source: seq<Byte>, allowLarge: bool, outBufBlock: array<Byte>, singleShot: bool,
                   outBuf: array<Byte>, outBufSize: int, blockStart: Ptr, currBlock: Ptr,
                   currBlockOffset: int, currBlockLen: int,
                   ghost filesize: nat, ghost n: nat, ghost bs: seq<seq<Byte>>)
    returns (ok: bool, cmpedsize: nat, outBuf': array<Byte>, outBufSize': int, blockStart': Ptr, currBlock': Ptr,
             currBlockOffset': int, currBlockLen': int)
    requires Conforming(codec) && |source| <= CHUNK
    requires outBufBlock.Length == BOUND && outBufBlock != outBuf
    requires Image(outBuf[..], n, bs)
    requires blockStart == Ptr(outBuf, 0x104) && currBlock == Ptr(outBuf, Cursor(n, bs))
    requires Sized(singleShot, filesize, n, bs, outBuf.Length, outBufSize, currBlockOffset, currBlockLen)
    modifies outBufBlock
    ensures outBuf' == outBuf || fresh(outBuf')
    ensures outBufBlock != outBuf'
    ensures match Block(codec, source, allowLarge)
      case None => !ok
      case Some(b) => ok && cmpedsize <= BOUND && outBufBlock[..cmpedsize] == b
    ensures ok ==>
      && Image(outBuf'[..], n, bs)
      && blockStart' == Ptr(outBuf', 0x104) && currBlock' == Ptr(outBuf', Cursor(n, bs))
      && Roomy(singleShot, filesize, n, bs, outBuf'.Length, outBufSize', currBlockOffset', currBlockLen', cmpedsize)
  {
    hide Image, Packed, Conforming;
    outBuf', outBufSize', blockStart', currBlock' := outBuf, outBufSize, blockStart, currBlock;
    currBlockOffset', currBlockLen' := currBlockOffset, currBlockLen;
    ok, cmpedsize := Compress2(codec, outBufBlock, source);
    if !ok {
      return;
    }
    if !singleShot {
      outBuf', outBufSize', blockStart', currBlock', currBlockOffset', currBlockLen' :=
        GrowBy(outBuf, outBufSize, currBlockOffset, cmpedsize, filesize, n, bs);
    }
    ok, cmpedsize := KeepSmaller(codec, outBufBlock, source, cmpedsize, allowLarge);
  }

  /** `Sized`, with room at the cursor for a block of `extra` bytes when the buffer is a growing one. */
  ghost predicate Roomy(singleShot: bool, size: nat, n: nat, bs: seq<seq<Byte>>, room: nat,
                        outBufSize: int, currBlockOffset: int, currBlockLen: int, extra: nat) {
    if singleShot then Sized(true, size, n, bs, room, outBufSize, currBlockOffset, currBlockLen)
    else
      && room == outBufSize + 1 && currBlockLen == outBufSize
      && currBlockOffset == Cursor(n, bs) && currBlockOffset + extra <= outBufSize
  }

  /** What the loop over the chunks comes to. */
  datatype Outcome = Failed | WentInline(form: Encoded) | Filled

  /** The loop over the chunks. The branch that reports an overrun of the output buffer is never
      taken. */
  method FillFork(codec: Codec, inBuf: seq<Byte>, allowLarge: bool, singleShot: bool, numBlocks: nat,
                  outdecmpfsBuf: array<Byte>, outdecmpfsSize: nat)
    returns (outcome: Outcome, outBuf: array<Byte>, outBufSize: int, currBlock: Ptr, ghost bs: seq<seq<Byte>>)
    requires Conforming(codec) && inBuf != [] && numBlocks == NumChunks(|inBuf|)
    requires outdecmpfsBuf.Length == MAX_XATTR && outdecmpfsSize == ATTR_HEADER
    requires outdecmpfsBuf[..ATTR_HEADER] == AttrHeader(ZLIB_FORK, |inBuf|)
    modifies outdecmpfsBuf
    ensures fresh(outBuf)
    ensures match outcome
      case Failed => Blocks(codec, inBuf, allowLarge, numBlocks) == None
      case WentInline(form) =>
        && Blocks(codec, inBuf, allowLarge, numBlocks) == Some(bs) && FitsInline(bs)
        && form == Inline(AttrHeader(ZLIB_XATTR, |inBuf|) + bs[0])
      case Filled =>
        && Blocks(codec, inBuf, allowLarge, numBlocks) == Some(bs) && !FitsInline(bs)
        && currBlock == Ptr(outBuf, Cursor(numBlocks, bs)) && Image(outBuf[..], numBlocks, bs)
        && (exists offset, len :: Sized(singleShot, |inBuf|, numBlocks, bs, outBuf.Length, outBufSize, offset, len))
        && outdecmpfsBuf[..] == old(outdecmpfsBuf[..])
  {
    hide Image, Packed, Conforming, Block, Blocks, Chunk, AttrHeader, Sized, Roomy, Cursor;
    var filesize := |inBuf|;
    var cmpedsize := BOUND;
    outBufSize := if singleShot then filesize + 0x13A + numBlocks * 9 else 0x104 + 4 + numBlocks * 8;
    outBuf := new Byte[outBufSize];
    var outBufBlock := new Byte[BOUND];
    StartEmpty(codec, inBuf, allowLarge);
    var blockStart;
    blockStart, currBlock := OpenFork(outBuf, numBlocks);
    var currBlockLen := outBufSize - currBlock.off;
    SizedFromStart(singleShot, filesize, numBlocks);
    var inBufPos, blockNr, currBlockOffset := 0, 0, 0;
    bs := [];
    while inBufPos < filesize
      invariant fresh(outBuf) && fresh(outBufBlock)
      invariant outBufBlock.Length == BOUND && outBuf != outBufBlock
      invariant outdecmpfsBuf[..] == old(outdecmpfsBuf[..])
      invariant blockNr <= numBlocks && inBufPos == CHUNK * blockNr
      invariant Blocks(codec, inBuf, allowLarge, blockNr) == Some(bs)
      invariant blockNr == 1 ==> !FitsInline(bs) || numBlocks > 1
      invariant blockStart == Ptr(outBuf, 0x104) && currBlock == Ptr(outBuf, Cursor(numBlocks, bs))
      invariant Sized(singleShot, filesize, numBlocks, bs, outBuf.Length, outBufSize, currBlockOffset, currBlockLen)
      invariant Image(outBuf[..], numBlocks, bs)
    {
      var source := inBuf[inBufPos..inBufPos + Min(filesize - inBufPos, CHUNK)];
      assert source == Chunk(inBuf, blockNr) by { IsChunk(inBuf, blockNr); }
      var ok;
      ok, cmpedsize, outBuf, outBufSize, blockStart, currBlock, currBlockOffset, currBlockLen :=
        MakeBlock(codec, source, allowLarge, outBufBlock, singleShot, outBuf, outBufSize, blockStart, currBlock,
                  currBlockOffset, currBlockLen, filesize, numBlocks, bs);
      if !ok {
        BlockFails(codec, inBuf, allowLarge, blockNr);
        outcome := Failed;
        return;
      }
      ghost var b := outBufBlock[..cmpedsize];
      BlockSucceeds(codec, inBuf, allowLarge, blockNr, bs, b);
      SizedAdvances(singleShot, filesize, numBlocks, bs, b, outBuf.Length, outBufSize, currBlockOffset, currBlockLen);
      if cmpedsize + outdecmpfsSize <= MAX_XATTR && numBlocks <= 1 {
        var form := StoreInline(outdecmpfsBuf, outdecmpfsSize, outBufBlock[..cmpedsize], filesize);
        bs := bs + [b];
        outcome := WentInline(form);
        return;
      }
      if currBlockOffset + cmpedsize <= currBlockLen {
        StoreBlock(currBlock, blockStart, inBufPos, outBufBlock[..cmpedsize], numBlocks, bs);
      } else {
        assert false;
      }
      bs := bs + [b];
      inBufPos := inBufPos + CHUNK;
      currBlock := currBlock.(off := currBlock.off + cmpedsize);
      currBlockOffset := currBlockOffset + cmpedsize;
      blockNr := blockNr + 1;
    }
    outcome := Filled;
  }

  /** Both build-time choices of `singleShot` yield the same form of the file, byte for byte. */
  method CompressFile(codec: Codec, inBuf: seq<Byte>, o: Options, singleShot: bool) returns (r: Encoded)
    requires Conforming(codec)
    ensures r == Encode(codec, inBuf, o)
  {
    hide Image, Packed, Conforming, Blocks, AttrHeader, Fork, Unprofitable, PassesGate, Sized, Cursor;
    var filesize := |inBuf|;
    if SkippedUnread(filesize, o.maxSize) {
      return Skipped;
    }
    GateIsExact(filesize);
    var numBlocks := (filesize + CHUNK - 1) / CHUNK;
    var outdecmpfsBuf := new Byte[MAX_XATTR];
    var outdecmpfsSize := WriteHeader(outdecmpfsBuf, ZLIB_FORK, filesize);
    var outcome, outBuf, outBufSize, currBlock;
    ghost var bs;
    outcome, outBuf, outBufSize, currBlock, bs :=
      FillFork(codec, inBuf, o.allowLarge, singleShot, numBlocks, outdecmpfsBuf, outdecmpfsSize);
    if outcome.Failed? {
      return Bailed;
    }
    if outcome.WentInline? {
      return outcome.form;
    }
    PackedBound(codec, inBuf, o.allowLarge, numBlocks);
    assert Cursor(numBlocks, bs) == MapOffset(bs) by { CursorAtEnd(bs); }
    assert outdecmpfsBuf[..outdecmpfsSize] == outdecmpfsBuf[..][..outdecmpfsSize];
    r := FinishFork(singleShot, outBuf, outBufSize, currBlock, outdecmpfsBuf[..outdecmpfsSize],
                    filesize, o.minSavings, bs);
  }

  /** What follows the loop when the blocks did not go inline. */
  method FinishFork(singleShot: bool, outBuf: array<Byte>, outBufSize: int, currBlock: Ptr, attr: seq<Byte>,
                    filesize: nat, minSavings: real, ghost bs: seq<seq<Byte>>)
    returns (r: Encoded)
    requires filesize > 0 && |attr| == ATTR_HEADER && bs != []
    requires currBlock == Ptr(outBuf, Cursor(|bs|, bs)) && Image(outBuf[..], |bs|, bs)
    requires exists offset, len :: Sized(singleShot, filesize, |bs|, bs, outBuf.Length, outBufSize, offset, len)
    requires |Packed(bs)| <= filesize + |bs|
    modifies outBuf
    ensures r == if Unprofitable(MapOffset(bs) + ATTR_HEADER + TRAILER, filesize, minSavings) then Bailed
                 else Forked(attr, Fork(bs))
  {
    hide Image, Packed, Fork, Unprofitable;
    if Unprofitable(currBlock.off + |attr| + TRAILER, filesize, minSavings) {
      return Bailed;
    }
    var outBuf, outBufSize, currBlock, blockStart := outBuf, outBufSize, currBlock, Ptr(outBuf, 0x104);
    if !singleShot {
      var currBlockOffset := currBlock.off;
      outBufSize := outBufSize + currBlockOffset + TRAILER;
      outBuf, blockStart, currBlock := Grow(outBuf, outBufSize + 1, currBlockOffset, |bs|, bs);
    }
    var fork := CloseFork(outBuf, blockStart, currBlock, bs);
    r := Forked(attr, fork);
  }

  lemma CursorAtEnd(bs: seq<seq<Byte>>)
    ensures Cursor(|bs|, bs) == MapOffset(bs)
  {
  }

  lemma SizedFromStart(singleShot: bool, size: nat, n: nat)
    ensures var room := if singleShot then size + 0x13A + n * 9 else 0x104 + 4 + n * 8;
      Sized(singleShot, size, n, [], room, room, 0, room - Cursor(n, []))
  {
  }

  /** Room for a block means it is stored without overrun and the bookkeeping goes on. */
  lemma SizedAdvances(singleShot: bool, size: nat, n: nat, bs: seq<seq<Byte>>, b: seq<Byte>, room: nat,
                      outBufSize: int, currBlockOffset: int, currBlockLen: int)
    requires Roomy(singleShot, size, n, bs, room, outBufSize, currBlockOffset, currBlockLen, |b|)
    requires |Packed(bs)| + |b| <= size + n
    ensures 0 <= currBlockOffset && currBlockOffset + |b| <= currBlockLen && Cursor(n, bs) + |b| <= room
    ensures Cursor(n, bs + [b]) == Cursor(n, bs) + |b|
    ensures Sized(singleShot, size, n, bs + [b], room, outBufSize, currBlockOffset + |b|, currBlockLen)
  {
    PackedSnoc(bs, b);
  }

  lemma StartEmpty(codec: Codec, data: seq<Byte>, allowLarge: bool)
    ensures Packed([]) == [] && Blocks(codec, data, allowLarge, 0) == Some([])
  {
  }

  lemma BlockFails(codec: Codec, data: seq<Byte>, allowLarge: bool, k: nat)
    requires k < NumChunks(|data|) && Block(codec, Chunk(data, k), allowLarge).None?
    ensures Blocks(codec, data, allowLarge, NumChunks(|data|)).None?
  {
    BlocksStayFailed(codec, data, allowLarge, k + 1, NumChunks(|data|));
  }

  /** One more block: it is in order, and in single-shot mode there is room for it. */
  lemma BlockSucceeds(codec: Codec, data: seq<Byte>, allowLarge: bool, k: nat, bs: seq<seq<Byte>>, b: seq<Byte>)
    requires k < NumChunks(|data|) && Blocks(codec, data, allowLarge, k) == Some(bs)
    requires Block(codec, Chunk(data, k), allowLarge) == Some(b)
    ensures Blocks(codec, data, allowLarge, k + 1) == Some(bs + [b])
    ensures |Packed(bs)| + |b| <= |data| + NumChunks(|data|)
  {
    PackedBound(codec, data, allowLarge, k + 1);
    PackedSnoc(bs, b);
  }

  method WriteHeader(buf: array<Byte>, kind: nat, size: nat) returns (used: nat)
    requires buf.Length == MAX_XATTR
    modifies buf
    ensures used == ATTR_HEADER && buf[..ATTR_HEADER] == AttrHeader(kind, size)
  {
    hide LE32, LE64;
    Memcpy(buf, 0, LE32(DECMPFS_MAGIC));
    Memcpy(buf, 4, LE32(kind));
    Memcpy(buf, 8, LE64(size));
    used := ATTR_HEADER;
  }

  /** The header's type is changed and the block put behind it. */
  method StoreInline(buf: array<Byte>, used: nat, b: seq<Byte>, size: nat) returns (r: Encoded)
    requires buf.Length == MAX_XATTR && used == ATTR_HEADER && used + |b| <= MAX_XATTR
    requires buf[..ATTR_HEADER] == AttrHeader(ZLIB_FORK, size)
    modifies buf
    ensures r == Inline(AttrHeader(ZLIB_XATTR, size) + b)
  {
    hide LE32, LE64;
    ghost var before := buf[..];
    Memcpy(buf, 4, LE32(ZLIB_XATTR));
    assert before[..4] == LE32(DECMPFS_MAGIC) && before[8..16] == LE64(size) by {
      assert before[..ATTR_HEADER][..4] == before[..4] && before[..ATTR_HEADER][8..16] == before[8..16];
    }
    assert buf[..][..ATTR_HEADER] == before[..4] + LE32(ZLIB_XATTR) + before[8..16];
    Memcpy(buf, used, b);
    r := Inline(buf[..used + |b|]);
    assert buf[..used + |b|] == buf[..][..used + |b|];
  }
}
