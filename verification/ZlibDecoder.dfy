/** Reading a ZLIB-compressed file back, and the theorem that it returns what was compressed. */
module ZlibDecoder {
  import opened Wrappers
  import opened Bytes
  import opened Container

  datatype Error =
    | NoAttribute
    | ShortHeader
    | ZeroSize
    | NoMemory
    | NoFork
    | Incomplete
    | WrongSize
    | BadBlock
    | TooSmall
    | NoInlineData
    | OutsideBuffer  // the code would read or write outside its buffers here
    | Unsupported

  datatype Decoded = Ok(data: seq<Byte>) | Err(error: Error)

  // ---------- one block ----------

  /** The bytes a non-empty block stands for, given what the chunk may hold (`room`) and how much
      of the output buffer is left (`left`). */
  function DecodeBlock(codec: Codec, block: seq<Byte>, room: nat, left: nat): Decoded
    requires block != []
  {
    if block[0] == RAW_MARK then
      if |block| - 1 > left then Err(OutsideBuffer) else Ok(block[1..])
    else
      match codec.uncompress(block, room)
      case None => Err(BadBlock)
      case Some(piece) => Ok(piece)
  }

  /** Both the mark and a stream lead back to the chunk: a stream never starts with the mark. */
  lemma BlockRoundTrip(codec: Codec, chunk: seq<Byte>, allowLarge: bool, room: nat, left: nat)
    requires Conforming(codec) && 0 < |chunk| <= CHUNK
    requires Block(codec, chunk, allowLarge).Some?
    requires |chunk| <= room && |chunk| <= left
    ensures var b := Block(codec, chunk, allowLarge).value;
      b != [] && DecodeBlock(codec, b, room, left) == Ok(chunk)
  {
    var c := codec.compress(chunk).value;
    assert StreamFor(codec, chunk, c);
  }

  // ---------- the resource fork ----------

  /** The chunk that entry `k` of the table leads to. */
  function DecodeEntry(codec: Codec, fork: seq<Byte>, start: nat, n: nat, size: nat, k: nat): Decoded
    requires start + 4 + 8 * n <= |fork| && k < n && CHUNK * (n - 1) <= size
  {
    var at := start + LittleField(fork, start + 4 + 8 * k);
    var len := LittleField(fork, start + 8 + 8 * k);
    var room := if k + 1 != n then CHUNK else Min(size - CHUNK * k, CHUNK);
    if at + len > |fork| then Err(Incomplete)
    else if CHUNK * k + room > size then Err(WrongSize)
    else if len == 0 && (at == |fork| || fork[at] == RAW_MARK) then Err(OutsideBuffer)
    else
      var piece :=
        if len == 0 then
          match codec.uncompress([], room) case None => Err(BadBlock) case Some(p) => Ok(p)
        else DecodeBlock(codec, fork[at..at + len], room, size - CHUNK * k);
      if piece.Ok? && |piece.data| != Min(size - CHUNK * k, CHUNK) then Err(TooSmall)
      else piece
  }

  /** Entries `k` to `n`, appended to what has been decoded before them. */
  function DecodeEntries(codec: Codec, fork: seq<Byte>, start: nat, n: nat, size: nat, k: nat, done: seq<Byte>): Decoded
    requires start + 4 + 8 * n <= |fork| && k <= n && CHUNK * (n - 1) <= size
    decreases n - k
  {
    if k == n then Ok(done)
    else
      match DecodeEntry(codec, fork, start, n, size, k)
      case Err(e) => Err(e)
      case Ok(piece) => DecodeEntries(codec, fork, start, n, size, k + 1, done + piece)
  }

  /** Offsets and counts are added up in unsigned 32-bit arithmetic. */
  function Wrap32(v: int): nat {
    v % 0x1_0000_0000
  }

  function DecodeFork(codec: Codec, fork: seq<Byte>, size: nat): Decoded {
    if |fork| < 0x13A || |fork| < Wrap32(Field(fork, 0) + 4) then Err(Incomplete)
    else
      var start := Field(fork, 0) + 4;
      if start + 4 > |fork| then Err(OutsideBuffer)
      else
        var n := LittleField(fork, start);
        if |fork| < Wrap32(Field(fork, 0) + 0x3A + 8 * n) then Err(Incomplete)
        else if Wrap32(CHUNK * (n - 1)) + size % CHUNK > size then Err(WrongSize)
        else if n > 0x1_0000 || start + 4 + 8 * n > |fork| then Err(OutsideBuffer)
        else DecodeEntries(codec, fork, start, n, size, 0, [])
  }

  // ---------- the attribute ----------

  function DecodeInline(codec: Codec, attr: seq<Byte>, size: nat): Decoded
    requires ATTR_HEADER <= |attr|
  {
    if |attr| == ATTR_HEADER then Err(NoInlineData)
    else
      var piece := DecodeBlock(codec, attr[ATTR_HEADER..], size, size);
      if piece.Err? then piece
      else if |piece.data| != size then Err(TooSmall)
      else piece
  }

  function DecodeFile(codec: Codec, attr: Option<seq<Byte>>, fork: Option<seq<Byte>>): Decoded {
    if attr.None? || attr.value == [] then Err(NoAttribute)
    else if |attr.value| < ATTR_HEADER then Err(ShortHeader)
    else
      var size, kind := FromLE64(attr.value[8..16]), LittleField(attr.value, 4);
      if size == 0 then Err(ZeroSize)
      else if size >= 0x8000_0000_0000_0000 then Err(NoMemory)
      else if kind == ZLIB_FORK then
        if fork.None? || fork.value == [] then Err(NoFork) else DecodeFork(codec, fork.value, size)
      else if kind == ZLIB_XATTR then DecodeInline(codec, attr.value, size)
      else Err(Unsupported)
  }

  // ---------- round trip ----------

  lemma EntryDecodes(codec: Codec, data: seq<Byte>, allowLarge: bool, bs: seq<seq<Byte>>, k: nat)
    requires Conforming(codec) && data != [] && k < |bs|
    requires Blocks(codec, data, allowLarge, NumChunks(|data|)) == Some(bs)
    requires |Fork(bs)| < 0x1_0000_0000
    ensures DecodeEntry(codec, Fork(bs), 0x104, |bs|, |data|, k) == Ok(Chunk(data, k))
  {
    hide Fork, Chunk, Block, Blocks, DecodeBlock, LittleField, Packed, Conforming;
    BlockIs(codec, data, allowLarge, |bs|, k);
    ForkEntry(bs, k);
    var len := Min(|data| - CHUNK * k, CHUNK);
    BlockRoundTrip(codec, Chunk(data, k), allowLarge, len, |data| - CHUNK * k);
  }

  /** Decoding entry after entry rebuilds the file chunk after chunk. The fork is any one whose
      entries lead to the chunks. */
  lemma {:induction false} EntriesDecode(codec: Codec, data: seq<Byte>, fork: seq<Byte>, start: nat, k: nat)
    requires data != [] && k <= NumChunks(|data|) && start + 4 + 8 * NumChunks(|data|) <= |fork|
    requires CHUNK * (NumChunks(|data|) - 1) <= |data|
    requires forall j :: 0 <= j < NumChunks(|data|) ==>
      DecodeEntry(codec, fork, start, NumChunks(|data|), |data|, j) == Ok(Chunk(data, j))
    ensures DecodeEntries(codec, fork, start, NumChunks(|data|), |data|, k, data[..Min(CHUNK * k, |data|)]) == Ok(data)
    decreases NumChunks(|data|) - k
  {
    hide Chunk, DecodeEntry;
    if k < NumChunks(|data|) {
      ChunkExtends(data, k);
      EntriesDecode(codec, data, fork, start, k + 1);
    } else {
      assert data[..|data|] == data;
    }
  }

  /** A fork made from any file decodes to that file, through none of the rejections. */
  lemma ForkRoundTrip(codec: Codec, data: seq<Byte>, allowLarge: bool, bs: seq<seq<Byte>>)
    requires Conforming(codec) && data != [] && PassesGate(|data|)
    requires Blocks(codec, data, allowLarge, NumChunks(|data|)) == Some(bs)
    ensures DecodeFork(codec, Fork(bs), |data|) == Ok(data)
  {
    hide Blocks, FromLE32, FromBE32, DecodeEntries, ForkHead, Table, Trailer, Conforming, AllRaw,
      Packed, DecodeEntry, Chunk;
    GateIsExact(|data|);
    WorstCase(codec, data, allowLarge);
    ForkHeader(bs);
    forall j | 0 <= j < |bs|
      ensures DecodeEntry(codec, Fork(bs), 0x104, |bs|, |data|, j) == Ok(Chunk(data, j))
    {
      EntryDecodes(codec, data, allowLarge, bs, j);
    }
    EntriesDecode(codec, data, Fork(bs), 0x104, 0);
    assert data[..0] == [];
  }

  /** Whatever form the encoder chooses, the decoder, given the attribute and the fork that the
      chosen form names (and any fork at all when it names none), returns the original bytes. */
  lemma RoundTrip(codec: Codec, data: seq<Byte>, o: Options, otherFork: Option<seq<Byte>>)
    requires Conforming(codec)
    ensures match Encode(codec, data, o)
      case Forked(attr, fork) => DecodeFile(codec, Some(attr), Some(fork)) == Ok(data)
      case Inline(attr) => DecodeFile(codec, Some(attr), otherFork) == Ok(data)
      case _ => true
  {
    hide DecodeFile, Fork, AttrHeader, Blocks, Conforming, Unprofitable;
    if !SkippedUnread(|data|, o.maxSize) && Blocks(codec, data, o.allowLarge, NumChunks(|data|)).Some? {
      var bs := Blocks(codec, data, o.allowLarge, NumChunks(|data|)).value;
      GateIsExact(|data|);
      if FitsInline(bs) {
        InlineRoundTrip(codec, data, o.allowLarge, bs, otherFork);
      } else {
        ForkedRoundTrip(codec, data, o.allowLarge, bs);
      }
    }
  }

  lemma ForkedRoundTrip(codec: Codec, data: seq<Byte>, allowLarge: bool, bs: seq<seq<Byte>>)
    requires Conforming(codec) && data != [] && PassesGate(|data|)
    requires Blocks(codec, data, allowLarge, NumChunks(|data|)) == Some(bs)
    ensures DecodeFile(codec, Some(AttrHeader(ZLIB_FORK, |data|)), Some(Fork(bs))) == Ok(data)
  {
    hide Fork, AttrHeader, Blocks, FromLE32, FromLE64, DecodeFork, Packed, Conforming;
    ForkRoundTrip(codec, data, allowLarge, bs);
    AttrHeaderFields(ZLIB_FORK, |data|, []);
    assert AttrHeader(ZLIB_FORK, |data|) + [] == AttrHeader(ZLIB_FORK, |data|);
    GateIsExact(|data|);
  }

  lemma InlineRoundTrip(codec: Codec, data: seq<Byte>, allowLarge: bool, bs: seq<seq<Byte>>, fork: Option<seq<Byte>>)
    requires Conforming(codec) && data != [] && |data| <= MAX_SUPPORTED_SIZE
    requires Blocks(codec, data, allowLarge, NumChunks(|data|)) == Some(bs) && FitsInline(bs)
    ensures DecodeFile(codec, Some(AttrHeader(ZLIB_XATTR, |data|) + bs[0]), fork) == Ok(data)
  {
    hide AttrHeader, Block, FromLE32, FromLE64, DecodeBlock;
    BlockIs(codec, data, allowLarge, 1, 0);
    assert Chunk(data, 0) == data;
    BlockRoundTrip(codec, data, allowLarge, |data|, |data|);
    AttrHeaderFields(ZLIB_XATTR, |data|, bs[0]);
  }

  /** Whatever is decoded, from any attribute and any fork: the header is complete and names a size and
      one of the two ZLIB forms; inline data has just that size, and a fork's as many chunks of it as
      its table has entries. */
  lemma AcceptedOnlyIf(codec: Codec, attr: Option<seq<Byte>>, fork: Option<seq<Byte>>)
    ensures match DecodeFile(codec, attr, fork)
      case Err(_) => true
      case Ok(data) =>
        && attr.Some? && |attr.value| >= 16
        && var size, kind := FromLE64(attr.value[8..16]), LittleField(attr.value, 4);
          && 0 < size < 0x8000_0000_0000_0000
          && (kind == 3 || kind == 4)
          && (kind == 3 ==> |attr.value| > 16 && |data| == size)
          && (kind == 4 ==>
                && fork.Some? && |fork.value| >= 0x13A && Field(fork.value, 0) + 8 <= |fork.value|
                && var n := LittleField(fork.value, Field(fork.value, 0) + 4);
                  && |data| == Min(size, 0x10000 * n)
                  && (if n == 0 then size >= 0xFFFF_0000 else 0x10000 * (n - 1) <= size))
  {
    hide FromLE64, FromLE32, FromBE32, DecodeBlock, DecodeEntries;
    if attr.Some? && |attr.value| >= 16 && fork.Some? && |fork.value| >= 0x13A {
      ForkSizes(codec, fork.value, FromLE64(attr.value[8..16]));
    }
    hide DecodeFork;
  }

  lemma ForkSizes(codec: Codec, fork: seq<Byte>, size: nat)
    requires |fork| >= 0x13A
    ensures match DecodeFork(codec, fork, size)
      case Err(_) => true
      case Ok(data) =>
        && Field(fork, 0) + 8 <= |fork|
        && var n := LittleField(fork, Field(fork, 0) + 4);
          && |data| == Min(size, 0x10000 * n)
          && (if n == 0 then size >= 0xFFFF_0000 else 0x10000 * (n - 1) <= size)
  {
    hide FromLE32, FromBE32, DecodeEntries;
    if DecodeFork(codec, fork, size).Ok? {
      var start := Field(fork, 0) + 4;
      EntriesSizes(codec, fork, start, LittleField(fork, start), size, 0, []);
    }
  }

  lemma {:induction false} EntriesSizes(codec: Codec, fork: seq<Byte>, start: nat, n: nat, size: nat, k: nat,
                                        done: seq<Byte>)
    requires start + 4 + 8 * n <= |fork| && k <= n && CHUNK * (n - 1) <= size && |done| == Min(size, CHUNK * k)
    ensures match DecodeEntries(codec, fork, start, n, size, k, done)
      case Err(_) => true
      case Ok(data) => |data| == Min(size, CHUNK * n)
    decreases n - k
  {
    hide DecodeEntry;
    if k < n {
      match DecodeEntry(codec, fork, start, n, size, k)
      case Err(_) =>
      case Ok(piece) =>
        EntrySizes(codec, fork, start, n, size, k);
        EntriesSizes(codec, fork, start, n, size, k + 1, done + piece);
    }
  }

  /** The header's type names the place where the data is, no file of several blocks goes inline,
      and an attribute never outgrows what the file system takes. */
  lemma PathChoice(codec: Codec, data: seq<Byte>, o: Options)
    ensures match Encode(codec, data, o)
      case Forked(attr, fork) =>
        && LittleField(attr, 4) == ZLIB_FORK && |attr| == ATTR_HEADER
        && |attr| + |fork| < |data|
      case Inline(attr) =>
        && LittleField(attr, 4) == ZLIB_XATTR && ATTR_HEADER < |attr| <= MAX_XATTR
        && 0 < |data| <= CHUNK
      case _ => true
    requires Conforming(codec)
  {
    hide AttrHeader, FromLE32, FromLE64, Fork;
    if !SkippedUnread(|data|, o.maxSize) && Blocks(codec, data, o.allowLarge, NumChunks(|data|)).Some? {
      var bs := Blocks(codec, data, o.allowLarge, NumChunks(|data|)).value;
      GateIsExact(|data|);
      if FitsInline(bs) {
        BlockIs(codec, data, o.allowLarge, 1, 0);
        BlockRoundTrip(codec, Chunk(data, 0), o.allowLarge, CHUNK, CHUNK);
        AttrHeaderFields(ZLIB_XATTR, |data|, bs[0]);
      } else {
        AttrHeaderFields(ZLIB_FORK, |data|, []);
        assert AttrHeader(ZLIB_FORK, |data|) + [] == AttrHeader(ZLIB_FORK, |data|);
      }
    }
  }

  // ---------- the code: blocks are decoded into place in one output buffer ----------

  /** One turn of the block loop. */
  method DecodeEntryInto(codec: Codec, inBuf: seq<Byte>, blockStart: nat, numBlocks: nat, currBlock: nat,
                         outBuf: array<Byte>)
    returns (error: Option<Error>)
    requires Conforming(codec) && currBlock < numBlocks
    requires blockStart + 4 + 8 * numBlocks <= |inBuf| && CHUNK * (numBlocks - 1) <= outBuf.Length
    modifies outBuf
    ensures match DecodeEntry(codec, inBuf, blockStart, numBlocks, outBuf.Length, currBlock)
      case Err(e) => error == Some(e)
      case Ok(piece) =>
        && error == None
        && CHUNK * currBlock + |piece| <= outBuf.Length
        && outBuf[..] == Splice(old(outBuf[..]), CHUNK * currBlock, piece)
  {
    hide LittleField;
    var filesize := outBuf.Length;
    var block := blockStart + LittleField(inBuf, blockStart + 4 + 8 * currBlock);
    var size := LittleField(inBuf, blockStart + 8 + 8 * currBlock);
    if block + size > |inBuf| {
      return Some(Incomplete);
    }
    var uncmpedsize := if currBlock + 1 != numBlocks then CHUNK else Min(filesize - CHUNK * currBlock, CHUNK);
    if CHUNK * currBlock + uncmpedsize > filesize {
      return Some(WrongSize);
    }
    if size == 0 && (block == |inBuf| || inBuf[block] == RAW_MARK) {
      return Some(OutsideBuffer);
    }
    if size != 0 && inBuf[block] == RAW_MARK {
      uncmpedsize := size - 1;
      if CHUNK * currBlock + uncmpedsize > filesize {
        return Some(OutsideBuffer);
      }
      assert inBuf[block..block + size][1..] == inBuf[block + 1..block + size];
      Memcpy(outBuf, CHUNK * currBlock, inBuf[block + 1..block + size]);
    } else {
      var piece := codec.uncompress(inBuf[block..block + size], uncmpedsize);
      assert size == 0 ==> inBuf[block..block + size] == [];
      if piece.None? {
        return Some(BadBlock);
      }
      uncmpedsize := |piece.value|;
      Memcpy(outBuf, CHUNK * currBlock, piece.value);
    }
    if uncmpedsize != Min(filesize - CHUNK * currBlock, CHUNK) {
      return Some(TooSmall);
    }
    error := None;
  }

  /** The block loop. */
  method DecodeInto(codec: Codec, inBuf: seq<Byte>, blockStart: nat, numBlocks: nat, outBuf: array<Byte>)
    returns (error: Option<Error>)
    requires Conforming(codec)
    requires blockStart + 4 + 8 * numBlocks <= |inBuf| && CHUNK * (numBlocks - 1) <= outBuf.Length
    modifies outBuf
    ensures match DecodeEntries(codec, inBuf, blockStart, numBlocks, outBuf.Length, 0, [])
      case Err(e) => error == Some(e)
      case Ok(data) => error == None && data <= outBuf[..]
  {
    hide DecodeEntry, Conforming;
    var filesize := outBuf.Length;
    var currBlock := 0;
    ghost var done := [];
    while currBlock < numBlocks
      invariant 0 <= currBlock <= numBlocks
      invariant |done| == Min(CHUNK * currBlock, filesize)
      invariant done <= outBuf[..]
      invariant DecodeEntries(codec, inBuf, blockStart, numBlocks, filesize, 0, [])
             == DecodeEntries(codec, inBuf, blockStart, numBlocks, filesize, currBlock, done)
    {
      ghost var before := outBuf[..];
      ghost var entry := DecodeEntry(codec, inBuf, blockStart, numBlocks, filesize, currBlock);
      error := DecodeEntryInto(codec, inBuf, blockStart, numBlocks, currBlock, outBuf);
      if error.Some? {
        return;
      }
      EntrySizes(codec, inBuf, blockStart, numBlocks, filesize, currBlock);
      SpliceExtends(before, done, entry.data);
      done := done + entry.data;
      currBlock := currBlock + 1;
    }
    error := None;
  }

  lemma EntrySizes(codec: Codec, fork: seq<Byte>, start: nat, n: nat, size: nat, k: nat)
    requires start + 4 + 8 * n <= |fork| && k < n && CHUNK * (n - 1) <= size
    requires DecodeEntry(codec, fork, start, n, size, k).Ok?
    ensures |DecodeEntry(codec, fork, start, n, size, k).data| == Min(size - CHUNK * k, CHUNK)
  {
  }

  lemma SpliceExtends(s: seq<Byte>, done: seq<Byte>, piece: seq<Byte>)
    requires done <= s && |done| + |piece| <= |s|
    ensures done + piece <= Splice(s, |done|, piece)
  {
  }

  /** `decompressFile` up to the point where the data is ready to be written back. Where the code
      accepts a fork that fills only the front of the buffer, the rest of it is arbitrary. */
  method DecompressFile(codec: Codec, decmpfs: Option<seq<Byte>>, rfork: Option<seq<Byte>>) returns (r: Decoded)
    requires Conforming(codec)
    ensures match DecodeFile(codec, decmpfs, rfork)
      case Err(e) => r == Err(e)
      case Ok(data) => r.Ok? && data <= r.data && |r.data| == FromLE64(decmpfs.value[8..16])
  {
    hide LittleField, FromLE64, FromLE32, FromBE32, DecodeBlock, DecodeEntries, Conforming;
    if decmpfs.None? || decmpfs.value == [] {
      return Err(NoAttribute);
    }
    var attr := decmpfs.value;
    if |attr| < ATTR_HEADER {
      return Err(ShortHeader);
    }
    var filesize := FromLE64(attr[8..16]);
    if filesize == 0 {
      return Err(ZeroSize);
    }
    if filesize >= 0x8000_0000_0000_0000 {
      return Err(NoMemory);
    }
    var outBuf := new Byte[filesize];
    var compressionType := LittleField(attr, 4);
    if compressionType == ZLIB_FORK {
      if rfork.None? || rfork.value == [] {
        return Err(NoFork);
      }
      var error := DecodeForkInto(codec, rfork.value, outBuf);
      r := if error.Some? then Err(error.value) else Ok(outBuf[..]);
    } else if compressionType == ZLIB_XATTR {
      r := DecodeInline(codec, attr, filesize);
    } else {
      r := Err(Unsupported);
    }
  }

  method DecodeForkInto(codec: Codec, inBuf: seq<Byte>, outBuf: array<Byte>) returns (error: Option<Error>)
    requires Conforming(codec) && outBuf.Length > 0
    modifies outBuf
    ensures match DecodeFork(codec, inBuf, outBuf.Length)
      case Err(e) => error == Some(e)
      case Ok(data) => error == None && data <= outBuf[..]
  {
    hide LittleField, FromBE32, DecodeEntries, Conforming;
    var filesize, inRFLen := outBuf.Length, |inBuf|;
    if inRFLen < 0x13A || inRFLen < Wrap32(Field(inBuf, 0) + 4) {
      return Some(Incomplete);
    }
    var blockStart := Field(inBuf, 0) + 4;
    if blockStart + 4 > inRFLen {
      return Some(OutsideBuffer);
    }
    var numBlocks: int := LittleField(inBuf, blockStart);
    if inRFLen < Wrap32(Field(inBuf, 0) + 0x3A + 8 * numBlocks) {
      return Some(Incomplete);
    }
    if Wrap32(CHUNK * (numBlocks - 1)) + filesize % CHUNK > filesize {
      return Some(WrongSize);
    }
    if numBlocks > 0x1_0000 || blockStart + 4 + 8 * numBlocks > inRFLen {
      return Some(OutsideBuffer);
    }
    error := DecodeInto(codec, inBuf, blockStart, numBlocks, outBuf);
  }
}
