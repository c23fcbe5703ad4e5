/** What becomes of a file, said of the file and of the bytes that are written alone: when it is not
    taken, when it is given up, and which of the two forms it gets otherwise. */
module Outcome {
  import opened Wrappers
  import opened Bytes
  import opened Container
  import opened LzEncoder

  /** Empty, larger than asked for, or so large that the fork might not fit 31 bits. */
  predicate NotTaken(size: nat, maxSize: int) {
    || size == 0
    || (maxSize != 0 && size > maxSize)
    || size + 0x13A + 9 * ((size + 0xFFFF) / 0x10000) > 0x7FFF_FFFF
  }

  /** `stored` bytes are fewer than the file has, and save more than the percentage asked for. */
  predicate Saves(stored: nat, size: nat, minSavings: real) {
    && stored < size
    && (minSavings != 0.0 ==> (size - stored) as real * 100.0 > minSavings * size as real)
  }

  /** The two sides of the code's test. */
  lemma ProfitableExactly(newSize: nat, size: nat, minSavings: real)
    requires size > 0
    ensures Unprofitable(newSize, size, minSavings) <==> !Saves(newSize, size, minSavings)
  {
    var n, s := newSize as real, size as real;
    var q, b := n / s, 1.0 - minSavings / 100.0;
    assert q * s == n;
    assert (size - newSize) as real == s - n;
    Scaled(q, b, s);
    var least, asked := b * s, minSavings * s;
    assert least * 100.0 == s * 100.0 - asked;
    assert q >= b <==> (s - n) * 100.0 <= asked;
    assert newSize >= size <==> n >= s;
  }

  lemma Scaled(a: real, b: real, s: real)
    requires s > 0.0
    ensures a >= b <==> a * s >= b * s
  {
    if a >= b {
      assert (a - b) * s >= 0.0;
    } else {
      assert (b - a) * s > 0.0;
    }
  }

  /** Which 16-byte header opens an attribute: "fpmc", the type and the file's size. */
  predicate Opens(attr: seq<Byte>, kind: nat, size: nat) {
    |attr| >= 16 && LittleField(attr, 0) == 0x636d7066 && LittleField(attr, 4) == kind && FromLE64(attr[8..16]) == size
  }

  lemma HeaderOpens(kind: nat, size: nat, rest: seq<Byte>)
    requires kind < 0x1_0000_0000 && size < 0x1_0000_0000_0000_0000
    ensures var attr := AttrHeader(kind, size) + rest; Opens(attr, kind, size) && attr[16..] == rest
    ensures Opens(AttrHeader(kind, size), kind, size)
  {
    hide AttrHeader, FromLE32, FromLE64;
    AttrHeaderFields(kind, size, rest);
    AttrHeaderFields(kind, size, []);
    assert AttrHeader(kind, size) + [] == AttrHeader(kind, size);
  }

  lemma TakenExactly(size: nat, maxSize: int)
    ensures SkippedUnread(size, maxSize) <==> NotTaken(size, maxSize)
    ensures !NotTaken(size, maxSize) ==> 0 < size < 0x8000_0000 && NumChunks(size) > 0
    ensures NumChunks(size) <= 1 <==> size <= 0x10000
  {
    GateIsExact(size);
  }

  // ---------- ZLIB ----------

  /** The compressor fails on a chunk; or it does not shrink a full one, which is stored so only on
      request. */
  predicate Refused(codec: Codec, chunk: seq<Byte>, allowLarge: bool) {
    match codec.compress(chunk)
    case None => true
    case Some(c) => |c| > |chunk| == 0x10000 && !allowLarge
  }

  /** The stream, or if that is longer than the chunk, the byte 0xFF and the chunk. */
  predicate BlockFor(codec: Codec, chunk: seq<Byte>, b: seq<Byte>) {
    match codec.compress(chunk)
    case None => false
    case Some(c) => if |c| <= |chunk| then b == c else |b| == 1 + |chunk| && b[0] == 0xFF && b[1..] == chunk
  }

  predicate BlocksFor(codec: Codec, data: seq<Byte>, allowLarge: bool, bs: seq<seq<Byte>>) {
    && |bs| == NumChunks(|data|)
    && forall k :: 0 <= k < |bs| ==>
         !Refused(codec, Chunk(data, k), allowLarge) && BlockFor(codec, Chunk(data, k), bs[k])
  }

  lemma BlockExactly(codec: Codec, chunk: seq<Byte>, allowLarge: bool, b: seq<Byte>)
    ensures Block(codec, chunk, allowLarge) == None <==> Refused(codec, chunk, allowLarge)
    ensures Block(codec, chunk, allowLarge) == Some(b) <==>
      !Refused(codec, chunk, allowLarge) && BlockFor(codec, chunk, b)
  {
    if |b| > 0 && b[0] == RAW_MARK {
      assert b == [RAW_MARK] + b[1..];
    }
    assert ([RAW_MARK] + chunk)[1..] == chunk;
  }

  lemma {:induction false} BlocksExactly(codec: Codec, data: seq<Byte>, allowLarge: bool, bs: seq<seq<Byte>>, k: nat)
    requires BlocksFor(codec, data, allowLarge, bs) && k <= |bs|
    ensures Blocks(codec, data, allowLarge, k) == Some(bs[..k])
  {
    hide Block, Chunk, Refused, BlockFor;
    if k == 0 {
      assert bs[..0] == [];
    } else {
      BlocksExactly(codec, data, allowLarge, bs, k - 1);
      BlockExactly(codec, Chunk(data, k - 1), allowLarge, bs[k - 1]);
      assert bs[..k - 1] + [bs[k - 1]] == bs[..k];
    }
  }

  /** A file is skipped exactly when it is not taken; and one of which a chunk is refused is given
      up. */
  lemma ZlibGivesUp(codec: Codec, data: seq<Byte>, o: Options)
    ensures Encode(codec, data, o) == Skipped <==> NotTaken(|data|, o.maxSize)
    ensures !NotTaken(|data|, o.maxSize) ==>
      forall k :: 0 <= k < NumChunks(|data|) && Refused(codec, Chunk(data, k), o.allowLarge) ==>
        Encode(codec, data, o) == Bailed
  {
    hide Block, Refused, AttrHeader, Fork, Unprofitable, Chunk, SkippedUnread, NotTaken;
    TakenExactly(|data|, o.maxSize);
    if !NotTaken(|data|, o.maxSize) {
      forall k | 0 <= k < NumChunks(|data|) && Refused(codec, Chunk(data, k), o.allowLarge)
        ensures Blocks(codec, data, o.allowLarge, NumChunks(|data|)).None?
      {
        BlockExactly(codec, Chunk(data, k), o.allowLarge, []);
        BlocksStayFailed(codec, data, o.allowLarge, k + 1, NumChunks(|data|));
      }
    }
  }

  /** In all other cases: a single chunk whose block and header fit 3802 bytes goes inline; any other
      file gets the fork of its blocks exactly when fork and header save enough, and is given up
      when they do not. */
  lemma ZlibOutcome(codec: Codec, data: seq<Byte>, o: Options, bs: seq<seq<Byte>>)
    requires !NotTaken(|data|, o.maxSize) && BlocksFor(codec, data, o.allowLarge, bs)
    ensures match Encode(codec, data, o)
      case Skipped => false
      case Inline(attr) => |data| <= 0x10000 && 16 + |bs[0]| <= 3802 && Opens(attr, 3, |data|) && attr[16..] == bs[0]
      case Forked(attr, fork) =>
        && !(|data| <= 0x10000 && 16 + |bs[0]| <= 3802)
        && Opens(attr, 4, |data|) && |attr| == 16 && fork == Fork(bs)
        && Saves(|attr| + |fork|, |data|, o.minSavings)
      case Bailed =>
        && !(|data| <= 0x10000 && 16 + |bs[0]| <= 3802)
        && !Saves(16 + |Fork(bs)|, |data|, o.minSavings)
  {
    hide Encode, Unprofitable, Saves, AttrHeader, Fork, Opens, Blocks, NotTaken, SkippedUnread, Chunk, BlockFor,
      Refused;
    TakenExactly(|data|, o.maxSize);
    BlocksExactly(codec, data, o.allowLarge, bs, |bs|);
    assert bs[..|bs|] == bs;
    ZlibForms(codec, data, o, bs);
    HeaderOpens(3, |data|, bs[0]);
    HeaderOpens(4, |data|, []);
    ProfitableExactly(16 + |Fork(bs)|, |data|, o.minSavings);
  }

  lemma ZlibForms(codec: Codec, data: seq<Byte>, o: Options, bs: seq<seq<Byte>>)
    requires !SkippedUnread(|data|, o.maxSize) && |data| > 0 && |bs| == NumChunks(|data|) > 0
    requires Blocks(codec, data, o.allowLarge, NumChunks(|data|)) == Some(bs)
    ensures var inline := |bs| <= 1 && 16 + |bs[0]| <= 3802;
      Encode(codec, data, o) ==
        if inline then Inline(AttrHeader(3, |data|) + bs[0])
        else if Unprofitable(16 + |Fork(bs)|, |data|, o.minSavings) then Bailed
        else Forked(AttrHeader(4, |data|), Fork(bs))
  {
    assert |Fork(bs)| == MapOffset(bs) + 50;
    hide SkippedUnread, Blocks, AttrHeader, Fork, Unprofitable, MapOffset;
  }

  // ---------- LZVN and LZFSE ----------

  predicate LzBlocksFor(codec: LzCodec, data: seq<Byte>, bs: seq<seq<Byte>>) {
    && |bs| == NumChunks(|data|)
    && forall k :: 0 <= k < |bs| ==> bs[k] != [] && codec.encode(Chunk(data, k)) == Some(bs[k])
  }

  lemma {:induction false} LzBlocksExactly(codec: LzCodec, data: seq<Byte>, bs: seq<seq<Byte>>, k: nat)
    requires LzBlocksFor(codec, data, bs) && k <= |bs|
    ensures LzBlocks(codec, data, k) == Some(bs[..k])
  {
    hide Chunk;
    if k == 0 {
      assert bs[..0] == [];
    } else {
      LzBlocksExactly(codec, data, bs, k - 1);
      assert bs[..k - 1] + [bs[k - 1]] == bs[..k];
    }
  }

  predicate LzRefused(codec: LzCodec, chunk: seq<Byte>) {
    codec.encode(chunk) == None || codec.encode(chunk) == Some([])
  }

  lemma LzGivesUp(codec: LzCodec, kind: LzKind, data: seq<Byte>, o: Options)
    ensures LzEncode(codec, kind, data, o) == Skipped <==> NotTaken(|data|, o.maxSize)
    ensures !NotTaken(|data|, o.maxSize) ==>
      forall k :: 0 <= k < NumChunks(|data|) && LzRefused(codec, Chunk(data, k)) ==>
        LzEncode(codec, kind, data, o) == Bailed
  {
    hide AttrHeader, LzFork, Unprofitable, Chunk, SkippedUnread, NotTaken;
    TakenExactly(|data|, o.maxSize);
    if !NotTaken(|data|, o.maxSize) {
      forall k | 0 <= k < NumChunks(|data|) && LzRefused(codec, Chunk(data, k))
        ensures LzBlocks(codec, data, NumChunks(|data|)).None?
      {
        LzBlocksStayFailed(codec, data, k + 1, NumChunks(|data|));
      }
    }
  }

  /** The same for the other two, with their own numbers; the 50 bytes of a trailer that they do not
      have are counted all the same. */
  lemma LzOutcome(codec: LzCodec, kind: LzKind, data: seq<Byte>, o: Options, bs: seq<seq<Byte>>)
    requires !NotTaken(|data|, o.maxSize) && LzBlocksFor(codec, data, bs)
    ensures match LzEncode(codec, kind, data, o)
      case Skipped => false
      case Inline(attr) =>
        && |data| <= 0x10000 && 16 + |bs[0]| <= 3802
        && Opens(attr, if kind == LZVN then 7 else 11, |data|) && attr[16..] == bs[0]
      case Forked(attr, fork) =>
        && !(|data| <= 0x10000 && 16 + |bs[0]| <= 3802)
        && Opens(attr, if kind == LZVN then 8 else 12, |data|) && |attr| == 16 && fork == LzFork(bs)
        && Saves(|attr| + |fork| + 50, |data|, o.minSavings)
      case Bailed =>
        && !(|data| <= 0x10000 && 16 + |bs[0]| <= 3802)
        && !Saves(16 + |LzFork(bs)| + 50, |data|, o.minSavings)
  {
    hide LzEncode, Unprofitable, Saves, AttrHeader, LzFork, Opens, LzBlocks, NotTaken, SkippedUnread, Chunk;
    TakenExactly(|data|, o.maxSize);
    LzBlocksExactly(codec, data, bs, |bs|);
    assert bs[..|bs|] == bs;
    LzForms(codec, kind, data, o, bs);
    HeaderOpens(if kind == LZVN then 7 else 11, |data|, bs[0]);
    HeaderOpens(if kind == LZVN then 8 else 12, |data|, []);
    ProfitableExactly(16 + |LzFork(bs)| + 50, |data|, o.minSavings);
  }

  lemma LzForms(codec: LzCodec, kind: LzKind, data: seq<Byte>, o: Options, bs: seq<seq<Byte>>)
    requires !SkippedUnread(|data|, o.maxSize) && |data| > 0 && |bs| == NumChunks(|data|) > 0
    requires LzBlocks(codec, data, NumChunks(|data|)) == Some(bs)
    ensures var inline := |bs| <= 1 && 16 + |bs[0]| <= 3802;
      LzEncode(codec, kind, data, o) ==
        if inline then Inline(AttrHeader(if kind == LZVN then 7 else 11, |data|) + bs[0])
        else if Unprofitable(16 + |LzFork(bs)| + 50, |data|, o.minSavings) then Bailed
        else Forked(AttrHeader(if kind == LZVN then 8 else 12, |data|), LzFork(bs))
  {
    assert |LzFork(bs)| == LzOffset(bs, |bs|);
    hide SkippedUnread, LzBlocks, AttrHeader, LzFork, Unprofitable, LzOffset;
  }
}
