/** The pieces together: a file through compression, an archive and decompression, and a file
    compressed and decompressed on disk. */
module EndToEnd {
  import opened Wrappers
  import opened Bytes
  import opened Container
  import opened ZlibDecoder
  import opened Archive
  import opened Rewrite
  import ZlibEncoder

  // ---------- through an archive ----------

  function Lookup(attrs: seq<Attr>, name: seq<Byte>): Option<seq<Byte>> {
    if attrs == [] then None
    else
      var last := attrs[|attrs| - 1];
      if last.name == name then Some(last.data) else Lookup(attrs[..|attrs| - 1], name)
  }

  lemma {:induction false} LookupKept(listed: seq<Attr>, name: seq<Byte>)
    requires name == DECMPFS_NAME || name == FORK_NAME
    requires Lookup(listed, name) != Some([])
    ensures Lookup(Kept(listed), name) == Lookup(listed, name)
  {
    if listed != [] {
      var init, last := listed[..|listed| - 1], listed[|listed| - 1];
      if Archived(last) {
        assert Kept(listed)[..|Kept(listed)| - 1] == Kept(init);
      } else {
        assert Kept(listed) == Kept(init);
      }
      if last.name != name {
        LookupKept(init, name);
      }
    }
  }

  lemma {:induction false} KeptNames(listed: seq<Attr>, name: seq<Byte>)
    requires HasName(Kept(listed), name)
    ensures HasName(listed, name)
  {
    var init, last := listed[..|listed| - 1], listed[|listed| - 1];
    if last.name != name {
      var i :| 0 <= i < |Kept(listed)| && Kept(listed)[i].name == name;
      assert Kept(init)[i].name == name;
      KeptNames(init, name);
      var k :| 0 <= k < |init| && init[k].name == name;
      assert listed[k].name == name;
    } else {
      assert listed[|listed| - 1].name == name;
    }
  }

  /** What goes into an archive can always be read back from it. */
  lemma {:induction false} KeptReadable(listed: seq<Attr>)
    requires Listed([], listed)
    ensures Listed([], Kept(listed)) && AllReadable(Kept(listed))
  {
    if listed != [] {
      var init, last := listed[..|listed| - 1], listed[|listed| - 1];
      forall i | 0 <= i < |init|
        ensures !HasName([], init[i].name) && !HasName(init[..i], init[i].name)
        ensures 0 !in init[i].name && |init[i].data| < 0x1_0000_0000_0000_0000
      {
        assert init[i] == listed[i] && init[..i] == listed[..i];
      }
      KeptReadable(init);
      var kept := Kept(init);
      if Archived(last) {
        assert !HasName(kept, last.name) by {
          if HasName(kept, last.name) {
            KeptNames(init, last.name);
          }
        }
        ListedSnoc(kept, last);
      }
    }
  }

  lemma ListedSnoc(attrs: seq<Attr>, a: Attr)
    requires Listed([], attrs) && AllReadable(attrs) && !HasName(attrs, a.name)
    requires 0 !in a.name && |a.data| < 0x1_0000_0000_0000_0000 && Archived(a)
    ensures Listed([], attrs + [a]) && AllReadable(attrs + [a])
  {
    var all := attrs + [a];
    forall i | 0 <= i < |all|
      ensures !HasName(all[..i], all[i].name) && !HasName([], all[i].name)
    {
      if i < |attrs| {
        assert all[..i] == attrs[..i];
      } else {
        assert all[..i] == attrs;
      }
    }
  }

  /** A compressed file's attributes, among any others it may have, survive an archive, and what
      comes out decodes to the file that was compressed. */
  lemma ArchivedFileDecodes(codec: Codec, data: seq<Byte>, o: Options, mode: nat, listed: seq<Attr>)
    requires Conforming(codec) && mode < 0x1_0000 && Listed([], listed)
    requires var form := Encode(codec, data, o);
      && (form.Inline? || form.Forked?)
      && Lookup(listed, DECMPFS_NAME) == Some(form.attr) && Lookup(listed, FORK_NAME) == Payload(form)
    ensures var out := Parse(Serialize(mode, Kept(listed)));
      && out == Extracted(mode, Kept(listed))
      && DecodeFile(codec, Lookup(out.attrs, DECMPFS_NAME), Lookup(out.attrs, FORK_NAME)) == Ok(data)
  {
    hide DecodeFile, Parse, Serialize, Encode, Listed, AllReadable;
    KeptReadable(listed);
    ArchiveRoundTrip(mode, Kept(listed));
    RoundTrip(codec, data, o, None);
    FormsAreNotEmpty(codec, data, o);
    LookupKept(listed, DECMPFS_NAME);
    LookupKept(listed, FORK_NAME);
  }

  lemma FormsAreNotEmpty(codec: Codec, data: seq<Byte>, o: Options)
    ensures match Encode(codec, data, o)
      case Inline(attr) => attr != []
      case Forked(attr, fork) => attr != [] && fork != []
      case _ => true
  {
    hide AttrHeader, Fork, Blocks, Unprofitable;
  }

  // ---------- on disk ----------

  /** `compressFile` on a file on disk, for either way of sizing the buffer: whatever fails, the
      file can still be read or its backup is complete, except after one of the failing calls named
      in `Rewrite`. */
  method CompressOnDisk(codec: Codec, file: File, o: Options, singleShot: bool, backupFile: bool, check: bool,
                        f: Faults)
    requires Conforming(codec) && file.data != [] && file.Plain()
    modifies file
    ensures var form := Encode(codec, old(file.data), o);
      var size := |old(file.data)|;
      var complete := backupFile && f.backupStored >= size;
      (file.Content(ZlibKernel(codec)) == Some(old(file.data)) || file.backup == Some(old(file.data))) <==>
        !(Reached(form, backupFile, f)
          && ((LosesBoth(size, form, check, f) && !(complete && !f.unlink))
              || (NeedsBackup(size, form, check, f) && !complete)))
    ensures file.flagged ==> file.Content(ZlibKernel(codec)) == Some(old(file.data))
  {
    hide Encode, DecodeFile, Conforming, LosesBoth, NeedsBackup;
    var form := ZlibEncoder.CompressFile(codec, file.data, o, singleShot);
    RoundTrip(codec, file.data, o, None);
    LostWithConformingCodec(codec, file.data, o, backupFile, check, f);
    file.Compress(form, ZlibKernel(codec), backupFile, check, f);
  }

  /** Every call of the way back succeeds. */
  predicate Undone(size: nat, g: BackFaults) {
    g.clearFlag && g.reopen && g.write && g.written >= size && g.removeAttr && g.removeFork
  }

  /** The file is lost when it is compressed. */
  predicate LostThere(codec: Codec, content: seq<Byte>, o: Options, backup: bool, check: bool, f: Faults) {
    var form := Encode(codec, content, o);
    Reached(form, backup, f) && Lost(content, form, ZlibKernel(codec), backup, check, f)
  }

  /** It is not, but when it is decompressed again; and no complete backup has stayed behind. */
  predicate LostBack(codec: Codec, content: seq<Byte>, o: Options, backup: bool, check: bool, f: Faults,
                     g: BackFaults)
  {
    var form := Encode(codec, content, o);
    && Stays(content, form, ZlibKernel(codec), backup, check, f)
    && f.truncate && g.clearFlag
    && (if g.reopen then g.written < |content| && (g.write || !g.reflag) else !g.reflag)
    && !(backup && f.backupStored >= |content| && (!f.unlink || (check && !f.recheck)))
  }

  /** Compressing a file and decompressing it again, whatever fails on the way: what was in it is
      lost exactly as said above. And when all calls succeed that undo something, even after others
      have failed, the file is as it was, with no attribute, flag or backup, unless a fork has been
      left behind. */
  method ThereAndBack(codec: Codec, content: seq<Byte>, o: Options, singleShot: bool, backup: bool, check: bool,
                      f: Faults, g: BackFaults)
    returns (file: File)
    requires Conforming(codec) && content != []
    ensures (file.Content(ZlibKernel(codec)) == Some(content) || file.backup == Some(content)) <==>
      !LostThere(codec, content, o, backup, check, f) && !LostBack(codec, content, o, backup, check, f, g)
    ensures Undoes(|content|, f) && f.unlink && Undone(|content|, g) ==>
      (file.Plain() && file.data == content <==>
        !(Reached(Encode(codec, content, o), backup, f) && LeavesFork(Encode(codec, content, o), f)))
  {
    hide Encode, DecodeFile, Conforming, Lost, LostOnTheWayBack, Undoes;
    file := new File(content);
    var form := ZlibEncoder.CompressFile(codec, content, o, singleShot);
    RoundTrip(codec, content, o, None);
    EncodedSize(codec, content, o);
    file.Compress(form, ZlibKernel(codec), backup, check, f);
    if file.flagged {
      assert file.Content(ZlibKernel(codec)) == Some(content);
      assert !LostThere(codec, content, o, backup, check, f);
      ghost var left := file.data;
      var decoded := DecompressFile(codec, file.decmpfs, file.rfork);
      file.WriteBack(decoded.data, file.rfork.Some?, g);
      assert decoded.data == content;
      assert left == if f.truncate then [] else content;
      assert file.Content(ZlibKernel(codec)) == Some(content) <==> !LostOnTheWayBack(content, left, g);
      LostFromEmptied(content, f.truncate, g);
      assert file.backup == Some(content) <==>
        (backup && f.backupStored >= |content| && (!f.unlink || (check && !f.recheck)));
    }
  }

  /** On the way back from an emptied data fork, and from one that was not. */
  lemma LostFromEmptied(content: seq<Byte>, emptied: bool, g: BackFaults)
    requires content != []
    ensures LostOnTheWayBack(content, if emptied then [] else content, g) <==>
      && emptied && g.clearFlag
      && (if g.reopen then g.written < |content| && (g.write || !g.reflag) else !g.reflag)
  {
  }

  lemma EncodedSize(codec: Codec, data: seq<Byte>, o: Options)
    ensures match Encode(codec, data, o)
      case Inline(attr) => |attr| >= 16 && FromLE64(attr[8..16]) == |data| < 0x8000_0000
      case Forked(attr, fork) => |attr| >= 16 && FromLE64(attr[8..16]) == |data| < 0x8000_0000
      case _ => true
  {
    hide AttrHeader, Fork, Unprofitable, FromLE64, Blocks;
    if !SkippedUnread(|data|, o.maxSize) {
      GateIsExact(|data|);
      AttrHeaderFields(ZLIB_FORK, |data|, []);
      assert AttrHeader(ZLIB_FORK, |data|) + [] == AttrHeader(ZLIB_FORK, |data|);
      if Blocks(codec, data, o.allowLarge, NumChunks(|data|)).Some? {
        var bs := Blocks(codec, data, o.allowLarge, NumChunks(|data|)).value;
        if FitsInline(bs) {
          AttrHeaderFields(ZLIB_XATTR, |data|, bs[0]);
        }
      }
    }
  }
}
