/** How a file is replaced by its compressed form and, where a check or a call fails, put back:
    the second half of `compressFile`, and the second half of `decompressFile`. Every system call
    may fail; what a run leaves on disk depends on which of them do. */
module Rewrite {
  import opened Wrappers
  import opened Bytes
  import opened Container
  import opened ZlibDecoder

  /** What reading a flagged file yields, from its attribute and its resource fork. */
  type Kernel = (Option<seq<Byte>>, Option<seq<Byte>>) -> Option<seq<Byte>>

  /** One run's schedule: for every call whether it succeeds, and for the calls that write the
      file's bytes how many of them reach the disk. */
  datatype Faults = Faults(
    makeBackup: bool,     // mkstemps and fdopen
    writeBackup: bool,    // fwrite to the backup
    backupStored: nat,    // what is in it after fclose, whose result is not looked at
    truncate: bool,       // ftruncate, whose result is not looked at
    setFork: bool,        // setxattr of the resource fork
    setAttr: bool,        // setxattr of com.apple.decmpfs
    setFlag: bool,        // fchflags
    removeAttr: bool,     // (f)removexattr
    removeFork: bool,
    restored: nat,        // write in restoreFile
    recheck: bool,        // open and stat for the check; false also for a failed read
    clearFlag: bool,      // chflags when reverting
    reopen: bool,         // fopen "w" when reverting
    rewrite: bool,        // fwrite when reverting
    rewritten: nat,       // what is in the file after it, or after fclose, whose result is not looked at
    unlink: bool)

  function Prefix(s: seq<Byte>, n: nat): (p: seq<Byte>)
    ensures p <= s && (p == s <==> n >= |s|)
  {
    if n < |s| then s[..n] else s
  }

  /** A write of `b` from the start of a file that holds `s`. */
  function Overwrite(s: seq<Byte>, b: seq<Byte>): seq<Byte> {
    if |b| <= |s| then b + s[|b|..] else b
  }

  /** The file, and its backup in /tmp. */
  class File {
    var data: seq<Byte>
    var rfork: Option<seq<Byte>>
    var decmpfs: Option<seq<Byte>>
    var flagged: bool
    var backup: Option<seq<Byte>>

    /** A regular file that is not compressed, with neither of the two attributes and no backup. */
    constructor (content: seq<Byte>)
      ensures data == content && Plain()
    {
      data, rfork, decmpfs, flagged, backup := content, None, None, false, None;
    }

    ghost predicate Plain()
      reads this
    {
      !flagged && rfork == None && decmpfs == None && backup == None
    }

    /** What a program that opens the file reads. */
    function Content(kernel: Kernel): Option<seq<Byte>>
      reads this
    {
      if flagged then kernel(decmpfs, rfork) else Some(data)
    }

    method Ftruncate(ok: bool)
      modifies this`data
      ensures data == if ok then [] else old(data)
    {
      if ok {
        data := [];
      }
    }

    /** restoreFile: false means the backup is kept. */
    method Restore(inBuf: seq<Byte>, restored: nat) returns (ok: bool)
      modifies this`data
      ensures data == Overwrite(old(data), Prefix(inBuf, restored))
      ensures ok <==> restored >= |inBuf|
      ensures old(data) == inBuf ==> data == inBuf
    {
      assert Overwrite(inBuf, Prefix(inBuf, restored)) == inBuf;
      data := Overwrite(data, Prefix(inBuf, restored));
      ok := restored >= |inBuf|;
    }

    method RemoveAttributes(forked: bool, f: Faults)
      modifies this`decmpfs, this`rfork
      ensures decmpfs == if f.removeAttr then None else old(decmpfs)
      ensures rfork == if forked && f.removeFork then None else old(rfork)
    {
      if f.removeAttr {
        decmpfs := None;
      }
      if forked && f.removeFork {
        rfork := None;
      }
    }

    /** The backup as it is made before anything is changed: false when that fails. */
    method MakeBackup(inBuf: seq<Byte>, f: Faults) returns (ok: bool)
      modifies this`backup
      ensures ok <==> f.makeBackup && f.writeBackup
      ensures backup == if f.makeBackup then Some(Prefix(inBuf, f.backupStored)) else old(backup)
    {
      if !f.makeBackup {
        return false;
      }
      backup := Some(Prefix(inBuf, f.backupStored));
      ok := f.writeBackup;
    }

    /** From the decision to write the compressed form to the label `bail`. The result says
        whether the backup's name has been dropped, so that the backup stays. */
    method Replace(inBuf: seq<Byte>, attr: seq<Byte>, fork: Option<seq<Byte>>, kernel: Kernel, checkFiles: bool,
                   f: Faults)
      returns (kept: bool)
      requires data == inBuf && inBuf != [] && !flagged && rfork == None && decmpfs == None
      modifies this`data, this`rfork, this`decmpfs, this`flagged
      ensures !kept && Content(kernel) != Some(inBuf) <==> Discards(inBuf, attr, fork, kernel, checkFiles, f)
      ensures kept && Content(kernel) != Some(inBuf) <==> FallsBack(inBuf, attr, fork, kernel, checkFiles, f)
      ensures flagged <==> Goes(fork, f) && (CheckFails(inBuf, attr, fork, kernel, checkFiles, f) ==> !f.clearFlag)
      ensures flagged ==>
        && decmpfs == Some(attr) && rfork == fork && data == (if f.truncate then [] else inBuf)
        && (kept <==> CheckFails(inBuf, attr, fork, kernel, checkFiles, f))
      ensures !flagged && Undoes(|inBuf|, f) ==>
        && !kept
        && (data == inBuf && decmpfs == None && rfork == None <==> !(fork.Some? && f.setFork && !f.setAttr))
    {
      var isTruncated := false;
      if fork.Some? {
        Ftruncate(f.truncate);
        if !f.setFork {
          var ok := Restore(inBuf, f.restored);
          return !ok;
        }
        rfork := fork;
        isTruncated := true;
      }
      if !f.setAttr {
        return false;
      }
      decmpfs := Some(attr);
      if !isTruncated {
        Ftruncate(f.truncate);
        isTruncated := true;
      }
      if !f.setFlag {
        RemoveAttributes(fork.Some?, f);
        var ok := Restore(inBuf, f.restored);
        return !ok;
      }
      flagged := true;
      kept := false;
      if checkFiles {
        if !f.recheck || Content(kernel) != Some(inBuf) {
          kept := Revert(inBuf, fork.Some?, f);
        }
      }
    }

    /** The label `fail`. */
    method Revert(inBuf: seq<Byte>, forked: bool, f: Faults) returns (kept: bool)
      modifies this`data, this`rfork, this`decmpfs, this`flagged
      ensures !f.clearFlag ==> kept && flagged == old(flagged) && decmpfs == old(decmpfs) && rfork == old(rfork)
      ensures f.clearFlag ==> !flagged && kept == !(f.reopen && f.rewrite)
      ensures f.clearFlag && f.removeAttr ==> decmpfs == None
      ensures f.clearFlag && f.removeFork && (!forked ==> old(rfork) == None) ==> rfork == None
      ensures data == if f.clearFlag && f.reopen then Prefix(inBuf, f.rewritten) else old(data)
    {
      if !f.clearFlag {
        return true;
      }
      flagged := false;
      RemoveAttributes(forked, f);
      if !f.reopen {
        return true;
      }
      data := [];
      data := Prefix(inBuf, f.rewritten);
      kept := !f.rewrite;
    }

    /** `compressFile` once the compressed form is known. A file that is skipped does not get as far
        as a backup. */
    method Compress(form: Encoded, kernel: Kernel, backupFile: bool, checkFiles: bool, f: Faults)
      requires data != [] && Plain()
      modifies this
      ensures (Content(kernel) == Some(old(data)) || backup == Some(old(data))) <==>
        !(Reached(form, backupFile, f) && Lost(old(data), form, kernel, backupFile, checkFiles, f))
      ensures backup == None || (backupFile && backup == Some(Prefix(old(data), f.backupStored)))
      ensures form.Skipped? ==> Plain() && data == old(data)
      ensures f.unlink && !Reached(form, backupFile, f) ==> backup == None
      ensures f.unlink && Completes(old(data), form, kernel, backupFile, checkFiles, f) ==> backup == None
      ensures !Reached(form, backupFile, f) ==> data == old(data) && !flagged && rfork == None && decmpfs == None
      ensures flagged <==> Stays(old(data), form, kernel, backupFile, checkFiles, f)
      ensures flagged ==>
        && decmpfs == Some(form.attr) && rfork == Payload(form) && data == (if f.truncate then [] else old(data))
        && (backup == None <==>
              !backupFile || (f.unlink && !CheckFails(old(data), form.attr, Payload(form), kernel, checkFiles, f)))
      // when every call that is to undo something succeeds, whatever else has failed
      ensures Undoes(|old(data)|, f) && f.unlink ==> backup == None
      ensures Undoes(|old(data)|, f) && !flagged ==>
        (data == old(data) && decmpfs == None && rfork == None <==>
          !(Reached(form, backupFile, f) && LeavesFork(form, f)))
    {
      if form.Skipped? {
        return;
      }
      var inBuf, kept := data, false;
      var ready := true;
      if backupFile {
        ready := MakeBackup(inBuf, f);
      }
      if ready && (form.Inline? || form.Forked?) {
        kept := Replace(inBuf, form.attr, Payload(form), kernel, checkFiles, f);
      }
      if !kept && f.unlink {
        backup := None;
      }
    }

    /** `decompressFile` once the data is decoded: clear the flag, write the data, drop the
        attributes; when the file cannot be opened or written, set the flag again. */
    method WriteBack(outBuf: seq<Byte>, forked: bool, f: BackFaults)
      requires flagged && |data| <= |outBuf|
      modifies this`data, this`rfork, this`decmpfs, this`flagged
      ensures forall kernel: Kernel :: old(Content(kernel)) == Some(outBuf) ==>
        (Content(kernel) == Some(outBuf) <==> !LostOnTheWayBack(outBuf, old(data), f))
      ensures f.clearFlag && f.reopen && f.write && f.written >= |outBuf| ==>
        !flagged && data == outBuf
        && (f.removeAttr ==> decmpfs == None) && (forked && f.removeFork ==> rfork == None)
        && (!forked ==> rfork == old(rfork))
    {
      if !f.clearFlag {
        return;
      }
      flagged := false;
      if !f.reopen {
        flagged := f.reflag;
        return;
      }
      assert Overwrite(outBuf, Prefix(outBuf, f.written)) == outBuf;
      data := Overwrite(data, Prefix(outBuf, f.written));
      if !f.write {
        flagged := f.reflag;
        return;
      }
      if f.removeAttr {
        decmpfs := None;
      }
      if forked && f.removeFork {
        rfork := None;
      }
    }
  }

  /** The schedule of the way back. */
  datatype BackFaults = BackFaults(
    clearFlag: bool,
    reopen: bool,    // fopen "r+"
    write: bool,     // fwrite
    written: nat,    // what reaches the disk, fclose included, whose result is not looked at
    reflag: bool,    // chflags after a failure
    removeAttr: bool,
    removeFork: bool)

  /** Nothing holds the data any more: the flag is off, and what is in the data fork is not it. */
  predicate LostOnTheWayBack(outBuf: seq<Byte>, before: seq<Byte>, f: BackFaults) {
    && f.clearFlag && before != outBuf
    && (if f.reopen then Overwrite(before, Prefix(outBuf, f.written)) != outBuf && (f.write || !f.reflag)
        else !f.reflag)
  }

  function Payload(form: Encoded): Option<seq<Byte>> {
    if form.Forked? then Some(form.fork) else None
  }

  /** The run gets to replacing the file. */
  predicate Reached(form: Encoded, backupFile: bool, f: Faults) {
    (form.Inline? || form.Forked?) && (backupFile ==> f.makeBackup && f.writeBackup)
  }

  /** All of the compressed form is in place. */
  predicate Goes(fork: Option<seq<Byte>>, f: Faults) {
    (fork.Some? ==> f.setFork) && f.setAttr && f.setFlag
  }

  /** The file is checked, and cannot be opened for it or does not read back as it was. */
  predicate CheckFails(inBuf: seq<Byte>, attr: seq<Byte>, fork: Option<seq<Byte>>, kernel: Kernel,
                       checkFiles: bool, f: Faults)
  {
    checkFiles && (!f.recheck || kernel(Some(attr), fork) != Some(inBuf))
  }

  /** The file ends up flagged as compressed. */
  predicate Stays(inBuf: seq<Byte>, form: Encoded, kernel: Kernel, backupFile: bool, checkFiles: bool, f: Faults) {
    && Reached(form, backupFile, f)
    && Goes(Payload(form), f)
    && (CheckFails(inBuf, form.attr, Payload(form), kernel, checkFiles, f) ==> !f.clearFlag)
  }

  /** Every call that undoes an earlier one succeeds. */
  predicate Undoes(size: nat, f: Faults) {
    f.removeAttr && f.removeFork && f.restored >= size && f.clearFlag && f.reopen && f.rewrite && f.rewritten >= size
  }

  /** The one way to give up that undoes nothing. */
  predicate LeavesFork(form: Encoded, f: Faults) {
    form.Forked? && f.setFork && !f.setAttr
  }

  /** Nothing goes wrong on the way, and the check, if there is one, is passed. */
  predicate Completes(inBuf: seq<Byte>, form: Encoded, kernel: Kernel, backupFile: bool, checkFiles: bool, f: Faults) {
    && Reached(form, backupFile, f)
    && Goes(Payload(form), f)
    && !CheckFails(inBuf, form.attr, Payload(form), kernel, checkFiles, f)
  }

  /** The three ways to end with the data gone and the backup about to be removed. */

  // 1. The attribute cannot be set after the resource fork has been, the data fork being empty.
  predicate AttrFailsAfterTruncation(fork: Option<seq<Byte>>, f: Faults) {
    fork.Some? && f.truncate && f.setFork && !f.setAttr
  }

  // 2. Nobody checks, and the system does not read back what was compressed.
  predicate UncheckedMisread(inBuf: seq<Byte>, attr: seq<Byte>, fork: Option<seq<Byte>>, kernel: Kernel,
                             checkFiles: bool, f: Faults)
  {
    Goes(fork, f) && !checkFiles && kernel(Some(attr), fork) != Some(inBuf)
  }

  // 3. The file is reverted, and the last bytes are lost when it is closed.
  predicate RevertCutShort(inBuf: seq<Byte>, attr: seq<Byte>, fork: Option<seq<Byte>>, kernel: Kernel,
                           checkFiles: bool, f: Faults)
  {
    && Goes(fork, f) && CheckFails(inBuf, attr, fork, kernel, checkFiles, f)
    && f.clearFlag && f.reopen && f.rewrite && f.rewritten < |inBuf|
  }

  predicate Discards(inBuf: seq<Byte>, attr: seq<Byte>, fork: Option<seq<Byte>>, kernel: Kernel,
                     checkFiles: bool, f: Faults)
  {
    || AttrFailsAfterTruncation(fork, f)
    || UncheckedMisread(inBuf, attr, fork, kernel, checkFiles, f)
    || RevertCutShort(inBuf, attr, fork, kernel, checkFiles, f)
  }

  /** The ways to end with the data gone from the file, and the backup left in place for that. */
  predicate FallsBack(inBuf: seq<Byte>, attr: seq<Byte>, fork: Option<seq<Byte>>, kernel: Kernel,
                      checkFiles: bool, f: Faults)
  {
    if fork.Some? && !f.setFork then f.truncate && f.restored < |inBuf|
    else if !f.setAttr then false
    else if !f.setFlag then f.truncate && f.restored < |inBuf|
    else
      && CheckFails(inBuf, attr, fork, kernel, checkFiles, f)
      && (if !f.clearFlag then kernel(Some(attr), fork) != Some(inBuf)
          else if !f.reopen then f.truncate
          else !f.rewrite && f.rewritten < |inBuf|)
  }

  /** Neither the file nor a backup holds the data: it was discarded and the backup, complete or
      not, could not outlive it; or the backup was left in place but is missing or incomplete. */
  predicate Lost(inBuf: seq<Byte>, form: Encoded, kernel: Kernel, backupFile: bool, checkFiles: bool, f: Faults) {
    var complete := backupFile && f.backupStored >= |inBuf|;
    && (form.Inline? || form.Forked?)
    && ((Discards(inBuf, form.attr, Payload(form), kernel, checkFiles, f) && !(complete && !f.unlink))
        || (FallsBack(inBuf, form.attr, Payload(form), kernel, checkFiles, f) && !complete))
  }

  // ---------- with the codec of this project ----------

  function ZlibKernel(codec: Codec): Kernel {
    (attr, fork) =>
      match DecodeFile(codec, attr, fork)
      case Ok(data) => Some(data)
      case Err(_) => None
  }

  /** The two failing calls that lose a file although its backup was complete: the `setxattr` of the
      attribute after the data fork is gone, and the `fclose` of a revert. */
  predicate LosesBoth(size: nat, form: Encoded, checkFiles: bool, f: Faults) {
    || (LeavesFork(form, f) && f.truncate)
    || ((form.Inline? || form.Forked?) && Goes(Payload(form), f) && checkFiles && !f.recheck
        && f.clearFlag && f.reopen && f.rewrite && f.rewritten < size)
  }

  /** The failing calls after which only a complete backup still holds the file. */
  predicate NeedsBackup(size: nat, form: Encoded, checkFiles: bool, f: Faults) {
    (form.Inline? || form.Forked?) &&
    if (form.Forked? && !f.setFork) || (f.setAttr && !f.setFlag) then f.truncate && f.restored < size
    else
      && Goes(Payload(form), f) && checkFiles && !f.recheck && f.clearFlag
      && (if f.reopen then !f.rewrite && f.rewritten < size else f.truncate)
  }

  /** With a conforming codec there is no other way to lose a file, so with a complete backup only
      the two. */
  lemma LostWithConformingCodec(codec: Codec, data: seq<Byte>, o: Options, backupFile: bool, checkFiles: bool,
                                f: Faults)
    requires Conforming(codec)
    ensures var form, complete := Encode(codec, data, o), backupFile && f.backupStored >= |data|;
      Lost(data, form, ZlibKernel(codec), backupFile, checkFiles, f) <==>
        || (LosesBoth(|data|, form, checkFiles, f) && !(complete && !f.unlink))
        || (NeedsBackup(|data|, form, checkFiles, f) && !complete)
  {
    hide Encode, DecodeFile;
    RoundTrip(codec, data, o, None);
  }

  const NO_FAULTS := Faults(true, true, 0x8000_0000, true, true, true, true, true, true, 0x8000_0000, true,
                            true, true, true, 0x8000_0000, true)

  /** The first of the two is real: one failing call, and neither the file nor a backup is left.
      This happens to every file that gets a resource fork. */
  method AttrFailureLosesFile(codec: Codec, content: seq<Byte>, o: Options) returns (file: File)
    requires Conforming(codec) && Encode(codec, content, o).Forked?
    ensures file.Content(ZlibKernel(codec)) != Some(content) && file.backup == None
  {
    ReadableSize(codec, content, o);
    hide Encode, DecodeFile;
    LostWithConformingCodec(codec, content, o, true, true, NO_FAULTS.(setAttr := false));
    file := new File(content);
    file.Compress(Encode(codec, content, o), ZlibKernel(codec), true, true, NO_FAULTS.(setAttr := false));
  }

  /** And so is the other: the check cannot open the file, and the revert is cut short. This happens
      to every file that is compressed. */
  method RevertLosesFile(codec: Codec, content: seq<Byte>, o: Options) returns (file: File)
    requires Conforming(codec) && (Encode(codec, content, o).Inline? || Encode(codec, content, o).Forked?)
    ensures file.Content(ZlibKernel(codec)) != Some(content) && file.backup == None
  {
    ReadableSize(codec, content, o);
    hide Encode, DecodeFile;
    LostWithConformingCodec(codec, content, o, true, true, NO_FAULTS.(recheck := false, rewritten := 0));
    file := new File(content);
    file.Compress(Encode(codec, content, o), ZlibKernel(codec), true, true,
                  NO_FAULTS.(recheck := false, rewritten := 0));
  }

  lemma ReadableSize(codec: Codec, data: seq<Byte>, o: Options)
    ensures Encode(codec, data, o) != Skipped ==> 0 < |data| <= MAX_SUPPORTED_SIZE
  {
    GateIsExact(|data|);
  }

  /** Such files exist: two chunks of zeros get a fork, and a single byte goes inline. */
  method LossesHappen() returns (forked: File, inline: File)
    ensures forked.Content(ZlibKernel(ZERO_RUNS)) != Some(TWO_CHUNKS) && forked.backup == None
    ensures inline.Content(ZlibKernel(ZERO_RUNS)) != Some([7]) && inline.backup == None
  {
    hide Encode, DecodeFile, Conforming;
    ConformingCodecExists();
    BothFormsOccur();
    forked := AttrFailureLosesFile(ZERO_RUNS, TWO_CHUNKS, PLAIN_OPTIONS);
    inline := RevertLosesFile(ZERO_RUNS, [7], PLAIN_OPTIONS);
  }
}
