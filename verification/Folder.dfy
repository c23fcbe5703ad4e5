/** The folder's record: the index of its file types in a growing array, and the accounting that
    `process_file_info` keeps in both. */
module Folder {
  import opened Wrappers
  import opened Ordering
  import opened Extension
  import opened FileTypes

  /** What stat and the extended attributes tell of a file. */
  datatype Stat = Stat(size: nat, blksize: nat, blocks: nat, compressed: bool)
  datatype Xattrs = Xattrs(forkSize: nat, compattrSize: nat, otherSize: nat, count: nat)

  /** Sizes of the file system's own records, which depend on the platform. */
  datatype Overhead = Overhead(attrKey: nat, catalogFile: nat)

  const S_BLKSIZE := 512

  /** What one file adds to every set of counters it counts in. */
  function Contribution(st: Stat, x: Xattrs, onAPFS: bool, o: Overhead): (c: Counters)
    requires st.blksize > 0
    ensures NonNegative(c)
  {
    if !st.compressed then
      var size := st.size + x.forkSize;
      var rounded := RoundToBlkSize(RoundToBlkSize(st.size, st.blksize) + x.forkSize, st.blksize);
      var total := rounded + x.compattrSize + x.otherSize
        + (if onAPFS then 0 else x.count * o.attrKey + o.catalogFile);
      Counters(size, rounded, size, rounded, 0, total, 0, 1)
    else
      var onDisk := st.blocks * S_BLKSIZE;
      Counters(st.size, RoundToBlkSize(st.size, st.blksize), onDisk, RoundToBlkSize(onDisk, st.blksize),
               x.compattrSize, onDisk, 1, 1)
  }

  /** What the rounded sizes of one file mean: each fork of a file takes up the least number of
      whole blocks that holds it, the two of an uncompressed file one after the other. */
  lemma WholeBlocks(st: Stat, x: Xattrs, onAPFS: bool, o: Overhead)
    requires st.blksize > 0
    ensures var c := Contribution(st, x, onAPFS, o);
      if st.compressed then
        && LeastMultiple(c.uncompressedRounded, st.size, st.blksize)
        && LeastMultiple(c.compressedRounded, 512 * st.blocks, st.blksize)
        && c.total == 512 * st.blocks
      else exists d, r ::
        && LeastMultiple(d, st.size, st.blksize) && LeastMultiple(r, x.forkSize, st.blksize)
        && c.uncompressedRounded == c.compressedRounded == d + r
        && c.total == d + r + x.compattrSize + x.otherSize
             + (if onAPFS then 0 else x.count * o.attrKey + o.catalogFile)
  {
    hide RoundToBlkSize, LeastMultiple;
    RoundedIsLeast(st.size, st.blksize);
    RoundedIsLeast(x.forkSize, st.blksize);
    RoundedIsLeast(st.blocks * S_BLKSIZE, st.blksize);
    RoundsTogether(st.size, x.forkSize, st.blksize);
  }

  lemma RoundsTogether(a: nat, b: nat, blksize: nat)
    requires blksize > 0
    ensures RoundToBlkSize(RoundToBlkSize(a, blksize) + b, blksize)
         == RoundToBlkSize(a, blksize) + RoundToBlkSize(b, blksize)
  {
    RoundedIsLeast(a, blksize);
    RoundedIsLeast(b, blksize);
    var d, r := RoundToBlkSize(a, blksize), RoundToBlkSize(b, blksize);
    RoundedIsLeast(d + b, blksize);
    SameMultiple(RoundToBlkSize(d + b, blksize), d, r, d + b, blksize);
  }

  /** A size has but one multiple of the block size less than a block above it. */
  lemma SameMultiple(r: nat, d: nat, e: nat, size: nat, b: nat)
    requires b > 0 && r % b == 0 && d % b == 0 && e % b == 0
    requires size <= r < size + b && size <= d + e < size + b
    ensures r == d + e
  {
    assert r == r / b * b && d == d / b * b && e == e / b * b;
    var k := r / b - d / b - e / b;
    assert r - (d + e) == k * b;
    if k >= 1 {
      Monotone(1, k, b);
    } else if k <= -1 {
      Monotone(1, -k, b);
    }
  }

  /** A file counts for its type when the list of wanted types names the type, says "ALL", or
      names the extension. */
  predicate Wanted(list: Option<seq<string>>, filetype: Option<string>, path: string) {
    list.Some? && filetype.Some? &&
    exists i :: 0 <= i < |list.value| && Names(list.value[i], filetype.value, ExtensionOf(path))
  }

  predicate Names(entry: string, filetype: string, extension: Option<string>) {
    || entry == filetype
    || entry == "ALL"
    || (extension.Some? && CaseCompare(extension.value, entry) == 0)
  }

  /** A file is wanted exactly when its type is known and the list has the type, or "ALL", or its
      extension in whatever case. */
  lemma WantedExactly(list: Option<seq<string>>, filetype: Option<string>, path: string)
    ensures Wanted(list, filetype, path) <==>
      && list.Some? && filetype.Some?
      && (filetype.value in list.value || "ALL" in list.value
          || exists e, x :: IsExtension(path, x) && e in list.value && SameIgnoringCase(x, e))
  {
    hide IsExtension, ExtensionOf, SameIgnoringCase, CaseCompare;
    forall x, e
      ensures ExtensionOf(path) == Some(x) <==> IsExtension(path, x)
      ensures CaseCompare(x, e) == 0 <==> SameIgnoringCase(x, e)
    {
      ExtensionExact(path, x);
      CaseCompareExactly(x, e);
    }
    if list.Some? && filetype.Some? {
      if Wanted(list, filetype, path) {
        var i :| 0 <= i < |list.value| && Names(list.value[i], filetype.value, ExtensionOf(path));
        assert list.value[i] in list.value;
      }
      if filetype.value in list.value {
        var i :| 0 <= i < |list.value| && list.value[i] == filetype.value;
        assert Names(list.value[i], filetype.value, ExtensionOf(path));
      }
      if "ALL" in list.value {
        var i :| 0 <= i < |list.value| && list.value[i] == "ALL";
        assert Names(list.value[i], filetype.value, ExtensionOf(path));
      }
      if e, x :| IsExtension(path, x) && e in list.value && SameIgnoringCase(x, e) {
        var i :| 0 <= i < |list.value| && list.value[i] == e;
        assert Names(list.value[i], filetype.value, ExtensionOf(path));
      }
    }
  }

  /** The folder's counters are the sum over all types and the files of no type. */
  ghost predicate Balanced(types: seq<FileType>, totals: Counters, unmatched: Counters) {
    totals == Plus(Sum(types), unmatched)
  }

  class FolderInfo {
    var filetypes: array?<FileType>
    var numfiletypes: nat
    var filetypessize: nat
    var totals: Counters
    ghost var index: Index
    ghost var unmatched: Counters

    constructor ()
      ensures Valid() && index == map[] && totals == ZERO && unmatched == ZERO && filetypes == null
    {
      hide TypesValid, Represents, Sum, Balanced;
      filetypes, numfiletypes, filetypessize, totals := null, 0, 0, ZERO;
      index, unmatched := map[], ZERO;
      NoTypes([], map[]);
    }

    /** The used part of the array. */
    function Types(): seq<FileType>
      reads this, filetypes
      requires filetypes != null ==> numfiletypes <= filetypes.Length
    {
      if filetypes == null then [] else filetypes[..numfiletypes]
    }

    /** The array is as long as it is said to be and covers the count; the index is sorted and
        holds what the map holds; and the folder's counters are the sum over all types and the
        files of no type. */
    ghost predicate Valid()
      reads this, filetypes
    {
      && Allocated() && (filetypes != null ==> numfiletypes > 0)
      && TypesValid(Types()) && Represents(Types(), index)
      && Balanced(Types(), totals, unmatched)
      && NonNegative(unmatched)
    }

    ghost predicate Allocated()
      reads this, filetypes
    {
      if filetypes == null then numfiletypes == 0
      else filetypes.Length == filetypessize >= 1 && numfiletypes <= filetypessize
    }

    /** First use, or no room for one more: a new array, of twice the size. */
    method MakeRoom()
      requires Allocated()
      modifies this`filetypes, this`filetypessize
      ensures Allocated() && filetypes != null && numfiletypes < filetypessize
      ensures Types() == old(Types())
      ensures filetypes == old(filetypes) || fresh(filetypes)
    {
      var filler := FileType("", [], 0, ZERO);
      if filetypes == null {
        filetypessize := 1;
        filetypes := new FileType[1](_ => filler);
      }
      if filetypessize < numfiletypes + 1 {
        var grown := new FileType[2 * filetypessize](_ => filler);
        forall i | 0 <= i < numfiletypes {
          grown[i] := filetypes[i];
        }
        filetypessize := 2 * filetypessize;
        filetypes := grown;
      }
    }

    /** The tail moves up by one, and `t` goes into the gap. */
    method InsertAt(at: nat, t: FileType)
      requires Allocated() && filetypes != null && at <= numfiletypes < filetypessize
      modifies this`numfiletypes, filetypes
      ensures Allocated() && numfiletypes == old(numfiletypes) + 1
      ensures Types() == old(Types())[..at] + [t] + old(Types())[at..]
    {
      forall i | at <= i < numfiletypes {
        filetypes[i + 1] := filetypes[i];
      }
      filetypes[at] := t;
      numfiletypes := numfiletypes + 1;
      ghost var r, s := Types(), old(Types());
      forall i | at < i < |r|
        ensures r[i] == s[i - 1]
      {
        assert r[i] == filetypes[i];
      }
      InsertedBySlices(s, at, t, r);
    }

    /** getFileTypeInfo for a known type: the position stands for the pointer. */
    method GetFileTypeInfo(path: string, filetype: string) returns (at: nat)
      requires Valid()
      modifies this, filetypes
      ensures Valid() && at < |Types()| && Types()[at].filetype == filetype
      ensures index == Seen(old(index), filetype, path)
      ensures totals == old(totals) && unmatched == old(unmatched)
      ensures filetypes == old(filetypes) || fresh(filetypes)
    {
      hide TypesValid, Represents, Sum, Plus, ExtensionsValid, ExtensionSet, NewExtension, Put;
      ghost var before := Types();
      var found;
      assert Sorted(Keys(before, TypeName)) by { ValidMeansSorted(before); }
      found, at := Search(Types(), TypeName, filetype);
      if found {
        var t := filetypes[at];
        ValidMeansValid(before, at);
        var t' := AddExtension(path, t);
        filetypes[at] := t';
        assert Types() == before[at := t'];
        ReplaceType(before, index, at, t');
        SumUpdates(before, at, t');
        CountersCancel(Sum(before), Sum(Types()), t.counters);
        index := Put(index, t');
        SeenAgain(old(index), before[at], t', path);
        return;
      }
      MakeRoom();
      var t := FileType(filetype, [], 0, ZERO);
      StartsEmpty(t);
      var t' := AddExtension(path, t);
      InsertAt(at, t');
      TypeInserted(before, at, t');
      RepresentsInserted(before, index, at, t');
      SumInserts(before, at, t');
      ZeroAdds(Sum(before));
      index := Put(index, t');
      SeenFirst(old(index), t, t', path);
    }

    /** Adding `c` to one type's counters and to the folder's. */
    method Count(at: nat, c: Counters)
      requires Valid() && at < |Types()|
      modifies this`index, this`totals, filetypes
      ensures Valid() && |Types()| == |old(Types())| && Types()[at].filetype == old(Types())[at].filetype
      ensures old(Types())[at].filetype in old(index)
      ensures index == Bump(old(index), old(Types())[at].filetype, c)
      ensures totals == Plus(old(totals), c)
    {
      hide TypesValid, Represents, Sum, Plus, ExtensionsValid, ExtensionSet;
      ghost var before := Types();
      var t := filetypes[at];
      ValidMeansValid(before, at);
      var t' := t.(counters := Plus(t.counters, c));
      SameExtensions(t, t');
      filetypes[at] := t';
      totals := Plus(totals, c);
      assert Types() == before[at := t'];
      ReplaceType(before, index, at, t');
      SumUpdates(before, at, t');
      CountersShift(Sum(before), Sum(Types()), t.counters, c, unmatched);
      index := Put(index, t');
    }

    /** One group of increments: to the folder's counters, and to those of the file's type if it
        has been looked up. */
    method Tally(at: Option<nat>, c: Counters)
      requires Valid() && NonNegative(c) && (at.Some? ==> at.value < |Types()|)
      modifies this`index, this`totals, this`unmatched, filetypes
      ensures Valid() && |Types()| == |old(Types())|
      ensures totals == Plus(old(totals), c)
      ensures match at
        case None => unmatched == Plus(old(unmatched), c) && index == old(index)
        case Some(i) =>
          && unmatched == old(unmatched)
          && Types()[i].filetype == old(Types())[i].filetype
          && old(Types())[i].filetype in old(index)
          && index == Bump(old(index), old(Types())[i].filetype, c)
    {
      hide TypesValid, Represents, Sum;
      if at.Some? {
        Count(at.value, c);
      } else {
        totals := Plus(totals, c);
        unmatched := Plus(unmatched, c);
      }
    }

    /** process_file_info for a file that is no further hard link. */
    method ProcessFileInfo(path: string, filetype: Option<string>, st: Stat, x: Xattrs, list: Option<seq<string>>,
                           onAPFS: bool, o: Overhead)
      requires Valid() && st.blksize > 0
      modifies this, filetypes
      ensures Valid()
      ensures totals == Plus(old(totals), Contribution(st, x, onAPFS, o))
      ensures if Wanted(list, filetype, path)
        then
          && unmatched == old(unmatched)
          && index == Counted(old(index), filetype.value, path, Contribution(st, x, onAPFS, o))
        else unmatched == Plus(old(unmatched), Contribution(st, x, onAPFS, o)) && index == old(index)
      ensures filetypes == old(filetypes) || fresh(filetypes)
    {
      hide TypesValid, Represents, Sum, Contribution, Wanted, Seen, Bump, Plus;
      var at := None;
      var wanted := IsWanted(path, filetype, list);
      if wanted {
        WantedHasType(list, filetype, path);
        var i := GetFileTypeInfo(path, filetype.value);
        at := Some(i);
      }
      var sizes, rest := Measure(st, x, onAPFS, o);
      Tally(at, ONE_FILE);
      Tally(at, sizes);
      Tally(at, rest);
      ThreeParts(old(totals), ONE_FILE, sizes, rest);
      ThreeParts(old(unmatched), ONE_FILE, sizes, rest);
      if wanted {
        BumpThrice(old(index), filetype.value, path, ONE_FILE, sizes, rest);
      }
    }

    /** The sums over all types, and for an inverted report what remains of the folder's; nothing
        when no file has counted for any type. */
    method Report(invert: bool) returns (report: Option<Counters>)
      requires Valid()
      ensures report == if index == map[] then None else Some(if invert then unmatched else Sum(Types()))
      ensures invert && report.Some? ==> NonNegative(report.value)
    {
      hide TypesValid, Represents, ExtensionsValid;
      EmptyTogether(Types(), index);
      if filetypes == null {
        return None;
      }
      var i, alltypesinfo := 0, ZERO;
      while i < numfiletypes
        invariant 0 <= i <= numfiletypes
        invariant alltypesinfo == Sum(Types()[..i])
      {
        alltypesinfo := Plus(alltypesinfo, filetypes[i].counters);
        assert Types()[..i + 1][..i] == Types()[..i];
        i := i + 1;
      }
      assert Types()[..i] == Types();
      if invert {
        alltypesinfo := Minus(totals, alltypesinfo);
      }
      return Some(alltypesinfo);
    }
  }

  /** The map with `c` added to one type's counters. */
  function Bump(index: Index, filetype: string, c: Counters): Index
    requires filetype in index
  {
    index[filetype := index[filetype].(counters := Plus(index[filetype].counters, c))]
  }

  /** The map after a file of a wanted type has been counted. */
  function Counted(index: Index, filetype: string, path: string, c: Counters): Index {
    Bump(Seen(index, filetype, path), filetype, c)
  }

  lemma BumpThrice(index: Index, filetype: string, path: string, a: Counters, b: Counters, c: Counters)
    ensures var seen := Seen(index, filetype, path);
      Bump(Bump(Bump(seen, filetype, a), filetype, b), filetype, c)
      == Counted(index, filetype, path, Plus(Plus(a, b), c))
  {
  }

  lemma ThreeParts(t: Counters, a: Counters, b: Counters, c: Counters)
    ensures Plus(Plus(Plus(t, a), b), c) == Plus(t, Plus(Plus(a, b), c))
  {
  }

  lemma WantedHasType(list: Option<seq<string>>, filetype: Option<string>, path: string)
    requires Wanted(list, filetype, path)
    ensures filetype.Some?
  {
  }

  const ONE_FILE := ZERO.(numFiles := 1)

  /** The sizes of a file, rounded step by step: the counters but the total, and the total. */
  method Measure(st: Stat, x: Xattrs, onAPFS: bool, o: Overhead) returns (sizes: Counters, rest: Counters)
    requires st.blksize > 0
    ensures NonNegative(sizes) && NonNegative(rest)
    ensures Plus(Plus(ONE_FILE, sizes), rest) == Contribution(st, x, onAPFS, o)
  {
    hide RoundToBlkSize;
    if !st.compressed {
      var filesize, filesizeRounded := st.size, RoundToBlkSize(st.size, st.blksize);
      RoundsUp(st.size, st.blksize);
      filesize := filesize + x.forkSize;
      RoundsUp(filesizeRounded + x.forkSize, st.blksize);
      filesizeRounded := RoundToBlkSize(filesizeRounded + x.forkSize, st.blksize);
      sizes := Counters(filesize, filesizeRounded, filesize, filesizeRounded, 0, 0, 0, 0);
      filesize := RoundToBlkSize(st.size, st.blksize);
      filesize := RoundToBlkSize(filesize + x.forkSize, st.blksize);
      filesize := filesize + x.compattrSize + x.otherSize;
      if !onAPFS {
        filesize := filesize + x.count * o.attrKey + o.catalogFile;
      }
      rest := ZERO.(total := filesize);
    } else {
      RoundsUp(st.size, st.blksize);
      RoundsUp(st.blocks * S_BLKSIZE, st.blksize);
      var filesize := st.blocks * S_BLKSIZE;
      sizes := Counters(st.size, RoundToBlkSize(st.size, st.blksize), filesize, RoundToBlkSize(filesize, st.blksize),
                        x.compattrSize, 0, 0, 0);
      rest := ZERO.(total := filesize, numCompressed := 1);
    }
  }

  /** The loop over the list of wanted types. */
  method IsWanted(path: string, filetype: Option<string>, list: Option<seq<string>>) returns (found: bool)
    ensures found <==> Wanted(list, filetype, path)
  {
    found := false;
    if list.Some? && filetype.Some? {
      var extension := FindExtension(path);
      var i := 0;
      while i < |list.value|
        invariant 0 <= i <= |list.value|
        invariant found <==> exists k :: 0 <= k < i && Names(list.value[k], filetype.value, extension)
      {
        if Names(list.value[i], filetype.value, extension) {
          found := true;
        }
        i := i + 1;
      }
    }
  }

  // ---------- any sequence of files ----------

  datatype Item = Item(path: string, filetype: Option<string>, st: Stat, x: Xattrs)

  /** What is the same for all files of a run. */
  datatype Run = Run(list: Option<seq<string>>, onAPFS: bool, o: Overhead)

  predicate Blocked(items: seq<Item>) {
    forall i :: 0 <= i < |items| ==> items[i].st.blksize > 0
  }

  predicate Counts(run: Run, item: Item, filetype: string) {
    Wanted(run.list, item.filetype, item.path) && item.filetype == Some(filetype)
  }

  function Share(run: Run, item: Item): Counters
    requires item.st.blksize > 0
  {
    Contribution(item.st, item.x, run.onAPFS, run.o)
  }

  function Total(run: Run, items: seq<Item>): Counters
    requires Blocked(items)
  {
    if items == [] then ZERO
    else Plus(Total(run, items[..|items| - 1]), Share(run, items[|items| - 1]))
  }

  function TotalUnmatched(run: Run, items: seq<Item>): Counters
    requires Blocked(items)
  {
    if items == [] then ZERO
    else
      var init, last := items[..|items| - 1], items[|items| - 1];
      if Wanted(run.list, last.filetype, last.path) then TotalUnmatched(run, init)
      else Plus(TotalUnmatched(run, init), Share(run, last))
  }

  function TotalOf(run: Run, items: seq<Item>, filetype: string): Counters
    requires Blocked(items)
  {
    if items == [] then ZERO
    else
      var init, last := items[..|items| - 1], items[|items| - 1];
      if Counts(run, last, filetype) then Plus(TotalOf(run, init, filetype), Share(run, last))
      else TotalOf(run, init, filetype)
  }

  // ---------- what the files add up to, from their sizes alone ----------

  function Added(items: seq<Item>, amount: Item -> int): int {
    if items == [] then 0 else Added(items[..|items| - 1], amount) + amount(items[|items| - 1])
  }

  /** The space of whole blocks that `size` bytes take up. */
  function InBlocks(size: nat, blksize: nat): nat {
    if blksize == 0 then 0 else (size + blksize - 1) / blksize * blksize
  }

  // The length of the file, with its resource fork unless that holds the compressed data.
  function Plain(item: Item): int {
    item.st.size + (if item.st.compressed then 0 else item.x.forkSize)
  }

  function PlainBlocks(item: Item): int {
    InBlocks(item.st.size, item.st.blksize)
    + (if item.st.compressed then 0 else InBlocks(item.x.forkSize, item.st.blksize))
  }

  // What it has on disk: by the count of its 512-byte blocks if it is compressed.
  function OnDisk(item: Item): int {
    if item.st.compressed then 512 * item.st.blocks else Plain(item)
  }

  function OnDiskBlocks(item: Item): int {
    if item.st.compressed then InBlocks(512 * item.st.blocks, item.st.blksize) else PlainBlocks(item)
  }

  // With everything that belongs to it, estimated for a file that is not compressed.
  function WithOverhead(run: Run): Item -> int {
    (item: Item) =>
      var records := if run.onAPFS then 0 else item.x.count * run.o.attrKey + run.o.catalogFile;
      if item.st.compressed then 512 * item.st.blocks
      else PlainBlocks(item) + item.x.compattrSize + item.x.otherSize + records
  }

  function AttrOf(item: Item): int {
    if item.st.compressed then item.x.compattrSize else 0
  }

  function OneIfCompressed(item: Item): int {
    if item.st.compressed then 1 else 0
  }

  /** `c` is what the files add up to. */
  ghost predicate AddsUp(run: Run, items: seq<Item>, c: Counters) {
    && c.uncompressed == Added(items, Plain)
    && c.uncompressedRounded == Added(items, PlainBlocks)
    && c.compressed == Added(items, OnDisk)
    && c.compressedRounded == Added(items, OnDiskBlocks)
    && c.compattr == Added(items, AttrOf)
    && c.total == Added(items, WithOverhead(run))
    && c.numCompressed == Added(items, OneIfCompressed)
    && c.numFiles == |items|
  }

  lemma BlocksAreLeast(size: nat, blksize: nat)
    requires blksize > 0
    ensures RoundToBlkSize(size, blksize) == InBlocks(size, blksize)
  {
    var q, r := size / blksize, size % blksize;
    assert size == q * blksize + r;
    if size == 0 {
      assert (blksize - 1) / blksize == 0;
    } else if r == 0 {
      Quotient(size + blksize - 1, blksize, q, blksize - 1);
    } else {
      assert (q + 1) * blksize == q * blksize + blksize;
      Quotient(size + blksize - 1, blksize, q + 1, r - 1);
      if size < blksize {
        Quotient(size, blksize, 0, size);
      }
    }
    if size > 0 && r == 0 && size < blksize {
      Quotient(size, blksize, 0, size);
    }
  }

  lemma Quotient(a: nat, b: nat, q: nat, r: nat)
    requires b > 0 && r < b && a == q * b + r
    ensures a / b == q && a % b == r
  {
    DivModUnique(a, b, q, r);
    assert a == a / b * b + r;
    assert (a / b - q) * b == 0;
  }

  lemma ShareAdds(run: Run, item: Item)
    requires item.st.blksize > 0
    ensures var c := Share(run, item);
      && c.uncompressed == Plain(item) && c.uncompressedRounded == PlainBlocks(item)
      && c.compressed == OnDisk(item) && c.compressedRounded == OnDiskBlocks(item)
      && c.compattr == AttrOf(item) && c.total == WithOverhead(run)(item)
      && c.numCompressed == OneIfCompressed(item) && c.numFiles == 1
  {
    var st, x := item.st, item.x;
    hide RoundToBlkSize, InBlocks;
    BlocksAreLeast(st.size, st.blksize);
    BlocksAreLeast(x.forkSize, st.blksize);
    BlocksAreLeast(512 * st.blocks, st.blksize);
    RoundsTogether(st.size, x.forkSize, st.blksize);
  }

  lemma {:induction false} TotalAdds(run: Run, items: seq<Item>)
    requires Blocked(items)
    ensures AddsUp(run, items, Total(run, items))
  {
    hide Share, Plain, PlainBlocks, OnDisk, OnDiskBlocks, AttrOf, OneIfCompressed, WithOverhead;
    if items != [] {
      TotalAdds(run, items[..|items| - 1]);
      ShareAdds(run, items[|items| - 1]);
    }
  }

  /** The files that count for a type, and those that count for none. */
  function OfType(run: Run, items: seq<Item>, filetype: string): (r: seq<Item>)
    ensures Blocked(items) ==> Blocked(r)
  {
    if items == [] then []
    else
      var last := items[|items| - 1];
      OfType(run, items[..|items| - 1], filetype) + (if Counts(run, last, filetype) then [last] else [])
  }

  function OfNone(run: Run, items: seq<Item>): (r: seq<Item>)
    ensures Blocked(items) ==> Blocked(r)
  {
    if items == [] then []
    else
      var last := items[|items| - 1];
      OfNone(run, items[..|items| - 1]) + (if Wanted(run.list, last.filetype, last.path) then [] else [last])
  }

  lemma TotalSnoc(run: Run, items: seq<Item>, item: Item)
    requires Blocked(items) && item.st.blksize > 0
    ensures Total(run, items + [item]) == Plus(Total(run, items), Share(run, item))
  {
    assert (items + [item])[..|items|] == items;
  }

  lemma {:induction false} SharesOfType(run: Run, items: seq<Item>, filetype: string)
    requires Blocked(items)
    ensures TotalOf(run, items, filetype) == Total(run, OfType(run, items, filetype))
  {
    hide Share, Counts;
    if items != [] {
      var init, last := items[..|items| - 1], items[|items| - 1];
      SharesOfType(run, init, filetype);
      TotalSnoc(run, OfType(run, init, filetype), last);
      assert OfType(run, init, filetype) + [] == OfType(run, init, filetype);
    }
  }

  lemma {:induction false} SharesOfNone(run: Run, items: seq<Item>)
    requires Blocked(items)
    ensures TotalUnmatched(run, items) == Total(run, OfNone(run, items))
  {
    hide Share, Wanted;
    if items != [] {
      var init, last := items[..|items| - 1], items[|items| - 1];
      SharesOfNone(run, init);
      TotalSnoc(run, OfNone(run, init), last);
      assert OfNone(run, init) + [] == OfNone(run, init);
    }
  }

  ghost predicate HasExtension(run: Run, items: seq<Item>, filetype: string, e: string) {
    exists i :: 0 <= i < |items| && Counts(run, items[i], filetype) && e in NewExtension(items[i].path)
  }

  /** The map says of every type what the files say: a type is known when a wanted file has it, its
      counters are the sum over its wanted files, and its extensions are theirs. */
  ghost predicate Tells(run: Run, items: seq<Item>, index: Index)
    requires Blocked(items)
  {
    && (forall k :: k in index <==> Known(run, items, k))
    && (forall k :: k in index ==> index[k].counters == TotalOf(run, items, k))
    && (forall k, e :: k in index ==> (e in index[k].extensions <==> HasExtension(run, items, k, e)))
  }

  ghost predicate Known(run: Run, items: seq<Item>, filetype: string) {
    exists i :: 0 <= i < |items| && Counts(run, items[i], filetype)
  }

  lemma TellsNext(run: Run, items: seq<Item>, index: Index, item: Item)
    requires Blocked(items) && item.st.blksize > 0 && Tells(run, items, index)
    ensures Tells(run, items + [item],
      if Wanted(run.list, item.filetype, item.path)
      then Counted(index, item.filetype.value, item.path, Share(run, item)) else index)
  {
    if Wanted(run.list, item.filetype, item.path) {
      WantedHasType(run.list, item.filetype, item.path);
      TellsWanted(run, items, index, item, item.filetype.value);
    } else {
      TellsOther(run, items, index, item);
    }
  }

  /** What one more file says of one type. */
  lemma OneMore(run: Run, items: seq<Item>, item: Item, k: string)
    requires Blocked(items) && item.st.blksize > 0
    ensures Known(run, items + [item], k) <==> Known(run, items, k) || Counts(run, item, k)
    ensures TotalOf(run, items + [item], k) ==
      if Counts(run, item, k) then Plus(TotalOf(run, items, k), Share(run, item)) else TotalOf(run, items, k)
  {
    hide Counts, Share;
    var all := items + [item];
    assert all[..|items|] == items && all[|items|] == item;
    assert forall i :: 0 <= i < |items| ==> all[i] == items[i];
  }

  lemma CountsOnly(run: Run, item: Item, filetype: string, k: string)
    requires Counts(run, item, filetype)
    ensures Counts(run, item, k) <==> k == filetype
  {
  }

  lemma TellsOther(run: Run, items: seq<Item>, index: Index, item: Item)
    requires Blocked(items) && item.st.blksize > 0 && Tells(run, items, index)
    requires !Wanted(run.list, item.filetype, item.path)
    ensures Tells(run, items + [item], index)
  {
    forall k
      ensures !Counts(run, item, k)
    {
    }
    hide Counts, Share, Wanted, HasExtension, NewExtension, TotalOf, Known;
    var all := items + [item];
    forall k
      ensures k in index <==> Known(run, all, k)
      ensures k in index ==> index[k].counters == TotalOf(run, all, k)
    {
      OneMore(run, items, item, k);
    }
    forall k, e
      ensures HasExtension(run, all, k, e) <==> HasExtension(run, items, k, e)
    {
      HasExtensionNext(run, items, item, k, e);
    }
  }

  lemma TellsWanted(run: Run, items: seq<Item>, index: Index, item: Item, filetype: string)
    requires Blocked(items) && item.st.blksize > 0 && Tells(run, items, index)
    requires Counts(run, item, filetype)
    ensures Tells(run, items + [item], Counted(index, filetype, item.path, Share(run, item)))
  {
    hide Counts, Share, HasExtension, NewExtension, TotalOf, Known, Counted, Plus, Tells;
    var index', all := Counted(index, filetype, item.path, Share(run, item)), items + [item];
    forall k
      ensures k in index' <==> Known(run, all, k)
      ensures k in index' ==> index'[k].counters == TotalOf(run, all, k)
    {
      TellsOfType(run, items, index, item, filetype, k);
    }
    forall k, e | k in index'
      ensures e in index'[k].extensions <==> HasExtension(run, all, k, e)
    {
      TellsOfExtension(run, items, index, item, filetype, k, e);
    }
    TellsAll(run, all, index');
  }

  lemma TellsAll(run: Run, items: seq<Item>, index: Index)
    requires Blocked(items)
    requires forall k :: k in index <==> Known(run, items, k)
    requires forall k :: k in index ==> index[k].counters == TotalOf(run, items, k)
    requires forall k, e :: k in index ==> (e in index[k].extensions <==> HasExtension(run, items, k, e))
    ensures Tells(run, items, index)
  {
  }

  lemma TellsOfType(run: Run, items: seq<Item>, index: Index, item: Item, filetype: string, k: string)
    requires Blocked(items) && item.st.blksize > 0 && Tells(run, items, index)
    requires Counts(run, item, filetype)
    ensures var index', all := Counted(index, filetype, item.path, Share(run, item)), items + [item];
      && (k in index' <==> Known(run, all, k))
      && (k in index' ==> index'[k].counters == TotalOf(run, all, k))
  {
    CountsOnly(run, item, filetype, k);
    OneMore(run, items, item, k);
    CountedIs(index, filetype, item.path, Share(run, item));
    if filetype !in index {
      NewType(run, items, index, filetype);
    }
    hide Counts, Share, HasExtension, NewExtension, TotalOf, Known, Counted, Plus;
  }

  lemma TellsOfExtension(run: Run, items: seq<Item>, index: Index, item: Item, filetype: string, k: string, e: string)
    requires Blocked(items) && item.st.blksize > 0 && Tells(run, items, index)
    requires Counts(run, item, filetype)
    ensures var index', all := Counted(index, filetype, item.path, Share(run, item)), items + [item];
      k in index' ==> (e in index'[k].extensions <==> HasExtension(run, all, k, e))
  {
    CountsOnly(run, item, filetype, k);
    HasExtensionNext(run, items, item, k, e);
    CountedIs(index, filetype, item.path, Share(run, item));
    if filetype !in index {
      NewType(run, items, index, filetype);
    }
    hide Counts, Share, HasExtension, NewExtension, TotalOf, Known, Counted, Plus;
  }

  lemma NewType(run: Run, items: seq<Item>, index: Index, filetype: string)
    requires Blocked(items) && Tells(run, items, index) && filetype !in index
    ensures TotalOf(run, items, filetype) == ZERO && forall e :: !HasExtension(run, items, filetype, e)
  {
    hide Counts;
    assert !Known(run, items, filetype);
    TotalOfNone(run, items, filetype);
  }

  lemma CountedIs(index: Index, filetype: string, path: string, c: Counters)
    ensures var index' := Counted(index, filetype, path, c);
      && index'.Keys == index.Keys + {filetype}
      && (forall k :: k in index && k != filetype ==> index'[k] == index[k])
      && index'[filetype] == (if filetype in index
          then Entry(index[filetype].extensions + NewExtension(path), Plus(index[filetype].counters, c))
          else Entry(NewExtension(path), Plus(ZERO, c)))
  {
    hide NewExtension, Plus;
    assert {} + NewExtension(path) == NewExtension(path);
  }

  lemma HasExtensionNext(run: Run, items: seq<Item>, item: Item, filetype: string, e: string)
    ensures HasExtension(run, items + [item], filetype, e) <==>
      HasExtension(run, items, filetype, e) || (Counts(run, item, filetype) && e in NewExtension(item.path))
  {
    hide Counts, NewExtension;
    var all := items + [item];
    assert forall i :: 0 <= i < |items| ==> all[i] == items[i];
    assert all[|items|] == item;
  }

  lemma {:induction false} TotalOfNone(run: Run, items: seq<Item>, filetype: string)
    requires Blocked(items) && forall i :: 0 <= i < |items| ==> !Counts(run, items[i], filetype)
    ensures TotalOf(run, items, filetype) == ZERO
  {
    if items != [] {
      TotalOfNone(run, items[..|items| - 1], filetype);
    }
  }

  /** After any sequence of files the record tells what the files say: the totals are what the files
      add up to, each type's counters what those of that type do, and the inverted report is
      exactly what the files of no wanted type add up to; there is one unless no file is wanted. */
  method ProcessAll(run: Run, items: seq<Item>) returns (folder: FolderInfo, others: Option<Counters>)
    requires Blocked(items)
    ensures folder.Valid() && Tells(run, items, folder.index)
    ensures AddsUp(run, items, folder.totals)
    ensures forall k :: k in folder.index ==> AddsUp(run, OfType(run, items, k), folder.index[k].counters)
    ensures others.Some? <==> exists k :: Known(run, items, k)
    ensures others.Some? ==> AddsUp(run, OfNone(run, items), others.value) && NonNegative(others.value)
  {
    hide Tells, Share, Wanted, Contribution, TypesValid, Represents, Balanced, Counted, Plus;
    folder := new FolderInfo();
    NothingToTell(run, items[..0], folder.index);
    var i := 0;
    while i < |items|
      invariant 0 <= i <= |items|
      invariant fresh(folder) && (folder.filetypes != null ==> fresh(folder.filetypes))
      invariant folder.Valid() && Tells(run, items[..i], folder.index)
      invariant folder.totals == Total(run, items[..i])
      invariant folder.unmatched == TotalUnmatched(run, items[..i])
    {
      var item := items[i];
      ghost var before := folder.index;
      folder.ProcessFileInfo(item.path, item.filetype, item.st, item.x, run.list, run.onAPFS, run.o);
      ShareIs(run, item);
      TellsNext(run, items[..i], before, item);
      assert items[..i + 1] == items[..i] + [item] && items[..i + 1][..i] == items[..i];
      i := i + 1;
    }
    assert items[..i] == items;
    others := folder.Report(true);
    NoneKnown(run, items, folder.index);
    AllAddUp(run, items, folder.index);
  }

  lemma AllAddUp(run: Run, items: seq<Item>, index: Index)
    requires Blocked(items) && Tells(run, items, index)
    ensures AddsUp(run, items, Total(run, items))
    ensures AddsUp(run, OfNone(run, items), TotalUnmatched(run, items))
    ensures forall k :: k in index ==> AddsUp(run, OfType(run, items, k), index[k].counters)
  {
    hide AddsUp, Known, HasExtension, TotalOf, OfType, OfNone, Total;
    TotalAdds(run, items);
    SharesOfNone(run, items);
    TotalAdds(run, OfNone(run, items));
    forall k | k in index
      ensures AddsUp(run, OfType(run, items, k), index[k].counters)
    {
      SharesOfType(run, items, k);
      TotalAdds(run, OfType(run, items, k));
    }
  }

  lemma NoneKnown(run: Run, items: seq<Item>, index: Index)
    requires Blocked(items) && Tells(run, items, index)
    ensures index == map[] <==> forall k :: !Known(run, items, k)
  {
    hide Known, TotalOf, HasExtension;
    if forall k :: !Known(run, items, k) {
      assert forall k :: k !in index;
    }
  }

  lemma NothingToTell(run: Run, items: seq<Item>, index: Index)
    requires |items| == 0 && index == map[]
    ensures Tells(run, items, index) && Total(run, items) == TotalUnmatched(run, items) == ZERO
  {
  }

  lemma ShareIs(run: Run, item: Item)
    requires item.st.blksize > 0
    ensures Share(run, item) == Contribution(item.st, item.x, run.onAPFS, run.o)
  {
  }

  // ---------- small steps ----------

  lemma RoundsUp(size: nat, blksize: nat)
    requires blksize > 0
    ensures RoundToBlkSize(size, blksize) >= size
  {
  }

  lemma NoTypes(types: seq<FileType>, index: Index)
    requires |types| == 0 && index == map[]
    ensures TypesValid(types) && Represents(types, index) && Balanced(types, ZERO, ZERO)
  {
    hide Sum;
    NoSum(types);
  }

  lemma NoSum(types: seq<FileType>)
    requires |types| == 0
    ensures Sum(types) == ZERO
  {
  }

  lemma EmptyTogether(types: seq<FileType>, index: Index)
    requires Represents(types, index)
    ensures types == [] <==> index == map[]
  {
    hide ExtensionSet;
    if types != [] {
      assert types[0].filetype in index;
    } else {
      assert forall k :: k !in index;
    }
  }

  lemma ValidMeansSorted(types: seq<FileType>)
    requires TypesValid(types)
    ensures Sorted(Keys(types, TypeName))
  {
  }

  lemma ValidMeansValid(types: seq<FileType>, at: nat)
    requires TypesValid(types) && at < |types|
    ensures ExtensionsValid(types[at])
  {
  }

  lemma ReplaceType(types: seq<FileType>, index: Index, at: nat, t: FileType)
    requires TypesValid(types) && Represents(types, index) && ExtensionsValid(t)
    requires at < |types| && types[at].filetype == t.filetype
    ensures TypesValid(types[at := t]) && Represents(types[at := t], Put(index, t))
    ensures Holds(index, types[at])
  {
    TypeUpdated(types, at, t);
    RepresentsUpdated(types, index, at, t);
  }

  lemma SameExtensions(t: FileType, t': FileType)
    requires ExtensionsValid(t) && t' == t.(counters := t'.counters)
    ensures ExtensionsValid(t') && ExtensionSet(t') == ExtensionSet(t)
  {
    assert t'.Extensions() == t.Extensions();
  }

  lemma StartsEmpty(t: FileType)
    requires t.slots == [] && t.numextensions == 0
    ensures ExtensionsValid(t) && ExtensionSet(t) == {}
  {
  }

  lemma SeenAgain(index: Index, t: FileType, t': FileType, path: string)
    requires Holds(index, t) && t'.Bounded() && t'.filetype == t.filetype && t'.counters == t.counters
    requires ExtensionSet(t') == ExtensionSet(t) + NewExtension(path)
    ensures Put(index, t') == Seen(index, t.filetype, path)
  {
  }

  lemma SeenFirst(index: Index, t: FileType, t': FileType, path: string)
    requires t.filetype !in index && t'.filetype == t.filetype && t.Bounded() && t'.Bounded()
    requires ExtensionSet(t) == {} && t.counters == t'.counters == ZERO
    requires ExtensionSet(t') == ExtensionSet(t) + NewExtension(path)
    ensures Put(index, t') == Seen(index, t.filetype, path)
  {
    assert {} + NewExtension(path) == NewExtension(path);
  }

  lemma CountersCancel(a: Counters, b: Counters, c: Counters)
    requires Plus(b, c) == Plus(a, c)
    ensures a == b
  {
  }

  lemma CountersShift(a: Counters, b: Counters, t: Counters, c: Counters, rest: Counters)
    requires Plus(b, t) == Plus(a, Plus(t, c))
    ensures Plus(b, rest) == Plus(Plus(a, rest), c)
  {
  }

  lemma ZeroAdds(a: Counters)
    ensures Plus(a, ZERO) == a
  {
  }
}
