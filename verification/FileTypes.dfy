/** The index of file types and their extensions, and the counters kept with it and with the
    whole folder. */
module FileTypes {
  import opened Wrappers
  import opened Ordering
  import opened Extension

  // ---------- counters ----------

  datatype Counters = Counters(
    uncompressed: int, uncompressedRounded: int,
    compressed: int, compressedRounded: int,
    compattr: int, total: int, numCompressed: int, numFiles: int)

  const ZERO := Counters(0, 0, 0, 0, 0, 0, 0, 0)

  function Plus(a: Counters, b: Counters): Counters {
    Counters(a.uncompressed + b.uncompressed, a.uncompressedRounded + b.uncompressedRounded,
             a.compressed + b.compressed, a.compressedRounded + b.compressedRounded,
             a.compattr + b.compattr, a.total + b.total, a.numCompressed + b.numCompressed, a.numFiles + b.numFiles)
  }

  function Minus(a: Counters, b: Counters): Counters {
    Counters(a.uncompressed - b.uncompressed, a.uncompressedRounded - b.uncompressedRounded,
             a.compressed - b.compressed, a.compressedRounded - b.compressedRounded,
             a.compattr - b.compattr, a.total - b.total, a.numCompressed - b.numCompressed, a.numFiles - b.numFiles)
  }

  predicate NonNegative(c: Counters) {
    && c.uncompressed >= 0 && c.uncompressedRounded >= 0 && c.compressed >= 0 && c.compressedRounded >= 0
    && c.compattr >= 0 && c.total >= 0 && c.numCompressed >= 0 && c.numFiles >= 0
  }

  /** The size rounded up to whole blocks. */
  function RoundToBlkSize(size: int, blksize: nat): int
    requires blksize > 0
  {
    if size <= 0 then size
    else if size < blksize then blksize
    else
      var remainder := size % blksize;
      if remainder != 0 then size + (blksize - remainder) else size
  }

  /** `r` is the least multiple of the block size that holds `size` bytes. */
  ghost predicate LeastMultiple(r: int, size: nat, blksize: nat)
    requires blksize > 0
  {
    r % blksize == 0 && size <= r && forall m: nat :: m * blksize >= size ==> r <= m * blksize
  }

  /** The rounded size is the least multiple of the block size that holds the file, and rounding it
      again changes nothing. */
  lemma RoundedIsLeast(size: nat, blksize: nat)
    requires blksize > 0
    ensures var r := RoundToBlkSize(size, blksize);
      LeastMultiple(r, size, blksize) && r < size + blksize && RoundToBlkSize(r, blksize) == r
  {
    var r := RoundToBlkSize(size, blksize);
    var q :=
      if size == 0 then 0
      else if size < blksize then 1
      else if size % blksize != 0 then size / blksize + 1
      else size / blksize;
    assert r == q * blksize by {
      if size >= blksize {
        assert size == size / blksize * blksize + size % blksize;
        if size % blksize != 0 {
          assert (size / blksize + 1) * blksize == size / blksize * blksize + blksize;
        }
      }
    }
    MultipleModulo(q, blksize);
    assert size <= r < size + blksize;
    forall m: nat | m * blksize >= size
      ensures r <= m * blksize
    {
      if m < q {
        Monotone(m, q - 1, blksize);
      } else {
        Monotone(q, m, blksize);
      }
    }
  }

  lemma MultipleModulo(q: nat, b: nat)
    requires b > 0
    ensures q * b % b == 0
    decreases q
  {
    if q > 0 {
      MultipleModulo(q - 1, b);
      var v := (q - 1) * b;
      assert q * b == v + b;
      assert v == v / b * b;
      assert v + b == (v / b + 1) * b + 0;
      DivModUnique(v + b, b, v / b + 1, 0);
    }
  }

  lemma DivModUnique(a: nat, b: nat, q: nat, r: nat)
    requires b > 0 && r < b && a == q * b + r
    ensures a % b == r
  {
    var q', r' := a / b, a % b;
    assert a == q' * b + r';
    assert (q - q') * b == r' - r;
    if q > q' {
      Monotone(1, q - q', b);
    } else if q < q' {
      Monotone(1, q' - q, b);
    }
  }

  lemma Monotone(m: nat, n: nat, b: nat)
    requires m <= n
    ensures m * b <= n * b
  {
    assert n * b == m * b + (n - m) * b;
  }

  // ---------- one file type ----------

  /** An entry of the index. The list of extensions is its first `numextensions` slots. */
  datatype FileType = FileType(filetype: string, slots: seq<string>, numextensions: nat, counters: Counters) {
    predicate Bounded() {
      numextensions <= |slots|
    }

    function Extensions(): seq<string>
      requires Bounded()
    {
      slots[..numextensions]
    }
  }

  /** The list of extensions is strictly sorted without regard to case, and in lower case. */
  ghost predicate ExtensionsValid(t: FileType) {
    && t.Bounded()
    && Sorted(Keys(t.Extensions(), Lower))
    && (forall i :: 0 <= i < t.numextensions ==> Lower(t.slots[i]) == t.slots[i])
  }

  function ExtensionSet(t: FileType): set<string>
    requires t.Bounded()
  {
    set e | e in t.Extensions()
  }

  /** The extension of a path as a set: lower-cased, or nothing. */
  function NewExtension(path: string): set<string> {
    match ExtensionOf(path)
    case None => {}
    case Some(e) => {Lower(e)}
  }

  /** That is: what follows the last dot, spelt without capitals. */
  lemma NewExtensionExactly(path: string, e: string)
    ensures e in NewExtension(path) <==> NoUpper(e) && exists x :: IsExtension(path, x) && SameIgnoringCase(x, e)
  {
    hide Lower, SameIgnoringCase, NoUpper, IsExtension, ExtensionOf;
    forall x
      ensures ExtensionOf(path) == Some(x) <==> IsExtension(path, x)
      ensures Lower(x) == e <==> SameIgnoringCase(x, e) && NoUpper(e)
    {
      ExtensionExact(path, x);
      LowerExactly(x, e);
    }
  }

  /** No extension that is kept has a capital, and no two differ in case only. */
  lemma ExtensionsExactly(t: FileType)
    requires ExtensionsValid(t)
    ensures forall e :: e in ExtensionSet(t) ==> NoUpper(e)
    ensures forall i, j :: 0 <= i < j < t.numextensions ==>
      !SameIgnoringCase(t.slots[i], t.slots[j]) && Before(t.slots[i], t.slots[j])
  {
    hide SameIgnoringCase, NoUpper, Before;
    forall i | 0 <= i < t.numextensions
      ensures NoUpper(t.slots[i])
    {
      LowerExactly(t.slots[i], t.slots[i]);
    }
    forall i, j | 0 <= i < j < t.numextensions
      ensures !SameIgnoringCase(t.slots[i], t.slots[j]) && Before(t.slots[i], t.slots[j])
    {
      var keys := Keys(t.Extensions(), Lower);
      assert keys[i] == t.slots[i] && keys[j] == t.slots[j];
      assert Compare(keys[i], keys[j]) < 0;
      CompareExactly(t.slots[i], t.slots[j]);
      CaseCompareExactly(t.slots[i], t.slots[j]);
    }
  }

  /** add_extension_to_filetypeinfo: the buffer doubles when it is full, the tail moves up by one,
      and the extension goes into the gap. */
  method AddExtension(path: string, info: FileType) returns (r: FileType)
    requires ExtensionsValid(info)
    ensures ExtensionsValid(r) && r.Bounded() && r.filetype == info.filetype && r.counters == info.counters
    ensures ExtensionSet(r) == ExtensionSet(info) + NewExtension(path)
  {
    hide Sorted, Keys, ExtensionSet, Lower, ExtensionOf;
    var extension := FindExtension(path);
    if extension.None? {
      assert ExtensionSet(info) + {} == ExtensionSet(info);
      return info;
    }
    r := EnterExtension(extension.value, info);
  }

  /** The search, and the insertion when nothing was found. */
  method EnterExtension(e: string, info: FileType) returns (r: FileType)
    requires ExtensionsValid(info)
    ensures ExtensionsValid(r) && r.Bounded() && r.filetype == info.filetype && r.counters == info.counters
    ensures ExtensionSet(r) == ExtensionSet(info) + {Lower(e)}
  {
    hide Sorted, Splits, Lower, ExtensionSet, Keys;
    var n := info.numextensions;
    var found, left := Search(info.slots[..n], Lower, Lower(e));
    ghost var before := info.Extensions();
    hide ExtensionsValid;
    if found {
      ExtensionFound(info, left, e);
      return info;
    }
    SplitsInside(Keys(before, Lower), Lower(e), left);
    KeysSize(before);
    var slots := Inserted(info.slots, n, left, Lower(e));
    r := info.(slots := slots, numextensions := n + 1);
    ExtensionInserted(info, r, left, e);
  }

  lemma KeysSize(table: seq<string>)
    ensures |Keys(table, Lower)| == |table|
  {
  }

  /** Room for one more: a buffer of `n` entries that is full is reallocated at twice its size. */
  method Realloc(buffer: array<string>, n: nat) returns (extensions: array<string>)
    requires n <= buffer.Length && buffer.Length >= 1
    ensures extensions == buffer || fresh(extensions)
    ensures extensions.Length == if n < buffer.Length then buffer.Length else 2 * buffer.Length
    ensures n < extensions.Length && extensions[..n] == buffer[..n]
  {
    extensions := buffer;
    if extensions.Length < n + 1 {
      extensions := new string[2 * buffer.Length](_ => "");
      forall i | 0 <= i < n {
        extensions[i] := buffer[i];
      }
    }
  }

  /** The tail moves up by one in place, and `e` goes into the gap. */
  method OpenGap(extensions: array<string>, n: nat, left: nat, e: string)
    requires left <= n < extensions.Length
    modifies extensions
    ensures extensions[..n + 1] == old(extensions[..n])[..left] + [e] + old(extensions[..n])[left..]
  {
    ghost var s := extensions[..n];
    forall i | left <= i < n {
      extensions[i + 1] := extensions[i];
    }
    extensions[left] := e;
    ghost var r, t := extensions[..n + 1], s[..left] + [e] + s[left..];
    forall i | 0 <= i <= n
      ensures r[i] == t[i]
    {
      if i > left {
        assert r[i] == extensions[i - 1 + 1] == s[i - 1];
      }
    }
  }

  /** The list's buffer, allocated with one slot on first use. */
  method Buffer(slots: seq<string>) returns (extensions: array<string>)
    ensures fresh(extensions) && extensions.Length >= 1
    ensures extensions[..] == if slots == [] then [""] else slots
  {
    if slots == [] {
      extensions := new string[1](_ => "");
    } else {
      extensions := new string[|slots|](i requires 0 <= i < |slots| => slots[i]);
    }
  }

  /** The buffer of `n` entries after one more has been put in at `left`. */
  method Inserted(slots: seq<string>, n: nat, left: nat, e: string) returns (r: seq<string>)
    requires left <= n <= |slots|
    ensures n + 1 <= |r| && r[..n + 1] == slots[..n][..left] + [e] + slots[..n][left..]
  {
    var buffer := Buffer(slots);
    assert buffer[..n] == slots[..n];
    var extensions := Realloc(buffer, n);
    OpenGap(extensions, n, left, e);
    r := extensions[..];
    assert r[..n + 1] == extensions[..n + 1];
  }

  lemma SplitsInside(keys: seq<string>, key: string, at: nat)
    requires Splits(keys, key, at)
    ensures at <= |keys|
  {
  }

  lemma ExtensionFound(t: FileType, at: nat, e: string)
    requires ExtensionsValid(t) && at < t.numextensions && Lower(t.Extensions()[at]) == Lower(e)
    ensures ExtensionSet(t) == ExtensionSet(t) + {Lower(e)}
  {
    hide Lower;
    assert t.Extensions()[at] == t.slots[at] == Lower(e);
  }

  lemma ExtensionInserted(t: FileType, r: FileType, at: nat, e: string)
    requires ExtensionsValid(t) && r.Bounded() && at <= t.numextensions
    requires r.Extensions() == t.Extensions()[..at] + [Lower(e)] + t.Extensions()[at..]
    requires Splits(Keys(t.Extensions(), Lower), Lower(e), at)
    ensures ExtensionsValid(r)
    ensures ExtensionSet(r) == ExtensionSet(t) + {Lower(e)}
  {
    var old', new' := t.Extensions(), r.Extensions();
    var keys := Keys(old', Lower);
    LowerTwice(e);
    InsertSorted(keys, Lower(e), at);
    assert Keys(new', Lower) == keys[..at] + [Lower(e)] + keys[at..];
    forall i | 0 <= i < r.numextensions
      ensures Lower(r.slots[i]) == r.slots[i]
    {
      assert r.slots[i] == new'[i];
      assert i < at ==> new'[i] == old'[i] == t.slots[i];
      assert i > at ==> new'[i] == old'[i - 1] == t.slots[i - 1];
    }
    assert forall x :: x in new' <==> x in old' || x == Lower(e) by {
      assert old' == old'[..at] + old'[at..];
    }
  }

  // ---------- the index ----------

  datatype Entry = Entry(extensions: set<string>, counters: Counters)

  type Index = map<string, Entry>

  function TypeName(t: FileType): string {
    t.filetype
  }

  ghost predicate TypesValid(types: seq<FileType>) {
    && Sorted(Keys(types, TypeName))
    && (forall i :: 0 <= i < |types| ==> ExtensionsValid(types[i]))
  }

  ghost predicate Holds(index: Index, t: FileType) {
    t.Bounded() && t.filetype in index && index[t.filetype] == Entry(ExtensionSet(t), t.counters)
  }

  /** The table holds just what the map holds. */
  ghost predicate Represents(types: seq<FileType>, index: Index) {
    && (forall i :: 0 <= i < |types| ==>
          types[i].Bounded() && types[i].filetype in index
          && index[types[i].filetype] == Entry(ExtensionSet(types[i]), types[i].counters))
    && (forall k :: k in index ==> exists i :: 0 <= i < |types| && types[i].filetype == k)
  }

  /** A path of the type `filetype` is seen: a new type starts with no extension and all counters
      zero, and everything known of any type stays. */
  function Seen(index: Index, filetype: string, path: string): Index {
    var e := if filetype in index then index[filetype] else Entry({}, ZERO);
    index[filetype := Entry(e.extensions + NewExtension(path), e.counters)]
  }

  function Sum(types: seq<FileType>): Counters {
    if types == [] then ZERO else Plus(Sum(types[..|types| - 1]), types[|types| - 1].counters)
  }

  lemma {:induction false} SumSplits(a: seq<FileType>, b: seq<FileType>)
    ensures Sum(a + b) == Plus(Sum(a), Sum(b))
  {
    if b == [] {
      assert a + b == a;
    } else {
      var last := |b| - 1;
      assert (a + b)[..|a + b| - 1] == a + b[..last];
      SumSplits(a, b[..last]);
    }
  }

  lemma SumInserts(types: seq<FileType>, at: nat, t: FileType)
    requires at <= |types|
    ensures Sum(types[..at] + [t] + types[at..]) == Plus(Sum(types), t.counters)
  {
    hide Sum;
    var a, b := types[..at], types[at..];
    assert types == a + b;
    SumSplits(a, b);
    SumSplits(a, [t]);
    SumSplits(a + [t], b);
    SumOfOne(t);
  }

  lemma SumOfOne(t: FileType)
    ensures Sum([t]) == t.counters
  {
    assert [t][..0] == [];
  }

  lemma SumUpdates(types: seq<FileType>, at: nat, t: FileType)
    requires at < |types|
    ensures Plus(Sum(types[at := t]), types[at].counters) == Plus(Sum(types), t.counters)
  {
    hide Sum;
    var rest := types[..at] + types[at + 1..];
    SumInserts(rest, at, t);
    SumInserts(rest, at, types[at]);
    assert rest[..at] + [t] + rest[at..] == types[at := t];
    assert rest[..at] + [types[at]] + rest[at..] == types;
  }

  lemma TypeInserted(types: seq<FileType>, at: nat, t: FileType)
    requires TypesValid(types) && ExtensionsValid(t) && Splits(Keys(types, TypeName), t.filetype, at)
    ensures TypesValid(types[..at] + [t] + types[at..])
  {
    assert at <= |types|;
    var r := types[..at] + [t] + types[at..];
    var keys := Keys(types, TypeName);
    InsertSorted(keys, t.filetype, at);
    SlicesInsert(types, at, t);
    hide ExtensionsValid, Sorted, Splits;
    KeysInserted(types, at, t);
    forall i | 0 <= i < |r|
      ensures ExtensionsValid(r[i])
    {
      if i > at {
        assert r[i] == types[i - 1];
      }
    }
  }

  lemma KeysInserted(types: seq<FileType>, at: nat, t: FileType)
    requires at <= |types|
    ensures var keys := Keys(types, TypeName);
      Keys(types[..at] + [t] + types[at..], TypeName) == keys[..at] + [t.filetype] + keys[at..]
  {
    var r := types[..at] + [t] + types[at..];
    var keys := Keys(types, TypeName);
    var ks := keys[..at] + [t.filetype] + keys[at..];
    SlicesInsert(types, at, t);
    forall i | 0 <= i < |r|
      ensures Keys(r, TypeName)[i] == ks[i]
    {
      if i > at {
        assert r[i] == types[i - 1] && ks[i] == keys[i - 1];
      }
    }
  }

  /** The map with the entry of one type set to what `t` holds. */
  function Put(index: Index, t: FileType): Index
    requires t.Bounded()
  {
    index[t.filetype := Entry(ExtensionSet(t), t.counters)]
  }

  lemma OthersHold(index: Index, t: FileType, other: FileType)
    requires t.Bounded() && Holds(index, other) && other.filetype != t.filetype
    ensures Holds(Put(index, t), other)
  {
  }

  lemma RepresentsInserted(types: seq<FileType>, index: Index, at: nat, t: FileType)
    requires Represents(types, index) && t.Bounded() && Splits(Keys(types, TypeName), t.filetype, at)
    ensures t.filetype !in index
    ensures Represents(types[..at] + [t] + types[at..], Put(index, t))
  {
    assert at <= |types|;
    SplitsMeansAbsent(Keys(types, TypeName), t.filetype, at);
    assert forall i :: 0 <= i < |types| ==> types[i].filetype == Keys(types, TypeName)[i];
    SlicesInsert(types, at, t);
    hide Splits, ExtensionSet, Keys, Holds, Put, IsInserted;
    var r := types[..at] + [t] + types[at..];
    InsertedHolds(types, index, at, t, r);
    InsertedKeys(types, index, at, t, r);
  }

  ghost predicate IsInserted(types: seq<FileType>, at: nat, t: FileType, r: seq<FileType>) {
    && |r| == |types| + 1 && at <= |types|
    && (forall i :: 0 <= i < at ==> r[i] == types[i])
    && r[at] == t
    && (forall i {:trigger r[i]} :: at < i < |r| ==> r[i] == types[i - 1])
  }

  lemma SlicesInsert(types: seq<FileType>, at: nat, t: FileType)
    requires at <= |types|
    ensures IsInserted(types, at, t, types[..at] + [t] + types[at..])
  {
  }

  lemma InsertedBySlices(types: seq<FileType>, at: nat, t: FileType, r: seq<FileType>)
    requires IsInserted(types, at, t, r)
    ensures r == types[..at] + [t] + types[at..]
  {
    var s := types[..at] + [t] + types[at..];
    SlicesInsert(types, at, t);
    assert forall i :: 0 <= i < |r| ==> r[i] == s[i];
  }

  lemma InsertedHolds(types: seq<FileType>, index: Index, at: nat, t: FileType, r: seq<FileType>)
    requires Represents(types, index) && t.Bounded() && IsInserted(types, at, t, r)
    requires forall i :: 0 <= i < |types| ==> types[i].filetype != t.filetype
    ensures forall i :: 0 <= i < |r| ==> Holds(Put(index, t), r[i])
  {
    hide Holds, Put;
    forall i | 0 <= i < |r|
      ensures Holds(Put(index, t), r[i])
    {
      PutHolds(index, t);
      if i != at {
        OthersHold(index, t, r[i]);
      }
    }
  }

  lemma InsertedKeys(types: seq<FileType>, index: Index, at: nat, t: FileType, r: seq<FileType>)
    requires Represents(types, index) && t.Bounded() && IsInserted(types, at, t, r)
    ensures forall k :: k in Put(index, t) ==> exists i :: 0 <= i < |r| && r[i].filetype == k
  {
    hide Holds, Put;
    PutKeys(index, t);
    assert r[at].filetype == t.filetype;
    forall k | k in Put(index, t) && k != t.filetype
      ensures exists i :: 0 <= i < |r| && r[i].filetype == k
    {
      var i :| 0 <= i < |types| && types[i].filetype == k;
      assert r[if i < at then i else i + 1] == types[i];
    }
  }

  lemma PutHolds(index: Index, t: FileType)
    requires t.Bounded()
    ensures Holds(Put(index, t), t)
  {
  }

  lemma PutKeys(index: Index, t: FileType)
    requires t.Bounded()
    ensures Put(index, t).Keys == index.Keys + {t.filetype}
  {
  }

  lemma TypeUpdated(types: seq<FileType>, at: nat, t: FileType)
    requires TypesValid(types) && ExtensionsValid(t) && at < |types| && types[at].filetype == t.filetype
    ensures TypesValid(types[at := t])
    ensures forall i :: 0 <= i < |types| && i != at ==> types[i].filetype != t.filetype
  {
    hide ExtensionsValid;
    var keys := Keys(types, TypeName);
    assert Keys(types[at := t], TypeName) == keys;
    forall i | 0 <= i < |types| && i != at
      ensures types[i].filetype != t.filetype
    {
      CompareTotal(t.filetype, t.filetype);
      assert Compare(keys[if i < at then i else at], keys[if i < at then at else i]) < 0;
    }
  }

  lemma RepresentsUpdated(types: seq<FileType>, index: Index, at: nat, t: FileType)
    requires Represents(types, index) && t.Bounded() && at < |types| && types[at].filetype == t.filetype
    requires forall i :: 0 <= i < |types| && i != at ==> types[i].filetype != t.filetype
    ensures Holds(index, types[at])
    ensures Represents(types[at := t], Put(index, t))
  {
    var r := types[at := t];
    hide Holds, Put, ExtensionSet;
    forall i | 0 <= i < |r|
      ensures Holds(Put(index, t), r[i])
    {
      PutHolds(index, t);
      if i != at {
        OthersHold(index, t, r[i]);
      }
    }
    forall k | k in Put(index, t)
      ensures exists i :: 0 <= i < |r| && r[i].filetype == k
    {
      PutKeys(index, t);
      if k == t.filetype {
        assert r[at].filetype == k;
      } else {
        var i :| 0 <= i < |types| && types[i].filetype == k;
        assert r[i].filetype == k;
      }
    }
  }
}
