/** The `afsc` archive: a compressed file's mode and attributes as one byte string, and back. */
module Archive {
  import opened Bytes

  /** An extended attribute, its name without the closing NUL. */
  datatype Attr = Attr(name: seq<Byte>, data: seq<Byte>)

  datatype Extracted =
    | Extracted(mode: nat, attrs: seq<Attr>)
    | Failed

  const MAGIC: seq<Byte> := [0x61, 0x66, 0x73, 0x63]  // "afsc"
  const NAME_BUFFER := 23
  const END_OF_FILE: Byte := 0xFF  // the byte a signed char compares equal to EOF with

  // ---------- the format ----------

  function Entry(a: Attr): seq<Byte> {
    a.name + [0] + BE64(|a.data|) + a.data
  }

  function Entries(attrs: seq<Attr>): seq<Byte> {
    if attrs == [] then [] else Entry(attrs[0]) + Entries(attrs[1..])
  }

  function Serialize(mode: nat, attrs: seq<Attr>): seq<Byte> {
    MAGIC + BE16(mode) + Entries(attrs)
  }

  // ---------- the reader, as a function of what it reads ----------

  /** How the name loop ends: at a NUL, at the end of the file or a byte that reads as such, or
      with the buffer full. `j` bytes of the name have been read. */
  datatype NameRead = Name(length: nat) | AtEnd | TooLong

  function ReadName(input: seq<Byte>, j: nat): (r: NameRead)
    requires j <= NAME_BUFFER
    ensures r.Name? ==> j <= r.length < |input| && r.length < NAME_BUFFER && input[r.length] == 0
    decreases NAME_BUFFER - j
  {
    if j == NAME_BUFFER then TooLong
    else if j >= |input| || input[j] == END_OF_FILE then AtEnd
    else if input[j] == 0 then Name(j)
    else ReadName(input, j + 1)
  }

  /** One turn of the loop over the entries. */
  datatype EntryRead = Got(attr: Attr, used: nat) | Finished | Broken

  /** One entry, given the attributes the new file has already: setting one again fails. */
  function ReadEntry(input: seq<Byte>, have: seq<Attr>): (r: EntryRead)
    ensures r.Got? ==> 0 < r.used <= |input|
  {
    match ReadName(input, 0)
    case AtEnd => Finished
    case TooLong => Broken
    case Name(length) =>
      var name, rest := input[..length], input[length + 1..];
      if |rest| < 8 then Broken
      else
        var size := FromBE64(rest[..8]);
        if size == 0 || size > |rest| - 8 || HasName(have, name) then Broken
        else Got(Attr(name, rest[8..8 + size]), length + 9 + size)
  }

  function ReadEntries(input: seq<Byte>, mode: nat, have: seq<Attr>): Extracted
    decreases |input|
  {
    match ReadEntry(input, have)
    case Finished => Extracted(mode, have)
    case Broken => Failed
    case Got(attr, used) => ReadEntries(input[used..], mode, have + [attr])
  }

  predicate HasName(attrs: seq<Attr>, name: seq<Byte>) {
    exists i :: 0 <= i < |attrs| && attrs[i].name == name
  }

  function Parse(input: seq<Byte>): Extracted {
    if |input| < 6 || input[..4] != MAGIC then Failed
    else ReadEntries(input[6..], FromBE16(input[4..6]), [])
  }

  // ---------- round trip ----------

  /** What can be read back: a name that fits the buffer with its NUL and has no byte that reads
      as the end of the file, and data, of which there must be some. */
  predicate Readable(a: Attr) {
    |a.name| < NAME_BUFFER && END_OF_FILE !in a.name && a.data != []
  }

  predicate AllReadable(attrs: seq<Attr>) {
    forall i :: 0 <= i < |attrs| ==> Readable(attrs[i])
  }

  /** Names are C strings, sizes are 64-bit numbers, and a file has no attribute twice. */
  ghost predicate Listed(have: seq<Attr>, attrs: seq<Attr>) {
    && (forall i :: 0 <= i < |attrs| ==> 0 !in attrs[i].name && |attrs[i].data| < 0x1_0000_0000_0000_0000)
    && (forall i :: 0 <= i < |attrs| ==> !HasName(have, attrs[i].name) && !HasName(attrs[..i], attrs[i].name))
  }

  /** The name buffer and the end-of-file byte decide alone whether a name comes back. */
  lemma {:induction false} NameComesBack(name: seq<Byte>, rest: seq<Byte>, j: nat)
    requires 0 !in name && j <= |name| && j <= NAME_BUFFER && END_OF_FILE !in name[..j]
    ensures var r := ReadName(name + [0] + rest, j);
      if |name| < NAME_BUFFER && END_OF_FILE !in name then r == Name(|name|) else !r.Name?
    decreases NAME_BUFFER - j
  {
    var input := name + [0] + rest;
    if j < NAME_BUFFER && j < |name| {
      assert input[j] == name[j] != 0;
      if name[j] != END_OF_FILE {
        assert name[..j + 1] == name[..j] + [name[j]];
        NameComesBack(name, rest, j + 1);
      }
    } else if j == |name| {
      assert name[..j] == name;
    }
  }

  lemma EntryParts(a: Attr, more: seq<Byte>)
    requires |a.data| < 0x1_0000_0000_0000_0000
    ensures var input := Entry(a) + more; var rest := input[|a.name| + 1..];
      && |Entry(a)| == |a.name| + 9 + |a.data|
      && input == a.name + [0] + rest
      && input[..|a.name|] == a.name
      && |rest| >= 8 && FromBE64(rest[..8]) == |a.data| <= |rest| - 8
      && rest[8..8 + |a.data|] == a.data
  {
    hide BE64, FromBE64, Entry;
    var size := BE64(|a.data|);
    assert FromBE64(size) == |a.data| by { Read64(|a.data|); }
    assert Entry(a) == a.name + [0] + size + a.data by { EntryIs(a); }
    EntryBytes(a.name, size, a.data, more);
  }

  lemma EntryIs(a: Attr)
    ensures Entry(a) == a.name + [0] + BE64(|a.data|) + a.data
    ensures |Entry(a)| == |a.name| + 9 + |a.data|
  {
    hide BE64;
  }

  lemma EntryBytes(name: seq<Byte>, size: seq<Byte>, data: seq<Byte>, more: seq<Byte>)
    requires |size| == 8
    ensures var input := (name + [0] + size + data) + more; var rest := input[|name| + 1..];
      && input == name + [0] + rest && input[..|name|] == name
      && |rest| >= 8 + |data| && rest[..8] == size && rest[8..8 + |data|] == data
  {
  }

  lemma EntryComesBack(have: seq<Attr>, a: Attr, more: seq<Byte>)
    requires 0 !in a.name && |a.data| < 0x1_0000_0000_0000_0000 && !HasName(have, a.name)
    ensures var r := ReadEntry(Entry(a) + more, have);
      if Readable(a) then r == Got(a, |Entry(a)|) else !r.Got?
  {
    hide FromBE64, Entry, ReadName;
    EntryParts(a, more);
    NameComesBack(a.name, (Entry(a) + more)[|a.name| + 1..], 0);
  }

  lemma NothingLeft(have: seq<Attr>)
    ensures ReadEntry([], have) == Finished && AllReadable([])
  {
  }

  lemma {:induction false} EntriesComeBack(mode: nat, have: seq<Attr>, attrs: seq<Attr>)
    requires Listed(have, attrs)
    ensures ReadEntries(Entries(attrs), mode, have) == Extracted(mode, have + attrs) <==> AllReadable(attrs)
    decreases |attrs|
  {
    hide Entry, ReadEntry, Readable, Listed, AllReadable, HasName;
    if attrs == [] {
      NothingLeft(have);
      assert have + attrs == have;
    } else {
      var a, more := attrs[0], Entries(attrs[1..]);
      AllReadableCons(attrs);
      ListedTail(have, attrs);
      EntryComesBack(have, a, more);
      assert |have + attrs| > |have|;
      if Readable(a) {
        EntriesComeBack(mode, have + [a], attrs[1..]);
        assert have + [a] + attrs[1..] == have + attrs;
        assert (Entry(a) + more)[|Entry(a)|..] == more;
      }
    }
  }

  lemma AllReadableCons(attrs: seq<Attr>)
    requires attrs != []
    ensures AllReadable(attrs) <==> Readable(attrs[0]) && AllReadable(attrs[1..])
  {
    assert forall i :: 0 < i < |attrs| ==> attrs[i] == attrs[1..][i - 1];
  }

  lemma ListedTail(have: seq<Attr>, attrs: seq<Attr>)
    requires Listed(have, attrs) && attrs != []
    ensures 0 !in attrs[0].name && |attrs[0].data| < 0x1_0000_0000_0000_0000
    ensures !HasName(have, attrs[0].name) && Listed(have + [attrs[0]], attrs[1..])
  {
    var tail := attrs[1..];
    forall i | 0 <= i < |tail|
      ensures !HasName(have + [attrs[0]], tail[i].name) && !HasName(tail[..i], tail[i].name)
    {
      assert tail[i] == attrs[i + 1];
      assert attrs[..i + 1] == [attrs[0]] + tail[..i];
      assert attrs[..i + 1][0] == attrs[0];
      assert forall k :: 0 <= k < i ==> attrs[..i + 1][k + 1] == tail[..i][k];
    }
  }

  lemma ReadableExactly(attrs: seq<Attr>)
    ensures AllReadable(attrs) <==>
      forall i :: 0 <= i < |attrs| ==> |attrs[i].name| <= 22 && 0xFF !in attrs[i].name && |attrs[i].data| > 0
  {
  }

  /** An archive gives its mode and attributes back exactly when each attribute is readable: its name
      has at most 22 bytes and none that reads as the end of the file, and it has data. */
  lemma ArchiveRoundTrip(mode: nat, attrs: seq<Attr>)
    requires mode < 0x1_0000 && Listed([], attrs)
    ensures Parse(Serialize(mode, attrs)) == Extracted(mode, attrs) <==> AllReadable(attrs)
    ensures AllReadable(attrs) <==>
      forall i :: 0 <= i < |attrs| ==> |attrs[i].name| <= 22 && 0xFF !in attrs[i].name && |attrs[i].data| > 0
  {
    ReadableExactly(attrs);
    var s := Serialize(mode, attrs);
    hide BE16, FromBE16, Entries, ReadEntries, AllReadable, Listed;
    assert s[..4] == MAGIC && s[4..6] == BE16(mode) && s[6..] == Entries(attrs);
    Read16(mode);
    EntriesComeBack(mode, [], attrs);
    assert [] + attrs == attrs;
  }

  // ---------- what is accepted ----------

  lemma {:induction false} NameAccepted(input: seq<Byte>, j: nat)
    requires j <= NAME_BUFFER && ReadName(input, j).Name?
    ensures forall i :: j <= i < ReadName(input, j).length ==> input[i] != 0 && input[i] != END_OF_FILE
    decreases NAME_BUFFER - j
  {
    if input[j] != 0 {
      NameAccepted(input, j + 1);
    }
  }

  lemma EntryAccepted(input: seq<Byte>, have: seq<Attr>)
    requires ReadEntry(input, have).Got?
    ensures var a, used := ReadEntry(input, have).attr, ReadEntry(input, have).used;
      && Readable(a) && 0 !in a.name && |a.data| < 0x1_0000_0000_0000_0000 && !HasName(have, a.name)
      && used == |Entry(a)| <= |input| && input[..used] == Entry(a)
  {
    hide BE64, FromBE64, HasName;
    NameAccepted(input, 0);
    var length := ReadName(input, 0).length;
    var rest := input[length + 1..];
    Write64(rest[..8]);
    var a := ReadEntry(input, have).attr;
    EntryIs(a);
    assert input == a.name + [0] + rest;
    assert rest[..8] + a.data == rest[..8 + |a.data|];
  }

  lemma {:induction false} EntriesAccepted(input: seq<Byte>, mode: nat, have: seq<Attr>)
    requires ReadEntries(input, mode, have).Extracted?
    ensures var r := ReadEntries(input, mode, have);
      && r.mode == mode && have <= r.attrs
      && var tail := r.attrs[|have|..];
        && AllReadable(tail) && Listed(have, tail)
        && Entries(tail) <= input && ReadName(input[|Entries(tail)|..], 0) == AtEnd
    decreases |input|
  {
    hide Entry, Entries, ReadEntry, Readable, HasName, ReadName, AllReadable, Listed;
    var r := ReadEntries(input, mode, have);
    match ReadEntry(input, have)
    case Finished =>
      assert r.attrs[|have|..] == [];
      NothingAccepted(have, input);
    case Got(a, used) =>
      EntryAccepted(input, have);
      EntriesAccepted(input[used..], mode, have + [a]);
      hide ReadEntries;
      var tail, more := r.attrs[|have|..], r.attrs[|have| + 1..];
      assert r.attrs[..|have| + 1] == have + [a];
      assert tail == [a] + more && tail[1..] == more;
      ListedCons(have, a, more);
      AllReadableCons(tail);
      EntriesCons(tail, input[used..][|Entries(more)|..]);
      StartsWith(input, used, Entries(more), Entries(tail));
  }

  lemma StartsWith(input: seq<Byte>, used: nat, more: seq<Byte>, all: seq<Byte>)
    requires used <= |input| && more <= input[used..]
    requires all + input[used..][|more|..] == input[..used] + (more + input[used..][|more|..])
    ensures all <= input && input[|all|..] == input[used..][|more|..]
  {
    var rest := input[used..];
    assert more + rest[|more|..] == rest && input[..used] + rest == input;
    assert all + rest[|more|..] == input;
    assert |all| + |rest[|more|..]| == |input|;
    assert input[..|all|] == all;
  }

  lemma NothingAccepted(have: seq<Attr>, input: seq<Byte>)
    requires ReadEntry(input, have) == Finished
    ensures AllReadable([]) && Listed(have, []) && Entries([]) <= input
    ensures ReadName(input[|Entries([])|..], 0) == AtEnd
  {
    NoEntries();
    assert input[0..] == input;
  }

  lemma ListedCons(have: seq<Attr>, a: Attr, more: seq<Attr>)
    requires Listed(have + [a], more) && !HasName(have, a.name)
    requires 0 !in a.name && |a.data| < 0x1_0000_0000_0000_0000
    ensures Listed(have, [a] + more)
  {
    var all := [a] + more;
    forall i | 0 <= i < |all|
      ensures !HasName(have, all[i].name) && !HasName(all[..i], all[i].name)
    {
      if i > 0 {
        assert all[i] == more[i - 1] && all[..i] == [a] + more[..i - 1];
        assert !HasName(have + [a], more[i - 1].name) && !HasName(more[..i - 1], more[i - 1].name);
        assert (have + [a])[|have|] == a;
        assert forall k :: 0 <= k < |have| ==> (have + [a])[k] == have[k];
      }
    }
  }

  lemma {:induction false} EntriesComeBackThen(mode: nat, have: seq<Attr>, attrs: seq<Attr>, rest: seq<Byte>)
    requires Listed(have, attrs) && AllReadable(attrs) && ReadName(rest, 0) == AtEnd
    ensures ReadEntries(Entries(attrs) + rest, mode, have) == Extracted(mode, have + attrs)
    decreases |attrs|
  {
    hide Entry, Entries, ReadEntries, ReadEntry, Readable, Listed, AllReadable, HasName, ReadName;
    if |attrs| == 0 {
      AtTheEnd(attrs, rest, mode, have);
      assert have + attrs == have;
    } else {
      var a, tail := attrs[0], attrs[1..];
      var more := Entries(tail) + rest;
      AllReadableCons(attrs);
      ListedTail(have, attrs);
      EntryComesBack(have, a, more);
      EntriesComeBackThen(mode, have + [a], tail, rest);
      EntriesCons(attrs, rest);
      assert have + [a] + tail == have + attrs;
      assert (Entry(a) + more)[|Entry(a)|..] == more;
      OneRead(Entry(a) + more, mode, have);
    }
  }

  lemma AtTheEnd(attrs: seq<Attr>, rest: seq<Byte>, mode: nat, have: seq<Attr>)
    requires |attrs| == 0 && ReadName(rest, 0) == AtEnd
    ensures ReadEntries(Entries(attrs) + rest, mode, have) == Extracted(mode, have)
  {
    assert Entries(attrs) + rest == rest;
  }

  lemma EntriesCons(attrs: seq<Attr>, rest: seq<Byte>)
    requires |attrs| > 0
    ensures Entries(attrs) + rest == Entry(attrs[0]) + (Entries(attrs[1..]) + rest)
  {
    hide Entry;
  }

  lemma OneRead(input: seq<Byte>, mode: nat, have: seq<Attr>)
    requires ReadEntry(input, have).Got?
    ensures var e := ReadEntry(input, have);
      ReadEntries(input, mode, have) == ReadEntries(input[e.used..], mode, have + [e.attr])
  {
    hide ReadEntry;
  }

  /** For any input: a mode and a list are extracted exactly when the input starts with their archive,
      all of it readable and no name in it twice, and what follows reads as the end of the file before
      another name is complete. */
  lemma ParseExactly(input: seq<Byte>, mode: nat, attrs: seq<Attr>)
    requires mode < 0x1_0000
    ensures Parse(input) == Extracted(mode, attrs) <==>
      && AllReadable(attrs) && Listed([], attrs)
      && Serialize(mode, attrs) <= input && ReadName(input[|Serialize(mode, attrs)|..], 0) == AtEnd
  {
    hide Entries, ReadEntries, AllReadable, Listed, ReadName, BE16, FromBE16;
    var s := Serialize(mode, attrs);
    assert s[..4] == MAGIC && s[4..6] == BE16(mode) && s[6..] == Entries(attrs);
    Read16(mode);
    if Parse(input) == Extracted(mode, attrs) {
      EntriesAccepted(input[6..], FromBE16(input[4..6]), []);
      assert attrs[0..] == attrs;
      Write16(input[4..6]);
      assert input == input[..4] + input[4..6] + input[6..];
      assert input[|s|..] == input[6..][|Entries(attrs)|..];
    }
    if AllReadable(attrs) && Listed([], attrs) && s <= input && ReadName(input[|s|..], 0) == AtEnd {
      EntriesComeBackThen(mode, [], attrs, input[|s|..]);
      assert input[..4] == s[..4] && input[4..6] == s[4..6];
      assert input[6..] == Entries(attrs) + input[|s|..];
      assert [] + attrs == attrs;
    }
  }

  /** The archive byte by byte: "afsc", then high byte before low the mode, then of each attribute the
      name, a zero, the size in eight bytes with the highest first, and the data. */
  lemma ArchiveBytes(high: Byte, low: Byte, a: Attr, size: seq<Byte>, more: seq<Attr>)
    requires |size| == 8 && Number(size) == |a.data|
    ensures Serialize(256 * (high as int) + low, [a] + more) ==
      Ascii("afsc") + [high, low] + (a.name + [0] + size + a.data) + Entries(more)
  {
    hide BE16, BE64, Number;
    ByteOrder16(0, high, low);
    HighestFirst(size);
    EntryIs(a);
    assert ([a] + more)[1..] == more;
    hide Entry;
    assert MAGIC == Ascii("afsc");
  }

  // ---------- the code ----------

  function Ascii(s: string): (b: seq<Byte>)
    requires forall i :: 0 <= i < |s| ==> '\0' < s[i] < '\U{7F}'
    ensures |b| == |s| && 0 !in b && END_OF_FILE !in b
    ensures forall i :: 0 <= i < |s| ==> b[i] == s[i] as int
  {
    seq(|s|, i requires 0 <= i < |s| => s[i] as int)
  }

  const DECMPFS_NAME: seq<Byte> := Ascii("com.apple.decmpfs")
  const FORK_NAME: seq<Byte> := Ascii("com.apple.ResourceFork")

  /** The attributes that go into an archive. */
  predicate Archived(a: Attr) {
    (a.name == FORK_NAME || a.name == DECMPFS_NAME) && a.data != []
  }

  function Kept(attrs: seq<Attr>): seq<Attr> {
    if attrs == [] then []
    else
      var last := attrs[|attrs| - 1];
      Kept(attrs[..|attrs| - 1]) + (if Archived(last) then [last] else [])
  }

  /** What is kept: of each attribute that has data those with one of the two names, and no other, in
      the order they had. */
  lemma {:induction false} KeptExactly(xs: seq<Attr>, a: Attr, ys: seq<Attr>)
    ensures Kept(xs + [a] + ys) == Kept(xs) + Kept([a]) + Kept(ys)
    ensures Kept([a]) ==
      if |a.data| > 0 && (a.name == Ascii("com.apple.decmpfs") || a.name == Ascii("com.apple.ResourceFork")) then [a]
      else []
  {
    hide Archived;
    KeptOne(a);
    KeptSplits(xs + [a], ys);
    KeptSplits(xs, [a]);
  }

  lemma KeptOne(a: Attr)
    ensures Kept([a]) ==
      if |a.data| > 0 && (a.name == Ascii("com.apple.decmpfs") || a.name == Ascii("com.apple.ResourceFork")) then [a]
      else []
  {
    hide Ascii;
    var one := [a];
    assert one[..0] == [];
  }

  lemma {:induction false} KeptSplits(xs: seq<Attr>, ys: seq<Attr>)
    ensures Kept(xs + ys) == Kept(xs) + Kept(ys)
  {
    hide Archived;
    if ys == [] {
      assert xs + ys == xs && Kept(xs) + Kept(ys) == Kept(xs);
    } else {
      var all, init := xs + ys, ys[..|ys| - 1];
      assert all[..|all| - 1] == xs + init;
      KeptSplits(xs, init);
    }
  }

  lemma {:induction false} EntriesSnoc(attrs: seq<Attr>, a: Attr)
    ensures Entries(attrs + [a]) == Entries(attrs) + Entry(a)
  {
    hide Entry;
    if attrs == [] {
      assert Entries([a]) == Entry(a) + Entries([]) == Entry(a);
    } else {
      assert (attrs + [a])[1..] == attrs[1..] + [a];
      EntriesSnoc(attrs[1..], a);
    }
  }

  lemma NoEntries()
    ensures Entries([]) == []
  {
  }

  /** Writing the archive of a file with the mode `mode` and the attributes `listed`. */
  method Create(mode: nat, listed: seq<Attr>) returns (afscFile: seq<Byte>)
    ensures afscFile == Serialize(mode, Kept(listed))
  {
    hide BE16, Entry, Entries, Archived;
    afscFile := MAGIC;
    afscFile := afscFile + BE16(mode);
    assert Entries([]) == [] by { NoEntries(); }
    var i := 0;
    while i < |listed|
      invariant 0 <= i <= |listed|
      invariant afscFile == Serialize(mode, Kept(listed[..i]))
    {
      var a := listed[i];
      assert listed[..i + 1][..i] == listed[..i];
      if Archived(a) {
        EntriesSnoc(Kept(listed[..i]), a);
        afscFile := Append(afscFile, a);
        assert Kept(listed[..i + 1]) == Kept(listed[..i]) + [a];
      } else {
        assert Kept(listed[..i + 1]) == Kept(listed[..i]);
      }
      i := i + 1;
    }
    assert listed[..i] == listed;
  }

  method Append(afscFile: seq<Byte>, a: Attr) returns (longer: seq<Byte>)
    ensures longer == afscFile + Entry(a)
  {
    longer := afscFile + a.name;
    longer := longer + [0];
    longer := longer + BE64(|a.data|);
    longer := longer + a.data;
  }

  /** One entry, its name byte by byte. */
  method ExtractEntry(afscFile: seq<Byte>, pos: nat, attrs: seq<Attr>) returns (r: EntryRead)
    requires pos <= |afscFile|
    ensures r == ReadEntry(afscFile[pos..], attrs)
  {
    hide FromBE64;
    var input := afscFile[pos..];
    var j := 0;
    while j < NAME_BUFFER
      invariant 0 <= j <= NAME_BUFFER && pos + j <= |afscFile|
      invariant ReadName(input, 0) == ReadName(input, j)
    {
      if pos + j >= |afscFile| || afscFile[pos + j] == END_OF_FILE {
        return Finished;
      }
      if afscFile[pos + j] == 0 {
        break;
      }
      j := j + 1;
    }
    if j == NAME_BUFFER || |afscFile| - (pos + j + 1) < 8 {
      return Broken;
    }
    var name, rest := input[..j], input[j + 1..];
    var xattrsize := FromBE64(rest[..8]);
    if xattrsize == 0 || xattrsize > |rest| - 8 || HasName(attrs, name) {
      return Broken;
    }
    r := Got(Attr(name, rest[8..8 + xattrsize]), j + 9 + xattrsize);
  }

  /** Reading an archive. */
  method Extract(afscFile: seq<Byte>) returns (r: Extracted)
    ensures r == Parse(afscFile)
  {
    hide FromBE16, ReadEntry;
    if |afscFile| < 6 || afscFile[..4] != MAGIC {
      return Failed;
    }
    var outFileMode := FromBE16(afscFile[4..6]);
    var pos, attrs := 6, [];
    while true
      invariant 6 <= pos <= |afscFile|
      invariant Parse(afscFile) == ReadEntries(afscFile[pos..], outFileMode, attrs)
      decreases |afscFile| - pos
    {
      var entry := ExtractEntry(afscFile, pos, attrs);
      match entry
      case Finished => return Extracted(outFileMode, attrs);
      case Broken => return Failed;
      case Got(attr, used) =>
        assert afscFile[pos..][used..] == afscFile[pos + used..];
        attrs, pos := attrs + [attr], pos + used;
    }
  }
}
