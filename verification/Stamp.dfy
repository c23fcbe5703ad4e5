/** The note zfsctool leaves on a file it has rewritten: the codec and the modification time, in an
    extended attribute, and the decision that is taken from it later. */
module Stamp {
  import opened Wrappers

  // ---------- decimal numbers ----------

  function Digit(d: nat): char
    requires d < 10
  {
    '0' + d as char
  }

  function Digits(n: nat): (s: string)
    ensures s != "" && forall i :: 0 <= i < |s| ==> '0' <= s[i] <= '9'
  {
    if n < 10 then [Digit(n)] else Digits(n / 10) + [Digit(n % 10)]
  }

  /** The conversion %ld. */
  function Decimal(v: int): (s: string)
    ensures s != "" && forall i :: 0 <= i < |s| ==> s[i] == '-' || '0' <= s[i] <= '9'
  {
    if v < 0 then "-" + Digits(-v) else Digits(v)
  }

  function FromDigits(s: string): Option<nat> {
    if s == "" then Some(0)
    else
      var last := s[|s| - 1];
      if !('0' <= last <= '9') then None
      else
        match FromDigits(s[..|s| - 1])
        case None => None
        case Some(v) => Some(10 * v + (last as int - '0' as int))
  }

  const ULONG := 0x1_0000_0000_0000_0000

  /** stoul on a number and nothing else: a minus sign negates within 64 bits. */
  function Stoul(s: string): Option<nat> {
    if s == "" || s == "-" then None
    else if s[0] == '-' then
      match FromDigits(s[1..])
      case Some(v) => Some((ULONG - v % ULONG) % ULONG)
      case None => None
    else FromDigits(s)
  }

  lemma {:induction false} DigitsBack(n: nat)
    ensures FromDigits(Digits(n)) == Some(n)
  {
    if n >= 10 {
      DigitsBack(n / 10);
      assert Digits(n)[..|Digits(n)| - 1] == Digits(n / 10);
    } else {
      assert Digits(n)[..0] == "";
    }
  }

  /** What is written is read back as the same long, seen as an unsigned one. */
  lemma DecimalBack(v: int)
    requires -0x8000_0000_0000_0000 <= v < 0x8000_0000_0000_0000
    ensures Stoul(Decimal(v)) == Some(v % ULONG)
  {
    hide Digits, FromDigits;
    if v < 0 {
      DigitsBack(-v);
      var s := Decimal(v);
      assert s[1..] == Digits(-v) && s[0] == '-' && s != "-";
      assert (ULONG - (-v) % ULONG) % ULONG == v % ULONG;
    } else {
      DigitsBack(v);
      assert Decimal(v)[0] != '-';
    }
  }

  function Pow10(k: nat): nat {
    if k == 0 then 1 else 10 * Pow10(k - 1)
  }

  lemma {:induction false} DigitsFit(n: nat, k: nat)
    requires n < Pow10(k) && k > 0
    ensures |Digits(n)| <= k
    decreases k
  {
    if n >= 10 {
      DigitsFit(n / 10, k - 1);
    }
  }

  // ---------- splitting ----------

  /** Everything up to the first `delim`, or all there is. */
  function Token(s: string, delim: char): (t: string)
    ensures |t| <= |s| && t == s[..|t|] && delim !in t
    ensures |t| < |s| ==> s[|t|] == delim
  {
    if s == "" || s[0] == delim then "" else [s[0]] + Token(s[1..], delim)
  }

  /** What getline leaves behind. */
  function Remainder(s: string, delim: char): (r: string)
    ensures s != "" ==> |r| < |s|
  {
    var t := Token(s, delim);
    if |t| == |s| then "" else s[|t| + 1..]
  }

  function DelimAt(delims: seq<char>, i: nat): char
    requires delims != []
  {
    if i < |delims| then delims[i] else delims[|delims| - 1]
  }

  /** The tokens from the `i`-th on: each ends at its own delimiter, those after the last
      delimiter's at that one; nothing follows a delimiter at the very end. */
  function Tokens(s: string, delims: seq<char>, i: nat): seq<string>
    requires delims != []
    decreases |s|
  {
    if s == "" then []
    else
      var d := DelimAt(delims, i);
      [Token(s, d)] + Tokens(Remainder(s, d), delims, i + 1)
  }

  /** split with several delimiters. */
  method Split(str: string, delims: seq<char>) returns (cont: seq<string>)
    requires delims != []
    ensures cont == Tokens(str, delims, 0)
  {
    hide Token, Remainder;
    var ss, i, delim := str, 1, delims[0];
    cont := [];
    assert [] + Tokens(str, delims, 0) == Tokens(str, delims, 0);
    while ss != ""
      invariant i == if |cont| + 1 < |delims| then |cont| + 1 else |delims|
      invariant delim == DelimAt(delims, |cont|)
      invariant Tokens(str, delims, 0) == cont + Tokens(ss, delims, |cont|)
      decreases |ss|
    {
      var token := Token(ss, delim);
      ghost var more := Tokens(Remainder(ss, delim), delims, |cont| + 1);
      assert cont + ([token] + more) == (cont + [token]) + more;
      ss := Remainder(ss, delim);
      cont := cont + [token];
      if i < |delims| {
        delim := delims[i];
        i := i + 1;
      }
    }
  }

  /** A token that does not contain its delimiter is cut off there and nowhere else. */
  lemma {:induction false} TokenIs(t: string, delim: char, rest: string)
    requires delim !in t
    ensures Token(t + [delim] + rest, delim) == t
    ensures Remainder(t + [delim] + rest, delim) == rest
  {
    if t != "" {
      TokenIs(t[1..], delim, rest);
      assert (t + [delim] + rest)[1..] == t[1..] + [delim] + rest;
    }
  }

  lemma {:induction false} LastToken(t: string, delim: char)
    requires delim !in t
    ensures Token(t, delim) == t
  {
    if t != "" {
      LastToken(t[1..], delim);
    }
  }

  // ---------- the stamp ----------

  datatype Time = Time(sec: int, usec: nat)

  /** What timeval and timespec can hold. */
  predicate Possible(t: Time) {
    -0x8000_0000_0000_0000 <= t.sec < 0x8000_0000_0000_0000 && t.usec < 1_000_000
  }

  const BASIC_NAMES: set<string> := {"on", "off", "gzip", "lz4", "lzjb", "zle", "zstd"}

  /** The names option -T accepts, other than "test". */
  predicate Accepted(codec: string) {
    || codec in BASIC_NAMES
    || (exists c :: 1 <= c < 10 && codec == "gzip-" + Digits(c))
    || (exists c :: 1 <= c < 20 && codec == "zstd-" + Digits(c))
  }

  /** The two families end at 9 and at 19. */
  lemma LevelsAccepted(n: nat)
    ensures Accepted("gzip-" + Digits(n)) <==> 1 <= n <= 9
    ensures Accepted("zstd-" + Digits(n)) <==> 1 <= n <= 19
  {
    hide Digits;
    assert "gzip-"[0] == 'g' && "zstd-"[0] == 'z';
    var g, z := "gzip-" + Digits(n), "zstd-" + Digits(n);
    assert g[0] == 'g' && z[0] == 'z' && |g| >= 6 && |z| >= 6;
    assert g !in BASIC_NAMES && z !in BASIC_NAMES;
    forall c: nat
      ensures "gzip-" + Digits(c) == g ==> c == n
      ensures "zstd-" + Digits(c) == z ==> c == n
      ensures ("gzip-" + Digits(c))[0] == 'g' && ("zstd-" + Digits(c))[0] == 'z'
    {
      SameTail("gzip-", c, n);
      SameTail("zstd-", c, n);
    }
  }

  lemma SameTail(prefix: string, c: nat, n: nat)
    ensures prefix + Digits(c) == prefix + Digits(n) ==> c == n
  {
    hide Digits;
    DigitsBack(c);
    DigitsBack(n);
    assert (prefix + Digits(c))[|prefix|..] == Digits(c) && (prefix + Digits(n))[|prefix|..] == Digits(n);
  }

  function Format(codec: string, t: Time): string {
    codec + "@" + Decimal(t.sec) + ":" + Decimal(t.usec)
  }

  const ATTRVAL := 42

  /** snprintf into a buffer of 42 bytes, the NUL included. */
  function Stored(codec: string, t: Time): (s: string)
    ensures |s| < ATTRVAL
  {
    var s := Format(codec, t);
    if |s| < ATTRVAL then s else s[..ATTRVAL - 1]
  }

  lemma AcceptedShape(codec: string)
    requires Accepted(codec)
    ensures 0 < |codec| <= 7 && '@' !in codec
  {
    if codec in BASIC_NAMES {
      assert codec == "on" || codec == "off" || codec == "gzip" || codec == "lz4"
        || codec == "lzjb" || codec == "zle" || codec == "zstd";
    } else if c :| 1 <= c < 10 && codec == "gzip-" + Digits(c) {
      DigitsFit(c, 1);
    } else {
      var c :| 1 <= c < 20 && codec == "zstd-" + Digits(c);
      assert Pow10(2) == 100;
      DigitsFit(c, 2);
    }
  }

  /** The buffer is long enough for every accepted name and every time. */
  lemma StampFits(codec: string, t: Time)
    requires Accepted(codec) && Possible(t)
    ensures Stored(codec, t) == Format(codec, t) && |Format(codec, t)| <= 35
  {
    AcceptedShape(codec);
    assert Pow10(6) == 1_000_000 by { Powers(); }
    DigitsFit(t.usec, 6);
    Powers();
    DigitsFit(if t.sec < 0 then -t.sec else t.sec, 19);
  }

  lemma Powers()
    ensures Pow10(6) == 1_000_000 && Pow10(19) == 10_000_000_000_000_000_000
  {
    assert Pow10(3) == 1000;
    assert Pow10(6) == 1000 * Pow10(3);
    assert Pow10(9) == 1000 * Pow10(6);
    assert Pow10(12) == 1000 * Pow10(9);
    assert Pow10(15) == 1000 * Pow10(12);
    assert Pow10(18) == 1000 * Pow10(15);
  }

  /** Splitting a stamp gives back just its three fields. */
  lemma StampSplits(codec: string, t: Time)
    requires '@' !in codec
    ensures Tokens(Format(codec, t), ['@', ':'], 0) == [codec, Decimal(t.sec), Decimal(t.usec)]
  {
    hide Decimal, Token;
    var sec, usec := Decimal(t.sec), Decimal(t.usec);
    var tail := sec + ":" + usec;
    assert Format(codec, t) == codec + "@" + tail;
    ThreeTokens(codec, sec, usec);
  }

  lemma ThreeTokens(a: string, b: string, c: string)
    requires '@' !in a && ':' !in b && ':' !in c && c != ""
    ensures Tokens(a + "@" + (b + ":" + c), ['@', ':'], 0) == [a, b, c]
  {
    hide Token;
    var ds := ['@', ':'];
    var tail := b + ":" + c;
    TokenIs(a, '@', tail);
    TokenIs(b, ':', c);
    LastToken(c, ':');
    assert Remainder(c, ':') == "";
    assert Tokens(c, ds, 2) == [c];
    assert Tokens(tail, ds, 1) == [b] + [c];
  }

  // ---------- the decision ----------

  /** checkValidZFSCompAttrAgainst: no stamp, one that says the same, or one that says otherwise;
      or stoul throws. */
  datatype Check = Unset | UpToDate | Differs | Throws

  function CheckAgainst(attr: Option<string>, codec: string, mtime: Time): Check {
    if attr.None? || attr.value == "" then Unset
    else
      var fields := Tokens(attr.value, ['@', ':'], 0);
      if |fields| != 3 then Unset
      else if fields[0] != codec then Differs
      else
        match Stoul(fields[1])
        case None => Throws
        case Some(sec) =>
          if sec != mtime.sec % ULONG then Differs
          else
            match Stoul(fields[2])
            case None => Throws
            case Some(usec) => if usec != mtime.usec then Differs else UpToDate
  }

  /** What is known of the file and of the run when the decision is taken. */
  datatype Context = Context(initialCompression: string, allowReCompress: bool, size: nat, onDisk: nat)

  function CompressionOk(attr: Option<string>, codec: string, mtime: Time, c: Context): Option<bool> {
    match CheckAgainst(attr, codec, mtime)
    case Throws => None
    case UpToDate => Some(c.allowReCompress)
    case Differs => Some(true)
    case Unset =>
      Some(c.initialCompression != codec || c.allowReCompress || (codec == "off" && c.onDisk < c.size))
  }

  /** A stamp says the same exactly when codec and time are the same. */
  lemma StampMeans(codec: string, t: Time, codec': string, t': Time)
    requires Accepted(codec) && Possible(t) && Possible(t')
    ensures CheckAgainst(Some(Stored(codec, t)), codec', t') ==
      if codec' == codec && t' == t then UpToDate else Differs
  {
    hide Tokens, Stoul, Decimal, Accepted;
    AcceptedShape(codec);
    StampFits(codec, t);
    StampSplits(codec, t);
    DecimalBack(t.sec);
    DecimalBack(t.usec);
  }

  /** A file that was rewritten and not touched since is taken again for the same codec only by
      force; for another codec, or once it has been modified, it always is. */
  lemma RewrittenOnce(codec: string, t: Time, codec': string, t': Time, c: Context)
    requires Accepted(codec) && Possible(t) && Possible(t')
    ensures CompressionOk(Some(Stored(codec, t)), codec', t', c) ==
      Some(codec' != codec || t' != t || c.allowReCompress)
  {
    hide CheckAgainst, Stored, Accepted;
    StampMeans(codec, t, codec', t');
  }

  /** A file without a stamp, with an empty one, or with one that does not have three fields: it is
      refused when the dataset already compresses so, unless by force, or to undo the compression of a
      file that is smaller on disk than it is long. */
  lemma UnstampedExactly(attr: Option<string>, codec: string, mtime: Time, c: Context)
    requires match attr case None => true case Some(s) => !ThreeFields(s)
    ensures CompressionOk(attr, codec, mtime, c) == Some(
      !(c.initialCompression == codec && !c.allowReCompress && !(codec == "off" && c.onDisk < c.size)))
  {
    if attr.Some? {
      ThreeFieldsExactly(attr.value);
    }
  }

  /** Taken the first time and, not having been touched since, refused the second. */
  lemma FirstThenNever(attr: Option<string>, codec: string, before: Time, t: Time, c: Context)
    requires Accepted(codec) && Possible(t) && c.initialCompression != codec && !c.allowReCompress
    requires match attr case None => true case Some(s) => !ThreeFields(s)
    ensures CompressionOk(attr, codec, before, c) == Some(true)
    ensures CompressionOk(Some(Stored(codec, t)), codec, t, c) == Some(false)
  {
    hide CompressionOk;
    UnstampedExactly(attr, codec, before, c);
    RewrittenOnce(codec, t, codec, t, c);
  }

  /** The three fields of `s` are `a`, `b` and `c`; a colon at the very end does not count. */
  predicate HasFields(s: string, a: string, b: string, c: string) {
    && '@' !in a && ':' !in b && ':' !in c
    && ((c != "" && s == a + ['@'] + (b + [':'] + c)) || s == a + ['@'] + (b + [':'] + (c + [':'])))
  }

  ghost predicate ThreeFields(s: string) {
    exists a, b, c :: HasFields(s, a, b, c)
  }

  lemma FieldsAre(s: string, a: string, b: string, c: string)
    requires HasFields(s, a, b, c)
    ensures Tokens(s, ['@', ':'], 0) == [a, b, c]
  {
    hide Token, Remainder;
    var ds := ['@', ':'];
    var end := if c != "" && s == a + ['@'] + (b + [':'] + c) then c else c + [':'];
    var tail := b + [':'] + end;
    TokenIs(a, '@', tail);
    TokenIs(b, ':', end);
    LastField(c, end);
    assert Tokens(tail, ds, 1) == [b] + Tokens(end, ds, 2);
  }

  lemma LastField(c: string, end: string)
    requires ':' !in c && ((end == c && c != "") || end == c + [':'])
    ensures Tokens(end, ['@', ':'], 2) == [c]
  {
    hide Token, Remainder;
    if end == c {
      LastToken(c, ':');
      NothingRemains(c, ':');
    } else {
      TokenIs(c, ':', "");
      assert c + [':'] + "" == end;
    }
  }

  lemma NothingRemains(t: string, delim: char)
    requires Token(t, delim) == t
    ensures Remainder(t, delim) == ""
  {
  }

  /** A text splits into three exactly when it has three such fields. */
  lemma ThreeFieldsExactly(s: string)
    ensures |Tokens(s, ['@', ':'], 0)| == 3 <==> ThreeFields(s)
  {
    hide Token, Remainder;
    if a, b, c :| HasFields(s, a, b, c) {
      FieldsAre(s, a, b, c);
    }
    var ds := ['@', ':'];
    var ts := Tokens(s, ds, 0);
    if |ts| == 3 {
      var tail := Remainder(s, '@');
      var end := Remainder(tail, ':');
      assert ts == [Token(s, '@')] + Tokens(tail, ds, 1);
      assert Tokens(tail, ds, 1) == [Token(tail, ':')] + Tokens(end, ds, 2);
      assert Tokens(end, ds, 2) == [Token(end, ':')] + Tokens(Remainder(end, ':'), ds, 3);
      CutAt(s, '@');
      CutAt(tail, ':');
      CutAt(end, ':');
      assert HasFields(s, Token(s, '@'), Token(tail, ':'), Token(end, ':'));
    }
  }

  /** A text is its first token alone, or that, the delimiter and the remainder. */
  lemma CutAt(s: string, delim: char)
    ensures var t, r := Token(s, delim), Remainder(s, delim);
      && delim !in t
      && (s == t || s == t + [delim] + r)
      && (r != "" ==> s == t + [delim] + r)
  {
    var t := Token(s, delim);
    if |t| < |s| {
      assert s == s[..|t|] + [s[|t|]] + s[|t| + 1..];
    }
  }
}
