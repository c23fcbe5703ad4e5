/** Bytes, fixed-width integers in both byte orders, and writes into byte buffers. */
module Bytes {

  type Byte = x: int | 0 <= x < 256

  // ---------- fixed-width integers (each writer truncates to its width) ----------

  function BE16(v: nat): (b: seq<Byte>)
    ensures |b| == 2
  {
    [v / 256 % 256, v % 256]
  }

  function LE16(v: nat): (b: seq<Byte>)
    ensures |b| == 2
  {
    [v % 256, v / 256 % 256]
  }

  function BE32(v: nat): (b: seq<Byte>)
    ensures |b| == 4
  {
    BE16(v / 0x1_0000) + BE16(v)
  }

  function LE32(v: nat): (b: seq<Byte>)
    ensures |b| == 4
  {
    LE16(v) + LE16(v / 0x1_0000)
  }

  function BE64(v: nat): (b: seq<Byte>)
    ensures |b| == 8
  {
    BE32(v / 0x1_0000_0000) + BE32(v)
  }

  function LE64(v: nat): (b: seq<Byte>)
    ensures |b| == 8
  {
    LE32(v) + LE32(v / 0x1_0000_0000)
  }

  function FromBE16(b: seq<Byte>): nat
    requires |b| == 2
  {
    256 * (b[0] as int) + b[1]
  }

  function FromLE16(b: seq<Byte>): nat
    requires |b| == 2
  {
    (b[0] as int) + 256 * (b[1] as int)
  }

  function FromBE32(b: seq<Byte>): nat
    requires |b| == 4
  {
    FromBE16(b[..2]) * 0x1_0000 + FromBE16(b[2..])
  }

  function FromLE32(b: seq<Byte>): nat
    requires |b| == 4
  {
    FromLE16(b[..2]) + FromLE16(b[2..]) * 0x1_0000
  }

  function FromBE64(b: seq<Byte>): nat
    requires |b| == 8
  {
    FromBE32(b[..4]) * 0x1_0000_0000 + FromBE32(b[4..])
  }

  function FromLE64(b: seq<Byte>): nat
    requires |b| == 8
  {
    FromLE32(b[..4]) + FromLE32(b[4..]) * 0x1_0000_0000
  }

  /** The low two bytes of any number, in either order. */
  lemma ByteOrder16(rest: nat, a: Byte, b: Byte)
    ensures var v := rest * 0x1_0000 + (256 * (a as int) + b); BE16(v) == [a, b] && LE16(v) == [b, a]
  {
    var v := rest * 0x1_0000 + (256 * (a as int) + b);
    assert v == (rest * 256 + a) * 256 + b;
    assert v / 256 == rest * 256 + a;
  }

  /** Which byte comes first. */
  lemma ByteOrder32(rest: nat, a: Byte, b: Byte, c: Byte, d: Byte)
    ensures var v := (rest * 0x1_0000 + (256 * (a as int) + b)) * 0x1_0000 + (256 * (c as int) + d);
      BE32(v) == [a, b, c, d] && LE32(v) == [d, c, b, a]
  {
    hide BE16, LE16;
    var high := rest * 0x1_0000 + (256 * (a as int) + b);
    var v := high * 0x1_0000 + (256 * (c as int) + d);
    assert v / 0x1_0000 == high;
    ByteOrder16(rest, a, b);
    ByteOrder16(high, c, d);
  }

  lemma ByteOrder64(high: nat, low: nat)
    requires low < 0x1_0000_0000
    ensures var v := high * 0x1_0000_0000 + low;
      BE64(v) == BE32(high) + BE32(v) && LE64(v) == LE32(v) + LE32(high)
  {
    hide BE32, LE32;
    assert (high * 0x1_0000_0000 + low) / 0x1_0000_0000 == high;
  }

  lemma Read16(v: nat)
    ensures FromBE16(BE16(v)) == v % 0x1_0000
    ensures FromLE16(LE16(v)) == v % 0x1_0000
  {
  }

  lemma Read32(v: nat)
    ensures FromBE32(BE32(v)) == v % 0x1_0000_0000
    ensures FromLE32(LE32(v)) == v % 0x1_0000_0000
  {
    hide BE16, LE16, FromBE16, FromLE16;
    Read16(v);
    Read16(v / 0x1_0000);
    assert BE32(v)[..2] == BE16(v / 0x1_0000) && BE32(v)[2..] == BE16(v);
    assert LE32(v)[..2] == LE16(v) && LE32(v)[2..] == LE16(v / 0x1_0000);
    HalvesOf32(v);
  }

  lemma HalvesOf32(v: nat)
    ensures v % 0x1_0000 + v / 0x1_0000 % 0x1_0000 * 0x1_0000 == v % 0x1_0000_0000
  {
    var low, high := v % 0x1_0000, v / 0x1_0000;
    var rest, top := high % 0x1_0000, high / 0x1_0000;
    assert v == top * 0x1_0000_0000 + (rest * 0x1_0000 + low);
  }

  lemma Read64(v: nat)
    ensures FromBE64(BE64(v)) == v % 0x1_0000_0000_0000_0000
    ensures FromLE64(LE64(v)) == v % 0x1_0000_0000_0000_0000
  {
    hide BE32, LE32, FromBE32, FromLE32;
    Read32(v);
    Read32(v / 0x1_0000_0000);
    assert BE64(v)[..4] == BE32(v / 0x1_0000_0000) && BE64(v)[4..] == BE32(v);
    assert LE64(v)[..4] == LE32(v) && LE64(v)[4..] == LE32(v / 0x1_0000_0000);
    HalvesOf64(v);
  }

  /** The number that bytes stand for with the highest first. */
  function Number(b: seq<Byte>): nat {
    if b == [] then 0 else 256 * Number(b[..|b| - 1]) + b[|b| - 1]
  }

  lemma TwoMore(b: seq<Byte>, c: seq<Byte>)
    requires |c| == 2
    ensures Number(b + c) == 0x1_0000 * Number(b) + FromBE16(c)
  {
    var all := b + c;
    assert all[..|all| - 1] == b + [c[0]] && (b + [c[0]])[..|b|] == b;
    assert Number(b + [c[0]]) == 256 * Number(b) + c[0];
  }

  /** The writers put the highest byte first. */
  lemma HighestFirst(b: seq<Byte>)
    ensures |b| == 4 ==> BE32(Number(b)) == b && Number(b) == FromBE32(b)
    ensures |b| == 8 ==> BE64(Number(b)) == b && Number(b) == FromBE64(b)
  {
    hide BE16, BE32, BE64, FromBE16;
    if |b| == 4 {
      TwoMore(b[..2], b[2..]);
      TwoMore(b[..0], b[..2]);
      assert b[..2] + b[2..] == b && b[..0] + b[..2] == b[..2];
      Write32(b);
    } else if |b| == 8 {
      HighestFirst(b[..4]);
      TwoMore(b[..4], b[4..6]);
      TwoMore(b[..6], b[6..]);
      assert b[..4] + b[4..6] == b[..6] && b[..6] + b[6..] == b;
      assert b[4..][..2] == b[4..6] && b[4..][2..] == b[6..];
      Write64(b);
    }
  }

  /** Any eight bytes are those of the number they stand for. */
  lemma Write64(b: seq<Byte>)
    requires |b| == 8
    ensures FromBE64(b) < 0x1_0000_0000_0000_0000 && BE64(FromBE64(b)) == b
  {
    Write32(b[..4]);
    Write32(b[4..]);
    hide BE32, FromBE32;
    var high, low := FromBE32(b[..4]), FromBE32(b[4..]);
    assert (high * 0x1_0000_0000 + low) / 0x1_0000_0000 == high;
    SameLow(high, low);
    assert b[..4] + b[4..] == b;
  }

  lemma SameLow(high: nat, low: nat)
    requires low < 0x1_0000_0000
    ensures BE32(high * 0x1_0000_0000 + low) == BE32(low)
  {
    hide BE16;
    var v := high * 0x1_0000_0000 + low;
    assert v / 0x1_0000 == high * 0x1_0000 + low / 0x1_0000;
    Low16(high, low / 0x1_0000);
    assert v == (high * 0x1_0000) * 0x1_0000 + low;
    Low16(high * 0x1_0000, low);
  }

  lemma Low16(high: nat, low: nat)
    ensures BE16(high * 0x1_0000 + low) == BE16(low)
  {
    Multiple256(high * 256, low);
    Multiple256(high, low / 256);
    assert high * 0x1_0000 + low == high * 256 * 256 + low;
  }

  lemma Multiple256(k: nat, x: nat)
    ensures (k * 256 + x) % 256 == x % 256 && (k * 256 + x) / 256 == k + x / 256
  {
  }

  lemma Write16(b: seq<Byte>)
    requires |b| == 2
    ensures FromBE16(b) < 0x1_0000 && BE16(FromBE16(b)) == b
  {
  }

  lemma Write32(b: seq<Byte>)
    requires |b| == 4
    ensures FromBE32(b) < 0x1_0000_0000 && BE32(FromBE32(b)) == b
  {
    hide BE16, FromBE16;
    var high, low := FromBE16(b[..2]), FromBE16(b[2..]);
    Write16(b[..2]);
    Write16(b[2..]);
    assert FromBE32(b) / 0x1_0000 == high;
    Low16(high, low);
    assert b[..2] + b[2..] == b;
  }

  lemma HalvesOf64(v: nat)
    ensures v % 0x1_0000_0000 + v / 0x1_0000_0000 % 0x1_0000_0000 * 0x1_0000_0000
         == v % 0x1_0000_0000_0000_0000
  {
    var low, high := v % 0x1_0000_0000, v / 0x1_0000_0000;
    var rest, top := high % 0x1_0000_0000, high / 0x1_0000_0000;
    assert v == top * 0x1_0000_0000_0000_0000 + (rest * 0x1_0000_0000 + low);
  }

  lemma Truncated16(v: nat, q: nat)
    ensures LE16(v + q * 0x1_0000) == LE16(v)
  {
    assert (v + q * 0x1_0000) / 256 == v / 256 + q * 256;
  }

  lemma Truncated32(v: nat)
    ensures LE32(v) == LE32(v % 0x1_0000_0000)
  {
    var q, m := v / 0x1_0000_0000, v % 0x1_0000_0000;
    assert v == m + q * 0x1_0000 * 0x1_0000;
    Truncated16(m, q * 0x1_0000);
    assert v / 0x1_0000 == m / 0x1_0000 + q * 0x1_0000;
    Truncated16(m / 0x1_0000, q);
  }

  // ---------- buffers ----------

  function Zeros(n: nat): (b: seq<Byte>)
    ensures |b| == n
  {
    seq(n, _ => 0)
  }

  /** `s` with the bytes from `off` on overwritten by `b`. */
  function Splice(s: seq<Byte>, off: nat, b: seq<Byte>): (r: seq<Byte>)
    requires off + |b| <= |s|
    ensures |r| == |s|
  {
    s[..off] + b + s[off + |b|..]
  }

  lemma SpliceKeeps(s: seq<Byte>, off: nat, b: seq<Byte>, lo: nat, hi: nat)
    requires off + |b| <= |s| && lo <= hi <= |s|
    requires hi <= off || off + |b| <= lo
    ensures Splice(s, off, b)[lo..hi] == s[lo..hi]
  {
  }

  lemma SplicePuts(s: seq<Byte>, off: nat, b: seq<Byte>)
    requires off + |b| <= |s|
    ensures Splice(s, off, b)[off..off + |b|] == b
  {
  }

  lemma SpliceJoins(s: seq<Byte>, off: nat, a: seq<Byte>, b: seq<Byte>)
    requires off + |a| + |b| <= |s|
    ensures Splice(Splice(s, off, a), off + |a|, b) == Splice(s, off, a + b)
  {
  }

  /** A write of `b` at offset `off` of the buffer `dst`. */
  method Memcpy(dst: array<Byte>, off: nat, b: seq<Byte>)
    requires off + |b| <= dst.Length
    modifies dst
    ensures dst[..] == Splice(old(dst[..]), off, b)
  {
    forall i | 0 <= i < |b| {
      dst[off + i] := b[i];
    }
  }

  /** A new block of `size` bytes that starts with what `buf` holds; the rest is arbitrary. */
  method Reallocf(buf: array<Byte>, size: nat) returns (grown: array<Byte>)
    requires buf.Length <= size
    ensures fresh(grown) && grown.Length == size
    ensures grown[..buf.Length] == buf[..]
  {
    grown := new Byte[size];
    forall i | 0 <= i < buf.Length {
      grown[i] := buf[i];
    }
  }
}
