/** C string comparison, and the search both levels of the file-type index use. */
module Ordering {

  /** The sign of strcmp. */
  function Compare(a: string, b: string): int {
    if a == "" then (if b == "" then 0 else -1)
    else if b == "" then 1
    else if a[0] < b[0] then -1
    else if a[0] > b[0] then 1
    else Compare(a[1..], b[1..])
  }

  function LowerChar(c: char): char {
    if 'A' <= c <= 'Z' then (c as int + 32) as char else c
  }

  function Lower(s: string): (r: string)
    ensures |r| == |s|
  {
    seq(|s|, i requires 0 <= i < |s| => LowerChar(s[i]))
  }

  /** The sign of strcasecmp. */
  function CaseCompare(a: string, b: string): int {
    Compare(Lower(a), Lower(b))
  }

  lemma LowerTwice(s: string)
    ensures Lower(Lower(s)) == Lower(s)
  {
  }

  lemma {:induction false} CompareTotal(a: string, b: string)
    ensures Compare(a, b) == -Compare(b, a)
    ensures Compare(a, b) == 0 <==> a == b
  {
    if a != "" && b != "" {
      CompareTotal(a[1..], b[1..]);
      assert a == [a[0]] + a[1..] && b == [b[0]] + b[1..];
    }
  }

  lemma {:induction false} CompareTransitive(a: string, b: string, c: string)
    requires Compare(a, b) < 0 && Compare(b, c) < 0
    ensures Compare(a, c) < 0
  {
    if a != "" && b != "" && c != "" && a[0] == b[0] == c[0] {
      CompareTransitive(a[1..], b[1..], c[1..]);
    }
  }

  // ---------- what the two comparisons say ----------

  /** `a` is a proper prefix of `b`, or has the smaller character where the two first differ. */
  ghost predicate Before(a: string, b: string) {
    exists k :: 0 <= k <= |a| && k < |b| && a[..k] == b[..k] && (k == |a| || a[k] < b[k])
  }

  lemma {:induction false} CompareExactly(a: string, b: string)
    ensures Compare(a, b) < 0 <==> Before(a, b)
    ensures Compare(a, b) > 0 <==> Before(b, a)
    ensures Compare(a, b) == 0 <==> a == b
  {
    CompareTotal(a, b);
    BeforeUnfolds(a, b);
    BeforeUnfolds(b, a);
    if a != "" && b != "" && a[0] == b[0] {
      CompareExactly(a[1..], b[1..]);
    }
  }

  lemma BeforeUnfolds(a: string, b: string)
    ensures Before(a, b) <==>
      b != "" && (a == "" || a[0] < b[0] || (a[0] == b[0] && Before(a[1..], b[1..])))
  {
    if b != "" && a != "" {
      if Before(a, b) {
        var k :| 0 <= k <= |a| && k < |b| && a[..k] == b[..k] && (k == |a| || a[k] < b[k]);
        if k > 0 {
          assert a[..k][0] == b[..k][0];
          assert a[1..][..k - 1] == a[..k][1..] && b[1..][..k - 1] == b[..k][1..];
        }
      }
      if a[0] < b[0] {
        assert a[..0] == b[..0];
      } else if a[0] == b[0] && Before(a[1..], b[1..]) {
        var k :| 0 <= k <= |a[1..]| && k < |b[1..]| && a[1..][..k] == b[1..][..k]
          && (k == |a[1..]| || a[1..][k] < b[1..][k]);
        assert a[..k + 1] == [a[0]] + a[1..][..k] && b[..k + 1] == [b[0]] + b[1..][..k];
      }
    } else if b != "" {
      assert a[..0] == b[..0];
    }
  }

  predicate Upper(c: char) {
    'A' <= c <= 'Z'
  }

  /** The same character, or the two cases of one ASCII letter. */
  predicate SameLetter(a: char, b: char) {
    a == b || (Upper(a) && a as int + 32 == b as int) || (Upper(b) && b as int + 32 == a as int)
  }

  predicate SameIgnoringCase(a: string, b: string) {
    |a| == |b| && forall i :: 0 <= i < |a| ==> SameLetter(a[i], b[i])
  }

  predicate NoUpper(s: string) {
    forall i :: 0 <= i < |s| ==> !Upper(s[i])
  }

  /** Lower case is the one spelling that differs in case only and has no capitals. */
  lemma LowerExactly(s: string, t: string)
    ensures Lower(s) == t <==> SameIgnoringCase(s, t) && NoUpper(t)
  {
    if SameIgnoringCase(s, t) && NoUpper(t) {
      forall i | 0 <= i < |s|
        ensures Lower(s)[i] == t[i]
      {
        assert SameLetter(s[i], t[i]) && !Upper(t[i]);
      }
    }
  }

  lemma CaseCompareExactly(a: string, b: string)
    ensures CaseCompare(a, b) == 0 <==> SameIgnoringCase(a, b)
  {
    CompareTotal(Lower(a), Lower(b));
    if SameIgnoringCase(a, b) {
      forall i | 0 <= i < |a|
        ensures Lower(a)[i] == Lower(b)[i]
      {
        assert SameLetter(a[i], b[i]);
      }
    } else if |a| == |b| {
      var i :| 0 <= i < |a| && !SameLetter(a[i], b[i]);
      assert Lower(a)[i] != Lower(b)[i];
    }
  }

  // ---------- sorted tables ----------

  /** Strictly increasing, hence without duplicates. */
  ghost predicate Sorted(keys: seq<string>) {
    forall i, j :: 0 <= i < j < |keys| ==> Compare(keys[i], keys[j]) < 0
  }

  function Keys<T>(table: seq<T>, keyOf: T -> string): (keys: seq<string>)
    ensures |keys| == |table| && forall i :: 0 <= i < |table| ==> keys[i] == keyOf(table[i])
  {
    seq(|table|, i requires 0 <= i < |table| => keyOf(table[i]))
  }

  /** Where `key` belongs: all keys before `pos` are smaller and all from there on are larger. */
  ghost predicate Splits(keys: seq<string>, key: string, pos: nat) {
    && pos <= |keys|
    && (forall i :: 0 <= i < pos ==> Compare(keys[i], key) < 0)
    && (forall i :: pos <= i < |keys| ==> Compare(key, keys[i]) < 0)
  }

  lemma InsertSorted(keys: seq<string>, key: string, pos: nat)
    requires Sorted(keys) && Splits(keys, key, pos)
    ensures Sorted(keys[..pos] + [key] + keys[pos..])
  {
    var r := keys[..pos] + [key] + keys[pos..];
    forall i, j | 0 <= i < j < |r|
      ensures Compare(r[i], r[j]) < 0
    {
      assert i < pos ==> r[i] == keys[i];
      assert i > pos ==> r[i] == keys[i - 1];
      assert j < pos ==> r[j] == keys[j];
      assert j > pos ==> r[j] == keys[j - 1];
      if i < pos < j {
        CompareTransitive(keys[i], key, keys[j - 1]);
      }
    }
  }

  /** A key that splits the table is not in it, and splits it at one place only. */
  lemma SplitsMeansAbsent(keys: seq<string>, key: string, pos: nat)
    requires Splits(keys, key, pos)
    ensures key !in keys
  {
    CompareTotal(key, key);
  }

  /** The search: positions count from 1, `left` and `right` enclose those still possible, and a
      midpoint at distance 0 ends it. Every probe lies within the table. */
  method Search<T>(table: seq<T>, keyOf: T -> string, key: string) returns (found: bool, pos: nat)
    requires Sorted(Keys(table, keyOf))
    ensures found ==> pos < |table| && keyOf(table[pos]) == key
    ensures !found ==> Splits(Keys(table, keyOf), key, pos)
    ensures found <==> key in Keys(table, keyOf)
  {
    ghost var keys := Keys(table, keyOf);
    var left := 0;
    if |table| > 0 {
      var right, curr := |table| + 1, 1;
      while Compare(keyOf(table[curr - 1]), key) != 0
        invariant 1 <= curr <= |table|
        invariant 0 <= left < right <= |table| + 1
        invariant forall i :: 0 <= i < left ==> Compare(keys[i], key) < 0
        invariant forall i :: right <= i + 1 <= |table| ==> Compare(key, keys[i]) < 0
        decreases right - left
      {
        curr := (right - left) / 2;
        if curr == 0 {
          SplitsMeansAbsent(keys, key, left);
          return false, left;
        }
        curr := curr + left;
        ghost var probe := keys[curr - 1];
        CompareTotal(probe, key);
        if Compare(keyOf(table[curr - 1]), key) > 0 {
          right := curr;
          AboveStaysAbove(keys, key, curr - 1);
        } else if Compare(keyOf(table[curr - 1]), key) < 0 {
          left := curr;
          BelowStaysBelow(keys, key, curr - 1);
        } else {
          break;
        }
      }
      CompareTotal(keyOf(table[curr - 1]), key);
      assert keys[curr - 1] == key;
      return true, curr - 1;
    }
    return false, left;
  }

  lemma AboveStaysAbove(keys: seq<string>, key: string, at: nat)
    requires Sorted(keys) && at < |keys| && Compare(key, keys[at]) < 0
    ensures forall i :: at <= i < |keys| ==> Compare(key, keys[i]) < 0
  {
    forall i | at < i < |keys|
      ensures Compare(key, keys[i]) < 0
    {
      CompareTransitive(key, keys[at], keys[i]);
    }
  }

  lemma BelowStaysBelow(keys: seq<string>, key: string, at: nat)
    requires Sorted(keys) && at < |keys| && Compare(keys[at], key) < 0
    ensures forall i :: 0 <= i <= at ==> Compare(keys[i], key) < 0
  {
    forall i | 0 <= i < at
      ensures Compare(keys[i], key) < 0
    {
      CompareTransitive(keys[i], keys[at], key);
    }
  }
}
