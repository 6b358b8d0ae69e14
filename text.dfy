/** String helpers shared by the modules that model the source's string handling. */
module Text {

  /** `sub` occurs in `s` starting at index `i`. */
  predicate OccursAt(s: string, sub: string, i: int)
  {
    0 <= i && i + |sub| <= |s| && s[i..i + |sub|] == sub
  }

  /** Python's `sub in s`. */
  predicate Contains(s: string, sub: string)
  {
    exists i | 0 <= i <= |s| :: OccursAt(s, sub, i)
  }

  /** Where `sub` occurs at `i`, the characters of `s` from `i` on are those of `sub`. */
  lemma OccursAtChar(s: string, sub: string, i: int, j: int)
    requires OccursAt(s, sub, i) && 0 <= j < |sub|
    ensures s[i + j] == sub[j]
  {
    assert s[i + j] == s[i..i + |sub|][j];
  }

  /** Where `a + b` occurs, `a` occurs and `b` occurs right after it. */
  lemma OccursAtSplit(s: string, a: string, b: string, i: int)
    requires OccursAt(s, a + b, i)
    ensures OccursAt(s, a, i) && OccursAt(s, b, i + |a|)
  {
    assert s[i..i + |a|] == (a + b)[..|a|];
    assert s[i + |a|..i + |a| + |b|] == (a + b)[|a|..];
  }

  /** Each of three pieces occurs where it stands in their concatenation. */
  lemma OccursInThree(a: string, b: string, c: string)
    ensures OccursAt(a + b + c, a, 0)
    ensures OccursAt(a + b + c, b, |a|)
    ensures OccursAt(a + b + c, c, |a| + |b|)
  {
    var s := a + b + c;
    assert s[..|a|] == a;
    assert s[|a|..|a| + |b|] == b;
    assert s[|a| + |b|..] == c;
  }

  /** Python's `sep.join(parts)`. */
  function Join(parts: seq<string>, sep: string): (r: string)
    ensures parts == [] ==> r == []
    ensures |parts| == 1 ==> r == parts[0]
  {
    if parts == [] then []
    else if |parts| == 1 then parts[0]
    else parts[0] + sep + Join(parts[1..], sep)
  }

  /**
    `sep.join(parts)` is the parts in order with `sep` between each two of
    them and nowhere else.
  */
  lemma {:induction false} JoinIsWeave(parts: seq<string>, sep: string)
    requires parts != []
    ensures Join(parts, sep) == Weave(parts, seq(|parts| - 1, _ => sep))
  {
    var seps := seq(|parts| - 1, _ => sep);
    if |parts| == 1 {
      assert parts[1..] == [];
    } else {
      JoinIsWeave(parts[1..], sep);
      assert seps[1..] == seq(|parts| - 2, _ => sep);
    }
  }

  /** Every part stands in the joined string, at an index Dafny can point to. */
  lemma {:induction false} JoinContainsParts(parts: seq<string>, sep: string, k: nat)
    requires k < |parts|
    ensures Contains(Join(parts, sep), parts[k])
  {
    var j := Join(parts, sep);
    if |parts| == 1 {
      assert OccursAt(j, parts[k], 0);
    } else if k == 0 {
      assert OccursAt(j, parts[0], 0);
    } else {
      JoinContainsParts(parts[1..], sep, k - 1);
      assert parts[1..][k - 1] == parts[k];
      var rest := Join(parts[1..], sep);
      var i :| 0 <= i <= |rest| && OccursAt(rest, parts[k], i);
      var off := |parts[0] + sep|;
      assert j == (parts[0] + sep) + rest;
      assert 0 <= i && i + |parts[k]| <= |rest|;
      assert j[off + i..off + i + |parts[k]|] == rest[i..i + |parts[k]|];
      assert OccursAt(j, parts[k], off + i);
    }
  }

  /** Python's `filter(None, strings)`: drops the empty strings and keeps the rest in order. */
  function NonEmpty(strings: seq<string>): (r: seq<string>)
    ensures |r| <= |strings|
    ensures forall k :: 0 <= k < |r| ==> r[k] != []
    ensures forall k :: 0 <= k < |r| ==> r[k] in strings
    ensures forall k :: 0 <= k < |strings| && strings[k] != [] ==> strings[k] in r
    ensures (forall k :: 0 <= k < |strings| ==> strings[k] != []) ==> r == strings
  {
    if strings == [] then []
    else
      var rest := NonEmpty(strings[1..]);
      assert strings == [strings[0]] + strings[1..];
      if strings[0] == [] then rest else [strings[0]] + rest
  }

  /** Dropping empty strings works piecewise, so the kept strings stay in their order. */
  lemma {:induction false} NonEmptyAppend(a: seq<string>, b: seq<string>)
    ensures NonEmpty(a + b) == NonEmpty(a) + NonEmpty(b)
  {
    if a == [] {
      assert a + b == b;
    } else {
      assert (a + b)[0] == a[0];
      assert (a + b)[1..] == a[1..] + b;
      NonEmptyAppend(a[1..], b);
    }
  }

  /** What occurs in the middle piece occurs in the whole. */
  lemma ContainsInMiddle(pre: string, mid: string, post: string, sub: string)
    requires Contains(mid, sub)
    ensures Contains(pre + mid + post, sub)
  {
    var i :| 0 <= i <= |mid| && OccursAt(mid, sub, i);
    var s := pre + mid + post;
    assert s[|pre| + i..|pre| + i + |sub|] == mid[i..i + |sub|];
    assert OccursAt(s, sub, |pre| + i);
  }

  /**
    Interleaves `parts` with the separators that stood between them:
    parts[0] + seps[0] + parts[1] + ... ; a trailing separator is allowed
    when there are as many separators as parts.
  */
  function Weave(parts: seq<string>, seps: seq<string>): (s: string)
    requires |seps| <= |parts| <= |seps| + 1
  {
    if parts == [] then []
    else if seps == [] then parts[0] + Weave(parts[1..], [])
    else parts[0] + seps[0] + Weave(parts[1..], seps[1..])
  }

  /** A string is its pieces before `i`, between `i` and `j`, and from `j` on. */
  lemma SplitInThree(s: string, i: nat, j: nat)
    requires i <= j <= |s|
    ensures s == s[..i] + s[i..j] + s[j..]
  {
  }

  predicate IsDigit(c: char)
  {
    '0' <= c <= '9'
  }

  /** Python's `str(n)` for a non-negative int: decimal digits, no leading zero. */
  function NatToString(n: nat): (r: string)
    ensures |r| >= 1
  {
    if n < 10 then [DigitChar(n)]
    else NatToString(n / 10) + [DigitChar(n % 10)]
  }

  /** `str(n)` is made of decimal digits and has no leading zero. */
  lemma {:induction false} NatToStringDigits(n: nat)
    ensures forall i :: 0 <= i < |NatToString(n)| ==> IsDigit(NatToString(n)[i])
    ensures |NatToString(n)| > 1 ==> NatToString(n)[0] != '0'
  {
    if n >= 10 {
      NatToStringDigits(n / 10);
    }
  }

  /** The number a string of decimal digits denotes. */
  function DecimalValue(s: string): (v: nat)
    requires forall i :: 0 <= i < |s| ==> IsDigit(s[i])
  {
    if s == [] then 0
    else
      assert IsDigit(s[|s| - 1]);
      DecimalValue(s[..|s| - 1]) * 10 + ((s[|s| - 1] as int) - ('0' as int))
  }

  /** `str(n)` denotes `n`: reading the digits back gives the number. */
  lemma {:induction false} NatToStringValue(n: nat)
    ensures forall i :: 0 <= i < |NatToString(n)| ==> IsDigit(NatToString(n)[i])
    ensures DecimalValue(NatToString(n)) == n
  {
    NatToStringDigits(n);
    if n >= 10 {
      NatToStringValue(n / 10);
      var s := NatToString(n);
      assert s[..|s| - 1] == NatToString(n / 10);
    }
  }

  function DigitChar(d: nat): (c: char)
    requires d < 10
    ensures IsDigit(c)
  {
    (('0' as int) + d) as char
  }
}
