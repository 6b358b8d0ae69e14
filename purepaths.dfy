/**
  The one piece of pathlib's pure-path logic the core depends on: the
  `suffix` of a final path component, by the rule of Python 3.8 to 3.13
  (`i = name.rfind('.')`; the suffix is `name[i:]` when `0 < i < len(name) - 1`,
  and empty otherwise).
*/
module PurePaths {

  /** Python's `name.rfind('.')`: the index of the last dot, or -1. */
  function LastDot(name: string): (r: int)
  {
    LastDotBefore(name, |name|)
  }

  /** The index of the last dot among the first `end` characters, or -1. */
  function LastDotBefore(name: string, end: nat): (r: int)
    requires end <= |name|
    decreases end
  {
    if end == 0 then -1
    else if name[end - 1] == '.' then end - 1
    else LastDotBefore(name, end - 1)
  }

  /** `rfind` finds a dot, and no dot comes after it (up to `end`). */
  lemma {:induction false} LastDotBeforeIsLast(name: string, end: nat)
    requires end <= |name|
    ensures var i := LastDotBefore(name, end);
            && -1 <= i < end
            && (i >= 0 ==> name[i] == '.')
            && forall j :: i < j < end ==> name[j] != '.'
    decreases end
  {
    if end > 0 && name[end - 1] != '.' {
      LastDotBeforeIsLast(name, end - 1);
    }
  }

  /** A dot with no dot after it is the one `rfind` finds. */
  lemma {:induction false} LastDotAt(name: string, end: nat, i: nat)
    requires i < end <= |name| && name[i] == '.'
    requires forall j :: i < j < end ==> name[j] != '.'
    ensures LastDotBefore(name, end) == i
    decreases end
  {
    if end - 1 > i {
      LastDotAt(name, end - 1, i);
    }
  }

  /** pathlib's `PurePath.suffix` of a final component `name`. */
  function Suffix(name: string): (suffix: string)
  {
    var i := LastDot(name);
    if 0 < i < |name| - 1 then name[i..] else []
  }

  /**
    A non-empty suffix is an ending of the name, shorter than the name,
    made of a dot and at least one further character, none of them a dot;
    the suffix is empty exactly when the name ends in a dot or has no dot
    after its first character.
  */
  lemma SuffixShape(name: string)
    ensures var r := Suffix(name);
            && (r != [] ==> |r| >= 2 && |r| < |name| && r == name[|name| - |r|..])
            && (r != [] ==> r[0] == '.' && forall j :: 1 <= j < |r| ==> r[j] != '.')
            && (r == [] <==> (name != [] && name[|name| - 1] == '.')
                             || (forall j :: 0 < j < |name| ==> name[j] != '.'))
  {
    LastDotBeforeIsLast(name, |name|);
  }

  /** A dot that is neither first nor last, with no dot after it, starts the suffix. */
  lemma SuffixFromDot(name: string, d: nat)
    requires 0 < d < |name| - 1 && name[d] == '.'
    requires forall j :: d < j < |name| ==> name[j] != '.'
    ensures Suffix(name) == name[d..]
  {
    LastDotAt(name, |name|, d);
  }

  /** A name with no dot after its first character has no suffix. */
  lemma NoDotNoSuffix(name: string)
    requires forall j :: 0 < j < |name| ==> name[j] != '.'
    ensures Suffix(name) == []
  {
    LastDotBeforeIsLast(name, |name|);
  }

  /**
    The suffix is exactly ".json" when, and only when, the name ends with
    ".json" and has at least one character before that ending: ".json"
    itself is a hidden file without a suffix, and the comparison is
    case-sensitive.
  */
  lemma JsonSuffixIff(name: string)
    ensures Suffix(name) == ".json" <==> |name| > 5 && name[|name| - 5..] == ".json"
  {
    if |name| > 5 && name[|name| - 5..] == ".json" {
      assert name[|name| - 5] == '.';
      assert forall j :: |name| - 5 < j < |name| ==> name[j] != '.' by {
        forall j | |name| - 5 < j < |name| ensures name[j] != '.' {
          assert name[j] == name[|name| - 5..][j - (|name| - 5)];
        }
      }
      LastDotAt(name, |name|, |name| - 5);
    }
  }
}
