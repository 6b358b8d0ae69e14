/**
  Configuration loading (src/app_utilities/loading.py): the environment-string
  parser `env_string_to_dict`, the required-key check `check_keys_not_missing`
  and the lookup of one configuration record by UUID, `load_config_from_path`.
  The file system, the JSON decoder and UUID parsing are inputs.
*/
module Loading {
  import opened Wrappers
  import opened Text
  import opened PurePaths

  // =====================================================================
  // env_string_to_dict
  // =====================================================================

  /** `s.replace('"', '')`. */
  function RemoveQuotes(s: string): (r: string)
    ensures '"' !in r
    ensures multiset(r) == multiset(s)['"' := 0]
  {
    if s == [] then []
    else
      assert s == [s[0]] + s[1..];
      if s[0] == '"' then RemoveQuotes(s[1..]) else [s[0]] + RemoveQuotes(s[1..])
  }

  /** Removing quotes works piecewise, so it keeps the order of everything else. */
  lemma {:induction false} RemoveQuotesAppend(a: string, b: string)
    ensures RemoveQuotes(a + b) == RemoveQuotes(a) + RemoveQuotes(b)
  {
    if a == [] {
      assert a + b == b;
    } else {
      assert (a + b)[0] == a[0];
      assert (a + b)[1..] == a[1..] + b;
      RemoveQuotesAppend(a[1..], b);
    }
  }

  /** The characters `str.splitlines` breaks at. */
  predicate IsLineBreak(c: char)
  {
    var n := c as int;
    10 <= n <= 13 || 28 <= n <= 30 || n == 0x85 || n == 0x2028 || n == 0x2029
  }

  predicate NoLineBreak(s: string)
  {
    forall i :: 0 <= i < |s| ==> !IsLineBreak(s[i])
  }

  /** A line ending `str.splitlines` recognises: "\r\n" or one break character. */
  predicate IsLineEnding(e: string)
  {
    e == "\r\n" || (|e| == 1 && IsLineBreak(e[0]))
  }

  /** One line as `str.splitlines(keepends=True)` sees it: its text and its ending. */
  datatype Line = Line(text: string, ending: string)

  /** Index of the first line-break character at or after `from`, or `|s|`. */
  function FirstBreak(s: string, from: nat): (i: nat)
    requires from <= |s|
    ensures from <= i <= |s|
    ensures i < |s| ==> IsLineBreak(s[i])
    ensures forall j :: from <= j < i ==> !IsLineBreak(s[j])
    decreases |s| - from
  {
    if from == |s| then |s|
    else if IsLineBreak(s[from]) then from
    else FirstBreak(s, from + 1)
  }

  /** The lines concatenated back with their endings. */
  function Unlines(ls: seq<Line>): (s: string)
  {
    if ls == [] then [] else ls[0].text + ls[0].ending + Unlines(ls[1..])
  }

  /** A sequence of lines as `splitlines` produces them. */
  predicate WellFormedLines(ls: seq<Line>)
  {
    && (forall k :: 0 <= k < |ls| ==> NoLineBreak(ls[k].text))
    && (forall k :: 0 <= k < |ls| ==> IsLineEnding(ls[k].ending) || (k == |ls| - 1 && ls[k].ending == []))
    && (forall k :: 0 <= k < |ls| ==> ls[k].text + ls[k].ending != [])
  }

  /** The length of the line ending that starts at `i`: 2 for "\r\n", else 1. */
  function EndingLength(s: string, i: nat): (w: nat)
    requires i < |s| && IsLineBreak(s[i])
    ensures 1 <= w <= 2 && i + w <= |s| && IsLineEnding(s[i..i + w])
  {
    if s[i] == '\r' && i + 1 < |s| && s[i + 1] == '\n' then
      assert s[i..i + 2] == "\r\n";
      2
    else 1
  }

  /**
    The lines of `s` with their endings. A "\r" directly followed by "\n"
    ends one line; an empty string has no lines; a final line ending does not
    start a further empty line.
  */
  function ScanLines(s: string): (ls: seq<Line>)
    decreases |s|
  {
    if s == [] then []
    else
      var i := FirstBreak(s, 0);
      if i == |s| then [Line(s, [])]
      else
        var w := EndingLength(s, i);
        [Line(s[..i], s[i..i + w])] + ScanLines(s[i + w..])
  }

  /** The lines and their endings make up the string again. */
  lemma {:induction false} ScanLinesRoundTrip(s: string)
    ensures Unlines(ScanLines(s)) == s
    decreases |s|
  {
    if s != [] {
      var i := FirstBreak(s, 0);
      if i == |s| {
        assert s[..i] == s;
      } else {
        var w := EndingLength(s, i);
        var line := Line(s[..i], s[i..i + w]);
        var rest := ScanLines(s[i + w..]);
        ScanLinesRoundTrip(s[i + w..]);
        UnlinesCons(line, rest);
        Text.SplitInThree(s, i, i + w);
      }
    }
  }

  lemma UnlinesCons(line: Line, rest: seq<Line>)
    ensures Unlines([line] + rest) == line.text + line.ending + Unlines(rest)
  {
    assert ([line] + rest)[1..] == rest;
  }

  /**
    No line holds a break, every ending is a line ending (only the last line
    may lack one) and no line is entirely empty.
  */
  lemma {:induction false} ScanLinesWellFormed(s: string)
    ensures WellFormedLines(ScanLines(s))
    decreases |s|
  {
    if s != [] {
      var i := FirstBreak(s, 0);
      if i != |s| {
        var w := EndingLength(s, i);
        ScanLinesWellFormed(s[i + w..]);
        WellFormedCons(Line(s[..i], s[i..i + w]), ScanLines(s[i + w..]));
      }
    }
  }

  lemma WellFormedCons(line: Line, rest: seq<Line>)
    requires NoLineBreak(line.text) && IsLineEnding(line.ending)
    requires WellFormedLines(rest)
    ensures WellFormedLines([line] + rest)
  {
    var ls := [line] + rest;
    assert forall k :: 1 <= k < |ls| ==> ls[k] == rest[k - 1];
  }

  /** The first break is found where the break-free prefix ends. */
  lemma {:induction false} FirstBreakAt(s: string, from: nat, i: nat)
    requires from <= i < |s| && IsLineBreak(s[i])
    requires forall j :: from <= j < i ==> !IsLineBreak(s[j])
    ensures FirstBreak(s, from) == i
    decreases i - from
  {
    if from < i {
      FirstBreakAt(s, from + 1, i);
    }
  }

  lemma {:induction false} FirstBreakNone(s: string, from: nat)
    requires from <= |s|
    requires forall j :: from <= j < |s| ==> !IsLineBreak(s[j])
    ensures FirstBreak(s, from) == |s|
    decreases |s| - from
  {
    if from < |s| {
      FirstBreakNone(s, from + 1);
    }
  }

  /**
    The converse of ScanLines' contract: a break-free text followed by a line
    ending is the first line, provided a lone "\r" is not followed by "\n".
  */
  lemma ScanLinesCons(text: string, ending: string, rest: string)
    requires NoLineBreak(text) && IsLineEnding(ending)
    requires ending == "\r" ==> rest == [] || rest[0] != '\n'
    ensures ScanLines(text + ending + rest) == [Line(text, ending)] + ScanLines(rest)
  {
    var s := text + ending + rest;
    var i := |text|;
    assert forall j :: 0 <= j < i ==> s[j] == text[j];
    assert s[i] == ending[0];
    FirstBreakAt(s, 0, i);
    assert EndingLength(s, i) == |ending| by {
      if |ending| == 2 {
        assert s[i + 1] == ending[1];
      } else if i + 1 < |s| {
        assert s[i + 1] == rest[0];
      }
    }
    assert s[..i] == text;
    assert s[i..i + |ending|] == ending;
    assert s[i + |ending|..] == rest;
  }

  /** A non-empty break-free string is one unterminated line. */
  lemma ScanLinesLast(text: string)
    requires NoLineBreak(text) && text != []
    ensures ScanLines(text) == [Line(text, [])]
  {
    FirstBreakNone(text, 0);
  }

  /** No "\r" ending is directly followed by a line starting with "\n" (the two would be read as one ending). */
  predicate NoSplitCrLf(ls: seq<Line>)
  {
    forall k :: 0 <= k < |ls| - 1 && ls[k].ending == "\r" ==>
      ls[k + 1].text + ls[k + 1].ending == [] || (ls[k + 1].text + ls[k + 1].ending)[0] != '\n'
  }

  /** The other round trip: lines as `splitlines` produces them are scanned back unchanged. */
  lemma {:induction false} UnlinesRoundTrip(ls: seq<Line>)
    requires WellFormedLines(ls) && NoSplitCrLf(ls)
    ensures ScanLines(Unlines(ls)) == ls
  {
    if ls != [] {
      var rest := ls[1..];
      assert [ls[0]] + rest == ls;
      UnlinesCons(ls[0], rest);
      if ls[0].ending == [] {
        assert IsLineEnding(ls[0].ending) || |ls| == 1;
        assert Unlines(ls) == ls[0].text;
        ScanLinesLast(ls[0].text);
      } else {
        assert forall k :: 0 <= k < |rest| ==> rest[k] == ls[k + 1];
        UnlinesRoundTrip(rest);
        if rest != [] {
          UnlinesCons(rest[0], rest[1..]);
          assert [rest[0]] + rest[1..] == rest;
        }
        ScanLinesCons(ls[0].text, ls[0].ending, Unlines(rest));
      }
    }
  }

  /** Lines free of quotes give a text free of quotes. */
  lemma {:induction false} UnlinesOmits(ls: seq<Line>, c: char)
    requires !IsLineBreak(c)
    requires forall k :: 0 <= k < |ls| ==> c !in ls[k].text && (ls[k].ending == [] || IsLineEnding(ls[k].ending))
    ensures c !in Unlines(ls)
  {
    if ls != [] {
      UnlinesOmits(ls[1..], c);
    }
  }

  /** `s.splitlines()`. */
  function SplitLines(s: string): (lines: seq<string>)
    ensures |lines| == |ScanLines(s)|
    ensures forall k :: 0 <= k < |lines| ==> lines[k] == ScanLines(s)[k].text && NoLineBreak(lines[k])
  {
    ScanLinesWellFormed(s);
    Texts(ScanLines(s))
  }

  /** The lines' texts, without their endings. */
  function Texts(ls: seq<Line>): (texts: seq<string>)
    ensures |texts| == |ls|
    ensures forall k :: 0 <= k < |ls| ==> texts[k] == ls[k].text
  {
    seq(|ls|, k requires 0 <= k < |ls| => ls[k].text)
  }

  /** The lines `env_string_to_dict` splits: quotes removed, empty lines dropped. */
  function EnvLines(s: string): (lines: seq<string>)
    ensures forall k :: 0 <= k < |lines| ==> lines[k] != [] && '"' !in lines[k] && NoLineBreak(lines[k])
  {
    var unquoted := RemoveQuotes(s);
    var all := SplitLines(unquoted);
    var lines := NonEmpty(all);
    forall k | 0 <= k < |lines| ensures '"' !in lines[k] && NoLineBreak(lines[k]) {
      var j :| 0 <= j < |all| && all[j] == lines[k];
      ScanLinesRoundTrip(unquoted);
      TextsOmitWhatUnlinesOmits(ScanLines(unquoted), j, '"');
    }
    lines
  }

  /**
    The lines `env_string_to_dict` reads from a text assembled from
    quote-free lines: their non-empty texts, in order.
  */
  lemma EnvLinesOfUnlines(ls: seq<Line>)
    requires WellFormedLines(ls) && NoSplitCrLf(ls)
    requires forall k :: 0 <= k < |ls| ==> '"' !in ls[k].text
    ensures EnvLines(Unlines(ls)) == NonEmpty(Texts(ls))
  {
    UnlinesOmits(ls, '"');
    RemoveQuotesIdentity(Unlines(ls));
    UnlinesRoundTrip(ls);
  }

  /** Each text as a line ended by "\n". */
  function Terminated(texts: seq<string>): (ls: seq<Line>)
    ensures |ls| == |texts|
    ensures forall k :: 0 <= k < |ls| ==> ls[k] == Line(texts[k], "\n")
  {
    seq(|texts|, k requires 0 <= k < |texts| => Line(texts[k], "\n"))
  }

  /** Quote-free, break-free lines each ended by "\n" are read back, less the empty ones. */
  lemma EnvLinesOfTerminated(texts: seq<string>)
    requires forall k :: 0 <= k < |texts| ==> NoLineBreak(texts[k]) && '"' !in texts[k]
    ensures EnvLines(Unlines(Terminated(texts))) == NonEmpty(texts)
  {
    TerminatedWellFormed(texts);
    EnvLinesOfUnlines(Terminated(texts));
  }

  lemma TerminatedWellFormed(texts: seq<string>)
    requires forall k :: 0 <= k < |texts| ==> NoLineBreak(texts[k])
    ensures WellFormedLines(Terminated(texts)) && NoSplitCrLf(Terminated(texts))
    ensures Texts(Terminated(texts)) == texts
  {
    var ls := Terminated(texts);
    assert forall k :: 0 <= k < |ls| ==> IsLineEnding(ls[k].ending);
  }

  /** A character absent from the whole text is absent from every line. */
  lemma {:induction false} TextsOmitWhatUnlinesOmits(ls: seq<Line>, j: nat, c: char)
    requires j < |ls|
    requires c !in Unlines(ls)
    ensures c !in ls[j].text
  {
    assert Unlines(ls) == ls[0].text + (ls[0].ending + Unlines(ls[1..]));
    if j > 0 {
      assert c !in Unlines(ls[1..]) by {
        assert Unlines(ls) == (ls[0].text + ls[0].ending) + Unlines(ls[1..]);
      }
      TextsOmitWhatUnlinesOmits(ls[1..], j - 1, c);
      assert ls[1..][j - 1] == ls[j];
    }
  }

  /**
    Python's `str.isspace` (and the `\s` of a `str` pattern in `re`): the
    code points of the Unicode whitespace characters.
  */
  predicate IsSpace(c: char)
  {
    var n := c as int;
    9 <= n <= 13 || 28 <= n <= 32 || n == 0x85 || n == 0xA0 || n == 0x1680
    || 0x2000 <= n <= 0x200A || n == 0x2028 || n == 0x2029 || n == 0x202F
    || n == 0x205F || n == 0x3000
  }

  /** The character class `[\s+]`: one whitespace character or a literal '+'. */
  predicate IsSeparatorEdge(c: char)
  {
    IsSpace(c) || c == '+'
  }

  /** The pattern `[\s+]=[\s+]` matches the three characters of `s` starting at `i`. */
  predicate SeparatorAt(s: string, i: int)
  {
    0 <= i && i + 3 <= |s| && IsSeparatorEdge(s[i]) && s[i + 1] == '=' && IsSeparatorEdge(s[i + 2])
  }

  predicate IsSeparator(t: string)
  {
    |t| == 3 && SeparatorAt(t, 0)
  }

  /** The leftmost match of the separator at or after `from`, or `|s|`. */
  function FirstSeparator(s: string, from: nat): (i: nat)
    requires from <= |s|
    ensures from <= i <= |s|
    ensures i < |s| ==> SeparatorAt(s, i)
    ensures forall j :: from <= j < i ==> !SeparatorAt(s, j)
    decreases |s| - from
  {
    if from + 3 > |s| then |s|
    else if SeparatorAt(s, from) then from
    else FirstSeparator(s, from + 1)
  }

  /** The pieces `re.split` cuts a line into, and the separators it cut out. */
  datatype Pieces = Pieces(parts: seq<string>, seps: seq<string>)

  /**
    `re.split(r'[\s+]=[\s+]', s)` with the matched separators kept aside:
    the line is its parts interleaved with the separators; each separator is
    the leftmost match after the previous one, so no part holds a match and
    no match starts inside a part and runs into the separator after it.
  */
  function SplitPieces(s: string): (p: Pieces)
    ensures |p.parts| == |p.seps| + 1
    ensures Weave(p.parts, p.seps) == s
    ensures forall k :: 0 <= k < |p.seps| ==> IsSeparator(p.seps[k])
    ensures forall k, j :: 0 <= k < |p.parts| ==> !SeparatorAt(p.parts[k], j)
    ensures forall k, j :: 0 <= k < |p.seps| && 0 <= j < |p.parts[k]| ==> !SeparatorAt(p.parts[k] + p.seps[k], j)
    decreases |s|
  {
    var i := FirstSeparator(s, 0);
    if i == |s| then
      assert forall j :: !SeparatorAt(s, j);
      Pieces([s], [])
    else
      var rest := SplitPieces(s[i + 3..]);
      var head := s[..i];
      var cut := head + s[i..i + 3];
      assert cut == s[..i + 3];
      assert forall j :: !SeparatorAt(head, j) by {
        forall j | SeparatorAt(head, j) ensures false {
          assert SeparatorAt(s, j);
        }
      }
      assert forall j :: 0 <= j < |head| ==> !SeparatorAt(cut, j) by {
        forall j | 0 <= j < |head| && SeparatorAt(cut, j) ensures false {
          assert SeparatorAt(s, j);
        }
      }
      var p := Pieces([head] + rest.parts, [s[i..i + 3]] + rest.seps);
      assert p.parts[1..] == rest.parts && p.seps[1..] == rest.seps;
      assert s == head + s[i..i + 3] + s[i + 3..];
      p
  }

  /** The leftmost separator is found where the separator-free stretch ends. */
  lemma {:induction false} FirstSeparatorAt(s: string, from: nat, i: nat)
    requires from <= i && SeparatorAt(s, i)
    requires forall j :: from <= j < i ==> !SeparatorAt(s, j)
    ensures FirstSeparator(s, from) == i
    decreases i - from
  {
    if from < i {
      FirstSeparatorAt(s, from + 1, i);
    }
  }

  lemma {:induction false} FirstSeparatorNone(s: string, from: nat)
    requires from <= |s|
    requires forall j :: from <= j ==> !SeparatorAt(s, j)
    ensures FirstSeparator(s, from) == |s|
    decreases |s| - from
  {
    if from + 3 <= |s| {
      FirstSeparatorNone(s, from + 1);
    }
  }

  /**
    The converse of SplitPieces' contract: a head in which no match starts
    (not even one running into the separator after it), then a separator,
    is the first part.
  */
  lemma SplitPiecesCons(head: string, sep: string, rest: string)
    requires IsSeparator(sep)
    requires forall j :: 0 <= j < |head| ==> !SeparatorAt(head + sep, j)
    ensures SplitPieces(head + sep + rest)
            == Pieces([head] + SplitPieces(rest).parts, [sep] + SplitPieces(rest).seps)
  {
    var s := head + sep + rest;
    forall j | 0 <= j < |head| ensures !SeparatorAt(s, j) {
      assert !SeparatorAt(head + sep, j);
      assert s[j] == (head + sep)[j] && s[j + 1] == (head + sep)[j + 1] && s[j + 2] == (head + sep)[j + 2];
    }
    assert s[|head|..|head| + 3] == sep;
    FirstSeparatorAt(s, 0, |head|);
    assert s[..|head|] == head;
    assert s[|head| + 3..] == rest;
  }

  /** A line without any match is a single part. */
  lemma SplitPiecesNone(s: string)
    requires forall j :: !SeparatorAt(s, j)
    ensures SplitPieces(s) == Pieces([s], [])
  {
    FirstSeparatorNone(s, 0);
  }

  /** `key <sep> value`, with no other match about, splits into the key and the value. */
  lemma AssignmentSplits(key: string, sep: string, value: string)
    requires IsSeparator(sep)
    requires forall j :: 0 <= j < |key| ==> !SeparatorAt(key + sep, j)
    requires forall j :: !SeparatorAt(value, j)
    ensures SplitOnSeparator(key + sep + value) == [key, value]
  {
    SplitPiecesCons(key, sep, value);
    SplitPiecesNone(value);
  }

  /** `re.split(r'[\s+]=[\s+]', line)`. */
  function SplitOnSeparator(line: string): (parts: seq<string>)
    ensures |parts| >= 1
  {
    SplitPieces(line).parts
  }

  /** `dict(...)` refused an element: its position and its length (Python's ValueError). */
  datatype DictError = DictError(index: nat, length: nat)

  /** Every element has exactly two items, as `dict` demands. */
  predicate AllPairs(elems: seq<seq<string>>)
  {
    forall i :: 0 <= i < |elems| ==> |elems[i]| == 2
  }

  /** The keys the elements carry. */
  function KeysOf(elems: seq<seq<string>>): (r: set<string>)
    requires AllPairs(elems)
  {
    set i | 0 <= i < |elems| :: elems[i][0]
  }

  /** Element `i` is the last one with its key. */
  predicate IsLastWithKey(elems: seq<seq<string>>, i: int)
    requires AllPairs(elems)
  {
    0 <= i < |elems| && forall j :: i < j < |elems| ==> elems[j][0] != elems[i][0]
  }

  /** `m` maps each key to the value of the last element that carries it. */
  predicate LastOneWins(elems: seq<seq<string>>, m: map<string, string>)
    requires AllPairs(elems)
  {
    forall i | 0 <= i < |elems| :: IsLastWithKey(elems, i) ==> elems[i][0] in m && m[elems[i][0]] == elems[i][1]
  }

  /**
    `dict(elems)`: every element must have exactly two items; the first
    element that does not is reported; a later element with the same key
    overwrites an earlier one.
  */
  function DictFrom(elems: seq<seq<string>>): (r: Result<map<string, string>, DictError>)
    ensures r.Success? <==> AllPairs(elems)
    ensures r.Failure? ==> r.error.index < |elems| && |elems[r.error.index]| != 2
                           && r.error.length == |elems[r.error.index]|
                           && AllPairs(elems[..r.error.index])
    ensures r.Success? ==> r.value.Keys == KeysOf(elems) && LastOneWins(elems, r.value)
  {
    if elems == [] then Success(map[])
    else
      var n := |elems| - 1;
      var front := elems[..n];
      assert elems == front + [elems[n]];
      var prev := DictFrom(front);
      if prev.Failure? then
        assert elems[..prev.error.index] == front[..prev.error.index];
        prev
      else if |elems[n]| != 2 then
        Failure(DictError(n, |elems[n]|))
      else
        DictStep(front, elems[n], prev.value);
        Success(prev.value[elems[n][0] := elems[n][1]])
  }

  /** Adding one pair to the end extends the keys and makes that pair's value win. */
  lemma DictStep(front: seq<seq<string>>, last: seq<string>, m: map<string, string>)
    requires AllPairs(front) && |last| == 2
    requires m.Keys == KeysOf(front) && LastOneWins(front, m)
    ensures AllPairs(front + [last])
    ensures m[last[0] := last[1]].Keys == KeysOf(front + [last])
    ensures LastOneWins(front + [last], m[last[0] := last[1]])
  {
    var elems := front + [last];
    var n := |front|;
    assert forall i :: 0 <= i < n ==> elems[i] == front[i];
    assert AllPairs(elems);
    assert KeysOf(elems) == KeysOf(front) + {last[0]} by {
      assert forall i :: 0 <= i < n ==> elems[i][0] == front[i][0];
      assert elems[n][0] == last[0];
    }
    var m' := m[last[0] := last[1]];
    forall i | IsLastWithKey(elems, i) ensures elems[i][0] in m' && m'[elems[i][0]] == elems[i][1] {
      if i < n {
        assert elems[i][0] != last[0];
        assert IsLastWithKey(front, i);
      }
    }
  }

  /** `map(partial(re.split, ...), lines)`: each line cut into its parts. */
  function SplitEach(lines: seq<string>): (elems: seq<seq<string>>)
    ensures |elems| == |lines|
    ensures forall k :: 0 <= k < |lines| ==> elems[k] == SplitOnSeparator(lines[k])
  {
    seq(|lines|, k requires 0 <= k < |lines| => SplitOnSeparator(lines[k]))
  }

  /**
    `dict(map(partial(re.split, ...), lines))`: it succeeds exactly when
    every line splits into exactly two parts; the first line that does not
    is the one reported; the keys are the lines' first parts.
  */
  function LinesToDict(lines: seq<string>): (r: Result<map<string, string>, DictError>)
    ensures r.Success? <==> forall k :: 0 <= k < |lines| ==> |SplitOnSeparator(lines[k])| == 2
    ensures r.Failure? ==> r.error.index < |lines|
                           && r.error.length == |SplitOnSeparator(lines[r.error.index])| != 2
                           && forall k :: 0 <= k < r.error.index ==> |SplitOnSeparator(lines[k])| == 2
    ensures r.Success? ==> r.value.Keys == set k | 0 <= k < |lines| :: SplitOnSeparator(lines[k])[0]
  {
    var elems := SplitEach(lines);
    var r := DictFrom(elems);
    if r.Failure? then
      PairsBefore(elems, r.error.index);
      r
    else
      SplitEachKeys(lines);
      r
  }

  lemma PairsBefore(elems: seq<seq<string>>, n: nat)
    requires n <= |elems| && AllPairs(elems[..n])
    ensures forall k :: 0 <= k < n ==> |elems[k]| == 2
  {
    assert forall k :: 0 <= k < n ==> elems[..n][k] == elems[k];
  }

  lemma SplitEachKeys(lines: seq<string>)
    requires AllPairs(SplitEach(lines))
    ensures KeysOf(SplitEach(lines)) == set k | 0 <= k < |lines| :: SplitOnSeparator(lines[k])[0]
  {
  }

  /** `env_string_to_dict`. */
  function EnvStringToDict(s: string): (r: Result<map<string, string>, DictError>)
  {
    LinesToDict(EnvLines(s))
  }

  /**
    Which line supplies a key's value: for the last line with a given key,
    the dict maps that key to the line's second part.
  */
  lemma LinesToDictLastLineWins(lines: seq<string>, k: nat)
    requires LinesToDict(lines).Success?
    requires k < |lines|
    requires forall j :: k < j < |lines| ==> SplitOnSeparator(lines[j])[0] != SplitOnSeparator(lines[k])[0]
    ensures LinesToDict(lines).value[SplitOnSeparator(lines[k])[0]] == SplitOnSeparator(lines[k])[1]
  {
    var elems := SplitEach(lines);
    assert IsLastWithKey(elems, k);
  }

  /** Text without quotes is left as it is. */
  lemma {:induction false} RemoveQuotesIdentity(s: string)
    requires '"' !in s
    ensures RemoveQuotes(s) == s
  {
    if s != [] {
      RemoveQuotesIdentity(s[1..]);
    }
  }

  // ---------------------------------------------------------------------
  // The separator the documented `KEY=VALUE` lines call for, `\s*=\s*`:
  // every '=' cuts the line, and the whitespace about it is dropped.
  // ---------------------------------------------------------------------

  /** The first '=' at or after `from`, or `|s|`. */
  function FirstEquals(s: string, from: nat): (i: nat)
    requires from <= |s|
    ensures from <= i <= |s|
    ensures i < |s| ==> s[i] == '='
    ensures forall j :: from <= j < i ==> s[j] != '='
    decreases |s| - from
  {
    if from == |s| || s[from] == '=' then from else FirstEquals(s, from + 1)
  }

  /** `s` without its trailing whitespace. */
  function TrimEnd(s: string): (r: string)
    ensures |r| <= |s| && r == s[..|r|]
    ensures r == [] || !IsSpace(r[|r| - 1])
    ensures forall j :: |r| <= j < |s| ==> IsSpace(s[j])
  {
    if s != [] && IsSpace(s[|s| - 1]) then TrimEnd(s[..|s| - 1]) else s
  }

  /** `s` without its leading whitespace. */
  function TrimStart(s: string): (r: string)
    ensures |r| <= |s| && r == s[|s| - |r|..]
    ensures r == [] || !IsSpace(r[0])
    ensures forall j :: 0 <= j < |s| - |r| ==> IsSpace(s[j])
  {
    if s != [] && IsSpace(s[0]) then TrimStart(s[1..]) else s
  }

  /**
    `re.split(r'\s*=\s*', line)`: the line cut at each of its '=', so it has
    one part more than it has '=', and no part holds one. (The leftmost
    match begins at the whitespace run just before the first '=' and runs
    over all the whitespace after it.)
  */
  function SplitOnEquals(line: string): (parts: seq<string>)
    ensures |parts| == multiset(line)['='] + 1
    ensures forall k :: 0 <= k < |parts| ==> '=' !in parts[k]
    decreases |line|
  {
    var i := FirstEquals(line, 0);
    if i == |line| then
      assert '=' !in line;
      [line]
    else
      var head := TrimEnd(line[..i]);
      var rest := TrimStart(line[i + 1..]);
      FirstCut(line, i);
      [head] + SplitOnEquals(rest)
  }

  /** What the cut at the first '=' keeps of the line. */
  lemma FirstCut(line: string, i: nat)
    requires i < |line| && line[i] == '=' && forall j :: 0 <= j < i ==> line[j] != '='
    ensures '=' !in TrimEnd(line[..i])
    ensures |TrimStart(line[i + 1..])| < |line|
    ensures multiset(line)['='] == multiset(TrimStart(line[i + 1..]))['='] + 1
  {
    var head := TrimEnd(line[..i]);
    var rest := TrimStart(line[i + 1..]);
    assert '=' !in line[..i];
    NotInSlice('=', line[..i], 0, |head|);
    assert rest == line[|line| - |rest|..];
    assert forall j :: i < j < |line| - |rest| ==> IsSpace(line[j]) by {
      forall j | i < j < |line| - |rest| ensures IsSpace(line[j]) {
        assert line[j] == line[i + 1..][j - i - 1];
      }
    }
    EqualsCut(line, i, rest);
  }

  /** Cutting at the first '=' and trimming loses that one '=' and nothing else. */
  lemma EqualsCut(line: string, i: nat, rest: string)
    requires i < |line| && line[i] == '=' && forall j :: 0 <= j < i ==> line[j] != '='
    requires |rest| <= |line| - i - 1 && rest == line[|line| - |rest|..]
    requires forall j :: i < j < |line| - |rest| ==> IsSpace(line[j])
    ensures multiset(line)['='] == multiset(rest)['='] + 1
  {
    var d := line[i + 1..|line| - |rest|];
    assert forall j :: 0 <= j < |d| ==> IsSpace(d[j]) by {
      forall j | 0 <= j < |d| ensures IsSpace(d[j]) {
        assert d[j] == line[i + 1 + j];
      }
    }
    SpacesHaveNoEquals(d);
    assert line == line[..i] + [line[i]] + d + rest;
    CountAroundEquals(line[..i], d, rest);
  }

  /** What a sequence lacks, each of its slices lacks. */
  lemma NotInSlice<T>(x: T, s: seq<T>, lo: nat, hi: nat)
    requires x !in s && lo <= hi <= |s|
    ensures x !in s[lo..hi]
  {
    forall j | 0 <= j < hi - lo ensures s[lo..hi][j] != x {
      assert s[lo..hi][j] == s[lo + j];
    }
  }

  /** Proof helper: two singletons joined are the two-element sequence. */
  lemma ConsOne<T>(a: T, b: T)
    ensures [a] + [b] == [a, b]
  {
  }

  lemma SpacesHaveNoEquals(d: string)
    requires forall j :: 0 <= j < |d| ==> IsSpace(d[j])
    ensures '=' !in d
  {
    forall j | 0 <= j < |d| ensures d[j] != '=' {
      assert IsSpace(d[j]);
    }
  }

  lemma CountAroundEquals(a: string, d: string, rest: string)
    requires '=' !in a && '=' !in d
    ensures multiset(a + ['='] + d + rest)['='] == multiset(rest)['='] + 1
  {
    assert multiset(a + ['='] + d + rest) == multiset(a) + multiset(['=']) + multiset(d) + multiset(rest);
  }

  /** A line without '=' is a single part. */
  lemma SplitOnEqualsNone(line: string)
    requires '=' !in line
    ensures SplitOnEquals(line) == [line]
  {
    assert FirstEquals(line, 0) == |line|;
  }

  /** A key without '=', then '=', is the first part, trimmed at its end. */
  lemma SplitOnEqualsCons(key: string, value: string)
    requires '=' !in key
    ensures SplitOnEquals(key + "=" + value) == [TrimEnd(key)] + SplitOnEquals(TrimStart(value))
  {
    var line := key + "=" + value;
    assert forall j :: 0 <= j < |key| ==> line[j] == key[j];
    assert line[|key|] == '=';
    assert FirstEquals(line, 0) == |key|;
    assert line[..|key|] == key;
    assert line[|key| + 1..] == value;
  }

  /** `key = value`, with no other '=', splits into the key and the value, trimmed. */
  lemma EqualsAssignmentSplits(key: string, value: string)
    requires '=' !in key && '=' !in value
    ensures SplitOnEquals(key + "=" + value) == [TrimEnd(key), TrimStart(value)]
  {
    SplitOnEqualsCons(key, value);
    var rest := TrimStart(value);
    NotInSlice('=', value, |value| - |rest|, |value|);
    SplitOnEqualsNone(rest);
    ConsOne(TrimEnd(key), rest);
  }

  /**
    `env_string_to_dict` with the separator `\s*=\s*`: it succeeds exactly
    when every line holds exactly one '=', and the keys are the lines' first
    parts.
  */
  function IntendedEnvStringToDict(s: string): (r: Result<map<string, string>, DictError>)
    ensures r.Success? <==> forall k :: 0 <= k < |EnvLines(s)| ==> multiset(EnvLines(s)[k])['='] == 1
    ensures r.Success? ==> r.value.Keys == set k | 0 <= k < |EnvLines(s)| :: SplitOnEquals(EnvLines(s)[k])[0]
  {
    DictFrom(SplitEachOnEquals(EnvLines(s)))
  }

  /** Each line cut by `\s*=\s*`. */
  function SplitEachOnEquals(lines: seq<string>): (elems: seq<seq<string>>)
    ensures |elems| == |lines|
    ensures forall k :: 0 <= k < |lines| ==> elems[k] == SplitOnEquals(lines[k])
  {
    seq(|lines|, k requires 0 <= k < |lines| => SplitOnEquals(lines[k]))
  }

  // =====================================================================
  // check_keys_not_missing
  // =====================================================================

  /** The KeyError of `check_keys_not_missing`: the missing keys and the message's ending. */
  datatype MissingKeys<K> = MissingKeys(missing: set<K>, suffix: string)

  /** `f' in {mapping_name}.' if mapping_name else '.'`: None and "" both give ".". */
  function ErrorSuffix(name: Option<string>): (r: string)
    ensures |r| >= 1 && r[|r| - 1] == '.'
    ensures r == "." <==> name.None? || name.value == []
    ensures name.Some? && name.value != [] ==> r == " in " + name.value + "."
  {
    match name
    case Some(n) => if n == [] then "." else " in " + n + "."
    case None => "."
  }

  /**
    `check_keys_not_missing`, with the mapping seen through `mapping.keys()`
    and the required keys already made a set: it returns normally exactly
    when every required key is a key of the mapping, and otherwise reports
    every missing key at once.
  */
  function CheckKeysNotMissing<K>(required: set<K>, keys: set<K>, name: Option<string>): (r: Outcome<MissingKeys<K>>)
    ensures r.Pass? <==> required <= keys
    ensures r.Fail? ==> r.error.missing != {} && r.error.suffix == ErrorSuffix(name)
    ensures r.Fail? ==> r.error.missing == required - keys
  {
    var missing := required - keys;
    assert missing == {} <==> required <= keys by {
      if !(required <= keys) {
        var x :| x in required && x !in keys;
        assert x in missing;
      }
    }
    if missing == {} then Pass else Fail(MissingKeys(missing, ErrorSuffix(name)))
  }

  /** `order` lists every element of `keys` exactly once (a set's iteration order). */
  predicate EnumeratesSet(order: seq<string>, keys: set<string>)
  {
    (forall k :: 0 <= k < |order| ==> order[k] in keys)
    && (forall x :: x in keys ==> x in order)
    && (forall i, j :: 0 <= i < j < |order| ==> order[i] != order[j])
  }

  /**
    The KeyError's message, `'missing keys ' + ', '.join(keys) + suffix`,
    for the keys in the order the set happens to iterate them in.
  */
  function MissingKeysMessage(e: MissingKeys<string>, order: seq<string>): (m: string)
    requires EnumeratesSet(order, e.missing)
    ensures m == "missing keys " + Join(order, ", ") + e.suffix
    ensures |m| >= 13 + |e.suffix| && m[..13] == "missing keys " && m[|m| - |e.suffix|..] == e.suffix
    ensures forall x :: x in e.missing ==> Contains(m, x)
  {
    var m := "missing keys " + Join(order, ", ") + e.suffix;
    forall x | x in e.missing ensures Contains(m, x) {
      var k :| 0 <= k < |order| && order[k] == x;
      JoinContainsParts(order, ", ", k);
      ContainsInMiddle("missing keys ", Join(order, ", "), e.suffix, x);
    }
    m
  }

  // =====================================================================
  // load_config_from_path
  // =====================================================================

  /** A decoded JSON value; objects keep their entries in document order. */
  datatype Json =
    | JNull
    | JBool(b: bool)
    | JNumber(n: real)
    | JString(s: string)
    | JArray(items: seq<Json>)
    | JObject(fields: seq<(string, Json)>)

  /** The keys of an object's entries: `mapping.keys()`. */
  function Keys(fields: seq<(string, Json)>): (r: set<string>)
  {
    set i | 0 <= i < |fields| :: fields[i].0
  }

  /** No key appears in two entries, as in a dict. */
  predicate DistinctKeys(fields: seq<(string, Json)>)
  {
    forall i, j :: 0 <= i < j < |fields| ==> fields[i].0 != fields[j].0
  }

  /** The position of the first entry with `key`, or `|fields|` when no entry has it. */
  function KeyIndex(fields: seq<(string, Json)>, key: string): (i: nat)
    ensures i <= |fields|
    ensures i < |fields| ==> fields[i].0 == key
    ensures forall j :: 0 <= j < i ==> fields[j].0 != key
    ensures i == |fields| <==> key !in Keys(fields)
  {
    if fields == [] then 0
    else if fields[0].0 == key then 0
    else KeyIndex(fields[1..], key) + 1
  }

  /**
    `d[key] = value` on a dict's entries: a key already present keeps its
    place and takes the new value, a new key goes last.
  */
  function Insert(items: seq<(string, Json)>, key: string, value: Json): (r: seq<(string, Json)>)
    requires DistinctKeys(items)
    ensures DistinctKeys(r)
    ensures Keys(r) == Keys(items) + {key}
    ensures |r| == if key in Keys(items) then |items| else |items| + 1
    ensures forall j :: 0 <= j < |items| ==>
              r[j].0 == items[j].0 && r[j].1 == (if items[j].0 == key then value else items[j].1)
    ensures key !in Keys(items) ==> r[|items|] == (key, value)
  {
    var i := KeyIndex(items, key);
    if i < |items| then
      var r := items[i := (key, value)];
      assert forall j :: 0 <= j < |items| ==> r[j].0 == items[j].0;
      assert Keys(r) == Keys(items);
      r
    else
      var r := items + [(key, value)];
      assert Keys(r) == Keys(items) + {key} by {
        assert forall j :: 0 <= j < |items| ==> r[j] == items[j];
        assert r[|items|].0 == key;
      }
      r
  }

  /**
    The dict `msgspec` builds from an object's entries: each entry is stored
    in turn, so a repeated key stays where it first appeared and holds the
    value it was given last.
  */
  function AsDict(fields: seq<(string, Json)>): (d: seq<(string, Json)>)
    ensures DistinctKeys(d)
    ensures Keys(d) == Keys(fields)
  {
    if fields == [] then []
    else
      var n := |fields| - 1;
      var d := Insert(AsDict(fields[..n]), fields[n].0, fields[n].1);
      KeysOfFront(fields);
      d
  }

  /** The keys of a non-empty object are those of all but its last entry, and the last entry's. */
  lemma KeysOfFront(fields: seq<(string, Json)>)
    requires fields != []
    ensures Keys(fields) == Keys(fields[..|fields| - 1]) + {fields[|fields| - 1].0}
  {
    var n := |fields| - 1;
    assert forall j :: 0 <= j < n ==> fields[..n][j] == fields[j];
  }

  /** An object without repeated keys becomes a dict with the same entries in the same order. */
  lemma {:induction false} AsDictOfDistinct(fields: seq<(string, Json)>)
    requires DistinctKeys(fields)
    ensures AsDict(fields) == fields
  {
    if fields != [] {
      var n := |fields| - 1;
      assert DistinctKeys(fields[..n]);
      AsDictOfDistinct(fields[..n]);
      assert fields[n].0 !in Keys(fields[..n]);
      assert fields[..n] + [fields[n]] == fields;
    }
  }

  /** The entry a store writes is in the dict afterwards. */
  lemma InsertHolds(items: seq<(string, Json)>, key: string, value: Json)
    requires DistinctKeys(items)
    ensures (key, value) in Insert(items, key, value)
  {
    var r := Insert(items, key, value);
    if key in Keys(items) {
      var j := KeyIndex(items, key);
      assert r[j] == (key, value);
    } else {
      assert r[|items|] == (key, value);
    }
  }

  /** A store under one key leaves the entries of the other keys in the dict. */
  lemma InsertKeepsOthers(items: seq<(string, Json)>, key: string, value: Json, e: (string, Json))
    requires DistinctKeys(items) && e in items && e.0 != key
    ensures e in Insert(items, key, value)
  {
    var j :| 0 <= j < |items| && items[j] == e;
    assert Insert(items, key, value)[j] == e;
  }

  /** The last entry with a given key is the one the dict holds. */
  lemma {:induction false} AsDictKeepsLastEntry(fields: seq<(string, Json)>, k: nat)
    requires k < |fields|
    requires forall m :: k < m < |fields| ==> fields[m].0 != fields[k].0
    ensures fields[k] in AsDict(fields)
  {
    var n := |fields| - 1;
    assert AsDict(fields) == Insert(AsDict(fields[..n]), fields[n].0, fields[n].1);
    if k == n {
      InsertHolds(AsDict(fields[..n]), fields[n].0, fields[n].1);
    } else {
      var front := fields[..n];
      assert front[k] == fields[k];
      assert forall m :: k < m < n ==> front[m] == fields[m];
      AsDictKeepsLastEntry(front, k);
      InsertKeepsOthers(AsDict(front), fields[n].0, fields[n].1, fields[k]);
    }
  }

  /** Adding an entry at the end leaves the first position of every earlier key alone. */
  lemma KeyIndexOfExtension(front: seq<(string, Json)>, x: (string, Json), key: string)
    requires key in Keys(front)
    ensures KeyIndex(front + [x], key) == KeyIndex(front, key)
  {
    var i := KeyIndex(front, key);
    assert (front + [x])[i] == front[i];
  }

  /** The dict's entries come in the order their keys first appear in the object. */
  lemma {:induction false} AsDictFirstAppearanceOrder(fields: seq<(string, Json)>, a: nat, b: nat)
    requires a < b < |AsDict(fields)|
    ensures KeyIndex(fields, AsDict(fields)[a].0) < KeyIndex(fields, AsDict(fields)[b].0)
  {
    var n := |fields| - 1;
    var front := AsDict(fields[..n]);
    var d := AsDict(fields);
    assert fields[..n] + [fields[n]] == fields;
    assert front[a].0 in Keys(front) && d[a].0 == front[a].0;
    KeyIndexOfExtension(fields[..n], fields[n], d[a].0);
    if b < |front| {
      AsDictFirstAppearanceOrder(fields[..n], a, b);
      assert front[b].0 in Keys(front) && d[b].0 == front[b].0;
      KeyIndexOfExtension(fields[..n], fields[n], d[b].0);
    } else {
      assert d[b].0 == fields[n].0 && fields[n].0 !in Keys(fields[..n]);
      assert KeyIndex(fields, d[b].0) == n;
    }
  }

  /**
    A key given twice in the document: the dict holds one entry for it, with
    the value it was given last.
  */
  lemma RepeatedKeyKeepsLastValue(fields: seq<(string, Json)>, key: string, first: Json, second: Json)
    requires fields == [(key, first), (key, second)]
    ensures AsDict(fields) == [(key, second)]
  {
    var one := [(key, first)];
    assert fields[..1] == one && one[..0] == [];
    assert KeyIndex([], key) == 0;
    assert AsDict(one) == one;
    assert KeyIndex(one, key) == 0;
  }

  /** A UUID is its 128-bit integer value; two UUIDs are equal when their integers are. */
  newtype Uuid = x: int | 0 <= x < 0x1_0000_0000_0000_0000_0000_0000_0000_0000

  /** The exceptions `load_config_from_path` raises. */
  datatype LoadError =
    | FileNotFound                        // FileNotFoundError: not an existing file
    | NotJsonFile                         // TypeError: the suffix is not ".json"
    | UndecodableDocument                 // msgspec's DecodeError
    | DocumentNotAnObject                 // AttributeError: the top level has no `items()`
    | UuidNotFound(target: Uuid)          // KeyError: no key parses to the target
    | RecordNotAMapping                   // AttributeError: the record has no `keys()`
    | MissingRequiredKeys(e: MissingKeys<string>)  // KeyError from check_keys_not_missing

  /**
    The index of the first entry whose key parses to `target`; keys that do
    not parse, or parse to another UUID, are passed over.
  */
  function FirstMatch(fields: seq<(string, Json)>, target: Uuid, parseUuid: string -> Option<Uuid>): (r: Option<nat>)
    ensures r.Some? ==> r.value < |fields| && parseUuid(fields[r.value].0) == Some(target)
    ensures r.Some? ==> forall j :: 0 <= j < r.value ==> parseUuid(fields[j].0) != Some(target)
    ensures r.None? <==> forall j :: 0 <= j < |fields| ==> parseUuid(fields[j].0) != Some(target)
  {
    if fields == [] then None
    else if parseUuid(fields[0].0) == Some(target) then Some(0)
    else
      match FirstMatch(fields[1..], target, parseUuid)
      case None => None
      case Some(k) => Some(k + 1)
  }

  /** The record the lookup settles on, if any. */
  function MatchedRecord(fields: seq<(string, Json)>, target: Uuid, parseUuid: string -> Option<Uuid>): (r: Option<Json>)
  {
    match FirstMatch(fields, target, parseUuid)
    case None => None
    case Some(k) => Some(fields[k].1)
  }

  /**
    An entry whose key does not parse to the target can be put anywhere in
    the document without changing the record the lookup finds.
  */
  lemma {:induction false} NonMatchingEntryIsIgnored(
      front: seq<(string, Json)>, key: string, value: Json, back: seq<(string, Json)>,
      target: Uuid, parseUuid: string -> Option<Uuid>)
    requires parseUuid(key) != Some(target)
    ensures MatchedRecord(front + [(key, value)] + back, target, parseUuid)
            == MatchedRecord(front + back, target, parseUuid)
  {
    var whole := front + [(key, value)] + back;
    var without := front + back;
    if front == [] {
      assert whole[1..] == without;
      ShiftedRecord(whole, target, parseUuid);
    } else if parseUuid(front[0].0) == Some(target) {
      assert whole[0] == front[0] == without[0];
    } else {
      assert whole[0] == front[0] == without[0];
      assert whole[1..] == front[1..] + [(key, value)] + back;
      assert without[1..] == front[1..] + back;
      NonMatchingEntryIsIgnored(front[1..], key, value, back, target, parseUuid);
      ShiftedRecord(whole, target, parseUuid);
      ShiftedRecord(without, target, parseUuid);
    }
  }

  /** When the first key does not match, the lookup finds what it finds in the rest. */
  lemma ShiftedRecord(fields: seq<(string, Json)>, target: Uuid, parseUuid: string -> Option<Uuid>)
    requires fields != [] && parseUuid(fields[0].0) != Some(target)
    ensures MatchedRecord(fields, target, parseUuid) == MatchedRecord(fields[1..], target, parseUuid)
  {
    match FirstMatch(fields[1..], target, parseUuid)
    case None =>
    case Some(k) => assert fields[1..][k] == fields[k + 1];
  }

  /** Entries after a match are never looked at. */
  lemma {:induction false} LaterEntriesAreIgnored(
      front: seq<(string, Json)>, back: seq<(string, Json)>,
      target: Uuid, parseUuid: string -> Option<Uuid>)
    requires FirstMatch(front, target, parseUuid).Some?
    ensures FirstMatch(front + back, target, parseUuid) == FirstMatch(front, target, parseUuid)
  {
    if parseUuid(front[0].0) != Some(target) {
      assert (front + back)[1..] == front[1..] + back;
      LaterEntriesAreIgnored(front[1..], back, target, parseUuid);
    }
  }

  /**
    The final step, `check_keys_not_missing(required_keys, config, 'config')`
    followed by `return config`: the record comes back unchanged exactly when
    it is a mapping that has every required key.
  */
  function CheckRecord(required: set<string>, record: Json): (r: Result<Json, LoadError>)
    ensures r.Success? <==> record.JObject? && required <= Keys(record.fields)
    ensures r.Success? ==> r.value == record
    ensures r == Failure(RecordNotAMapping) <==> !record.JObject?
    ensures r.Failure? && record.JObject? ==>
              r.error.MissingRequiredKeys? && r.error.e.missing == required - Keys(record.fields)
              && r.error.e.suffix == " in config."
  {
    if !record.JObject? then Failure(RecordNotAMapping)
    else
      match CheckKeysNotMissing(required, Keys(record.fields), Some("config"))
      case Pass => Success(record)
      case Fail(e) => Failure(MissingRequiredKeys(e))
  }

  /**
    `load_config_from_path`. `isFile` is `config_path.is_file()`, `fileName`
    the path's final component, `document` what `msgspec.json.decode` makes
    of the file's bytes (None when it raises), and `parseUuid` is
    `uuid.UUID` on a string (None when it raises). The checks run in the
    source's order: existence, suffix, decoding, lookup, required keys.
  */
  method LoadConfigFromPath(
      isFile: bool, fileName: string, document: Option<Json>,
      required: set<string>, target: Uuid, parseUuid: string -> Option<Uuid>)
    returns (r: Result<Json, LoadError>)
    ensures !isFile ==> r == Failure(FileNotFound)
    ensures isFile && Suffix(fileName) != ".json" ==> r == Failure(NotJsonFile)
    ensures isFile && Suffix(fileName) == ".json" && document.None? ==> r == Failure(UndecodableDocument)
    ensures isFile && Suffix(fileName) == ".json" && document.Some? && !document.value.JObject?
            ==> r == Failure(DocumentNotAnObject)
    ensures isFile && Suffix(fileName) == ".json" && document.Some? && document.value.JObject? ==>
              var configs := AsDict(document.value.fields);
              match FirstMatch(configs, target, parseUuid)
              case None => r == Failure(UuidNotFound(target))
              case Some(k) => r == CheckRecord(required, configs[k].1)
    ensures r.Success? ==> isFile && Suffix(fileName) == ".json" && document.Some? && document.value.JObject?
                           && Some(r.value) == MatchedRecord(AsDict(document.value.fields), target, parseUuid)
                           && r.value.JObject? && required <= Keys(r.value.fields)
  {
    if !isFile {
      return Failure(FileNotFound);
    }
    if Suffix(fileName) != ".json" {
      return Failure(NotJsonFile);
    }
    if document.None? {
      return Failure(UndecodableDocument);
    }
    var configs := document.value;
    if !configs.JObject? {
      return Failure(DocumentNotAnObject);
    }
    var items := AsDict(configs.fields);
    var config := JNull;
    var found := false;
    var i := 0;
    while i < |items|
      invariant 0 <= i <= |items|
      invariant forall j :: 0 <= j < i ==> parseUuid(items[j].0) != Some(target)
      invariant !found
    {
      var (key, value) := items[i];
      config := value;
      var parsed := parseUuid(key);
      if parsed.Some? && parsed.value == target {
        found := true;
        break;
      }
      i := i + 1;
    }
    if !found {
      return Failure(UuidNotFound(target));
    }
    assert i < |items| && config == items[i].1;
    assert FirstMatch(items, target, parseUuid) == Some(i);
    r := CheckRecord(required, config);
  }
}
