/**
  Worked examples of `env_string_to_dict`. Each example text is a parameter
  fixed by its precondition, and each fact about a literal is its own small
  lemma, so that no proof has to evaluate the whole text at once.
*/
module EnvExamples {
  import opened Wrappers
  import opened Text
  import opened Loading

  /** A line text with no line break and no quote. */
  predicate PlainLine(t: string)
  {
    NoLineBreak(t) && '"' !in t
  }

  lemma TwoTerminated(a: string, b: string)
    ensures Unlines(Terminated([a, b])) == a + "\n" + b + "\n"
  {
    var ls := Terminated([a, b]);
    UnlinesCons(ls[0], ls[1..]);
    UnlinesCons(ls[1], []);
    assert ls[1..] == [ls[1]] + [];
    assert ls == [ls[0]] + ls[1..];
  }

  lemma ThreeTerminated(a: string, b: string, c: string)
    ensures Unlines(Terminated([a, b, c])) == a + "\n" + b + "\n" + c + "\n"
  {
    var ls := Terminated([a, b, c]);
    UnlinesCons(ls[0], ls[1..]);
    UnlinesCons(ls[1], ls[2..]);
    UnlinesCons(ls[2], []);
    assert ls[2..] == [ls[2]] + [];
    assert ls[1..] == [ls[1]] + ls[2..];
    assert ls == [ls[0]] + ls[1..];
  }

  /** Two "\n"-ended lines are read as their non-empty texts. */
  lemma EnvLinesOfTwo(a: string, b: string, s: string)
    requires PlainLine(a) && PlainLine(b)
    requires s == a + "\n" + b + "\n"
    ensures EnvLines(s) == NonEmpty([a, b])
  {
    TwoTerminated(a, b);
    EnvLinesOfTerminated([a, b]);
  }

  /** Three "\n"-ended lines are read as their non-empty texts. */
  lemma EnvLinesOfThree(a: string, b: string, c: string, s: string)
    requires PlainLine(a) && PlainLine(b) && PlainLine(c)
    requires s == a + "\n" + b + "\n" + c + "\n"
    ensures EnvLines(s) == NonEmpty([a, b, c])
  {
    ThreeTerminated(a, b, c);
    EnvLinesOfTerminated([a, b, c]);
  }

  /** Two lines that each split into a key and a value make a dict; the later line is stored last. */
  lemma DictOfTwo(lines: seq<string>, k1: string, v1: string, k2: string, v2: string)
    requires |lines| == 2
    requires SplitOnSeparator(lines[0]) == [k1, v1] && SplitOnSeparator(lines[1]) == [k2, v2]
    ensures LinesToDict(lines) == Success(map[k1 := v1][k2 := v2])
  {
    PairsToDict(SplitEach(lines), k1, v1, k2, v2);
  }

  // ---------------------------------------------------------------------
  // The docstring's example: `FOO=bar` has no whitespace around '=', so
  // `dict` is handed a one-item list and raises ValueError.
  // ---------------------------------------------------------------------

  lemma DocstringLines()
    ensures "\nFOO=bar\nBAZ=qux\n" == "" + "\n" + "FOO=bar" + "\n" + "BAZ=qux" + "\n"
    ensures PlainLine("") && PlainLine("FOO=bar") && PlainLine("BAZ=qux")
    ensures NonEmpty(["", "FOO=bar", "BAZ=qux"]) == ["FOO=bar", "BAZ=qux"]
  {}

  lemma DocstringFirstLine()
    ensures SplitOnSeparator("FOO=bar") == ["FOO=bar"]
  {
    SplitPiecesNone("FOO=bar");
  }

  lemma DocstringDict(lines: seq<string>)
    requires lines == ["FOO=bar", "BAZ=qux"]
    ensures LinesToDict(lines) == Failure(DictError(0, 1))
  {
    DocstringFirstLine();
    assert |SplitOnSeparator(lines[0])| == 1;
    var r := LinesToDict(lines);
    assert r.Failure?;
    assert r.error.index == 0;
  }

  lemma EnvDocstringExampleIsRejected(s: string)
    requires s == "\nFOO=bar\nBAZ=qux\n"
    ensures EnvStringToDict(s) == Failure(DictError(0, 1))
  {
    DocstringLines();
    EnvLinesOfThree("", "FOO=bar", "BAZ=qux", s);
    DocstringDict(["FOO=bar", "BAZ=qux"]);
  }

  /** With the separator `\s*=\s*` the docstring's example gives the documented dict. */
  lemma EnvDocstringExampleIntended(s: string)
    requires s == "\nFOO=bar\nBAZ=qux\n"
    ensures IntendedEnvStringToDict(s) == Success(map["FOO" := "bar", "BAZ" := "qux"])
  {
    DocstringLines();
    EnvLinesOfThree("", "FOO=bar", "BAZ=qux", s);
    var lines := EnvLines(s);
    IntendedFirstLine(lines[0]);
    IntendedSecondLine(lines[1]);
    var elems := SplitEachOnEquals(lines);
    PairsToDict(elems, "FOO", "bar", "BAZ", "qux");
  }

  lemma IntendedFirstLine(a: string)
    requires a == "FOO=bar"
    ensures SplitOnEquals(a) == ["FOO", "bar"]
  {
    Unpadded(a, "FOO", "bar");
  }

  lemma IntendedSecondLine(b: string)
    requires b == "BAZ=qux"
    ensures SplitOnEquals(b) == ["BAZ", "qux"]
  {
    Unpadded(b, "BAZ", "qux");
  }

  /** A key that does not end, and a value that does not start, with whitespace split apart unchanged. */
  lemma Unpadded(line: string, key: string, value: string)
    requires line == key + "=" + value
    requires key != [] && !IsSpace(key[|key| - 1]) && '=' !in key
    requires value != [] && !IsSpace(value[0]) && '=' !in value
    ensures SplitOnEquals(line) == [key, value]
  {
    EqualsAssignmentSplits(key, value);
  }

  /** Two pairs make a dict; the later pair is stored last. */
  lemma PairsToDict(elems: seq<seq<string>>, k1: string, v1: string, k2: string, v2: string)
    requires |elems| == 2 && elems[0] == [k1, v1] && elems[1] == [k2, v2]
    ensures DictFrom(elems) == Success(map[k1 := v1][k2 := v2])
  {
    assert elems == [[k1, v1], [k2, v2]];
    assert elems[..1] == [[k1, v1]];
    assert [[k1, v1]][..0] == [];
    assert DictFrom([[k1, v1]]) == Success(map[][k1 := v1]);
  }

  // ---------------------------------------------------------------------
  // Whitespace or '+' on both sides of '=' separates key from value.
  // ---------------------------------------------------------------------

  lemma SpacedLines()
    ensures "FOO = bar\nBAZ+=+qux\n" == "FOO = bar" + "\n" + "BAZ+=+qux" + "\n"
    ensures PlainLine("FOO = bar") && PlainLine("BAZ+=+qux")
    ensures NonEmpty(["FOO = bar", "BAZ+=+qux"]) == ["FOO = bar", "BAZ+=+qux"]
  {}

  lemma SpacedSplits()
    ensures SplitOnSeparator("FOO = bar") == ["FOO", "bar"]
    ensures SplitOnSeparator("BAZ+=+qux") == ["BAZ", "qux"]
  {
    assert forall j :: 0 <= j < 3 ==> !SeparatorAt("FOO = ", j);
    assert "FOO" + " = " == "FOO = ";
    AssignmentSplits("FOO", " = ", "bar");
    assert "FOO" + " = " + "bar" == "FOO = bar";
    assert forall j :: 0 <= j < 3 ==> !SeparatorAt("BAZ+=+", j);
    assert "BAZ" + "+=+" == "BAZ+=+";
    AssignmentSplits("BAZ", "+=+", "qux");
    assert "BAZ" + "+=+" + "qux" == "BAZ+=+qux";
  }

  lemma EnvSpacedAssignmentsParse(s: string)
    requires s == "FOO = bar\nBAZ+=+qux\n"
    ensures EnvStringToDict(s) == Success(map["FOO" := "bar", "BAZ" := "qux"])
  {
    SpacedLines();
    EnvLinesOfTwo("FOO = bar", "BAZ+=+qux", s);
    SpacedSplits();
    DictOfTwo(["FOO = bar", "BAZ+=+qux"], "FOO", "bar", "BAZ", "qux");
  }

  // ---------------------------------------------------------------------
  // A later line with the same key overwrites an earlier one.
  // ---------------------------------------------------------------------

  lemma RepeatedLines()
    ensures "A = 1\nA = 2\n" == "A = 1" + "\n" + "A = 2" + "\n"
    ensures PlainLine("A = 1") && PlainLine("A = 2")
    ensures NonEmpty(["A = 1", "A = 2"]) == ["A = 1", "A = 2"]
  {}

  lemma RepeatedSplits()
    ensures SplitOnSeparator("A = 1") == ["A", "1"]
    ensures SplitOnSeparator("A = 2") == ["A", "2"]
    ensures map["A" := "1"]["A" := "2"] == map["A" := "2"]
  {
    assert forall j :: 0 <= j < 1 ==> !SeparatorAt("A = ", j);
    assert "A" + " = " == "A = ";
    AssignmentSplits("A", " = ", "1");
    assert "A" + " = " + "1" == "A = 1";
    AssignmentSplits("A", " = ", "2");
    assert "A" + " = " + "2" == "A = 2";
  }

  lemma EnvLaterLineOverwrites(s: string)
    requires s == "A = 1\nA = 2\n"
    ensures EnvStringToDict(s) == Success(map["A" := "2"])
  {
    RepeatedLines();
    EnvLinesOfTwo("A = 1", "A = 2", s);
    RepeatedSplits();
    DictOfTwo(["A = 1", "A = 2"], "A", "1", "A", "2");
  }

  // ---------------------------------------------------------------------
  // A whitespace-only line is not empty, so it is kept, and it does not
  // split in two.
  // ---------------------------------------------------------------------

  lemma BlankLines()
    ensures "A = 1\n \n" == "A = 1" + "\n" + " " + "\n"
    ensures PlainLine("A = 1") && PlainLine(" ")
    ensures NonEmpty(["A = 1", " "]) == ["A = 1", " "]
  {}

  lemma BlankDict(lines: seq<string>)
    requires lines == ["A = 1", " "]
    ensures LinesToDict(lines) == Failure(DictError(1, 1))
  {
    RepeatedSplits();
    SplitPiecesNone(" ");
    assert |SplitOnSeparator(lines[1])| == 1;
    var r := LinesToDict(lines);
    assert r.Failure?;
    assert r.error.index == 1;
  }

  lemma EnvWhitespaceLineIsKept(s: string)
    requires s == "A = 1\n \n"
    ensures EnvStringToDict(s) == Failure(DictError(1, 1))
  {
    BlankLines();
    EnvLinesOfTwo("A = 1", " ", s);
    BlankDict(["A = 1", " "]);
  }
}
