/**
  `get_excel_sheet_names`, after the workbook part has been read out of the
  archive: the `<sheet ...` tags are found with a regular-expression scan and
  each one's `name="..."` attribute is cut out. The text of `xl/workbook.xml`
  is the input; the zip file and its decoding are not part of this model.
*/
module Excel {
  import opened Wrappers
  import opened Text

  /** The literal start of the tag pattern `<sheet [^>]*`. */
  const SheetOpen: string := "<sheet "

  /** The literal start of the attribute pattern `name="[^"]*`. */
  const NameOpen: string := "name=\""

  /**
    The AttributeError raised when a sheet tag has no `name="` in it:
    `re.search` returns None and `.group` is looked up on None.
  */
  datatype SheetError = NoNameAttribute(tag: string)

  // ---------------------------------------------------------------------
  // The two regular expressions
  // ---------------------------------------------------------------------

  /** Where a greedy `[^stop]*` that starts at `i` ends: the first `stop` from `i` on, or the end. */
  function RunEnd(s: string, i: nat, stop: char): (e: nat)
    requires i <= |s|
    ensures i <= e <= |s|
    decreases |s| - i
  {
    if i == |s| || s[i] == stop then i else RunEnd(s, i + 1, stop)
  }

  /** The run holds no `stop`, and it ends at a `stop` or at the end of `s`. */
  lemma {:induction false} RunEndShape(s: string, i: nat, stop: char)
    requires i <= |s|
    ensures forall j :: i <= j < RunEnd(s, i, stop) ==> s[j] != stop
    ensures RunEnd(s, i, stop) < |s| ==> s[RunEnd(s, i, stop)] == stop
    decreases |s| - i
  {
    if i < |s| && s[i] != stop {
      RunEndShape(s, i + 1, stop);
    }
  }

  /** A run with no `stop` in it, followed by a `stop` or the end, is where `RunEnd` stops. */
  lemma {:induction false} RunEndAt(s: string, i: nat, stop: char, e: nat)
    requires i <= e <= |s|
    requires forall j :: i <= j < e ==> s[j] != stop
    requires e < |s| ==> s[e] == stop
    ensures RunEnd(s, i, stop) == e
    decreases e - i
  {
    if i < e {
      RunEndAt(s, i + 1, stop, e);
    }
  }

  /**
    `re.findall("<sheet [^>]*", xml)` on the text from index `i` on: the
    leftmost match, then the matches after its end.
  */
  function SheetTagsFrom(xml: string, i: nat): (tags: seq<string>)
    requires i <= |xml|
    decreases |xml| - i
  {
    if i + |SheetOpen| > |xml| then []
    else if OccursAt(xml, SheetOpen, i) then
      var e := RunEnd(xml, i + |SheetOpen|, '>');
      [xml[i..e]] + SheetTagsFrom(xml, e)
    else SheetTagsFrom(xml, i + 1)
  }

  /** `re.findall("<sheet [^>]*", xml)`. */
  function SheetTags(xml: string): (r: seq<string>)
  {
    SheetTagsFrom(xml, 0)
  }

  /**
    `re.search('name="[^"]*', tag).group(0)[6:]` with the search started at
    index `i`: the text after the leftmost `name="` up to the next quote, or
    None when there is no `name="`.
  */
  function NameFrom(tag: string, i: nat): (r: Option<string>)
    requires i <= |tag|
    decreases |tag| - i
  {
    if i + |NameOpen| > |tag| then None
    else if OccursAt(tag, NameOpen, i) then
      var whole := tag[i..RunEnd(tag, i + |NameOpen|, '"')];
      Some(whole[6..])
    else NameFrom(tag, i + 1)
  }

  /** The `name` attribute's value in one sheet tag, as the source cuts it out. */
  function NameValue(tag: string): (r: Option<string>)
  {
    NameFrom(tag, 0)
  }

  /**
    The list comprehension over the tags: each tag's name in order, or the
    AttributeError of the first tag without one.
  */
  function NamesOf(tags: seq<string>): (r: Result<seq<string>, SheetError>)
  {
    if tags == [] then Success([])
    else match NameValue(tags[0])
      case None => Failure(NoNameAttribute(tags[0]))
      case Some(name) =>
        match NamesOf(tags[1..])
        case Failure(e) => Failure(e)
        case Success(names) => Success([name] + names)
  }

  /** `get_excel_sheet_names` on the text of the workbook part. */
  function GetExcelSheetNames(xml: string): (r: Result<seq<string>, SheetError>)
  {
    NamesOf(NonEmpty(SheetTags(xml)))
  }

  // ---------------------------------------------------------------------
  // What the tag scan finds
  // ---------------------------------------------------------------------

  /**
    A match of the tag pattern found from `i` on: it stands in `xml` at or
    after `i`, starts with "<sheet ", holds no '>', and runs up to a '>' or
    the end of the text.
  */
  ghost predicate TagMatch(xml: string, i: nat, tag: string)
  {
    && |tag| >= |SheetOpen| && tag[..|SheetOpen|] == SheetOpen
    && '>' !in tag
    && exists at :: i <= at && OccursAt(xml, tag, at)
                    && (at + |tag| < |xml| ==> xml[at + |tag|] == '>')
  }

  /** Every string the scan from `i` returns is such a match. */
  lemma {:induction false} SheetTagsFromShape(xml: string, i: nat)
    requires i <= |xml|
    ensures forall k :: 0 <= k < |SheetTagsFrom(xml, i)| ==> TagMatch(xml, i, SheetTagsFrom(xml, i)[k])
    decreases |xml| - i
  {
    if i + |SheetOpen| <= |xml| {
      if OccursAt(xml, SheetOpen, i) {
        var e := RunEnd(xml, i + |SheetOpen|, '>');
        RunEndShape(xml, i + |SheetOpen|, '>');
        SheetTagsFromShape(xml, e);
        var tag := xml[i..e];
        assert tag[..|SheetOpen|] == xml[i..i + |SheetOpen|];
        assert '>' !in tag by {
          forall j | 0 <= j < |tag| ensures tag[j] != '>' {
            assert tag[j] == xml[i + j];
          }
        }
        assert OccursAt(xml, tag, i);
        assert TagMatch(xml, i, tag);
        var rest := SheetTagsFrom(xml, e);
        forall k | 0 <= k < |rest| ensures TagMatch(xml, i, rest[k]) {
          TagMatchEarlier(xml, i, e, rest[k]);
        }
      } else {
        SheetTagsFromShape(xml, i + 1);
        var rest := SheetTagsFrom(xml, i + 1);
        forall k | 0 <= k < |rest| ensures TagMatch(xml, i, rest[k]) {
          TagMatchEarlier(xml, i, i + 1, rest[k]);
        }
      }
    }
  }

  lemma TagMatchEarlier(xml: string, i: nat, j: nat, tag: string)
    requires i <= j && TagMatch(xml, j, tag)
    ensures TagMatch(xml, i, tag)
  {
  }

  /**
    Where the matches of the scan from `i` stand, as (start, end) pairs,
    found by the same steps as `SheetTagsFrom`: each starts at a "<sheet "
    at or after `i` and ends where its run of non-'>' characters ends.
  */
  function SheetSpansFrom(xml: string, i: nat): (spans: seq<(nat, nat)>)
    requires i <= |xml|
    ensures forall k :: 0 <= k < |spans| ==> i <= spans[k].0 < spans[k].1 <= |xml|
    ensures forall k :: 0 <= k < |spans| ==>
              OccursAt(xml, SheetOpen, spans[k].0) && spans[k].1 == RunEnd(xml, spans[k].0 + |SheetOpen|, '>')
    decreases |xml| - i
  {
    if i + |SheetOpen| > |xml| then []
    else if OccursAt(xml, SheetOpen, i) then
      [(i, RunEnd(xml, i + |SheetOpen|, '>'))] + SheetSpansFrom(xml, RunEnd(xml, i + |SheetOpen|, '>'))
    else SheetSpansFrom(xml, i + 1)
  }

  /** The matches come in order and do not overlap. */
  lemma {:induction false} SpansInOrder(xml: string, i: nat, k: nat)
    requires i <= |xml| && k + 1 < |SheetSpansFrom(xml, i)|
    ensures SheetSpansFrom(xml, i)[k].1 <= SheetSpansFrom(xml, i)[k + 1].0
    decreases |xml| - i
  {
    if !OccursAt(xml, SheetOpen, i) {
      SpansInOrder(xml, i + 1, k);
    } else if k > 0 {
      SpansInOrder(xml, RunEnd(xml, i + |SheetOpen|, '>'), k - 1);
    }
  }

  /** Every "<sheet " from `i` on lies inside a match: the scan passes none over. */
  lemma {:induction false} SpansCoverEveryOpen(xml: string, i: nat, at: nat)
    requires i <= at && OccursAt(xml, SheetOpen, at)
    ensures exists k :: 0 <= k < |SheetSpansFrom(xml, i)|
                        && SheetSpansFrom(xml, i)[k].0 <= at < SheetSpansFrom(xml, i)[k].1
    decreases |xml| - i
  {
    var spans := SheetSpansFrom(xml, i);
    if !OccursAt(xml, SheetOpen, i) {
      SpansCoverEveryOpen(xml, i + 1, at);
    } else {
      var e := RunEnd(xml, i + |SheetOpen|, '>');
      if e <= at {
        SpansCoverEveryOpen(xml, e, at);
        var rest := SheetSpansFrom(xml, e);
        var k :| 0 <= k < |rest| && rest[k].0 <= at < rest[k].1;
        assert spans[k + 1] == rest[k];
      } else {
        assert spans[0] == (i, e);
      }
    }
  }

  /** The scan returns one string per match. */
  lemma {:induction false} SheetTagsCount(xml: string, i: nat)
    requires i <= |xml|
    ensures |SheetTagsFrom(xml, i)| == |SheetSpansFrom(xml, i)|
    decreases |xml| - i
  {
    if i + |SheetOpen| <= |xml| {
      if OccursAt(xml, SheetOpen, i) {
        SheetTagsCount(xml, RunEnd(xml, i + |SheetOpen|, '>'));
      } else {
        SheetTagsCount(xml, i + 1);
      }
    }
  }

  /** The `k`-th string the scan returns is the text of its `k`-th match. */
  lemma {:induction false} SheetTagIsSpan(xml: string, i: nat, k: nat)
    requires i <= |xml| && k < |SheetSpansFrom(xml, i)|
    ensures k < |SheetTagsFrom(xml, i)|
    ensures SheetTagsFrom(xml, i)[k] == xml[SheetSpansFrom(xml, i)[k].0..SheetSpansFrom(xml, i)[k].1]
    decreases |xml| - i
  {
    SheetTagsCount(xml, i);
    if !OccursAt(xml, SheetOpen, i) {
      SheetTagIsSpan(xml, i + 1, k);
    } else if k > 0 {
      var e := RunEnd(xml, i + |SheetOpen|, '>');
      SheetTagIsSpan(xml, e, k - 1);
      assert SheetTagsFrom(xml, i)[k] == SheetTagsFrom(xml, e)[k - 1];
      assert SheetSpansFrom(xml, i)[k] == SheetSpansFrom(xml, e)[k - 1];
    }
  }

  /** The scan's results are never empty, so `filter(None, ...)` changes nothing. */
  lemma FilterKeepsSheetTags(xml: string)
    ensures NonEmpty(SheetTags(xml)) == SheetTags(xml)
  {
    SheetTagsFromShape(xml, 0);
  }

  /** Positions where no tag starts are passed over. */
  lemma {:induction false} SheetTagsSkip(xml: string, i: nat, j: nat)
    requires i <= j <= |xml|
    requires forall k :: i <= k < j ==> !OccursAt(xml, SheetOpen, k)
    ensures SheetTagsFrom(xml, i) == SheetTagsFrom(xml, j)
    decreases j - i
  {
    if i < j {
      SheetTagsSkip(xml, i + 1, j);
      if i + |SheetOpen| > |xml| {
        assert SheetTagsFrom(xml, i + 1) == [];
      }
    }
  }

  // ---------------------------------------------------------------------
  // What the name search finds
  // ---------------------------------------------------------------------

  /** `at` is the leftmost index from `i` on where `name="` occurs. */
  ghost predicate LeftmostName(tag: string, i: nat, at: int)
  {
    i <= at && OccursAt(tag, NameOpen, at)
    && forall j :: i <= j < at ==> !OccursAt(tag, NameOpen, j)
  }

  /** The search from `i` finds nothing exactly when `name="` does not occur from `i` on. */
  lemma {:induction false} NameFromNone(tag: string, i: nat)
    requires i <= |tag|
    ensures NameFrom(tag, i).None? <==> forall at :: i <= at <= |tag| ==> !OccursAt(tag, NameOpen, at)
    decreases |tag| - i
  {
    if i + |NameOpen| <= |tag| && !OccursAt(tag, NameOpen, i) {
      NameFromNone(tag, i + 1);
    }
  }

  /**
    A name found from `i` is the text after the leftmost `name="` from `i`
    on, up to the next quote or the end of the tag.
  */
  lemma {:induction false} NameFromSome(tag: string, i: nat)
    requires i <= |tag| && NameFrom(tag, i).Some?
    ensures exists at :: LeftmostName(tag, i, at)
               && NameFrom(tag, i).value == tag[at + |NameOpen|..RunEnd(tag, at + |NameOpen|, '"')]
    decreases |tag| - i
  {
    if OccursAt(tag, NameOpen, i) {
      assert LeftmostName(tag, i, i);
    } else {
      NameFromSome(tag, i + 1);
      var at :| LeftmostName(tag, i + 1, at)
                && NameFrom(tag, i + 1).value == tag[at + |NameOpen|..RunEnd(tag, at + |NameOpen|, '"')];
      assert LeftmostName(tag, i, at);
    }
  }

  /** The text a greedy `[^"]*` takes holds no quote. */
  lemma QuoteFreeRun(tag: string, start: nat)
    requires start <= |tag|
    ensures '"' !in tag[start..RunEnd(tag, start, '"')]
  {
    RunEndShape(tag, start, '"');
    var v := tag[start..RunEnd(tag, start, '"')];
    forall j | 0 <= j < |v| ensures v[j] != '"' {
      assert v[j] == tag[start + j];
    }
  }

  /**
    A tag has no name exactly when `name="` does not occur in it; otherwise
    the name holds no quote.
  */
  lemma NameValueIff(tag: string)
    ensures NameValue(tag).None? <==> !Contains(tag, NameOpen)
    ensures NameValue(tag).Some? ==> '"' !in NameValue(tag).value
  {
    NameFromNone(tag, 0);
    if NameValue(tag).Some? {
      NameFromSome(tag, 0);
      var at :| LeftmostName(tag, 0, at)
                && NameValue(tag).value == tag[at + |NameOpen|..RunEnd(tag, at + |NameOpen|, '"')];
      QuoteFreeRun(tag, at + |NameOpen|);
    }
  }

  /** The search passes over a stretch of the tag where `name="` does not start. */
  lemma {:induction false} NameFromSkip(tag: string, i: nat, j: nat)
    requires i <= j <= |tag|
    requires forall k :: i <= k < j ==> !OccursAt(tag, NameOpen, k)
    ensures NameFrom(tag, i) == NameFrom(tag, j)
    decreases j - i
  {
    if i < j {
      NameFromSkip(tag, i + 1, j);
      if i + |NameOpen| > |tag| {
        assert NameFrom(tag, i + 1) == None;
      }
    }
  }

  // ---------------------------------------------------------------------
  // The names, or the first tag without one
  // ---------------------------------------------------------------------

  /**
    The comprehension succeeds exactly when every tag has a name, and then
    gives the names in the tags' order; otherwise it fails on the first tag
    without one.
  */
  lemma {:induction false} NamesOfIff(tags: seq<string>)
    ensures NamesOf(tags).Success? <==> forall k :: 0 <= k < |tags| ==> NameValue(tags[k]).Some?
    ensures NamesOf(tags).Success? ==>
              |NamesOf(tags).value| == |tags|
              && forall k :: 0 <= k < |tags| ==> NamesOf(tags).value[k] == NameValue(tags[k]).value
    ensures NamesOf(tags).Failure? ==>
              exists k :: 0 <= k < |tags| && NameValue(tags[k]).None?
                          && NamesOf(tags).error == NoNameAttribute(tags[k])
                          && forall j :: 0 <= j < k ==> NameValue(tags[j]).Some?
  {
    if tags != [] {
      NamesOfIff(tags[1..]);
      var rest := tags[1..];
      assert forall k :: 1 <= k < |tags| ==> tags[k] == rest[k - 1];
      if NameValue(tags[0]).Some? && NamesOf(rest).Failure? {
        var k :| 0 <= k < |rest| && NameValue(rest[k]).None?
                 && NamesOf(rest).error == NoNameAttribute(rest[k])
                 && forall j :: 0 <= j < k ==> NameValue(rest[j]).Some?;
        assert NameValue(tags[k + 1]).None?;
      }
    }
  }

  /**
    Every sheet name returned holds no quote, and the call fails exactly
    when some `<sheet ` tag of the text lacks `name="`.
  */
  lemma SheetNamesIff(xml: string)
    ensures var tags := SheetTags(xml);
            GetExcelSheetNames(xml).Success? <==> forall k :: 0 <= k < |tags| ==> Contains(tags[k], NameOpen)
    ensures GetExcelSheetNames(xml).Success? ==>
              |GetExcelSheetNames(xml).value| == |SheetTags(xml)|
              && forall k :: 0 <= k < |GetExcelSheetNames(xml).value| ==> '"' !in GetExcelSheetNames(xml).value[k]
  {
    var tags := SheetTags(xml);
    FilterKeepsSheetTags(xml);
    NamesOfIff(tags);
    forall k | 0 <= k < |tags| ensures NameValue(tags[k]).None? <==> !Contains(tags[k], NameOpen) {
      NameValueIff(tags[k]);
    }
    if GetExcelSheetNames(xml).Success? {
      forall k | 0 <= k < |tags| ensures '"' !in GetExcelSheetNames(xml).value[k] {
        NameValueIff(tags[k]);
      }
    }
  }

  // ---------------------------------------------------------------------
  // A workbook part written out, and read back
  // ---------------------------------------------------------------------

  /** The tag the scan finds for one sheet element: everything up to its closing '>'. */
  function SheetTag(name: string): (r: string)
  {
    SheetOpen + NameOpen + name + "\"/"
  }

  /** A sheet element as a workbook part lists it: `<sheet name="..."/>`. */
  function SheetElement(name: string): (r: string)
  {
    SheetTag(name) + ">"
  }

  /** The sheet elements of `names`, one after another. */
  function SheetElements(names: seq<string>): (r: string)
  {
    if names == [] then [] else SheetElement(names[0]) + SheetElements(names[1..])
  }

  /** The tags of `names`, in order. */
  function SheetTagsOf(names: seq<string>): (tags: seq<string>)
    ensures |tags| == |names|
  {
    if names == [] then [] else [SheetTag(names[0])] + SheetTagsOf(names[1..])
  }

  /** A minimal workbook part listing sheets with the given names. */
  function Workbook(names: seq<string>): (r: string)
  {
    "<sheets>" + SheetElements(names) + "</sheets>"
  }

  /** A name that can stand in the attribute as written: no quote, and no '>' either. */
  predicate Writable(name: string)
  {
    '"' !in name && '>' !in name
  }

  /** The name search cuts the name back out of the tag written for it. */
  lemma SheetTagName(name: string)
    requires '"' !in name
    ensures NameValue(SheetTag(name)) == Some(name)
  {
    var tag := SheetTag(name);
    forall k | 0 <= k < |SheetOpen| ensures !OccursAt(tag, NameOpen, k) {
      assert tag[k] == SheetOpen[k];
    }
    NameFromSkip(tag, 0, |SheetOpen|);
    var start := |SheetOpen| + |NameOpen|;
    assert tag[|SheetOpen|..start] == NameOpen;
    forall j | start <= j < start + |name| ensures tag[j] != '"' {
      assert tag[j] == name[j - start];
    }
    RunEndAt(tag, start, '"', start + |name|);
    assert tag[|SheetOpen|..start + |name|][6..] == name;
  }

  /** The tag written for a name without '>' holds no '>'. */
  lemma SheetTagUnclosed(name: string)
    requires '>' !in name
    ensures '>' !in SheetTag(name)
  {
  }

  /** Text cannot start with "<sheet " where it has no '<', or where the sixth character on is not a space. */
  lemma NotSheetOpenAt(xml: string, k: nat)
    requires k < |xml| && (xml[k] != '<' || (k + 6 < |xml| && xml[k + 6] != ' '))
    ensures !OccursAt(xml, SheetOpen, k)
  {
  }

  /** Text in which "<sheet " cannot start, whatever follows it. */
  ghost predicate Plain(t: string)
  {
    forall k :: 0 <= k < |t| && t[k] == '<' ==> k + 6 < |t| && t[k + 6] != ' '
  }

  /** The scan passes over plain text. */
  lemma SkipPlain(xml: string, i: nat, t: string)
    requires OccursAt(xml, t, i) && Plain(t)
    ensures SheetTagsFrom(xml, i) == SheetTagsFrom(xml, i + |t|)
  {
    forall k | i <= k < i + |t| ensures !OccursAt(xml, SheetOpen, k) {
      OccursAtChar(xml, t, i, k - i);
      if t[k - i] == '<' {
        assert k - i + 6 < |t|;
        OccursAtChar(xml, t, i, k - i + 6);
      }
      NotSheetOpenAt(xml, k);
    }
    SheetTagsSkip(xml, i, i + |t|);
  }

  /** The scan over one sheet element finds its tag, then goes on after the element. */
  lemma ScanSheetElement(xml: string, i: nat, name: string)
    requires Writable(name) && OccursAt(xml, SheetElement(name), i)
    ensures SheetTagsFrom(xml, i) == [SheetTag(name)] + SheetTagsFrom(xml, i + |SheetElement(name)|)
  {
    var tag := SheetTag(name);
    OccursAtSplit(xml, tag, ">", i);
    OccursAtChar(xml, ">", i + |tag|, 0);
    var close := i + |tag|;
    assert OccursAt(xml, SheetOpen, i) by {
      assert tag == SheetOpen + (NameOpen + name + "\"/");
      OccursAtSplit(xml, SheetOpen, NameOpen + name + "\"/", i);
    }
    SheetTagUnclosed(name);
    forall j | i + |SheetOpen| <= j < close ensures xml[j] != '>' {
      OccursAtChar(xml, tag, i, j - i);
    }
    RunEndAt(xml, i + |SheetOpen|, '>', close);
    NotSheetOpenAt(xml, close);
    SheetTagsSkip(xml, close, close + 1);
  }

  /** The scan over a run of sheet elements finds their tags, then goes on after them. */
  lemma {:induction false} ScanSheetElements(xml: string, i: nat, names: seq<string>)
    requires forall k :: 0 <= k < |names| ==> Writable(names[k])
    requires OccursAt(xml, SheetElements(names), i)
    ensures SheetTagsFrom(xml, i) == SheetTagsOf(names) + SheetTagsFrom(xml, i + |SheetElements(names)|)
    decreases |names|
  {
    if names != [] {
      var element := SheetElement(names[0]);
      var rest := SheetElements(names[1..]);
      assert SheetElements(names) == element + rest;
      OccursAtSplit(xml, element, rest, i);
      ScanSheetElement(xml, i, names[0]);
      ScanSheetElements(xml, i + |element|, names[1..]);
      assert SheetTagsOf(names) == [SheetTag(names[0])] + SheetTagsOf(names[1..]);
      ConsThenAppend(SheetTagsFrom(xml, i), SheetTag(names[0]), SheetTagsFrom(xml, i + |element|),
                     SheetTagsOf(names[1..]), SheetTagsFrom(xml, i + |element| + |rest|));
    }
  }

  /** Proof helper for ScanSheetElements: regroups a cons followed by an append. */
  lemma ConsThenAppend<T>(a: seq<T>, x: T, b: seq<T>, c: seq<T>, d: seq<T>)
    requires a == [x] + b && b == c + d
    ensures a == ([x] + c) + d
  {
  }

  /** The names of the tags written for writable names are those names. */
  lemma {:induction false} NamesOfSheetTags(names: seq<string>)
    requires forall k :: 0 <= k < |names| ==> Writable(names[k])
    ensures NamesOf(SheetTagsOf(names)) == Success(names)
  {
    if names != [] {
      var tags := SheetTagsOf(names);
      SheetTagName(names[0]);
      NamesOfSheetTags(names[1..]);
      assert tags[0] == SheetTag(names[0]);
      assert tags[1..] == SheetTagsOf(names[1..]);
      assert names == [names[0]] + names[1..];
    }
  }

  /** The scan over sheet elements framed by plain text finds exactly their tags. */
  lemma FramedTags(xml: string, head: string, names: seq<string>, foot: string)
    requires Plain(head) && Plain(foot)
    requires forall k :: 0 <= k < |names| ==> Writable(names[k])
    requires OccursAt(xml, head, 0) && OccursAt(xml, SheetElements(names), |head|)
    requires OccursAt(xml, foot, |head| + |SheetElements(names)|)
    requires |xml| == |head| + |SheetElements(names)| + |foot|
    ensures SheetTags(xml) == SheetTagsOf(names)
  {
    var body := SheetElements(names);
    var end := |head| + |body|;
    SkipPlain(xml, 0, head);
    ScanSheetElements(xml, |head|, names);
    var scan := SheetTagsFrom(xml, |head|);
    var rest := SheetTagsFrom(xml, end);
    assert scan == SheetTagsOf(names) + rest;
    SkipPlain(xml, end, foot);
    assert SheetTagsFrom(xml, end + |foot|) == [];
    assert rest == [];
    AppendEmpty(scan, SheetTagsOf(names), rest);
  }

  /** Proof helper for FramedTags: appending an empty sequence changes nothing. */
  lemma AppendEmpty<T>(a: seq<T>, b: seq<T>, c: seq<T>)
    requires a == b + c && c == []
    ensures a == b
  {
  }

  /**
    Reading back sheet elements with writable names, framed by plain text,
    gives those names, in order.
  */
  lemma FramedRoundTrip(head: string, names: seq<string>, foot: string)
    requires Plain(head) && Plain(foot)
    requires forall k :: 0 <= k < |names| ==> Writable(names[k])
    ensures GetExcelSheetNames(head + SheetElements(names) + foot) == Success(names)
  {
    var xml := head + SheetElements(names) + foot;
    OccursInThree(head, SheetElements(names), foot);
    FramedTags(xml, head, names, foot);
    FilterKeepsSheetTags(xml);
    NamesOfSheetTags(names);
  }

  /** The frame of a minimal workbook part is plain text. */
  lemma WorkbookFramePlain(head: string, foot: string)
    requires head == "<sheets>" && foot == "</sheets>"
    ensures Plain(head) && Plain(foot)
  {
  }

  /**
    Reading back a workbook part that lists sheets with writable names gives
    those names, in order.
  */
  lemma WorkbookRoundTrip(names: seq<string>)
    requires forall k :: 0 <= k < |names| ==> Writable(names[k])
    ensures GetExcelSheetNames(Workbook(names)) == Success(names)
  {
    WorkbookFramePlain("<sheets>", "</sheets>");
    FramedRoundTrip("<sheets>", names, "</sheets>");
  }
}
