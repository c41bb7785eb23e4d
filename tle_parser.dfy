/** The three-line element-set block parser: text in the NORAD two-line
    element format as CelesTrak serves it (a name line, then the two element
    lines, repeated) becomes an ordered list of `{name, line1, line2}`
    records. The parser checks nothing about the element lines themselves:
    no column layout, no checksum, no "1 " / "2 " prefix. */
module TleParser {
  import opened TextLines

  /** One record of the result: the dictionary with keys `name`, `line1`
      and `line2`. */
  datatype Satellite = Satellite(name: string, line1: string, line2: string)

  /** The record built from lines 3k, 3k+1 and 3k+2, each stripped: no
      field is longer than the line it comes from. */
  function GroupAt(lines: seq<string>, k: nat): (sat: Satellite)
    requires 3 * k + 2 < |lines|
    ensures |sat.name| <= |lines[3 * k]| && |sat.line1| <= |lines[3 * k + 1]| && |sat.line2| <= |lines[3 * k + 2]|
  {
    Satellite(Strip(lines[3 * k]), Strip(lines[3 * k + 1]), Strip(lines[3 * k + 2]))
  }

  /** The records of a list of lines: one per complete group of three, in
      order; one or two lines left over at the end make no record. */
  function ParseGroups(lines: seq<string>): (sats: seq<Satellite>)
    ensures 3 * |sats| <= |lines| < 3 * |sats| + 3
    ensures forall k :: 0 <= k < |sats| ==> 3 * k + 2 < |lines| && sats[k] == GroupAt(lines, k)
    decreases |lines|
  {
    if |lines| < 3 then []
    else
      var rest := ParseGroups(lines[3..]);
      var sats := [GroupAt(lines, 0)] + rest;
      assert forall k :: 1 <= k < |sats| ==> sats[k] == GroupAt(lines, k) by {
        forall k | 1 <= k < |sats|
          ensures sats[k] == GroupAt(lines, k)
        {
          assert sats[k] == rest[k - 1];
          GroupAtShift(lines, k - 1);
        }
      }
      sats
  }

  /** Dropping the first group shifts every later group down by one. */
  lemma GroupAtShift(lines: seq<string>, k: nat)
    requires 3 * k + 5 < |lines|
    ensures GroupAt(lines[3..], k) == GroupAt(lines, k + 1)
  {
    assert lines[3..][3 * k] == lines[3 * k + 3];
    assert lines[3..][3 * k + 1] == lines[3 * k + 4];
    assert lines[3..][3 * k + 2] == lines[3 * k + 5];
  }

  /** What `parse_tle_block` returns for `text`: the whole text is stripped
      once, split into lines, and the lines are grouped in threes. Every
      field of every record has no whitespace at either end and no line
      break anywhere. */
  function ParseTleText(text: string): (sats: seq<Satellite>)
    ensures forall k :: 0 <= k < |sats| ==> CleanRecord(sats[k])
  {
    var lines := SplitLines(Strip(text));
    assert forall j :: 0 <= j < |lines| ==> CleanField(Strip(lines[j])) by {
      forall j | 0 <= j < |lines|
        ensures CleanField(Strip(lines[j]))
      {
        StripIsStripped(lines[j]);
        StripKeepsNoLineBreak(lines[j]);
      }
    }
    ParseGroups(lines)
  }

  /** `parse_tle_block`: walks the lines in steps of three, stops as soon as
      fewer than three lines remain, and appends one record per group. */
  method ParseTleBlock(text: string) returns (satellites: seq<Satellite>)
    ensures satellites == ParseTleText(text)
  {
    var lines := SplitLines(Strip(text));
    satellites := [];
    var i := 0;
    while i < |lines|
      invariant i == 3 * |satellites| <= |lines|
      invariant forall k :: 0 <= k < |satellites| ==> 3 * k + 2 < |lines| && satellites[k] == GroupAt(lines, k)
    {
      if i + 2 >= |lines| {
        break;  // an incomplete group at the end is dropped
      }
      var name := Strip(lines[i]);
      var line1 := Strip(lines[i + 1]);
      var line2 := Strip(lines[i + 2]);
      StrippedGroup(lines, |satellites|, name, line1, line2);
      satellites := satellites + [Satellite(name, line1, line2)];
      i := i + 3;
    }
    ghost var expected := ParseGroups(lines);
    assert |satellites| == |expected|;
    assert forall k :: 0 <= k < |satellites| ==> satellites[k] == expected[k];
  }

  /** The three lines of group k, each stripped, make record k. */
  lemma StrippedGroup(lines: seq<string>, k: nat, name: string, line1: string, line2: string)
    requires 3 * k + 2 < |lines|
    requires name == Strip(lines[3 * k]) && line1 == Strip(lines[3 * k + 1]) && line2 == Strip(lines[3 * k + 2])
    ensures Satellite(name, line1, line2) == GroupAt(lines, k)
  {
  }

  /** One or two lines after the last complete group are ignored, and no
      error is signalled for them. */
  lemma {:induction false} IncompleteGroupDropped(lines: seq<string>, extra: seq<string>)
    requires |lines| % 3 == 0 && |extra| < 3
    ensures ParseGroups(lines + extra) == ParseGroups(lines)
  {
    if |lines| == 0 {
      assert lines + extra == extra;
    } else {
      assert (lines + extra)[3..] == lines[3..] + extra;
      assert (lines + extra)[..3] == lines[..3];
      IncompleteGroupDropped(lines[3..], extra);
    }
  }

  /** Empty or whitespace-only input gives the empty list. */
  lemma BlankTextHasNoRecords(text: string)
    requires AllSpace(text)
    ensures ParseTleText(text) == []
  {
    StripUnique(text, [], []);
    assert text + [] + [] == text;
  }

  /** The records are exactly the groups of the stripped, split text. */
  lemma RecordsAreGroups(text: string)
    ensures var lines := SplitLines(Strip(text));
      |ParseTleText(text)| == |lines| / 3
      && forall k :: 0 <= k < |lines| / 3 ==> ParseTleText(text)[k] == GroupAt(lines, k)
  {
  }

  /** A field as the parser returns it: no whitespace at either end and no
      line break anywhere. */
  ghost predicate CleanField(f: string)
  {
    Stripped(f) && NoLineBreak(f)
  }

  ghost predicate CleanRecord(sat: Satellite)
  {
    CleanField(sat.name) && CleanField(sat.line1) && CleanField(sat.line2)
  }

  /** Whitespace-only lines (indeed any whitespace) added before the first
      or after the last line do not change the result. */
  lemma OuterBlankLinesIgnored(pre: string, text: string, post: string)
    requires AllSpace(pre) && AllSpace(post)
    ensures ParseTleText(pre + text + post) == ParseTleText(text)
  {
    StripIgnoresOuterSpace(pre, text, post);
  }

  /** The lines a list of records is written as: name, line 1, line 2, for
      each record in order. */
  function RecordLines(sats: seq<Satellite>): (lines: seq<string>)
    ensures |lines| == 3 * |sats|
    ensures forall k :: 0 <= k < |sats| ==>
      lines[3 * k] == sats[k].name && lines[3 * k + 1] == sats[k].line1 && lines[3 * k + 2] == sats[k].line2
  {
    if sats == [] then []
    else [sats[0].name, sats[0].line1, sats[0].line2] + RecordLines(sats[1..])
  }

  /** The records written out as text, one field per line, the lines
      separated by `sep`. */
  function Serialize(sep: string, sats: seq<Satellite>): string
  {
    Join(sep, RecordLines(sats))
  }

  /** The text does not lose its first or last field to the whole-text
      strip: the first name and the last second line are not empty. */
  ghost predicate OuterFieldsNonEmpty(sats: seq<Satellite>)
  {
    sats == [] || (sats[0].name != [] && sats[|sats| - 1].line2 != [])
  }

  /** Writing clean records out with any line ending and parsing the text
      gives the records back. */
  lemma RoundTrip(sep: string, sats: seq<Satellite>)
    requires IsLineEnding(sep)
    requires forall k :: 0 <= k < |sats| ==> CleanRecord(sats[k])
    requires OuterFieldsNonEmpty(sats)
    ensures ParseTleText(Serialize(sep, sats)) == sats
  {
    var lines := RecordLines(sats);
    RecordLinesClean(sats);
    SerializedIsStripped(sep, sats);
    SplitJoin(sep, lines);
    ParseRecordLines(sats);
  }

  /** Grouping the lines written for clean records gives the records back. */
  lemma ParseRecordLines(sats: seq<Satellite>)
    requires forall k :: 0 <= k < |sats| ==> CleanRecord(sats[k])
    ensures ParseGroups(RecordLines(sats)) == sats
  {
    var lines := RecordLines(sats);
    var parsed := ParseGroups(lines);
    assert |parsed| == |sats|;
    forall k | 0 <= k < |sats|
      ensures parsed[k] == sats[k]
    {
      var sat := sats[k];
      assert lines[3 * k] == sat.name && lines[3 * k + 1] == sat.line1 && lines[3 * k + 2] == sat.line2;
      StripStripped(sat.name);
      StripStripped(sat.line1);
      StripStripped(sat.line2);
      assert parsed[k] == GroupAt(lines, k);
    }
  }

  /** Every line written for clean records is a clean field. */
  lemma RecordLinesClean(sats: seq<Satellite>)
    requires forall k :: 0 <= k < |sats| ==> CleanRecord(sats[k])
    ensures forall j :: 0 <= j < |RecordLines(sats)| ==> CleanField(RecordLines(sats)[j])
  {
    var lines := RecordLines(sats);
    forall j | 0 <= j < |lines|
      ensures CleanField(lines[j])
    {
      var k := j / 3;
      if j == 3 * k {
        assert lines[j] == sats[k].name;
      } else if j == 3 * k + 1 {
        assert lines[j] == sats[k].line1;
      } else {
        assert lines[j] == sats[k].line2;
      }
    }
  }

  /** The whole-text strip leaves written-out clean records alone when the
      first name and the last second line are not empty. */
  lemma SerializedIsStripped(sep: string, sats: seq<Satellite>)
    requires IsLineEnding(sep)
    requires forall k :: 0 <= k < |sats| ==> CleanRecord(sats[k])
    requires OuterFieldsNonEmpty(sats)
    ensures Strip(Serialize(sep, sats)) == Serialize(sep, sats)
  {
    var lines := RecordLines(sats);
    if sats != [] {
      JoinLast(sep, lines);
      JoinStart(sep, lines);
    }
    StripStripped(Serialize(sep, sats));
  }

  /** The same records written with LF, with CR LF (as CelesTrak serves
      them) or with any other line ending parse to the same list. */
  lemma LineEndingIrrelevant(sep1: string, sep2: string, sats: seq<Satellite>)
    requires IsLineEnding(sep1) && IsLineEnding(sep2)
    requires forall k :: 0 <= k < |sats| ==> CleanRecord(sats[k])
    requires OuterFieldsNonEmpty(sats)
    ensures ParseTleText(Serialize(sep1, sats)) == ParseTleText(Serialize(sep2, sats))
  {
    RoundTrip(sep1, sats);
    RoundTrip(sep2, sats);
  }

  /** The first record's name is never empty: the stripped text starts with
      a character that is neither whitespace nor a line break, so the first
      line starts with it too. */
  lemma FirstNameNonEmpty(text: string)
    requires ParseTleText(text) != []
    ensures ParseTleText(text)[0].name != []
  {
    var s := Strip(text);
    var lines := SplitLines(s);
    assert |lines| >= 3;
    var n := FirstBreak(s);
    StripIsStripped(text);
    FirstLineStartsField(s);
    assert lines[0] == s[..n];
    var i := StripShape(lines[0]);
  }

  /** A non-empty stripped text starts with a character that ends no line,
      so its first break comes after that character. */
  lemma FirstLineStartsField(s: string)
    requires s != [] && Stripped(s)
    ensures FirstBreak(s) > 0
  {
    var c := s[0];
    assert IsLineBreak(c) ==> IsSpace(c);
  }

  /** Parsing, writing the records out and parsing again changes nothing,
      unless the last record's second line is empty (it would then be lost
      to the whole-text strip). */
  lemma ReparseIsStable(sep: string, text: string)
    requires IsLineEnding(sep)
    requires ParseTleText(text) != [] ==> ParseTleText(text)[|ParseTleText(text)| - 1].line2 != []
    ensures ParseTleText(Serialize(sep, ParseTleText(text))) == ParseTleText(text)
  {
    if ParseTleText(text) != [] {
      FirstNameNonEmpty(text);
    }
    RoundTrip(sep, ParseTleText(text));
  }

  /** Why `ReparseIsStable` needs its requirement: a lone record whose
      second element line is empty is written as name, line ending, line 1,
      line ending; the whole-text strip removes the final line ending, and
      the two lines left make no record. */
  lemma EmptyLastLineIsLost(sep: string, name: string, line1: string)
    requires IsLineEnding(sep)
    requires CleanField(name) && CleanField(line1) && name != [] && line1 != []
    ensures ParseTleText(Serialize(sep, [Satellite(name, line1, [])])) == []
  {
    var sats := [Satellite(name, line1, [])];
    var two := [name, line1];
    var t := Join(sep, two);
    assert RecordLines(sats) == two + [[]];
    JoinEmptyLast(sep, two);
    JoinStart(sep, two);
    JoinLast(sep, two);
    assert IsLineBreak(sep[0]) ==> IsSpace(sep[0]);
    assert AllSpace(sep);
    StripUnique([], t, sep);
    assert [] + t + sep == t + sep;
    SplitJoin(sep, two);
  }

  /** Two complete groups give two records, in input order. */
  lemma TwoSatelliteExample(text: string)
    requires text == "SAT-A\nLINE1A\nLINE2A\nSAT-B\nLINE1B\nLINE2B"
    ensures ParseTleText(text) == [Satellite("SAT-A", "LINE1A", "LINE2A"), Satellite("SAT-B", "LINE1B", "LINE2B")]
  {
    var sats := [Satellite("SAT-A", "LINE1A", "LINE2A"), Satellite("SAT-B", "LINE1B", "LINE2B")];
    ExampleSerialized(sats, text);
    RoundTrip("\n", sats);
  }

  /** The example records are clean, and written out as lines, then joined
      with LF, they give the example text. */
  lemma ExampleSerialized(sats: seq<Satellite>, text: string)
    requires sats == [Satellite("SAT-A", "LINE1A", "LINE2A"), Satellite("SAT-B", "LINE1B", "LINE2B")]
    requires text == "SAT-A\nLINE1A\nLINE2A\nSAT-B\nLINE1B\nLINE2B"
    ensures forall k :: 0 <= k < |sats| ==> CleanRecord(sats[k])
    ensures OuterFieldsNonEmpty(sats)
    ensures Serialize("\n", sats) == text
  {
    assert CleanField("SAT-A") && CleanField("LINE1A") && CleanField("LINE2A");
    assert CleanField("SAT-B") && CleanField("LINE1B") && CleanField("LINE2B");
    assert RecordLines(sats[2..]) == [];
    assert RecordLines(sats[1..]) == ["SAT-B", "LINE1B", "LINE2B"];
    ExampleJoined(RecordLines(sats), text);
  }

  lemma ExampleJoined(lines: seq<string>, text: string)
    requires lines == ["SAT-A", "LINE1A", "LINE2A", "SAT-B", "LINE1B", "LINE2B"]
    requires text == "SAT-A\nLINE1A\nLINE2A\nSAT-B\nLINE1B\nLINE2B"
    ensures Join("\n", lines) == text
  {
    JoinSix(lines);
    ExampleText(text);
  }

  lemma ExampleText(text: string)
    requires text == "SAT-A\nLINE1A\nLINE2A\nSAT-B\nLINE1B\nLINE2B"
    ensures text == "SAT-A" + "\n" + ("LINE1A" + "\n" + ("LINE2A" + "\n" + ("SAT-B" + "\n" + ("LINE1B" + "\n" + "LINE2B"))))
  {
  }

  /** `"\n".join` of six lines, unfolded. */
  lemma JoinSix(lines: seq<string>)
    requires |lines| == 6
    ensures Join("\n", lines)
      == lines[0] + "\n" + (lines[1] + "\n" + (lines[2] + "\n" + (lines[3] + "\n" + (lines[4] + "\n" + lines[5]))))
  {
    var j5 := Join("\n", lines[5..]);
    assert j5 == lines[5];
    assert lines[4..][1..] == lines[5..];
    var j4 := Join("\n", lines[4..]);
    assert j4 == lines[4] + "\n" + j5;
    assert lines[3..][1..] == lines[4..];
    var j3 := Join("\n", lines[3..]);
    assert j3 == lines[3] + "\n" + j4;
    assert lines[2..][1..] == lines[3..];
    var j2 := Join("\n", lines[2..]);
    assert j2 == lines[2] + "\n" + j3;
    assert lines[1..][1..] == lines[2..];
    var j1 := Join("\n", lines[1..]);
    assert j1 == lines[1] + "\n" + j2;
  }
}
