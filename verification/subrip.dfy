/** The subtitle writer of audio-to-text.py: one SubRip cue block per
    transcription segment (lines 70-77) beside the plain-text transcript
    (lines 61, 66-67). Output goes to in-memory strings instead of files. */
module SubRip {

  import opened Wrappers
  import opened Decimal
  import opened Timestamp
  import opened Text

  /** One entry of the recogniser's `segments`: its own `id`, start and end in
      seconds, and the recognised text. */
  datatype Segment = Segment(id: int, start: real, end: real, text: string)

  /** The recogniser's result: the whole text and its segments, in order. */
  datatype Transcription = Transcription(text: string, segments: seq<Segment>)

  /** Line 76 without its line break: `start --> end`. */
  function TimeRange(start: real, end: real): string {
    FormatTimestamp(start) + " --> " + FormatTimestamp(end)
  }

  /** The three writes of one loop iteration (lines 75-77), one after the
      other: the cue number `id + 1`, the time range, and the text followed by a
      blank line. */
  function CueBlock(s: Segment): string {
    Concat([FormatInt(s.id + 1, 0) + "\n", TimeRange(s.start, s.end) + "\n", s.text + "\n\n"])
  }

  /** The whole subtitle file: the cue blocks of the segments, in order. */
  function AssembleSrt(segments: seq<Segment>): string {
    Concat(Map(segments, CueBlock))
  }

  /** Assembling two runs of segments one after the other writes the one file
      after the other. */
  lemma AssembleSrtAppend(a: seq<Segment>, b: seq<Segment>)
    ensures AssembleSrt(a + b) == AssembleSrt(a) + AssembleSrt(b)
  {
    MapAppend(a, b, CueBlock);
    ConcatAppend(Map(a, CueBlock), Map(b, CueBlock));
  }

  lemma AssembleSrtNone()
    ensures AssembleSrt([]) == ""
  {
  }

  /** A single segment gives exactly its block. */
  lemma AssembleSrtOne(s: Segment)
    ensures AssembleSrt([s]) == CueBlock(s)
  {
    assert Map([s], CueBlock) == [CueBlock(s)];
    ConcatSingle(CueBlock(s));
  }

  /** A cue block is never empty, so the file is empty exactly when there are
      no segments. */
  lemma AssembleSrtEmpty(segments: seq<Segment>)
    ensures AssembleSrt(segments) == "" <==> segments == []
  {
  }

  /** The block of the i-th segment sits between those of the segments before
      and after it, whatever the texts contain. */
  lemma BlockAt(segments: seq<Segment>, i: nat)
    requires i < |segments|
    ensures AssembleSrt(segments) ==
      AssembleSrt(segments[..i]) + CueBlock(segments[i]) + AssembleSrt(segments[i + 1..])
  {
    assert segments == segments[..i] + [segments[i]] + segments[i + 1..];
    AssembleSrtAppend(segments[..i], [segments[i]]);
    AssembleSrtAppend(segments[..i] + [segments[i]], segments[i + 1..]);
    AssembleSrtOne(segments[i]);
  }

  /** A cue block opens with the line holding its number `id + 1`. */
  lemma CueBlockOpens(s: Segment)
    ensures FormatInt(s.id + 1, 0) + "\n" <= CueBlock(s)
  {
    ConcatThreeOpens(FormatInt(s.id + 1, 0) + "\n", TimeRange(s.start, s.end) + "\n", s.text + "\n\n");
  }

  /** Whatever the texts contain, the file holds, right after the blocks of the
      segments before `i`, the line `id + 1` of segment `i`; when that `id` is
      `i`, the line is its position `i + 1`. */
  lemma CueNumberAt(segments: seq<Segment>, i: nat)
    requires i < |segments| && segments[i].id == i
    ensures AssembleSrt(segments[..i]) + (FormatInt(i + 1, 0) + "\n") <= AssembleSrt(segments)
  {
    BlockAt(segments, i);
    CueBlockOpens(segments[i]);
    PrefixAt(AssembleSrt(segments[..i]), CueBlock(segments[i]), AssembleSrt(segments[i + 1..]), FormatInt(i + 1, 0) + "\n");
  }

  /** The three writes of the loop for segment `i`, appended to the file of the
      segments before it, give the file of the segments up to and including it. */
  lemma WritesExtendFile(segments: seq<Segment>, i: nat)
    requires i < |segments|
    ensures var s := segments[i];
      AssembleSrt(segments[..i]) + (FormatInt(s.id + 1, 0) + "\n") + (TimeRange(s.start, s.end) + "\n") + (s.text + "\n\n")
      == AssembleSrt(segments[..i + 1])
  {
    var s := segments[i];
    assert segments[..i + 1] == segments[..i] + [s];
    AssembleSrtAppend(segments[..i], [s]);
    AssembleSrtOne(s);
    ConcatThree(AssembleSrt(segments[..i]), FormatInt(s.id + 1, 0) + "\n", TimeRange(s.start, s.end) + "\n", s.text + "\n\n");
  }

  /** Lines 61-77: the text artifact is `text` unchanged, whatever the segments;
      the subtitle artifact is built by appending, segment by segment, the three
      writes of the loop, and is the assembled file. */
  method SaveTranscription(result: Transcription) returns (txt: string, srt: string)
    ensures txt == result.text
    ensures srt == AssembleSrt(result.segments)
  {
    txt := result.text;
    srt := "";
    var segments := result.segments;
    AssembleSrtNone();
    for i := 0 to |segments|
      invariant srt == AssembleSrt(segments[..i])
    {
      var segment := segments[i];
      srt := srt + (FormatInt(segment.id + 1, 0) + "\n");
      srt := srt + (TimeRange(segment.start, segment.end) + "\n");
      srt := srt + (segment.text + "\n\n");
      WritesExtendFile(segments, i);
    }
    assert segments[..|segments|] == segments;
  }

  // Reading a subtitle file back

  /** A cue as a reader of the file sees it. */
  datatype Cue = Cue(number: int, start: Fields, end: Fields, text: string)

  /** The cue a segment should read back as. */
  function CueOf(s: Segment): Cue {
    Cue(s.id + 1, Split(s.start), Split(s.end), s.text)
  }

  /** The position of the first `c` in `s`, or `|s|` when there is none. */
  function Find(s: string, c: char): (k: nat)
    ensures k <= |s|
    ensures k < |s| ==> s[k] == c
    ensures forall j :: 0 <= j < k ==> s[j] != c
  {
    if s == [] || s[0] == c then 0 else 1 + Find(s[1..], c)
  }

  lemma FindAfter(a: string, c: char, b: string)
    requires c !in a
    ensures Find(a + [c] + b, c) == |a|
  {
    var s := a + [c] + b;
    var k := Find(s, c);
    assert s[|a|] == c;
    assert forall j :: 0 <= j < |a| ==> s[j] == a[j];
  }

  /** Splits off the first line and its line break; `None` if there is no break. */
  function ReadLine(s: string): (r: Option<(string, string)>)
    ensures r.Some? ==> |r.value.1| < |s|
  {
    var k := Find(s, '\n');
    if k < |s| then Some((s[..k], s[k + 1..])) else None
  }

  lemma ReadLineOf(a: string, b: string)
    requires '\n' !in a
    ensures ReadLine(a + "\n" + b) == Some((a, b))
  {
    FindAfter(a, '\n', b);
    var s := a + "\n" + b;
    assert s[..|a|] == a && s[|a| + 1..] == b;
  }

  /** Reads `start --> end`. */
  function ParseTimeRange(line: string): Option<(Fields, Fields)> {
    var k := Find(line, ' ');
    if k + 5 <= |line| && line[k..k + 5] == " --> " then
      var start :- ParseTimestamp(line[..k]);
      var end :- ParseTimestamp(line[k + 5..]);
      Some((start, end))
    else
      None
  }

  lemma {:induction false} ParseJoinedRange(a: string, b: string)
    requires ' ' !in a
    ensures ParseTimeRange(a + " --> " + b) ==
      if ParseTimestamp(a).Some? && ParseTimestamp(b).Some? then
        Some((ParseTimestamp(a).value, ParseTimestamp(b).value))
      else None
  {
    var line := a + " --> " + b;
    assert line == a + [' '] + ("--> " + b);
    FindAfter(a, ' ', "--> " + b);
    assert line[..|a|] == a && line[|a|..|a| + 5] == " --> " && line[|a| + 5..] == b;
  }

  /** The time range fits on one line. */
  lemma TimeRangeSingleLine(start: real, end: real)
    ensures '\n' !in TimeRange(start, end)
  {
    TimestampHasNoSeparators(start);
    TimestampHasNoSeparators(end);
    assert '\n' !in " --> ";
  }

  /** The time range of a cue reads back as the fields of its two times. */
  lemma ParseTimeRangeOf(start: real, end: real)
    requires start >= 0.0 && end >= 0.0
    ensures ParseTimeRange(TimeRange(start, end)) == Some((Split(start), Split(end)))
  {
    TimestampHasNoSeparators(start);
    FormatTimestampRoundTrip(start);
    FormatTimestampRoundTrip(end);
    ParseJoinedRange(FormatTimestamp(start), FormatTimestamp(end));
  }

  /** Reads one four-line cue block; gives the cue and what follows it. */
  function ParseCue(s: string): (r: Option<(Cue, string)>)
    ensures r.Some? ==> |r.value.1| < |s|
  {
    var l1 :- ReadLine(s);
    var l2 :- ReadLine(l1.1);
    var l3 :- ReadLine(l2.1);
    var l4 :- ReadLine(l3.1);
    if l4.0 != "" then None
    else
      var number :- ParseInt(l1.0);
      var range :- ParseTimeRange(l2.0);
      Some((Cue(number, range.0, range.1, l3.0), l4.1))
  }

  /** Reads a whole subtitle file as a sequence of cue blocks. */
  function ParseSrt(s: string): Option<seq<Cue>>
    decreases |s|
  {
    if s == "" then Some([])
    else
      var first :- ParseCue(s);
      var rest :- ParseSrt(first.1);
      Some([first.0] + rest)
  }

  /** Any three single lines followed by a blank line read back as one cue,
      leaving what follows. */
  lemma {:induction false} ParseWrittenLines(number: string, range: string, text: string, rest: string)
    requires '\n' !in number && '\n' !in range && '\n' !in text
    requires ParseInt(number).Some? && ParseTimeRange(range).Some?
    ensures ParseCue(Concat([number + "\n", range + "\n", text + "\n\n"]) + rest) ==
      Some((Cue(ParseInt(number).value, ParseTimeRange(range).value.0, ParseTimeRange(range).value.1, text), rest))
  {
    ConcatThree("", number + "\n", range + "\n", text + "\n\n");
    var r4 := "" + "\n" + rest;
    var r3 := text + "\n" + r4;
    var r2 := range + "\n" + r3;
    assert Concat([number + "\n", range + "\n", text + "\n\n"]) + rest == number + "\n" + r2;
    ReadLineOf(number, r2);
    ReadLineOf(range, r3);
    ReadLineOf(text, r4);
    ReadLineOf("", rest);
  }

  /** SubRip has no escape for a line break inside a cue's text. */
  predicate SingleLine(segments: seq<Segment>) {
    forall i :: 0 <= i < |segments| ==> '\n' !in segments[i].text
  }

  /** Start and end of every segment are not negative. */
  predicate NonNegative(segments: seq<Segment>) {
    forall i :: 0 <= i < |segments| ==> segments[i].start >= 0.0 && segments[i].end >= 0.0
  }

  /** The first two lines of a cue block are single lines that read back as
      the cue number and the two times. */
  lemma CueLinesReadBack(s: Segment)
    requires s.start >= 0.0 && s.end >= 0.0
    ensures '\n' !in FormatInt(s.id + 1, 0) && ParseInt(FormatInt(s.id + 1, 0)) == Some(s.id + 1)
    ensures '\n' !in TimeRange(s.start, s.end)
    ensures ParseTimeRange(TimeRange(s.start, s.end)) == Some((Split(s.start), Split(s.end)))
  {
    FormatIntHasNoSeparators(s.id + 1, 0);
    FormatIntRoundTrip(s.id + 1, 0);
    TimeRangeSingleLine(s.start, s.end);
    ParseTimeRangeOf(s.start, s.end);
  }

  /** The block of one segment reads back as its cue. */
  lemma ParseCueBlock(s: Segment, rest: string)
    requires s.start >= 0.0 && s.end >= 0.0 && '\n' !in s.text
    ensures ParseCue(CueBlock(s) + rest) == Some((CueOf(s), rest))
  {
    CueLinesReadBack(s);
    ParseWrittenLines(FormatInt(s.id + 1, 0), TimeRange(s.start, s.end), s.text, rest);
  }

  /** After one block, the reader goes on with what follows it. */
  lemma ParseSrtCueBlock(s: Segment, rest: string)
    requires s.start >= 0.0 && s.end >= 0.0 && '\n' !in s.text
    ensures ParseSrt(CueBlock(s) + rest) ==
      if ParseSrt(rest).Some? then Some([CueOf(s)] + ParseSrt(rest).value) else None
  {
    ParseCueBlock(s, rest);
    assert CueBlock(s) + rest != "" by {
      assert |CueBlock(s)| > 0 by {
        ConcatThree("", FormatInt(s.id + 1, 0) + "\n", TimeRange(s.start, s.end) + "\n", s.text + "\n\n");
      }
    }
  }

  lemma AssembleSrtCons(segments: seq<Segment>)
    requires segments != []
    ensures AssembleSrt(segments) == CueBlock(segments[0]) + AssembleSrt(segments[1..])
  {
    assert segments == [segments[0]] + segments[1..];
    AssembleSrtAppend([segments[0]], segments[1..]);
    AssembleSrtOne(segments[0]);
  }

  /** Reading the assembled file gives back exactly one cue per segment, in
      segment order: number `id + 1`, both times to the millisecond, the text
      verbatim. */
  lemma {:induction false} ParseAssembled(segments: seq<Segment>)
    requires NonNegative(segments) && SingleLine(segments)
    ensures var cues := ParseSrt(AssembleSrt(segments));
      cues.Some? && |cues.value| == |segments| &&
      forall i :: 0 <= i < |segments| ==> cues.value[i] == CueOf(segments[i])
  {
    if segments == [] {
      AssembleSrtNone();
    } else {
      var rest := segments[1..];
      assert NonNegative(rest) && SingleLine(rest) by {
        forall i | 0 <= i < |rest| ensures rest[i] == segments[i + 1] { }
      }
      ParseAssembled(rest);
      AssembleSrtCons(segments);
      ParseSrtCueBlock(segments[0], AssembleSrt(rest));
    }
  }

  /** When every segment's `id` is its position, the cue numbers are exactly
      1, 2, ..., n. */
  lemma CueNumbersArePositions(segments: seq<Segment>)
    requires NonNegative(segments) && SingleLine(segments)
    requires forall i :: 0 <= i < |segments| ==> segments[i].id == i
    ensures var cues := ParseSrt(AssembleSrt(segments));
      cues.Some? && |cues.value| == |segments| &&
      forall i :: 0 <= i < |segments| ==> cues.value[i].number == i + 1
  {
    ParseAssembled(segments);
  }
}
