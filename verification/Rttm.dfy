/** The RTTM text format: one whitespace-separated record per line. */
module Rttm {
  import opened Text
  import opened Decimal
  import Numerals
  import opened Options
  import opened Segments

  // ----- Writing -----------------------------------------------------------------------------------

  /** The fields after the file id. */
  function Values(s: Segment): seq<string> {
    ["1", PrintFixed3(s.start), PrintFixed3(s.duration), "<NA>", "<NA>", s.speaker, "<NA>", "<NA>"]
  }

  function PrintedLine(fileId: string, s: Segment): string {
    Join(["SPEAKER", fileId] + Values(s), " ")
  }

  /** Each line followed by a newline. */
  function Unlines(lines: seq<string>): string {
    if |lines| == 0 then "" else lines[0] + "\n" + Unlines(lines[1..])
  }

  function PrintedLines(fileId: string, segments: seq<Segment>): seq<string> {
    seq(|segments|, k requires 0 <= k < |segments| => PrintedLine(fileId, segments[k]))
  }

  function Printed(fileId: string, segments: seq<Segment>): string {
    Unlines(PrintedLines(fileId, segments))
  }

  lemma UnlinesStep(out: string, lines: seq<string>, i: nat)
    requires i < |lines|
    ensures out + Unlines(lines[i..]) == out + (lines[i] + "\n") + Unlines(lines[i + 1..])
  {
    assert lines[i..][1..] == lines[i + 1..];
  }

  method WriteRttm(fileId: string, segments: seq<Segment>) returns (out: string)
    ensures out == Printed(fileId, segments)
  {
    out := "";
    ghost var lines := PrintedLines(fileId, segments);
    for i := 0 to |segments|
      invariant out + Unlines(lines[i..]) == Unlines(lines)
    {
      UnlinesStep(out, lines, i);
      out := out + (PrintedLine(fileId, segments[i]) + "\n");
    }
  }

  // ----- Reading -------------------------------------------------------------------------------------

  datatype Problem = TooFewFields(line: nat, got: nat) | BadStart(line: nat) | BadDuration(line: nat)

  type Outcome = Result<seq<Segment>, Problem>

  type LineParser = (string, nat) -> Outcome

  function StripCr(s: string): string {
    if s != "" && s[|s| - 1] == '\r' then s[..|s| - 1] else s
  }

  /** `str::lines`: split at newlines, drop a carriage return before each, no empty last line. */
  function Lines(s: string): seq<string>
    decreases |s|
  {
    if s == "" then []
    else
      var k := IndexOfAny(s, {'\n'});
      [StripCr(s[..k])] + if k < |s| then Lines(s[k + 1..]) else []
  }

  /** What one line contributes: nothing, or one segment. */
  function ParseLine(raw: string, lineno: nat): Outcome {
    var line := Trim(raw);
    if line == "" || ";;" <= line then Ok([])
    else
      ParseFields(Words(line), lineno)
  }

  function ParseFields(fields: seq<string>, lineno: nat): Outcome {
    if |fields| < 8 then Err(TooFewFields(lineno, |fields|))
    else if fields[0] != "SPEAKER" then Ok([])
    else
      var start, duration := ParseFloat(fields[3]), ParseFloat(fields[4]);
      if start.None? then Err(BadStart(lineno))
      else if duration.None? then Err(BadDuration(lineno))
      else Ok([Segment(start.value, duration.value, fields[7])])
  }

  /** The first `n` lines together: the first bad one decides; otherwise all segments in order. */
  function Collect(parse: LineParser, lines: seq<string>, n: nat): Outcome
    requires n <= |lines|
  {
    if n == 0 then Ok([])
    else
      var before, last := Collect(parse, lines, n - 1), parse(lines[n - 1], n);
      if before.Err? then before
      else if last.Err? then last
      else Ok(before.value + last.value)
  }

  function Parsed(content: string): Outcome {
    Collect(ParseLine, Lines(content), |Lines(content)|)
  }

  lemma {:induction false} ErrorsStick(parse: LineParser, lines: seq<string>, i: nat, n: nat)
    requires i <= n <= |lines| && Collect(parse, lines, i).Err?
    ensures Collect(parse, lines, n) == Collect(parse, lines, i)
  {
    if i < n {
      ErrorsStick(parse, lines, i, n - 1);
    }
  }

  method ParseRttm(content: string) returns (r: Outcome)
    ensures r == Parsed(content)
  {
    var lines := Lines(content);
    r := ParseEach(ParseLine, lines);
  }

  /** The loop over the lines, with its early return. */
  method ParseEach(parse: LineParser, lines: seq<string>) returns (r: Outcome)
    ensures r == Collect(parse, lines, |lines|)
  {
    var out: seq<Segment> := [];
    for i := 0 to |lines|
      invariant Collect(parse, lines, i) == Ok(out)
    {
      var outcome := parse(lines[i], i + 1);
      if outcome.Err? {
        ErrorsStick(parse, lines, i + 1, |lines|);
        return outcome;
      }
      out := out + outcome.value;
    }
    r := Ok(out);
  }

  // ----- Reading undoes writing -------------------------------------------------------------------------

  /** The segments at millisecond precision. */
  function AtMillis(segments: seq<Segment>): seq<Segment> {
    seq(|segments|, k requires 0 <= k < |segments| =>
      Segment(RoundedMs(segments[k].start), RoundedMs(segments[k].duration), segments[k].speaker))
  }

  ghost predicate NamedByWords(segments: seq<Segment>) {
    forall k :: 0 <= k < |segments| ==> IsWord(segments[k].speaker)
  }

  /** Reading what was written gives the segments back, at millisecond precision. */
  ghost predicate RoundTrips(fileId: string, segments: seq<Segment>) {
    Parsed(Printed(fileId, segments)) == Ok(AtMillis(segments))
  }

  /** Words joined by spaces contain no other whitespace. */
  lemma {:induction false} JoinShape(ws: seq<string>)
    requires forall k :: 0 <= k < |ws| ==> IsWord(ws[k])
    ensures forall k :: 0 <= k < |Join(ws, " ")| ==> Join(ws, " ")[k] == ' ' || !IsWhitespace(Join(ws, " ")[k])
    decreases |ws|
  {
    if |ws| > 1 {
      JoinShape(ws[..|ws| - 1]);
      assert IsWord(ws[|ws| - 1]);
    }
  }

  lemma {:induction false} JoinCons(w: string, ws: seq<string>)
    requires |ws| > 0
    ensures Join([w] + ws, " ") == w + " " + Join(ws, " ")
  {
    assert ([w] + ws)[..|ws|] == [w] + ws[..|ws| - 1];
    if |ws| > 1 {
      JoinCons(w, ws[..|ws| - 1]);
    }
  }

  lemma LineShape(fileId: string, s: Segment)
    ensures PrintedLine(fileId, s) == "SPEAKER " + fileId + " " + Join(Values(s), " ")
  {
    JoinCons(fileId, Values(s));
    JoinCons("SPEAKER", [fileId] + Values(s));
    assert ["SPEAKER", fileId] + Values(s) == ["SPEAKER"] + ([fileId] + Values(s));
    var rest := fileId + " " + Join(Values(s), " ");
    assert "SPEAKER" + " " + rest == "SPEAKER " + fileId + " " + Join(Values(s), " ");
  }

  lemma ValuesAreWords(s: Segment)
    requires IsWord(s.speaker)
    ensures forall k :: 0 <= k < |Values(s)| ==> IsWord(Values(s)[k])
  {
    PrintedIsWord(s.start);
    PrintedIsWord(s.duration);
  }

  lemma WordIsSplitOff(w: string, rest: string)
    requires IsWord(w)
    ensures Words(w + " " + rest) == [w] + Words(rest)
  {
    WordsConcat(w, ' ', rest);
    WordsOfWord(w, "");
    assert w + "" == w;
  }

  /** A written line read as words: the file id gives as many as it has. */
  lemma LineWords(fileId: string, s: Segment)
    requires IsWord(s.speaker)
    ensures Words(PrintedLine(fileId, s)) == ["SPEAKER"] + Words(fileId) + Values(s)
    ensures Values(s) ==
            ["1", PrintFixed3(s.start), PrintFixed3(s.duration), "<NA>", "<NA>", s.speaker, "<NA>", "<NA>"]
  {
    LineShape(fileId, s);
    ValuesAreWords(s);
    WordsOfJoin(Values(s));
    HeadedWords(fileId, Join(Values(s), " "));
  }

  lemma HeadedWords(fileId: string, rest: string)
    ensures Words("SPEAKER " + fileId + " " + rest) == ["SPEAKER"] + Words(fileId) + Words(rest)
  {
    WordsConcat("SPEAKER " + fileId, ' ', rest);
    WordIsSplitOff("SPEAKER", fileId);
    assert "SPEAKER" + " " + fileId == "SPEAKER " + fileId;
  }

  lemma {:induction false} TrimStartStops(s: string)
    ensures TrimStart(s) == "" || !IsWhitespace(TrimStart(s)[0])
  {
    if s != "" && IsWhitespace(s[0]) {
      TrimStartStops(s[1..]);
    }
  }

  lemma CommentIsFirstWord(line: string)
    requires line != "" && !IsWhitespace(line[0])
    ensures Words(line) != [] && (";;" <= line <==> ";;" <= Words(line)[0])
  {
    var n := WordLength(line);
    assert Words(line)[0] == line[..n];
    if ";;" <= line {
      assert line[0] == ';' && line[1] == ';';
    }
  }

  /** Trimming a line changes nothing: its words alone decide what it contributes. */
  lemma LineByWords(raw: string, lineno: nat)
    ensures var ws := Words(raw);
            ParseLine(raw, lineno) == if ws == [] || ";;" <= ws[0] then Ok([]) else ParseFields(ws, lineno)
  {
    WordsTrim(raw);
    TrimStartStops(TrimEnd(raw));
    if Trim(raw) != "" {
      CommentIsFirstWord(Trim(raw));
    }
  }

  lemma SpeakerLine(raw: string, ws: seq<string>, lineno: nat, r: Outcome)
    requires Words(raw) == ws && |ws| > 0 && ws[0] == "SPEAKER" && ParseFields(ws, lineno) == r
    ensures ParseLine(raw, lineno) == r
  {
    LineByWords(raw, lineno);
    assert ws[0][0] == 'S';
  }

  lemma RecordIsRead(fields: seq<string>, start: real, duration: real, lineno: nat)
    requires |fields| >= 8 && fields[0] == "SPEAKER"
    requires ParseFloat(fields[3]) == Some(start) && ParseFloat(fields[4]) == Some(duration)
    ensures ParseFields(fields, lineno) == Ok([Segment(start, duration, fields[7])])
  {
  }

  /** `fields` is a record for the segment `s`. */
  ghost predicate IsRecordOf(fields: seq<string>, s: Segment) {
    && |fields| >= 8 && fields[0] == "SPEAKER" && fields[7] == s.speaker
    && fields[3] == PrintFixed3(s.start) && fields[4] == PrintFixed3(s.duration)
  }

  lemma FieldsRoundTrip(fields: seq<string>, s: Segment, lineno: nat)
    requires IsRecordOf(fields, s)
    ensures ParseFields(fields, lineno) == Ok(AtMillis([s]))
  {
    FloatRoundTrip(s.start);
    FloatRoundTrip(s.duration);
    RecordIsRead(fields, RoundedMs(s.start), RoundedMs(s.duration), lineno);
    assert AtMillis([s]) == [Segment(RoundedMs(s.start), RoundedMs(s.duration), s.speaker)];
  }

  lemma LinesStep(s: string, k: nat)
    requires k < |s| && IndexOfAny(s, {'\n'}) == k
    ensures Lines(s) == [StripCr(s[..k])] + Lines(s[k + 1..])
  {
  }

  lemma FirstLine(line: string, rest: string)
    requires forall k :: 0 <= k < |line| ==> line[k] != '\n'
    ensures Lines(line + "\n" + rest) == [StripCr(line)] + Lines(rest)
  {
    var s := line + "\n" + rest;
    assert s[|line|] == '\n' && forall i :: 0 <= i < |line| ==> s[i] == line[i];
    assert s[..|line|] == line && s[|line| + 1..] == rest;
    IndexIs(s, {'\n'}, |line|);
    LinesStep(s, |line|);
  }

  /** The last line needs no newline, and there is none after the last newline. */
  lemma LastLine(s: string)
    requires forall k :: 0 <= k < |s| ==> s[k] != '\n'
    ensures Lines(s) == if s == "" then [] else [StripCr(s)]
  {
    IndexIs(s, {'\n'}, |s|);
    assert s[..|s|] == s;
  }

  ghost predicate IsLine(s: string) {
    s != "" && s[|s| - 1] != '\r' && forall k :: 0 <= k < |s| ==> s[k] != '\n'
  }

  lemma {:induction false} LinesOfUnlines(lines: seq<string>)
    requires forall k :: 0 <= k < |lines| ==> IsLine(lines[k])
    ensures Lines(Unlines(lines)) == lines
  {
    if |lines| > 0 {
      LinesOfUnlines(lines[1..]);
      FirstLine(lines[0], Unlines(lines[1..]));
    }
  }

  /** The words of `line` are a record of `s`. */
  ghost predicate IsRecordLine(line: string, s: Segment) {
    IsLine(line) && IsRecordOf(Words(line), s)
  }

  lemma RecordLineIsRead(line: string, s: Segment, lineno: nat)
    requires IsRecordLine(line, s)
    ensures ParseLine(line, lineno) == Ok(AtMillis([s]))
  {
    var ws := Words(line);
    FieldsRoundTrip(ws, s, lineno);
    SpeakerLine(line, ws, lineno, Ok(AtMillis([s])));
  }

  /** Lines that each give one segment give them in order. */
  lemma {:induction false} GoodLines(parse: LineParser, lines: seq<string>, out: seq<Segment>, n: nat)
    requires |lines| == |out| && n <= |out|
    requires forall k :: 0 <= k < |out| ==> parse(lines[k], k + 1) == Ok([out[k]])
    ensures Collect(parse, lines, n) == Ok(out[..n])
  {
    if n > 0 {
      GoodLines(parse, lines, out, n - 1);
      assert out[..n] == out[..n - 1] + [out[n - 1]];
    }
  }

  lemma GoodText(parse: LineParser, lines: seq<string>, out: seq<Segment>)
    requires |lines| == |out| && forall k :: 0 <= k < |lines| ==> IsLine(lines[k])
    requires forall k :: 0 <= k < |out| ==> parse(lines[k], k + 1) == Ok([out[k]])
    ensures Lines(Unlines(lines)) == lines && Collect(parse, lines, |lines|) == Ok(out)
  {
    LinesOfUnlines(lines);
    GoodLines(parse, lines, out, |out|);
    assert out[..|out|] == out;
  }

  lemma RecordOutcome(lines: seq<string>, segments: seq<Segment>, k: nat)
    requires k < |lines| == |segments| && IsRecordLine(lines[k], segments[k])
    ensures ParseLine(lines[k], k + 1) == Ok([AtMillis(segments)[k]])
  {
    RecordLineIsRead(lines[k], segments[k], k + 1);
    assert AtMillis([segments[k]]) == [AtMillis(segments)[k]];
  }

  /** A text of one record line per segment is read as those segments. */
  lemma RecordLinesAreRead(lines: seq<string>, segments: seq<Segment>)
    requires |lines| == |segments| && forall k :: 0 <= k < |lines| ==> IsRecordLine(lines[k], segments[k])
    ensures Parsed(Unlines(lines)) == Ok(AtMillis(segments))
  {
    var out, parse := AtMillis(segments), ParseLine;
    assert forall k :: 0 <= k < |lines| ==> IsRecordLine(lines[k], segments[k]) ==> IsLine(lines[k]);
    forall k | 0 <= k < |out| ensures parse(lines[k], k + 1) == Ok([out[k]]) {
      RecordOutcome(lines, segments, k);
    }
    GoodText(parse, lines, out);
  }

  lemma PrintedIsLine(fileId: string, s: Segment)
    requires '\n' !in fileId && IsWord(s.speaker)
    ensures IsLine(PrintedLine(fileId, s))
  {
    var values := Join(Values(s), " ");
    LineShape(fileId, s);
    ValuesAreWords(s);
    JoinShape(Values(s));
    JoinEnds(Values(s));
    var line, n := PrintedLine(fileId, s), |fileId| + 9;
    assert |line| == n + |values| && forall k :: n <= k < |line| ==> line[k] == values[k - n];
    assert forall k :: 8 <= k < n - 1 ==> line[k] == fileId[k - 8];
  }

  /** A file id that is read as one field: one word, spaces around it allowed, all on one line. */
  predicate IsPlainId(fileId: string) {
    '\n' !in fileId && |Words(fileId)| == 1
  }

  lemma PrintedIsRecord(fileId: string, s: Segment)
    requires IsPlainId(fileId) && IsWord(s.speaker)
    ensures IsRecordLine(PrintedLine(fileId, s), s)
  {
    PrintedIsLine(fileId, s);
    LineWords(fileId, s);
  }

  lemma PrintedIsRead(fileId: string, segments: seq<Segment>)
    requires IsPlainId(fileId) && NamedByWords(segments)
    ensures RoundTrips(fileId, segments)
  {
    var lines := PrintedLines(fileId, segments);
    forall k | 0 <= k < |lines| ensures IsRecordLine(lines[k], segments[k]) {
      PrintedIsRecord(fileId, segments[k]);
    }
    RecordLinesAreRead(lines, segments);
  }

  ghost predicate NamesAreWords(r: Outcome) {
    r.Ok? ==> NamedByWords(r.value)
  }

  lemma {:induction false} CollectedNamesAreWords(parse: LineParser, lines: seq<string>, n: nat)
    requires n <= |lines| && forall k :: 0 <= k < |lines| ==> NamesAreWords(parse(lines[k], k + 1))
    ensures NamesAreWords(Collect(parse, lines, n))
  {
    if n > 0 {
      CollectedNamesAreWords(parse, lines, n - 1);
    }
  }

  /** Every speaker name the parser returns is a word, whatever the text. */
  lemma ParsedNamesAreWords(content: string)
    ensures NamesAreWords(Parsed(content))
  {
    var lines := Lines(content);
    forall k | 0 <= k < |lines| ensures NamesAreWords(ParseLine(lines[k], k + 1)) {
      OutcomeNamesAreWords(lines[k], k + 1);
    }
    CollectedNamesAreWords(ParseLine, lines, |lines|);
  }

  lemma OutcomeNamesAreWords(raw: string, lineno: nat)
    ensures NamesAreWords(ParseLine(raw, lineno))
  {
    var fields := Words(Trim(raw));
    assert |fields| >= 8 ==> IsWord(fields[7]);
  }

  /** The same speaker, and times at most half a millisecond apart. */
  predicate IsNear(a: Segment, b: Segment) {
    && a.speaker == b.speaker
    && -0.0005 <= a.start - b.start <= 0.0005 && -0.0005 <= a.duration - b.duration <= 0.0005
  }

  /**
    With a plain file id, parsing what was written returns the same segments in
    order, each time within half a millisecond, exactly when every speaker name
    is one word.
   */
  lemma RttmRoundTrip(fileId: string, segments: seq<Segment>)
    requires IsPlainId(fileId)
    ensures RoundTrips(fileId, segments) <==> NamedByWords(segments)
    ensures |AtMillis(segments)| == |segments|
    ensures forall k :: 0 <= k < |segments| ==> IsNear(AtMillis(segments)[k], segments[k])
  {
    if NamedByWords(segments) {
      PrintedIsRead(fileId, segments);
    }
    ParsedNamesAreWords(Printed(fileId, segments));
    if RoundTrips(fileId, segments) {
      forall k | 0 <= k < |segments| ensures IsWord(segments[k].speaker) {
        assert AtMillis(segments)[k].speaker == segments[k].speaker;
      }
    }
    forall k | 0 <= k < |segments| ensures IsNear(AtMillis(segments)[k], segments[k]) {
      RoundingError(segments[k].start);
      RoundingError(segments[k].duration);
    }
  }

  /** Writing and reading again changes nothing more. */
  lemma MillisAreStable(x: real)
    ensures RoundedMs(RoundedMs(x)) == RoundedMs(x)
  {
    var m := Millis(x);
    var y := RoundedMs(x);
    var a := if y < 0.0 then -y else y;
    assert a == m as real / 1000.0;
    assert a * 1000.0 == m as real;
    assert (m as real).Floor == m;
  }

  // ----- Which file ids can be used ------------------------------------------------------------------------

  lemma OneIsRead()
    ensures ParseFloat("1") == Some(1.0)
  {
    IndexIs("1", {'.'}, 1);
    assert "1"[..1] == "1" && DigitsValue("1") == 1 by {
      ValueSnoc("", 1);
      assert "" + [Digit(1)] == "1";
    }
    assert Scale(0.0, 0) == 0.0 && ParseMantissa("1") == Some(1.0);
    NoExponent("1", 1.0);
    SignIsRead(ParseMagnitude, "1", 1.0, false);
    assert "" + "1" == "1";
  }

  /** What becomes of the segments under a file id of two words: every field moves one place on. */
  function Misread(segments: seq<Segment>): seq<Segment> {
    seq(|segments|, k requires 0 <= k < |segments| => Segment(1.0, RoundedMs(segments[k].start), "<NA>"))
  }

  lemma RecordIsMisread(ws: seq<string>, s: Segment, lineno: nat)
    requires |ws| >= 8 && ws[0] == "SPEAKER" && ws[3] == "1" && ws[4] == PrintFixed3(s.start) && ws[7] == "<NA>"
    ensures ParseFields(ws, lineno) == Ok(Misread([s]))
  {
    OneIsRead();
    FloatRoundTrip(s.start);
    RecordIsRead(ws, 1.0, RoundedMs(s.start), lineno);
    assert Misread([s]) == [Segment(1.0, RoundedMs(s.start), "<NA>")];
  }

  lemma LineIsMisread(fileId: string, s: Segment, lineno: nat)
    requires |Words(fileId)| == 2 && IsWord(s.speaker)
    ensures ParseLine(PrintedLine(fileId, s), lineno) == Ok(Misread([s]))
  {
    LineWords(fileId, s);
    var ws := ["SPEAKER"] + Words(fileId) + Values(s);
    RecordIsMisread(ws, s, lineno);
    SpeakerLine(PrintedLine(fileId, s), ws, lineno, Ok(Misread([s])));
  }

  /** A file id of two words is not rejected: every segment comes back wrong, without an error. */
  lemma TwoWordIdIsMisread(fileId: string, segments: seq<Segment>)
    requires '\n' !in fileId && |Words(fileId)| == 2 && NamedByWords(segments)
    ensures Parsed(Printed(fileId, segments)) == Ok(Misread(segments))
  {
    var lines, out, parse := PrintedLines(fileId, segments), Misread(segments), ParseLine;
    forall k | 0 <= k < |lines| ensures IsLine(lines[k]) {
      PrintedIsLine(fileId, segments[k]);
    }
    forall k | 0 <= k < |out| ensures parse(lines[k], k + 1) == Ok([out[k]]) {
      LineIsMisread(fileId, segments[k], k + 1);
      assert Misread([segments[k]]) == [out[k]];
    }
    GoodText(parse, lines, out);
  }

  lemma {:induction false} FirstLineComesFirst(parse: LineParser, lines: seq<string>, n: nat)
    requires 0 < n <= |lines| && Collect(parse, lines, n).Ok?
    ensures parse(lines[0], 1).Ok? && parse(lines[0], 1).value <= Collect(parse, lines, n).value
  {
    if n > 1 {
      FirstLineComesFirst(parse, lines, n - 1);
    } else {
      assert Collect(parse, lines, 0) == Ok([]);
    }
  }

  lemma NameOfFields(ws: seq<string>, lineno: nat)
    requires |ws| > 0 && ws[0] == "SPEAKER" && ParseFields(ws, lineno).Ok?
    ensures |ws| >= 8 && |ParseFields(ws, lineno).value| == 1 && ParseFields(ws, lineno).value[0].speaker == ws[7]
  {
  }

  lemma NameOfRecord(raw: string, ws: seq<string>, lineno: nat)
    requires Words(raw) == ws && |ws| > 0 && ws[0] == "SPEAKER" && ParseLine(raw, lineno).Ok?
    ensures |ws| >= 8 && |ParseLine(raw, lineno).value| == 1 && ParseLine(raw, lineno).value[0].speaker == ws[7]
  {
    SpeakerLine(raw, ws, lineno, ParseFields(ws, lineno));
    NameOfFields(ws, lineno);
  }

  /** If the text opens with a speaker record, its eighth word is the first name read. */
  lemma FirstNameRead(content: string)
    requires Lines(content) != [] && Words(Lines(content)[0]) != [] && Words(Lines(content)[0])[0] == "SPEAKER"
    requires Parsed(content).Ok?
    ensures var ws := Words(Lines(content)[0]);
            |ws| >= 8 && Parsed(content).value != [] && Parsed(content).value[0].speaker == ws[7]
  {
    var lines, parse := Lines(content), ParseLine;
    FirstLineComesFirst(parse, lines, |lines|);
    NameOfRecord(lines[0], Words(lines[0]), 1);
  }

  /** The first line of a written text, as words. */
  function OpeningWords(fileId: string, s: Segment): seq<string> {
    var lines := Lines(PrintedLine(fileId, s) + "\n");
    if lines == [] then [] else Words(lines[0])
  }

  lemma OpeningOfPlainLine(fileId: string, s: Segment)
    requires '\n' !in fileId && IsWord(s.speaker)
    ensures OpeningWords(fileId, s) == ["SPEAKER"] + Words(fileId) + Values(s)
  {
    PrintedIsLine(fileId, s);
    FirstLine(PrintedLine(fileId, s), "");
    assert PrintedLine(fileId, s) + "\n" + "" == PrintedLine(fileId, s) + "\n";
    LineWords(fileId, s);
  }

  lemma StrippedWords(head: string)
    ensures Words(StripCr("SPEAKER " + head)) == ["SPEAKER"] + Words(StripCr(head))
  {
    assert StripCr("SPEAKER " + head) == "SPEAKER" + " " + StripCr(head);
    WordIsSplitOff("SPEAKER", StripCr(head));
  }

  lemma BrokenLine(head: string, rest: string)
    requires forall k :: 0 <= k < |head| ==> head[k] != '\n'
    ensures var lines := Lines("SPEAKER " + head + "\n" + rest);
            lines != [] && Words(lines[0]) == ["SPEAKER"] + Words(StripCr(head))
  {
    FirstLine("SPEAKER " + head, rest);
    StrippedWords(head);
  }

  /** An id with a newline ends the first line before anything of the segment is written. */
  lemma OpeningOfBrokenLine(fileId: string, s: Segment)
    requires '\n' in fileId
    ensures OpeningWords(fileId, s) == ["SPEAKER"] + Words(StripCr(fileId[..IndexOfAny(fileId, {'\n'})]))
  {
    var k := IndexOfAny(fileId, {'\n'});
    var values := Join(Values(s), " ");
    LineShape(fileId, s);
    SplitAtNewline(fileId, k, values);
    BrokenLine(fileId[..k], fileId[k + 1..] + " " + values + "\n");
  }

  lemma SplitAtNewline(fileId: string, k: nat, values: string)
    requires k < |fileId| && fileId[k] == '\n'
    ensures "SPEAKER " + fileId + " " + values + "\n" ==
            "SPEAKER " + fileId[..k] + "\n" + (fileId[k + 1..] + " " + values + "\n")
  {
    assert fileId == fileId[..k] + "\n" + fileId[k + 1..];
  }

  /** Unless the id is plain, the eighth word of the first line is not the speaker's name, whatever that is. */
  lemma EighthWordIsFixed(fileId: string, s: Segment, t: Segment)
    requires !IsPlainId(fileId) && IsWord(s.speaker) && IsWord(t.speaker) && s.start == t.start && s.duration == t.duration
    ensures var a, b := OpeningWords(fileId, s), OpeningWords(fileId, t);
            && a != [] && a[0] == "SPEAKER" && b != [] && b[0] == "SPEAKER"
            && (|a| >= 8 && |b| >= 8 ==> a[7] == b[7])
  {
    if '\n' in fileId {
      OpeningOfBrokenLine(fileId, s);
      OpeningOfBrokenLine(fileId, t);
    } else {
      OpeningOfPlainLine(fileId, s);
      OpeningOfPlainLine(fileId, t);
    }
  }

  lemma PrintedAlone(fileId: string, s: Segment)
    ensures Printed(fileId, [s]) == PrintedLine(fileId, s) + "\n"
  {
    var line := PrintedLine(fileId, s);
    assert PrintedLines(fileId, [s]) == [line] && [line][1..] == [];
    assert Unlines([line]) == line + "\n" + Unlines([]);
    assert line + "\n" + "" == line + "\n";
  }

  lemma NameReadBack(fileId: string, s: Segment)
    requires OpeningWords(fileId, s) != [] && OpeningWords(fileId, s)[0] == "SPEAKER" && RoundTrips(fileId, [s])
    ensures |OpeningWords(fileId, s)| >= 8 && OpeningWords(fileId, s)[7] == s.speaker
  {
    PrintedAlone(fileId, s);
    FirstNameRead(PrintedLine(fileId, s) + "\n");
    assert AtMillis([s])[0].speaker == s.speaker;
  }

  lemma NoOtherIdWorks(fileId: string)
    requires !IsPlainId(fileId)
    ensures !RoundTrips(fileId, [Segment(0.0, 0.0, "a")]) || !RoundTrips(fileId, [Segment(0.0, 0.0, "b")])
  {
    var s, t := Segment(0.0, 0.0, "a"), Segment(0.0, 0.0, "b");
    EighthWordIsFixed(fileId, s, t);
    if RoundTrips(fileId, [s]) {
      NameReadBack(fileId, s);
      if RoundTrips(fileId, [t]) {
        NameReadBack(fileId, t);
      }
    }
  }

  /** A file id is safe for all segments with one-word names exactly when it is plain. */
  lemma IdIsSafeIff(fileId: string)
    ensures (forall segments :: NamedByWords(segments) ==> RoundTrips(fileId, segments)) <==> IsPlainId(fileId)
  {
    if IsPlainId(fileId) {
      forall segments | NamedByWords(segments) ensures RoundTrips(fileId, segments) {
        PrintedIsRead(fileId, segments);
      }
    } else {
      NoOtherIdWorks(fileId);
      assert NamedByWords([Segment(0.0, 0.0, "a")]) && NamedByWords([Segment(0.0, 0.0, "b")]);
    }
  }

  // ----- What a line means ----------------------------------------------------------------------------------

  /** `s` spells some number. */
  ghost predicate IsNumber(s: string) {
    exists v :: Numerals.Denotes(s, v)
  }

  /**
    What a record of at least eight words gives: nothing unless its first word is
    SPEAKER; otherwise its fourth and fifth word must be numbers, and are the
    start and the duration of the speaker named by the eighth.
   */
  ghost predicate IsRecordOutcome(ws: seq<string>, lineno: nat, r: Outcome)
    requires |ws| >= 8
  {
    if ws[0] != "SPEAKER" then r == Ok([])
    else if !IsNumber(ws[3]) then r == Err(BadStart(lineno))
    else if !IsNumber(ws[4]) then r == Err(BadDuration(lineno))
    else exists x, y :: Numerals.Denotes(ws[3], x) && Numerals.Denotes(ws[4], y) && r == Ok([Segment(x, y, ws[7])])
  }

  lemma NumberIff(s: string)
    ensures ParseFloat(s).Some? <==> IsNumber(s)
    ensures ParseFloat(s).Some? ==> Numerals.Denotes(s, ParseFloat(s).value)
  {
    if ParseFloat(s).Some? {
      Numerals.ReadIffDenotes(s, ParseFloat(s).value);
    }
    if v :| Numerals.Denotes(s, v) {
      Numerals.ReadIffDenotes(s, v);
    }
  }

  lemma FieldsMeaning(ws: seq<string>, lineno: nat)
    requires |ws| >= 8
    ensures IsRecordOutcome(ws, lineno, ParseFields(ws, lineno))
  {
    NumberIff(ws[3]);
    NumberIff(ws[4]);
  }

  /** Blank lines and comments give nothing, short lines are errors, all others are records. */
  lemma LineMeaning(raw: string, lineno: nat)
    ensures var ws, r := Words(raw), ParseLine(raw, lineno);
            if ws == [] || ";;" <= ws[0] then r == Ok([])
            else if |ws| < 8 then r == Err(TooFewFields(lineno, |ws|))
            else IsRecordOutcome(ws, lineno, r)
  {
    LineByWords(raw, lineno);
    if |Words(raw)| >= 8 {
      FieldsMeaning(Words(raw), lineno);
    }
  }

  ghost predicate FailsFirst(parse: LineParser, lines: seq<string>, k: nat, e: Problem) {
    k < |lines| && parse(lines[k], k + 1) == Err(e) && forall j :: 0 <= j < k ==> parse(lines[j], j + 1).Ok?
  }

  lemma {:induction false} CollectFails(parse: LineParser, lines: seq<string>, n: nat)
    requires n <= |lines|
    ensures Collect(parse, lines, n).Err? ==>
      exists k :: 0 <= k < n && FailsFirst(parse, lines, k, Collect(parse, lines, n).error)
    ensures Collect(parse, lines, n).Ok? ==> forall k :: 0 <= k < n ==> parse(lines[k], k + 1).Ok?
  {
    if n > 0 {
      CollectFails(parse, lines, n - 1);
      if Collect(parse, lines, n - 1).Ok? && Collect(parse, lines, n).Err? {
        assert FailsFirst(parse, lines, n - 1, Collect(parse, lines, n).error);
      }
    }
  }

  lemma FirstFailureCounts(parse: LineParser, lines: seq<string>, k: nat, e: Problem)
    requires FailsFirst(parse, lines, k, e)
    ensures Collect(parse, lines, |lines|) == Err(e)
  {
    CollectFails(parse, lines, k);
    ErrorsStick(parse, lines, k + 1, |lines|);
  }

  /** `e` is the error of the first bad line. */
  ghost predicate Rejects(parse: LineParser, lines: seq<string>, e: Problem) {
    exists k: nat :: FailsFirst(parse, lines, k, e)
  }

  lemma FirstFailureIff(parse: LineParser, lines: seq<string>, e: Problem)
    ensures Collect(parse, lines, |lines|) == Err(e) <==> Rejects(parse, lines, e)
  {
    CollectFails(parse, lines, |lines|);
    if k: nat :| FailsFirst(parse, lines, k, e) {
      FirstFailureCounts(parse, lines, k, e);
    }
  }

  /** A text is rejected exactly for its first bad line, lines counted from 1. */
  lemma FirstBadLine(content: string, e: Problem)
    ensures Parsed(content) == Err(e) <==> Rejects(ParseLine, Lines(content), e)
  {
    FirstFailureIff(ParseLine, Lines(content), e);
  }
}
