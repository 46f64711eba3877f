/** The chapter extractor (`extract_chapters_from_ref_clips`): every
    `ref-clip` marker of an FCPXML document, in document order, either
    yields one YouTube chapter line `mm:ss Name`, or a diagnostic, or is
    passed over; a marker that fails never stops the others. */
module Chapters {
  import opened Strings
  import opened Decimal
  import opened Timecode
  import opened Fcpxml

  /** The tag of the markers the extractor looks for. */
  const MarkerTag := "ref-clip"

  /** The messages the extractor prints, as values. */
  datatype Diagnostic =
      /** The offset does not split into exactly two parts on `/`. */
    | MalformedOffset(name: string, offset: string)
      /** The timecode converter failed on the offset. */
    | ConversionFailed(name: string, error: ConversionError)
      /** The document could not be opened. */
    | FileNotFound(path: string)
      /** The document is not well-formed XML. */
    | NotValidFcpxml(path: string)

  /** What one marker contributes. */
  datatype Outcome = Passed | Chapter(line: string) | Reported(diagnostic: Diagnostic)

  /** Python truthiness of an optional attribute: present and non-empty. */
  predicate Present(attribute: Option<string>) {
    attribute.Some? && attribute.value != ""
  }

  // ---------------------------------------------------------------------
  // Formatting seconds as mm:ss

  /** `int(seconds // 60)` */
  function Minutes(seconds: real): nat
    requires seconds >= 0.0
  {
    (seconds / 60.0).Floor
  }

  /** `int(seconds % 60)` */
  function Secs(seconds: real): nat
    requires seconds >= 0.0
  {
    FloorDivBound(seconds);
    (seconds - 60.0 * Minutes(seconds) as real).Floor
  }

  lemma FloorDivBound(seconds: real)
    requires seconds >= 0.0
    ensures 60.0 * Minutes(seconds) as real <= seconds < 60.0 * Minutes(seconds) as real + 60.0
  {
    var q := seconds / 60.0;
    assert q.Floor as real <= q < q.Floor as real + 1.0;
    assert seconds == 60.0 * q;
  }

  /** The two fields split the seconds: `seconds = 60 * minutes + secs +
      frac` with `0 <= secs <= 59` and `0 <= frac < 1`; `secs` is the whole
      seconds modulo 60 and `minutes` the whole seconds divided by 60. */
  lemma MinutesSecs(seconds: real)
    requires seconds >= 0.0
    ensures Secs(seconds) <= 59
    ensures var whole := 60 * Minutes(seconds) + Secs(seconds);
            whole as real <= seconds < whole as real + 1.0
    ensures Secs(seconds) == seconds.Floor % 60
    ensures Minutes(seconds) == seconds.Floor / 60
  {
    var m := Minutes(seconds);
    FloorDivBound(seconds);
    var rest := seconds - 60.0 * m as real;
    var secs := Secs(seconds);
    assert 0.0 <= rest < 60.0;
    assert secs as real <= rest < secs as real + 1.0;
    var whole := 60 * m + secs;
    assert whole as real == 60.0 * m as real + secs as real;
    assert whole as real <= seconds < whole as real + 1.0;
    assert seconds.Floor == whole;
    DivModUnique(whole, m, secs);
  }

  lemma DivModUnique(n: int, q: int, r: int)
    requires 0 <= r < 60 && n == 60 * q + r
    ensures n / 60 == q && n % 60 == r
  {
  }

  /** `f"{minutes:02}:{secs:02}"` */
  function Timestamp(seconds: real): string
    requires seconds >= 0.0
  {
    Pad2(Minutes(seconds)) + ":" + Pad2(Secs(seconds))
  }

  /** The timestamp reads back as the whole seconds it shows: two numerals
      around one colon, the seconds field exactly two digits wide,
      `60 * mm + ss == floor(seconds)`. */
  lemma TimestampDenotes(seconds: real)
    requires seconds >= 0.0
    ensures var fields := Split(Timestamp(seconds), ':');
            && |fields| == 2
            && IsNumeral(fields[0]) && |fields[0]| >= 2
            && (|fields[0]| > 2 ==> fields[0][0] != '0')
            && IsNumeral(fields[1]) && |fields[1]| == 2 && Value(fields[1]) < 60
            && 60 * Value(fields[0]) + Value(fields[1]) == seconds.Floor
  {
    MinutesSecs(seconds);
    Pad2Width(Secs(seconds));
    var mm, ss := Pad2(Minutes(seconds)), Pad2(Secs(seconds));
    NumeralHasNo(mm, ':');
    NumeralHasNo(ss, ':');
    SplitJoin([mm, ss], ':');
    assert Join([mm, ss], ':') == Timestamp(seconds);
  }

  /** `f"{formatted_time} {name}"` */
  function ChapterLine(seconds: real, name: string): string
    requires seconds >= 0.0
  {
    Timestamp(seconds) + " " + name
  }

  /** A chapter line is the timestamp, one space, and the name verbatim:
      the first space ends the timestamp, and everything after it is the
      name. */
  lemma ChapterLineParts(seconds: real, name: string)
    requires seconds >= 0.0
    ensures var line, ts := ChapterLine(seconds, name), Timestamp(seconds);
            && ' ' !in ts
            && line[..|ts|] == ts && line[|ts|] == ' ' && line[|ts| + 1..] == name
  {
    var mm, ss := Pad2(Minutes(seconds)), Pad2(Secs(seconds));
    NumeralHasNo(mm, ' ');
    NumeralHasNo(ss, ' ');
  }

  // ---------------------------------------------------------------------
  // One marker

  /** The body of the `for ref_clip in ...` loop, as a value: `Passed` when
      an attribute is missing or empty, `MalformedOffset` when the offset is
      not two parts around a `/` (no conversion attempted),
      `ConversionFailed` when the converter raises, the chapter line
      otherwise. */
  function ProcessMarker(refClip: Element): Outcome {
    var offset, name := Get(refClip, "offset"), Get(refClip, "name");
    if !(Present(offset) && Present(name)) then Passed
    else if |Split(offset.value, '/')| != 2 then Reported(MalformedOffset(name.value, offset.value))
    else match ConvertTimecodeToSeconds(offset.value)
      case Err(error) => Reported(ConversionFailed(name.value, error))
      case Ok(seconds) => Chapter(ChapterLine(seconds, name.value))
  }

  /** A marker without a usable `offset` or `name` leaves no trace, and
      only such a marker. */
  lemma PassedIff(refClip: Element)
    ensures ProcessMarker(refClip) == Passed <==>
              !Present(Get(refClip, "offset")) || !Present(Get(refClip, "name"))
  {
  }

  /** A usable marker whose offset holds no `/`, or more than one, is
      reported as malformed with its name and offset, and is never
      converted; no other marker is reported that way. */
  lemma MalformedIff(refClip: Element)
    ensures var offset, name := Get(refClip, "offset"), Get(refClip, "name");
            ProcessMarker(refClip).Reported? && ProcessMarker(refClip).diagnostic.MalformedOffset? <==>
              Present(offset) && Present(name) && Count(offset.value, '/') != 1
    ensures var offset, name := Get(refClip, "offset"), Get(refClip, "name");
            Present(offset) && Present(name) && Count(offset.value, '/') != 1 ==>
              ProcessMarker(refClip) == Reported(MalformedOffset(name.value, offset.value))
  {
    var offset := Get(refClip, "offset");
    if offset.Some? {
      TwoPartsIffOneSeparator(offset.value, '/');
    }
  }

  /** A usable marker with one `/` whose offset does not convert is
      reported with its name and the converter's error, and only such a
      marker is reported that way. */
  lemma ConversionFailedIff(refClip: Element)
    ensures var offset, name := Get(refClip, "offset"), Get(refClip, "name");
            ProcessMarker(refClip).Reported? && ProcessMarker(refClip).diagnostic.ConversionFailed? <==>
              Present(offset) && Present(name) && Count(offset.value, '/') == 1
              && ConvertTimecodeToSeconds(offset.value).Err?
    ensures var offset, name := Get(refClip, "offset"), Get(refClip, "name");
            Present(offset) && Present(name) && Count(offset.value, '/') == 1
            && ConvertTimecodeToSeconds(offset.value).Err? ==>
              ProcessMarker(refClip) ==
                Reported(ConversionFailed(name.value, ConvertTimecodeToSeconds(offset.value).error))
  {
    var offset := Get(refClip, "offset");
    if offset.Some? {
      TwoPartsIffOneSeparator(offset.value, '/');
    }
  }

  /** A marker yields a chapter exactly when both attributes are usable,
      the offset has one `/` and converts; the line is then the formatted
      seconds, a space and the name. */
  lemma ChapterIff(refClip: Element)
    ensures var offset, name := Get(refClip, "offset"), Get(refClip, "name");
            ProcessMarker(refClip).Chapter? <==>
              Present(offset) && Present(name) && Count(offset.value, '/') == 1
              && ConvertTimecodeToSeconds(offset.value).Ok?
    ensures var offset, name := Get(refClip, "offset"), Get(refClip, "name");
            ProcessMarker(refClip).Chapter? ==>
              ProcessMarker(refClip).line == ChapterLine(ConvertTimecodeToSeconds(offset.value).value, name.value)
  {
    var offset := Get(refClip, "offset");
    if offset.Some? {
      TwoPartsIffOneSeparator(offset.value, '/');
    }
  }

  // ---------------------------------------------------------------------
  // All markers

  /** `f` applied to every element of `s`. */
  function Map<A, B>(f: A -> B, s: seq<A>): (r: seq<B>)
    ensures |r| == |s|
    ensures forall i :: 0 <= i < |s| ==> r[i] == f(s[i])
  {
    seq(|s|, i requires 0 <= i < |s| => f(s[i]))
  }

  lemma MapConcat<A, B>(f: A -> B, a: seq<A>, b: seq<A>)
    ensures Map(f, a + b) == Map(f, a) + Map(f, b)
  {
    var l, r := Map(f, a + b), Map(f, a) + Map(f, b);
    forall i | 0 <= i < |a + b|
      ensures l[i] == r[i]
    {
      if i < |a| {
        assert (a + b)[i] == a[i];
      } else {
        assert (a + b)[i] == b[i - |a|];
      }
    }
  }

  /** Each marker's outcome, decided on that marker alone. */
  function Outcomes(markers: seq<Element>): (outcomes: seq<Outcome>)
    ensures |outcomes| == |markers|
    ensures forall i :: 0 <= i < |markers| ==> outcomes[i] == ProcessMarker(markers[i])
  {
    Map(ProcessMarker, markers)
  }

  /** Outcomes are decided marker by marker: the outcomes of a
      concatenation are the outcomes of its parts, concatenated. */
  lemma OutcomesConcat(a: seq<Element>, b: seq<Element>)
    ensures Outcomes(a + b) == Outcomes(a) + Outcomes(b)
  {
    MapConcat(ProcessMarker, a, b);
  }

  /** The chapter lines among `outcomes`, in their order. */
  function ChaptersIn(outcomes: seq<Outcome>): (chapters: seq<string>)
    ensures |chapters| <= |outcomes|
  {
    if outcomes == [] then []
    else
      var last := outcomes[|outcomes| - 1];
      ChaptersIn(outcomes[..|outcomes| - 1]) + (if last.Chapter? then [last.line] else [])
  }

  /** The diagnostics among `outcomes`, in their order. */
  function DiagnosticsIn(outcomes: seq<Outcome>): (diagnostics: seq<Diagnostic>)
    ensures |diagnostics| <= |outcomes|
  {
    if outcomes == [] then []
    else
      var last := outcomes[|outcomes| - 1];
      DiagnosticsIn(outcomes[..|outcomes| - 1]) + (if last.Reported? then [last.diagnostic] else [])
  }

  /** The chapter list built from `markers`. */
  function ChaptersOf(markers: seq<Element>): seq<string> {
    ChaptersIn(Outcomes(markers))
  }

  /** The diagnostics produced for `markers`. */
  function DiagnosticsOf(markers: seq<Element>): seq<Diagnostic> {
    DiagnosticsIn(Outcomes(markers))
  }

  /** The positions of the outcomes that are chapters, ascending. */
  function ChapterPositions(outcomes: seq<Outcome>): (positions: seq<nat>)
    ensures forall k :: 0 <= k < |positions| ==> positions[k] < |outcomes|
  {
    if outcomes == [] then []
    else
      var n := |outcomes| - 1;
      ChapterPositions(outcomes[..n]) + (if outcomes[n].Chapter? then [n] else [])
  }

  /** The positions of the outcomes that are diagnostics, ascending. */
  function DiagnosticPositions(outcomes: seq<Outcome>): (positions: seq<nat>)
    ensures forall k :: 0 <= k < |positions| ==> positions[k] < |outcomes|
  {
    if outcomes == [] then []
    else
      var n := |outcomes| - 1;
      DiagnosticPositions(outcomes[..n]) + (if outcomes[n].Reported? then [n] else [])
  }

  /** Chapters and diagnostics never outnumber the markers together. */
  lemma {:induction false} OutputBound(outcomes: seq<Outcome>)
    ensures |ChaptersIn(outcomes)| + |DiagnosticsIn(outcomes)| <= |outcomes|
  {
    if outcomes != [] {
      OutputBound(outcomes[..|outcomes| - 1]);
    }
  }

  /** At most one chapter per located marker, and at most one output of any
      kind. */
  lemma MarkerBound(markers: seq<Element>)
    ensures |ChaptersOf(markers)| <= |markers|
    ensures |ChaptersOf(markers)| + |DiagnosticsOf(markers)| <= |markers|
  {
    OutputBound(Outcomes(markers));
  }

  /** Outcomes are aggregated piecewise: the outputs for a concatenation
      are the outputs of the parts, concatenated. */
  lemma {:induction false} OutputsConcat(a: seq<Outcome>, b: seq<Outcome>)
    ensures ChaptersIn(a + b) == ChaptersIn(a) + ChaptersIn(b)
    ensures DiagnosticsIn(a + b) == DiagnosticsIn(a) + DiagnosticsIn(b)
    decreases |b|
  {
    if b == [] {
      assert a + b == a;
    } else {
      var n := |b| - 1;
      assert (a + b)[..|a + b| - 1] == a + b[..n];
      assert (a + b)[|a + b| - 1] == b[n];
      OutputsConcat(a, b[..n]);
    }
  }

  /** Aggregation around one outcome that is not a chapter. */
  lemma NonChapterContained(before: seq<Outcome>, outcome: Outcome, after: seq<Outcome>)
    requires !outcome.Chapter?
    ensures ChaptersIn(before + [outcome] + after) == ChaptersIn(before) + ChaptersIn(after)
    ensures DiagnosticsIn(before + [outcome] + after) ==
              DiagnosticsIn(before) + (if outcome.Reported? then [outcome.diagnostic] else []) + DiagnosticsIn(after)
  {
    var x := before + [outcome];
    var emitted := if outcome.Reported? then [outcome.diagnostic] else [];
    assert ChaptersIn([outcome]) == [] && DiagnosticsIn([outcome]) == emitted by {
      assert [outcome][..0] == [];
    }
    OutputsConcat(before, [outcome]);
    assert ChaptersIn(x) == ChaptersIn(before);
    assert DiagnosticsIn(x) == DiagnosticsIn(before) + emitted;
    OutputsConcat(x, after);
  }

  /** Failure containment: a marker that yields no chapter (passed over,
      malformed, or failing to convert) removes exactly its own
      contribution; the markers before and after it give what they give
      without it, and its diagnostic, if any, stands in its place. */
  lemma FailureContained(before: seq<Element>, refClip: Element, after: seq<Element>)
    requires !ProcessMarker(refClip).Chapter?
    ensures ChaptersOf(before + [refClip] + after) == ChaptersOf(before) + ChaptersOf(after)
    ensures DiagnosticsOf(before + [refClip] + after) ==
              DiagnosticsOf(before)
              + (if ProcessMarker(refClip).Reported? then [ProcessMarker(refClip).diagnostic] else [])
              + DiagnosticsOf(after)
  {
    MapConcat(ProcessMarker, before + [refClip], after);
    MapConcat(ProcessMarker, before, [refClip]);
    NonChapterContained(Outcomes(before), Outcomes([refClip])[0], Outcomes(after));
    assert Outcomes([refClip]) == [Outcomes([refClip])[0]];
  }

  /** Document order: the k-th chapter comes from the outcome at the k-th
      chapter position, positions ascend, and every chapter outcome has its
      position listed, so nothing is re-sorted, merged or dropped. */
  lemma {:induction false} ChaptersInOrder(outcomes: seq<Outcome>)
    ensures var positions, chapters := ChapterPositions(outcomes), ChaptersIn(outcomes);
            && |positions| == |chapters|
            && (forall k :: 0 <= k < |positions| ==> outcomes[positions[k]] == Chapter(chapters[k]))
            && (forall k, l :: 0 <= k < l < |positions| ==> positions[k] < positions[l])
            && (forall i :: 0 <= i < |outcomes| && outcomes[i].Chapter? ==> i in positions)
  {
    if outcomes != [] {
      var n := |outcomes| - 1;
      var init := outcomes[..n];
      ChaptersInOrder(init);
      var p := ChapterPositions(init);
      forall k | 0 <= k < |p|
        ensures outcomes[p[k]] == init[p[k]]
      {
      }
      forall i | 0 <= i < n
        ensures outcomes[i] == init[i]
      {
      }
    }
  }

  /** The same for diagnostics: the k-th diagnostic comes from the outcome
      at the k-th diagnostic position, positions ascend, and every reported
      outcome is listed. With `ChaptersInOrder`, the two position lists fix
      the order of the loop's appends and reports relative to each other. */
  lemma {:induction false} DiagnosticsInOrder(outcomes: seq<Outcome>)
    ensures var positions, diagnostics := DiagnosticPositions(outcomes), DiagnosticsIn(outcomes);
            && |positions| == |diagnostics|
            && (forall k :: 0 <= k < |positions| ==> outcomes[positions[k]] == Reported(diagnostics[k]))
            && (forall k, l :: 0 <= k < l < |positions| ==> positions[k] < positions[l])
            && (forall i :: 0 <= i < |outcomes| && outcomes[i].Reported? ==> i in positions)
  {
    if outcomes != [] {
      var n := |outcomes| - 1;
      var init := outcomes[..n];
      DiagnosticsInOrder(init);
      var p := DiagnosticPositions(init);
      forall k | 0 <= k < |p|
        ensures outcomes[p[k]] == init[p[k]]
      {
      }
      forall i | 0 <= i < n
        ensures outcomes[i] == init[i]
      {
      }
    }
  }

  /** The same, for markers: the k-th chapter is the line of the marker at
      the k-th position, positions ascend, every marker that yields a
      chapter is listed. */
  lemma ChaptersInMarkerOrder(markers: seq<Element>)
    ensures var positions, chapters := ChapterPositions(Outcomes(markers)), ChaptersOf(markers);
            && |positions| == |chapters|
            && (forall k :: 0 <= k < |positions| ==>
                  positions[k] < |markers| && ProcessMarker(markers[positions[k]]) == Chapter(chapters[k]))
            && (forall k, l :: 0 <= k < l < |positions| ==> positions[k] < positions[l])
            && (forall i :: 0 <= i < |markers| && ProcessMarker(markers[i]).Chapter? ==> i in positions)
  {
    ChaptersInOrder(Outcomes(markers));
  }

  /** Every chapter comes from a marker with a usable name and a one-slash
      offset that converts, and is that marker's line. */
  lemma ChapterProvenance(markers: seq<Element>, k: nat)
    requires k < |ChaptersOf(markers)|
    ensures exists i :: 0 <= i < |markers|
              && var offset, name := Get(markers[i], "offset"), Get(markers[i], "name");
              && Present(offset) && Present(name) && Count(offset.value, '/') == 1
              && ConvertTimecodeToSeconds(offset.value).Ok?
              && ChaptersOf(markers)[k] == ChapterLine(ConvertTimecodeToSeconds(offset.value).value, name.value)
  {
    ChaptersInMarkerOrder(markers);
    var i := ChapterPositions(Outcomes(markers))[k];
    ChapterIff(markers[i]);
  }

  // ---------------------------------------------------------------------
  // Worked examples

  /** 83.56 seconds is shown as `01:23`. */
  lemma TimestampExample()
    ensures Timestamp(83.56) == "01:23"
  {
    assert 1.0 <= 83.56 / 60.0 < 2.0;
    assert Minutes(83.56) == 1;
    assert 83.56 - 60.0 * 1 as real == 23.56;
    assert Secs(83.56) == 23;
    assert Pad2(1) == "01" by {
      assert Str(1) == "1";
    }
    assert Pad2(23) == "23" by {
      assert Str(2) == "2";
      assert Str(23) == Str(2) + [DigitChar(3)];
    }
  }

  /** A usable marker with a one-slash offset that converts yields the
      chapter line of its seconds and name. */
  lemma ChapterOfMarker(refClip: Element, offset: string, name: string, seconds: real)
    requires Get(refClip, "offset") == Some(offset) && offset != ""
    requires Get(refClip, "name") == Some(name) && name != ""
    requires |Split(offset, '/')| == 2
    requires ConvertTimecodeToSeconds(offset) == Ok(seconds)
    ensures ProcessMarker(refClip) == Chapter(ChapterLine(seconds, name))
  {
  }

  /** Offset `"208900/2500s"` named `"Intro"` gives `"01:23 Intro"`. */
  lemma IntroExample(intro: Element)
    requires Get(intro, "offset") == Some("208900/2500s") && Get(intro, "name") == Some("Intro")
    ensures ProcessMarker(intro) == Chapter("01:23 Intro")
  {
    IntroOutcome(intro);
    IntroLine();
  }

  /** A usable marker whose offset is `"n/ds"` with numerals `n`, `d` and
      `d != 0` yields the line for exactly `n / d` seconds. */
  lemma FractionMarker(refClip: Element, n: string, d: string, name: string)
    requires IsNumeral(n) && IsNumeral(d) && Value(d) != 0
    requires Get(refClip, "offset") == Some(n + "/" + d + "s")
    requires Get(refClip, "name") == Some(name) && name != ""
    ensures ProcessMarker(refClip) == Chapter(ChapterLine(Value(n) as real / Value(d) as real, name))
  {
    var offset := n + "/" + d + "s";
    NumeralHasNo(n, '/');
    NumeralHasNo(d, '/');
    assert offset == n + ['/'] + (d + "s");
    SplitPrefix(n, '/', d + "s");
    assert '/' !in d + "s";
    SplitNoSep(d + "s", '/');
    ConvertFraction(n, d);
    ChapterOfMarker(refClip, offset, name, Value(n) as real / Value(d) as real);
  }

  /** A usable marker whose offset is `"n/0s"`: the division error escapes
      the converter and is reported for this marker alone. */
  lemma ZeroDenominatorMarker(refClip: Element, n: string, d: string, name: string)
    requires IsNumeral(n) && IsNumeral(d) && Value(d) == 0
    requires Get(refClip, "offset") == Some(n + "/" + d + "s")
    requires Get(refClip, "name") == Some(name) && name != ""
    ensures ProcessMarker(refClip) == Reported(ConversionFailed(name, ZeroDenominator(Value(n))))
  {
    var offset := n + "/" + d + "s";
    NumeralHasNo(n, '/');
    NumeralHasNo(d, '/');
    assert offset == n + ['/'] + (d + "s");
    SplitPrefix(n, '/', d + "s");
    assert '/' !in d + "s";
    SplitNoSep(d + "s", '/');
    ConvertZeroDenominator(n, d);
  }

  lemma IntroOutcome(intro: Element)
    requires Get(intro, "offset") == Some("208900/2500s") && Get(intro, "name") == Some("Intro")
    ensures ProcessMarker(intro) == Chapter(ChapterLine(83.56, "Intro"))
  {
    var n, d := "208900", "2500";
    assert IsNumeral(n) && IsNumeral(d);
    ValueOf208900();
    ValueOf2500();
    assert n + "/" + d + "s" == "208900/2500s";
    FractionMarker(intro, n, d, "Intro");
    assert 208900 as real == 208900.0 && 2500 as real == 2500.0;
    assert 208900.0 / 2500.0 == 83.56;
  }

  lemma IntroLine()
    ensures ChapterLine(83.56, "Intro") == "01:23 Intro"
  {
    TimestampExample();
    var ts := Timestamp(83.56);
    assert ChapterLine(83.56, "Intro") == ts + " " + "Intro";
    assert ts + " " + "Intro" == "01:23 Intro";
  }

  /** A marker whose offset is not a fraction is reported, and the marker
      after it still yields its chapter. */
  lemma MalformedThenIntroExample(bad: Element, intro: Element)
    requires Get(bad, "offset") == Some("notafraction") && Get(bad, "name") == Some("Bad")
    requires Get(intro, "offset") == Some("208900/2500s") && Get(intro, "name") == Some("Intro")
    ensures ChaptersOf([bad, intro]) == ["01:23 Intro"]
    ensures DiagnosticsOf([bad, intro]) == [MalformedOffset("Bad", "notafraction")]
  {
    var first := Reported(MalformedOffset("Bad", "notafraction"));
    var second := Chapter("01:23 Intro");
    assert ProcessMarker(bad) == first by {
      NotAFraction(bad);
    }
    assert ProcessMarker(intro) == second by {
      IntroExample(intro);
    }
    TwoOutcomes([bad, intro], first, second);
  }

  lemma NotAFraction(bad: Element)
    requires Get(bad, "offset") == Some("notafraction") && Get(bad, "name") == Some("Bad")
    ensures ProcessMarker(bad) == Reported(MalformedOffset("Bad", "notafraction"))
  {
    assert '/' !in "notafraction";
    NoSlashMarker(bad, "notafraction", "Bad");
  }

  /** A usable marker whose offset has no `/` at all is reported as
      malformed. */
  lemma NoSlashMarker(refClip: Element, offset: string, name: string)
    requires Get(refClip, "offset") == Some(offset) && Get(refClip, "name") == Some(name)
    requires offset != "" && name != "" && '/' !in offset
    ensures ProcessMarker(refClip) == Reported(MalformedOffset(name, offset))
  {
    SplitNoSep(offset, '/');
  }

  lemma TwoOutcomes(markers: seq<Element>, first: Outcome, second: Outcome)
    requires |markers| == 2
    requires ProcessMarker(markers[0]) == first && ProcessMarker(markers[1]) == second
    requires first.Reported? && second.Chapter?
    ensures ChaptersOf(markers) == [second.line]
    ensures DiagnosticsOf(markers) == [first.diagnostic]
  {
    assert Outcomes(markers) == [first, second];
    ReportThenChapter(first, second);
  }

  lemma ReportThenChapter(first: Outcome, second: Outcome)
    requires first.Reported? && second.Chapter?
    ensures ChaptersIn([first, second]) == [second.line]
    ensures DiagnosticsIn([first, second]) == [first.diagnostic]
  {
    assert [first, second][..1] == [first] && [first][..0] == [];
  }

  // ---------------------------------------------------------------------
  // The extractor

  /** The marker loop over an already parsed document: the chapters and
      diagnostics of the `ref-clip` elements below `root`, in document
      order. */
  method ExtractChapters(root: Element) returns (chapters: seq<string>, diagnostics: seq<Diagnostic>)
    ensures chapters == ChaptersOf(FindAll(root, MarkerTag))
    ensures diagnostics == DiagnosticsOf(FindAll(root, MarkerTag))
  {
    var markers := FindAll(root, MarkerTag);
    ghost var outcomes := Outcomes(markers);
    chapters, diagnostics := [], [];
    for i := 0 to |markers|
      invariant chapters == ChaptersIn(outcomes[..i])
      invariant diagnostics == DiagnosticsIn(outcomes[..i])
    {
      OutputsStep(outcomes, i);
      var refClip := markers[i];
      assert outcomes[i] == ProcessMarker(refClip);
      var offset := Get(refClip, "offset");
      var name := Get(refClip, "name");
      if Present(offset) && Present(name) {
        var timecodeParts := Split(offset.value, '/');
        if |timecodeParts| == 2 {
          var converted := ConvertTimecodeToSeconds(offset.value);
          match converted {
            case Ok(seconds) =>
              var minutes := Minutes(seconds);
              var secs := Secs(seconds);
              var formattedTime := Pad2(minutes) + ":" + Pad2(secs);
              chapters := chapters + [formattedTime + " " + name.value];
            case Err(error) =>
              diagnostics := diagnostics + [ConversionFailed(name.value, error)];
          }
        } else {
          diagnostics := diagnostics + [MalformedOffset(name.value, offset.value)];
        }
      }
    }
    assert outcomes[..|markers|] == outcomes;
  }

  /** One more outcome adds its own chapter or diagnostic at the end. */
  lemma OutputsStep(outcomes: seq<Outcome>, i: nat)
    requires i < |outcomes|
    ensures ChaptersIn(outcomes[..i + 1]) ==
              ChaptersIn(outcomes[..i]) + (if outcomes[i].Chapter? then [outcomes[i].line] else [])
    ensures DiagnosticsIn(outcomes[..i + 1]) ==
              DiagnosticsIn(outcomes[..i]) + (if outcomes[i].Reported? then [outcomes[i].diagnostic] else [])
  {
    assert outcomes[..i + 1][..i] == outcomes[..i];
  }

  /** What `ET.parse` gave: a tree, or one of the two failures the
      extractor handles. */
  datatype ParseOutcome = Parsed(root: Element) | MissingFile | ParseError

  /** `extract_chapters_from_ref_clips(path)`, given what parsing the file
      at `path` produced: a load failure gives no chapters and its one
      diagnostic; a parsed document gives the marker loop's results. */
  method ExtractChaptersFromRefClips(path: string, parsed: ParseOutcome)
    returns (chapters: seq<string>, diagnostics: seq<Diagnostic>)
    ensures parsed.MissingFile? ==> chapters == [] && diagnostics == [FileNotFound(path)]
    ensures parsed.ParseError? ==> chapters == [] && diagnostics == [NotValidFcpxml(path)]
    ensures parsed.Parsed? ==>
              && chapters == ChaptersOf(FindAll(parsed.root, MarkerTag))
              && diagnostics == DiagnosticsOf(FindAll(parsed.root, MarkerTag))
  {
    match parsed {
      case MissingFile =>
        chapters, diagnostics := [], [FileNotFound(path)];
      case ParseError =>
        chapters, diagnostics := [], [NotValidFcpxml(path)];
      case Parsed(root) =>
        chapters, diagnostics := ExtractChapters(root);
    }
  }
}
