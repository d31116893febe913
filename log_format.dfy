/** The log as the benchmark driver writes it (one block per test case: the delimiter,
    the input list, then a `CPU time:` line and an `Algotype:` line per run), and the
    proof that the parser reads back exactly what was written. */
module LogFormat {
  import opened Wrappers
  import opened Text
  import opened LogParser

  /** One test case as the driver prints it: the input list's text and the runs in the
      order they were printed. */
  datatype Case = Case(inputList: string, runs: seq<Pair>)

  /** The lines of one block after the delimiter: the input list, then per run its
      `CPU time: <time>` line and its `Algotype: <name>` line. */
  function CaseText(c: Case): (lines: seq<string>)
    decreases |c.runs|
    ensures |lines| == 2 * |c.runs| + 1 && lines[0] == c.inputList
  {
    if c.runs == [] then [c.inputList]
    else
      var last := c.runs[|c.runs| - 1];
      CaseText(Case(c.inputList, c.runs[..|c.runs| - 1])) + [CpuLabel + last.time, AlgotypeLabel + last.name]
  }

  /** Run `j`'s lines are lines `2j+1` and `2j+2`, right after the input list and the
      runs before it. */
  lemma {:induction false} CaseTextLayout(c: Case)
    ensures forall j :: 0 <= j < |c.runs| ==> CaseText(c)[2 * j + 1] == CpuLabel + c.runs[j].time
    ensures forall j :: 0 <= j < |c.runs| ==> CaseText(c)[2 * j + 2] == AlgotypeLabel + c.runs[j].name
    decreases |c.runs|
  {
    if c.runs != [] {
      var init := Case(c.inputList, c.runs[..|c.runs| - 1]);
      CaseTextLayout(init);
      var pre := CaseText(init);
      forall j | 0 <= j < |c.runs|
        ensures CaseText(c)[2 * j + 1] == CpuLabel + c.runs[j].time
        ensures CaseText(c)[2 * j + 2] == AlgotypeLabel + c.runs[j].name
      {
        if j < |init.runs| {
          assert init.runs[j] == c.runs[j];
          assert CaseText(c)[2 * j + 1] == pre[2 * j + 1];
          assert CaseText(c)[2 * j + 2] == pre[2 * j + 2];
        }
      }
    }
  }

  /** A block's text: the delimiter is followed by a newline, and every line by one. */
  function Block(c: Case): string
  {
    "\n" + Join(CaseText(c), "\n") + "\n"
  }

  /** The whole log: an empty preamble, then every case's block after a delimiter. */
  function RenderLog(cases: seq<Case>): string
  {
    Join([""] + Blocks(cases), Delimiter)
  }

  function Blocks(cases: seq<Case>): (r: seq<string>)
    ensures |r| == |cases| && forall k :: 0 <= k < |cases| ==> r[k] == Block(cases[k])
  {
    seq(|cases|, k requires 0 <= k < |cases| => Block(cases[k]))
  }

  /** A run the parser can read back: a time `float` accepts, and a name on one line
      that holds no delimiter and does not end in whitespace. */
  predicate WellFormedRun(p: Pair)
  {
    && p.time != [] && AllTokenChars(p.time) && IsFloatText(p.time)
    && p.name != [] && '\n' !in p.name && Count(p.name, Delimiter) == 0
    && !IsSpace(p.name[|p.name| - 1])
  }

  /** A case the parser can read back: a non-empty input list on one line, holding no
      delimiter and with no whitespace at its ends, and well-formed runs. */
  predicate WellFormedCase(c: Case)
  {
    && c.inputList != [] && '\n' !in c.inputList && Count(c.inputList, Delimiter) == 0
    && !IsSpace(c.inputList[0]) && !IsSpace(c.inputList[|c.inputList| - 1])
    && forall j :: 0 <= j < |c.runs| ==> WellFormedRun(c.runs[j])
  }

  /** The record the parser is meant to build for a case. */
  function IntendedRecord(c: Case): Record
  {
    Assign(map[InputListKey := c.inputList], c.runs)
  }

  /** A line the parser cannot mistake for two lines or for the start of a test case. */
  predicate PlainLine(line: string)
  {
    '\n' !in line && Count(line, Delimiter) == 0
  }

  lemma LabelsAndDelimiter()
    ensures Delimiter != [] && Delimiter[0] == 'R' && '\n' !in Delimiter
    ensures 'R' !in CpuLabel && '\n' !in CpuLabel
    ensures 'R' !in AlgotypeLabel && '\n' !in AlgotypeLabel
  {
  }

  /** A well-formed run's `CPU time:` line is a plain line. */
  lemma CpuLinePlain(run: Pair)
    requires WellFormedRun(run)
    ensures PlainLine(CpuLabel + run.time)
  {
    LabelsAndDelimiter();
    var line := CpuLabel + run.time;
    forall i | 0 <= i < |line|
      ensures line[i] != 'R' && line[i] != '\n'
    {
      if i >= |CpuLabel| {
        assert line[i] == run.time[i - |CpuLabel|];
        assert IsTokenChar(run.time[i - |CpuLabel|]);
      }
    }
    CountWithoutFirst(line, Delimiter);
  }

  /** A well-formed run's `Algotype:` line is a plain line. */
  lemma AlgotypeLinePlain(run: Pair)
    requires WellFormedRun(run)
    ensures PlainLine(AlgotypeLabel + run.name)
  {
    LabelsAndDelimiter();
    CountAfterPrefix(AlgotypeLabel, run.name, Delimiter);
  }

  /** Plain lines followed by two more plain lines are all plain. */
  lemma PlainAppend(pre: seq<string>, x: string, y: string)
    requires forall k :: 0 <= k < |pre| ==> PlainLine(pre[k])
    requires PlainLine(x) && PlainLine(y)
    ensures forall k :: 0 <= k < |pre + [x, y]| ==> PlainLine((pre + [x, y])[k])
  {
  }

  /** The case without its last run is well-formed too. */
  lemma DropLastRun(c: Case)
    requires WellFormedCase(c) && c.runs != []
    ensures WellFormedCase(Case(c.inputList, c.runs[..|c.runs| - 1]))
  {
    var init := c.runs[..|c.runs| - 1];
    forall j | 0 <= j < |init| ensures WellFormedRun(init[j]) {
      assert init[j] == c.runs[j];
    }
  }

  /** Every line of a well-formed case is a plain line. */
  lemma {:induction false} CaseTextLines(c: Case)
    requires WellFormedCase(c)
    ensures forall k :: 0 <= k < |CaseText(c)| ==> PlainLine(CaseText(c)[k])
    decreases |c.runs|
  {
    if c.runs != [] {
      var init := Case(c.inputList, c.runs[..|c.runs| - 1]);
      DropLastRun(c);
      CaseTextLines(init);
      var run := c.runs[|c.runs| - 1];
      CpuLinePlain(run);
      AlgotypeLinePlain(run);
      PlainAppend(CaseText(init), CpuLabel + run.time, AlgotypeLabel + run.name);
    }
  }

  /** No line of a well-formed case, and so not its block, holds the delimiter. */
  lemma BlockHasNoDelimiter(c: Case)
    requires WellFormedCase(c)
    ensures Count(Block(c), Delimiter) == 0
  {
    LabelsAndDelimiter();
    CaseTextLines(c);
    CountJoinedLines(CaseText(c), Delimiter);
    CountBetweenNewlines(Join(CaseText(c), "\n"), Delimiter);
  }

  /** A well-formed case's last line ends in a character that is not whitespace. */
  lemma LastLineEnd(c: Case)
    requires WellFormedCase(c)
    ensures var lines := CaseText(c); var last := lines[|lines| - 1];
      last != [] && !IsSpace(last[|last| - 1])
  {
    if |c.runs| > 0 {
      var run := c.runs[|c.runs| - 1];
      assert WellFormedRun(run);
      var lines := CaseText(Case(c.inputList, c.runs[..|c.runs| - 1])) + [CpuLabel + run.time, AlgotypeLabel + run.name];
      assert CaseText(c) == lines;
      assert lines[|lines| - 1] == AlgotypeLabel + run.name;
    }
  }

  /** Stripping a block leaves exactly its lines joined by newlines. */
  lemma StripBlock(c: Case)
    requires WellFormedCase(c)
    ensures Strip(Block(c)) == Join(CaseText(c), "\n")
  {
    var lines := CaseText(c);
    var body := Join(lines, "\n");
    var last := lines[|lines| - 1];
    LastLineEnd(c);
    JoinEnds(lines, "\n");
    assert body[0] == c.inputList[0];
    assert body[|body| - 1] == last[|last| - 1];
    StripSurrounded("\n", body, "\n");
  }

  /** Cutting a well-formed block into lines gives back the case's lines. */
  lemma BlockLines(c: Case)
    requires WellFormedCase(c)
    ensures CaseLines(Block(c)) == CaseText(c)
  {
    StripBlock(c);
    CaseTextLines(c);
    SplitJoin(CaseText(c), '\n');
  }

  /** Each case's lines read back as its intended record. */
  lemma ReadCaseText(c: Case)
    requires WellFormedCase(c)
    ensures ReadCase(CaseText(c)) == Ok(IntendedRecord(c))
  {
    var lines := CaseText(c);
    var outcomes := PairOutcomes(lines);
    CaseTextLayout(c);
    forall j | 0 <= j < |outcomes|
      ensures outcomes[j] == Ok(c.runs[j])
    {
      var run := c.runs[j];
      assert WellFormedRun(run);
      CpuTimeOfLabelledLine(run.time);
      AlgotypeOfLabelledLine(run.name);
    }
    CollectAllOk(outcomes, c.runs);
  }

  /** The delimiter cuts the rendered log into an empty preamble and one block per case. */
  lemma SplitRendered(cases: seq<Case>)
    requires forall k :: 0 <= k < |cases| ==> WellFormedCase(cases[k])
    ensures Split(RenderLog(cases), Delimiter) == [""] + Blocks(cases)
  {
    var parts := [""] + Blocks(cases);
    forall k | 0 <= k < |parts|
      ensures Count(parts[k], Delimiter) == 0
    {
      if k > 0 {
        BlockHasNoDelimiter(cases[k - 1]);
      }
    }
    DelimiterNoSelfOverlap();
    SplitJoinDelimited(parts, Delimiter);
  }

  /** Round trip: parsing the log the driver writes for well-formed cases gives one record
      per case, in order, each the record the case's runs describe. */
  lemma ParseRenderedLog(cases: seq<Case>)
    requires forall k :: 0 <= k < |cases| ==> WellFormedCase(cases[k])
    ensures ParseLog(RenderLog(cases)) == Ok(seq(|cases|, k requires 0 <= k < |cases| => IntendedRecord(cases[k])))
  {
    SplitRendered(cases);
    var chunks := TestCases(RenderLog(cases));
    assert chunks == Blocks(cases);
    var intended := seq(|cases|, k requires 0 <= k < |cases| => IntendedRecord(cases[k]));
    var outcomes := CaseOutcomes(chunks);
    forall k | 0 <= k < |cases|
      ensures outcomes[k] == Ok(intended[k])
    {
      BlockLines(cases[k]);
      ReadCaseText(cases[k]);
    }
    CollectAllOk(outcomes, intended);
  }
}
