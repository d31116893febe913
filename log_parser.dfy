/** The log parser (`parse_prolog_output`): cuts the log into one chunk per test case,
    reads the input-list line and the (CPU time, Algotype) line pairs of each chunk,
    and builds one record per case that maps `input_list` to the input-list line and
    each algorithm name to its CPU time. */
module LogParser {
  import opened Wrappers
  import opened Text

  const Delimiter := "Running algorithms on list:"
  const CpuLabel := "CPU time: "
  const AlgotypeLabel := "Algotype: "
  /** The key under which a record keeps its input list, in the same map as the
      algorithm names. */
  const InputListKey := "input_list"

  /** One test case: `input_list` and every algorithm name, each mapped to its text. */
  type Record = map<string, string>

  /** What one (CPU time, Algotype) line pair yields. */
  datatype Pair = Pair(name: string, time: string)

  /** Why one case fails; `line` counts the stripped chunk's lines from 0. */
  datatype CaseError =
    | EmptyInputList                            // eval("") raises SyntaxError
    | MissingCpuTime(line: nat)                 // re.search(...) is None, so .group raises
    | MalformedCpuTime(line: nat, token: string) // float(token) raises ValueError
    | MissingAlgotypeLine(line: nat)            // lines[i+1] raises IndexError
    | MissingAlgotype(line: nat)                // re.search(...) is None, so .group raises

  /** A failure aborts the whole parse; `caseIndex` counts the chunks after the preamble. */
  datatype ParseError = ParseError(caseIndex: nat, error: CaseError)

  predicate IsDigit(c: char) { '0' <= c <= '9' }

  /** The character class `[\d.e-]`. */
  predicate IsTokenChar(c: char) { IsDigit(c) || c == '.' || c == 'e' || c == '-' }

  predicate AllTokenChars(s: string) { forall i :: 0 <= i < |s| ==> IsTokenChar(s[i]) }

  predicate AllDigits(s: string) { forall i :: 0 <= i < |s| ==> IsDigit(s[i]) }

  // ---------------------------------------------------------------------------
  // The two regular expressions

  datatype Pattern =
    | CpuTimePattern   // CPU time: ([\d.e-]+)
    | AlgotypePattern  // Algotype: (.+)

  function Label(p: Pattern): string
  {
    match p
    case CpuTimePattern => CpuLabel
    case AlgotypePattern => AlgotypeLabel
  }

  /** The pattern matches starting at position `q` of `line`: its label is there and
      is followed by at least one character of the group (`[\d.e-]` for the CPU time,
      anything but a newline for `.`). */
  predicate MatchesAt(p: Pattern, line: string, q: nat)
  {
    var n := |Label(p)|;
    && q + n < |line|
    && line[q..q + n] == Label(p)
    && (if p == CpuTimePattern then IsTokenChar(line[q + n]) else line[q + n] != '\n')
  }

  /** `re.search`: the leftmost position at or after `from` where the pattern matches. */
  function Search(p: Pattern, line: string, from: nat): (r: Option<nat>)
    ensures r.Some? ==> from <= r.value && MatchesAt(p, line, r.value)
    ensures r.Some? ==> forall q :: from <= q < r.value ==> !MatchesAt(p, line, q)
    ensures r.None? ==> forall q :: from <= q ==> !MatchesAt(p, line, q)
    decreases |line| - from
  {
    if from >= |line| then None
    else if MatchesAt(p, line, from) then Some(from)
    else Search(p, line, from + 1)
  }

  /** The greedy `[\d.e-]+`: the longest prefix of `s` made of token characters. */
  function TokenPrefix(s: string): (r: string)
    ensures |r| <= |s| && r == s[..|r|] && AllTokenChars(r)
    ensures |r| == |s| || !IsTokenChar(s[|r|])
  {
    if |s| > 0 && IsTokenChar(s[0]) then [s[0]] + TokenPrefix(s[1..]) else []
  }

  /** The greedy `.+`: everything up to the first newline. */
  function LinePrefix(s: string): (r: string)
    ensures |r| <= |s| && r == s[..|r|] && '\n' !in r
    ensures |r| == |s| || s[|r|] == '\n'
  {
    if |s| > 0 && s[0] != '\n' then [s[0]] + LinePrefix(s[1..]) else []
  }

  /** `re.search(r"CPU time: ([\d.e-]+)", line).group(1)`, or `None` when there is no
      match. The token is the greedy group of the leftmost match. */
  function CpuTimeToken(line: string): (r: Option<string>)
    ensures r.None? <==> forall q :: !MatchesAt(CpuTimePattern, line, q)
    ensures r.Some? ==> r.value != [] && AllTokenChars(r.value)
    ensures r.Some? ==> exists q: nat :: IsLeftmost(CpuTimePattern, line, q) && r.value == TokenPrefix(line[q + |CpuLabel|..])
  {
    match Search(CpuTimePattern, line, 0)
    case None => None
    case Some(q) =>
      assert IsLeftmost(CpuTimePattern, line, q);
      Some(TokenPrefix(line[q + |CpuLabel|..]))
  }

  /** `re.search(r"Algotype: (.+)", line).group(1)`, or `None` when there is no match:
      the rest of the line after the leftmost label that has something after it. */
  function AlgotypeName(line: string): (r: Option<string>)
    ensures r.None? <==> forall q :: !MatchesAt(AlgotypePattern, line, q)
    ensures r.Some? ==> r.value != [] && '\n' !in r.value
    ensures r.Some? ==> exists q: nat :: IsLeftmost(AlgotypePattern, line, q) && r.value == LinePrefix(line[q + |AlgotypeLabel|..])
  {
    match Search(AlgotypePattern, line, 0)
    case None => None
    case Some(q) =>
      assert IsLeftmost(AlgotypePattern, line, q);
      Some(LinePrefix(line[q + |AlgotypeLabel|..]))
  }

  predicate IsLeftmost(p: Pattern, line: string, q: nat)
  {
    MatchesAt(p, line, q) && forall q' :: 0 <= q' < q ==> !MatchesAt(p, line, q')
  }

  /** A line written as the label followed by a time token reads back as that token. */
  lemma CpuTimeOfLabelledLine(t: string)
    requires t != [] && AllTokenChars(t)
    ensures CpuTimeToken(CpuLabel + t) == Some(t)
  {
    var line := CpuLabel + t;
    assert line[0..|CpuLabel|] == CpuLabel;
    assert MatchesAt(CpuTimePattern, line, 0);
    assert line[|CpuLabel|..] == t;
    TokenPrefixAll(t);
  }

  /** A line written as the label followed by a name reads back as that name. */
  lemma AlgotypeOfLabelledLine(name: string)
    requires name != [] && '\n' !in name
    ensures AlgotypeName(AlgotypeLabel + name) == Some(name)
  {
    var line := AlgotypeLabel + name;
    assert line[0..|AlgotypeLabel|] == AlgotypeLabel;
    assert MatchesAt(AlgotypePattern, line, 0);
    assert line[|AlgotypeLabel|..] == name;
    LinePrefixAll(name);
  }

  lemma {:induction false} TokenPrefixAll(t: string)
    requires AllTokenChars(t)
    ensures TokenPrefix(t) == t
  {
    if t != [] {
      TokenPrefixAll(t[1..]);
    }
  }

  lemma {:induction false} LinePrefixAll(s: string)
    requires '\n' !in s
    ensures LinePrefix(s) == s
  {
    if s != [] {
      LinePrefixAll(s[1..]);
    }
  }

  // ---------------------------------------------------------------------------
  // float()

  /** The first position of `c` in `s`, or `|s|`. */
  function IndexOf(s: string, c: char): (k: nat)
    ensures k <= |s| && c !in s[..k]
    ensures k < |s| ==> s[k] == c
  {
    if s == [] || s[0] == c then 0
    else
      var k := 1 + IndexOf(s[1..], c);
      assert s[..k] == [s[0]] + s[1..][..k - 1];
      k
  }

  /** A mantissa: digits with at most one point, and a digit on at least one side of it. */
  predicate IsMantissa(m: string)
  {
    var j := IndexOf(m, '.');
    AllDigits(m[..j]) && (j == |m| || AllDigits(m[j + 1..])) && (j > 0 || j + 1 < |m|)
  }

  /** An exponent after the 'e': an optional '-', then at least one digit. */
  predicate IsExponent(x: string)
  {
    var y := if |x| > 0 && x[0] == '-' then x[1..] else x;
    y != [] && AllDigits(y)
  }

  /** Python's `float()` accepts `t`, for the texts `[\d.e-]+` can match: an optional
      '-', a mantissa, then optionally 'e' and an exponent. */
  predicate IsFloatText(t: string)
    ensures IsFloatText(t) ==> exists i :: 0 <= i < |t| && IsDigit(t[i])
  {
    var u := if |t| > 0 && t[0] == '-' then t[1..] else t;
    var k := IndexOf(u, 'e');
    var m := u[..k];
    var j := IndexOf(m, '.');
    var d := if j > 0 then 0 else j + 1;
    var at := |t| - |u| + d;
    assert IsMantissa(m) ==> d < |m| && IsDigit(m[d]) && at < |t| && t[at] == m[d];
    IsMantissa(m) && (k == |u| || IsExponent(u[k + 1..]))
  }

  // ---------------------------------------------------------------------------
  // One case

  /** The lines of one chunk: `case.strip().split("\n")`. */
  function CaseLines(chunk: string): (lines: seq<string>)
    ensures |lines| >= 1
    ensures forall k :: 0 <= k < |lines| ==> '\n' !in lines[k]
  {
    var lines := Lines(Strip(chunk));
    LinesHaveNoNewline(Strip(chunk));
    lines
  }

  lemma {:induction false} LinesHaveNoNewline(s: string)
    ensures forall k :: 0 <= k < |Split(s, "\n")| ==> '\n' !in Split(s, "\n")[k]
    decreases |s|
  {
    if StartsWith(s, "\n") {
      LinesHaveNoNewline(s[1..]);
    } else if s != [] {
      LinesHaveNoNewline(s[1..]);
      var rest := Split(s[1..], "\n");
      assert s[0] != '\n' by { assert s[..1] != "\n"; }
      assert '\n' !in [s[0]] + rest[0];
    }
  }

  /** The pair that starts at line `i` of a case: line `i` must hold a CPU time that
      `float` accepts, and line `i+1` must exist and hold an algorithm name; the checks
      run in the order the source evaluates them. */
  function ParsePair(lines: seq<string>, i: nat): (r: Result<Pair, CaseError>)
    requires i < |lines|
    ensures r.Ok? ==> i + 1 < |lines|
    ensures r.Ok? ==> IsFloatText(r.value.time) && AllTokenChars(r.value.time) && r.value.time != []
    ensures r.Ok? ==> r.value.name != [] && '\n' !in r.value.name
    ensures i + 1 == |lines| ==> r.Err?
    ensures r.Ok? <==> && CpuTimeToken(lines[i]).Some? && IsFloatText(CpuTimeToken(lines[i]).value)
                       && i + 1 < |lines| && AlgotypeName(lines[i + 1]).Some?
    ensures r.Ok? ==> r.value == Pair(AlgotypeName(lines[i + 1]).value, CpuTimeToken(lines[i]).value)
  {
    match CpuTimeToken(lines[i])
    case None => Err(MissingCpuTime(i))
    case Some(t) =>
      if !IsFloatText(t) then Err(MalformedCpuTime(i, t))
      else if i + 1 >= |lines| then Err(MissingAlgotypeLine(i + 1))
      else match AlgotypeName(lines[i + 1])
        case None => Err(MissingAlgotype(i + 1))
        case Some(name) => Ok(Pair(name, t))
  }

  /** What each pair of a case yields, for the `len(lines) / 2` pairs that
      `range(1, len(lines), 2)` visits. */
  function PairOutcomes(lines: seq<string>): (r: seq<Result<Pair, CaseError>>)
    ensures 2 * |r| <= |lines| <= 2 * |r| + 1
    ensures forall j :: 0 <= j < |r| ==> r[j] == ParsePair(lines, 2 * j + 1)
  {
    var n := Half(|lines|);
    seq(n, j requires 0 <= j < n => ParsePair(lines, 2 * j + 1))
  }

  /** `n // 2`, which is how many line pairs follow the input-list line. */
  function Half(n: nat): (h: nat)
    ensures 2 * h <= n <= 2 * h + 1
  {
    if n < 2 then 0 else 1 + Half(n - 2)
  }

  /** `case_results[name] = time` for each pair in turn, starting from `m`. */
  function Assign(m: Record, ps: seq<Pair>): (r: Record)
    ensures r.Keys == m.Keys + Names(ps)
    ensures forall k :: k in m && k !in Names(ps) ==> r[k] == m[k]
  {
    if ps == [] then m
    else Assign(m, ps[..|ps| - 1])[ps[|ps| - 1].name := ps[|ps| - 1].time]
  }

  /** `ps[j]` is the last pair that names its algorithm. */
  predicate IsLastOfName(ps: seq<Pair>, j: nat)
    requires j < |ps|
  {
    forall j' :: j < j' < |ps| ==> ps[j'].name != ps[j].name
  }

  /** The algorithm names the pairs mention. */
  function Names(ps: seq<Pair>): set<string>
  {
    if ps == [] then {} else Names(ps[..|ps| - 1]) + {ps[|ps| - 1].name}
  }

  /** What a case record means: its keys are `input_list` and the names of the pairs,
      each name holds the time of its last pair, and `input_list` holds the input-list
      line unless a pair names `input_list` itself. */
  predicate LastWriteWins(inputLine: string, ps: seq<Pair>, rec: Record)
  {
    && rec.Keys == {InputListKey} + Names(ps)
    && (forall j :: 0 <= j < |ps| && IsLastOfName(ps, j) ==> ps[j].name in rec && rec[ps[j].name] == ps[j].time)
    && (InputListKey !in Names(ps) ==> rec[InputListKey] == inputLine)
  }

  /** Filling the map pair by pair gives the record `LastWriteWins` describes. */
  lemma {:induction false} AssignLastWriteWins(inputLine: string, ps: seq<Pair>)
    ensures LastWriteWins(inputLine, ps, Assign(map[InputListKey := inputLine], ps))
  {
    if ps != [] {
      var init := ps[..|ps| - 1];
      AssignLastWriteWins(inputLine, init);
      forall j | 0 <= j < |ps| && IsLastOfName(ps, j)
        ensures ps[j].name in Assign(map[InputListKey := inputLine], ps)
        ensures Assign(map[InputListKey := inputLine], ps)[ps[j].name] == ps[j].time
      {
        if j < |ps| - 1 {
          LastOfNameInPrefix(ps, j);
          NameOf(init, j);
        }
        LastWinsAt(inputLine, ps, j);
      }
    }
  }

  /** The step of `AssignLastWriteWins` for one pair that is the last of its name: the
      last pair is written last, and an earlier one keeps the value it had. */
  lemma LastWinsAt(inputLine: string, ps: seq<Pair>, j: nat)
    requires j < |ps| && IsLastOfName(ps, j)
    requires var m := Assign(map[InputListKey := inputLine], ps[..|ps| - 1]);
      j < |ps| - 1 ==> ps[j].name in m && m[ps[j].name] == ps[j].time
    ensures ps[j].name in Assign(map[InputListKey := inputLine], ps)
    ensures Assign(map[InputListKey := inputLine], ps)[ps[j].name] == ps[j].time
  {
    var last := ps[|ps| - 1];
    var init := ps[..|ps| - 1];
    assert init + [last] == ps;
    AssignStep(map[InputListKey := inputLine], init, last);
    if j < |ps| - 1 {
      assert ps[j].name != last.name;
    } else {
      assert ps[j] == last;
    }
    UpdateHolds(Assign(map[InputListKey := inputLine], init), last, ps[j]);
  }

  /** After writing `last`, a pair holds in the map when it is `last`, or when it held
      before and names another algorithm. */
  lemma UpdateHolds(m: Record, last: Pair, p: Pair)
    requires p == last || (p.name != last.name && p.name in m && m[p.name] == p.time)
    ensures p.name in m[last.name := last.time] && m[last.name := last.time][p.name] == p.time
  {
  }

  /** Every pair's name is among the names. */
  lemma {:induction false} NameOf(ps: seq<Pair>, j: nat)
    requires j < |ps|
    ensures ps[j].name in Names(ps)
  {
    if j < |ps| - 1 {
      NameOf(ps[..|ps| - 1], j);
    }
  }

  /** A pair before the last that is the last of its name is so among the earlier pairs
      too, and it does not share the last pair's name. */
  lemma LastOfNameInPrefix(ps: seq<Pair>, j: nat)
    requires j < |ps| - 1 && IsLastOfName(ps, j)
    ensures IsLastOfName(ps[..|ps| - 1], j) && ps[..|ps| - 1][j] == ps[j]
    ensures ps[j].name != ps[|ps| - 1].name
  {
  }

  /** `LastWriteWins` pins the record down: two records it allows are equal. */
  lemma LastWriteWinsUnique(inputLine: string, ps: seq<Pair>, a: Record, b: Record)
    requires LastWriteWins(inputLine, ps, a) && LastWriteWins(inputLine, ps, b)
    ensures a == b
  {
    forall k | k in a ensures a[k] == b[k] {
      if k in Names(ps) {
        var j := LastIndexOf(ps, k);
        assert a[ps[j].name] == ps[j].time;
      }
    }
  }

  /** The position of the last pair named `k`. */
  lemma LastIndexOf(ps: seq<Pair>, k: string) returns (j: nat)
    requires k in Names(ps)
    ensures j < |ps| && ps[j].name == k && IsLastOfName(ps, j)
  {
    j := NameIndex(ps, k);
    while !IsLastOfName(ps, j)
      invariant j < |ps| && ps[j].name == k
      decreases |ps| - j
    {
      var j' :| j < j' < |ps| && ps[j'].name == ps[j].name;
      j := j';
    }
  }

  /** A position of some pair named `k`. */
  lemma {:induction false} NameIndex(ps: seq<Pair>, k: string) returns (j: nat)
    requires k in Names(ps)
    ensures j < |ps| && ps[j].name == k
  {
    if ps[|ps| - 1].name == k {
      j := |ps| - 1;
    } else {
      j := NameIndex(ps[..|ps| - 1], k);
    }
  }

  /** `parse_prolog_output` on one chunk. */
  function ParseCase(chunk: string): (r: Result<Record, CaseError>)
    ensures Strip(chunk) == [] ==> r == Err(EmptyInputList)
    ensures r.Ok? ==> InputListKey in r.value
  {
    ReadCase(CaseLines(chunk))
  }

  /** One case from its lines: an empty input-list line cannot be evaluated; then each
      pair is read in turn and the first that fails aborts the case. */
  function ReadCase(lines: seq<string>): (r: Result<Record, CaseError>)
    requires |lines| >= 1
    ensures r.Ok? ==> lines[0] != [] && InputListKey in r.value
    ensures r.Err? && lines[0] != [] ==>
      exists j :: 0 <= j < |PairOutcomes(lines)| && PairOutcomes(lines)[j] == Err(r.error)
  {
    if lines[0] == [] then Err(EmptyInputList)
    else match Collect(PairOutcomes(lines))
      case Err((_, e)) => Err(e)
      case Ok(ps) => Ok(Assign(map[InputListKey := lines[0]], ps))
  }

  /** A case that parses has an odd number of lines and a non-empty input-list line; every
      pair in it reads, and its record is the one `LastWriteWins` describes for them. */
  lemma ParseCaseMeaning(chunk: string, rec: Record)
    requires ParseCase(chunk) == Ok(rec)
    ensures var lines := CaseLines(chunk);
      && lines[0] != []
      && |lines| % 2 == 1
      && Collect(PairOutcomes(lines)).Ok?
      && LastWriteWins(lines[0], Collect(PairOutcomes(lines)).value, rec)
  {
    var lines := CaseLines(chunk);
    var outcomes := PairOutcomes(lines);
    var n := |outcomes|;
    assert ReadCase(lines) == Ok(rec);
    assert lines[0] != [] && Collect(outcomes).Ok?;
    var ps := Collect(outcomes).value;
    if |lines| == 2 * n {
      assert false;
    }
    OddLength(|lines|, n);
    AssignLastWriteWins(lines[0], ps);
  }

  lemma OddLength(k: nat, n: nat)
    requires k == 2 * n + 1
    ensures k % 2 == 1
  {
  }

  /** A case fails exactly when its input-list line is empty or one of its pairs fails,
      and then with the error of the first pair that fails. */
  lemma ParseCaseFailure(chunk: string)
    ensures var lines := CaseLines(chunk); var pairs := PairOutcomes(lines);
      ParseCase(chunk).Err? <==> lines[0] == [] || exists j :: 0 <= j < |pairs| && pairs[j].Err?
    ensures var lines := CaseLines(chunk); var pairs := PairOutcomes(lines);
      ParseCase(chunk).Err? && lines[0] != [] ==>
        exists j :: 0 <= j < |pairs| && pairs[j] == Err(ParseCase(chunk).error)
                    && forall j' :: 0 <= j' < j ==> pairs[j'].Ok?
  {
  }

  /** A pair whose first line has no `CPU time:` match makes the case fail, with that
      error when the input-list line and every earlier pair read. */
  lemma MissingCpuTimeFails(lines: seq<string>, j: nat)
    requires |lines| >= 1 && 2 * j + 2 <= |lines| && CpuTimeToken(lines[2 * j + 1]).None?
    ensures ReadCase(lines).Err?
    ensures lines[0] != [] && (forall j' :: 0 <= j' < j ==> ParsePair(lines, 2 * j' + 1).Ok?) ==>
      ReadCase(lines) == Err(MissingCpuTime(2 * j + 1))
  {
    PairFails(lines, j);
  }

  /** A pair whose second line has no `Algotype:` match makes the case fail, with that
      error when the pair's CPU time reads and so do the input-list line and every
      earlier pair. */
  lemma MissingAlgotypeFails(lines: seq<string>, j: nat)
    requires |lines| >= 1 && 2 * j + 2 < |lines| && AlgotypeName(lines[2 * j + 2]).None?
    ensures ReadCase(lines).Err?
    ensures && lines[0] != [] && (forall j' :: 0 <= j' < j ==> ParsePair(lines, 2 * j' + 1).Ok?)
            && CpuTimeToken(lines[2 * j + 1]).Some? && IsFloatText(CpuTimeToken(lines[2 * j + 1]).value) ==>
      ReadCase(lines) == Err(MissingAlgotype(2 * j + 2))
  {
    PairFails(lines, j);
  }

  /** A CPU time `float()` rejects makes the case fail, with that error when the
      input-list line and every earlier pair read. */
  lemma MalformedCpuTimeFails(lines: seq<string>, j: nat)
    requires |lines| >= 1 && 2 * j + 2 <= |lines|
    requires CpuTimeToken(lines[2 * j + 1]).Some? && !IsFloatText(CpuTimeToken(lines[2 * j + 1]).value)
    ensures ReadCase(lines).Err?
    ensures lines[0] != [] && (forall j' :: 0 <= j' < j ==> ParsePair(lines, 2 * j' + 1).Ok?) ==>
      ReadCase(lines) == Err(MalformedCpuTime(2 * j + 1, CpuTimeToken(lines[2 * j + 1]).value))
  {
    PairFails(lines, j);
  }

  /** A pair that fails makes the case fail, and its error is the case's error when the
      input-list line and every earlier pair read. */
  lemma PairFails(lines: seq<string>, j: nat)
    requires |lines| >= 1 && 2 * j + 2 <= |lines| && ParsePair(lines, 2 * j + 1).Err?
    ensures ReadCase(lines).Err?
    ensures lines[0] != [] && (forall j' :: 0 <= j' < j ==> ParsePair(lines, 2 * j' + 1).Ok?) ==>
      ReadCase(lines) == Err(ParsePair(lines, 2 * j + 1).error)
  {
    var outcomes := PairOutcomes(lines);
    assert j < |outcomes| && outcomes[j] == ParsePair(lines, 2 * j + 1);
    if forall j' :: 0 <= j' < j ==> ParsePair(lines, 2 * j' + 1).Ok? {
      forall k | 0 <= k < j ensures outcomes[k].Ok? {
        assert outcomes[k] == ParsePair(lines, 2 * k + 1);
      }
      CollectErrAt(outcomes, j);
    } else {
      var k :| 0 <= k < j && ParsePair(lines, 2 * k + 1).Err?;
      assert outcomes[k] == ParsePair(lines, 2 * k + 1);
    }
  }

  /** When the lines after the input-list line are odd in number, the last CPU-time
      line has no partner and the case fails. */
  lemma OddPairLinesFail(chunk: string)
    requires |CaseLines(chunk)| % 2 == 0
    ensures ParseCase(chunk).Err?
  {
    if ParseCase(chunk).Ok? {
      ParseCaseMeaning(chunk, ParseCase(chunk).value);
    }
  }

  /** Every value in a parsed record is non-empty text: the input-list line or a time token. */
  lemma ParsedValuesNonEmpty(chunk: string, rec: Record)
    requires ParseCase(chunk) == Ok(rec)
    ensures forall k :: k in rec ==> rec[k] != []
  {
    var lines := CaseLines(chunk);
    var ps := Collect(PairOutcomes(lines)).value;
    ParseCaseMeaning(chunk, rec);
    forall k | k in rec ensures rec[k] != [] {
      if k in Names(ps) {
        var j := LastIndexOf(ps, k);
        assert PairOutcomes(lines)[j] == Ok(ps[j]);
      }
    }
  }

  // ---------------------------------------------------------------------------
  // The whole log

  /** The chunks after the preamble: `re.split(r"Running algorithms on list:", content)[1:]`. */
  function TestCases(content: string): (chunks: seq<string>)
    ensures |chunks| == Count(content, Delimiter)
  {
    DelimiterNoSelfOverlap();
    SplitCount(content, Delimiter);
    Split(content, Delimiter)[1..]
  }

  /** Whatever precedes the first delimiter is dropped with the preamble: it contributes
      nothing to the parse. */
  lemma PreambleIgnored(pre: string, rest: string)
    requires Count(pre, Delimiter) == 0
    ensures ParseLog(pre + Delimiter + rest) == ParseLog(Delimiter + rest)
  {
    PreambleChunks(pre, rest);
  }

  /** Text before the first delimiter changes none of the chunks. */
  lemma PreambleChunks(pre: string, rest: string)
    requires Count(pre, Delimiter) == 0
    ensures TestCases(pre + Delimiter + rest) == TestCases(Delimiter + rest)
  {
    DelimiterNoSelfOverlap();
    var tail := Split(rest, Delimiter);
    SplitAfter(pre, Delimiter, rest);
    SplitAfter([], Delimiter, rest);
    assert [] + Delimiter + rest == Delimiter + rest;
    assert Split(pre + Delimiter + rest, Delimiter)[1..] == tail;
    assert Split(Delimiter + rest, Delimiter)[1..] == tail;
  }

  /** `float()` accepts a run of digits, with or without a leading '-'. */
  lemma IntegerIsFloat(digits: string, negative: bool)
    requires digits != [] && AllDigits(digits)
    ensures IsFloatText(if negative then "-" + digits else digits)
  {
    var t := if negative then "-" + digits else digits;
    assert (if |t| > 0 && t[0] == '-' then t[1..] else t) == digits;
    NotFound(digits, 'e');
    assert digits[..|digits|] == digits;
    NotFound(digits, '.');
  }

  /** `float()` accepts digits, a point, then digits, when one side of the point has a
      digit. */
  lemma DecimalIsFloat(whole: string, frac: string)
    requires AllDigits(whole) && AllDigits(frac) && (whole != [] || frac != [])
    ensures IsFloatText(whole + "." + frac)
  {
    var t := whole + "." + frac;
    assert t[0] != '-';
    assert forall i :: 0 <= i < |t| ==> t[i] != 'e';
    NotFound(t, 'e');
    assert t[..|t|] == t;
    var j := IndexOf(t, '.');
    assert t[|whole|] == '.';
    assert t[..j] == whole;
    assert t[j + 1..] == frac;
  }

  /** A character that `s` does not hold is found at its end. */
  lemma NotFound(s: string, c: char)
    requires forall i :: 0 <= i < |s| ==> s[i] != c
    ensures IndexOf(s, c) == |s|
  {
  }

  /** What each chunk yields. */
  function CaseOutcomes(chunks: seq<string>): (r: seq<Result<Record, CaseError>>)
    ensures |r| == |chunks|
    ensures forall k :: 0 <= k < |r| ==> r[k] == ParseCase(chunks[k])
  {
    seq(|chunks|, k requires 0 <= k < |chunks| => ParseCase(chunks[k]))
  }

  /** `parse_prolog_output` without the file read: the first chunk that fails aborts
      the whole parse. */
  function ParseLog(content: string): (r: Result<seq<Record>, ParseError>)
    ensures r.Ok? ==> |r.value| == Count(content, Delimiter)
    ensures r.Err? ==> r.error.caseIndex < Count(content, Delimiter)
    ensures Count(content, Delimiter) == 0 ==> r == Ok([])
  {
    match Collect(CaseOutcomes(TestCases(content)))
    case Err((k, e)) => Err(ParseError(k, e))
    case Ok(rs) => Ok(rs)
  }

  /** One record per occurrence of the delimiter, each the record of its own chunk and
      in the order of the chunks; a failure names the first chunk that fails. */
  lemma ParseLogMeaning(content: string)
    ensures var chunks := TestCases(content); var r := ParseLog(content);
      r.Ok? ==> |r.value| == Count(content, Delimiter)
                && forall k :: 0 <= k < |chunks| ==> ParseCase(chunks[k]) == Ok(r.value[k])
    ensures var chunks := TestCases(content); var r := ParseLog(content);
      r.Err? ==> r.error.caseIndex < |chunks| && ParseCase(chunks[r.error.caseIndex]) == Err(r.error.error)
                 && forall k :: 0 <= k < r.error.caseIndex ==> ParseCase(chunks[k]).Ok?
  {
    var chunks := TestCases(content);
    var c := Collect(CaseOutcomes(chunks));
    if c.Ok? {
      forall k | 0 <= k < |chunks| ensures ParseCase(chunks[k]) == Ok(c.value[k]) {
        assert CaseOutcomes(chunks)[k] == ParseCase(chunks[k]);
      }
    } else {
      assert CaseOutcomes(chunks)[c.error.0] == ParseCase(chunks[c.error.0]);
      forall k | 0 <= k < c.error.0 ensures ParseCase(chunks[k]).Ok? {
        assert CaseOutcomes(chunks)[k] == ParseCase(chunks[k]);
      }
    }
  }

  /** Only the delimiter's final character is a colon, so no proper suffix of it is a prefix. */
  lemma DelimiterNoSelfOverlap()
    ensures NoSelfOverlap(Delimiter)
  {
    var body := "Running algorithms on list";
    assert Delimiter == body + ":";
    assert ':' !in body;
    forall q | 0 < q < |Delimiter|
      ensures Delimiter[q..] != Delimiter[..|Delimiter| - q]
    {
      assert Delimiter[q..][|Delimiter| - 1 - q] == ':';
      assert Delimiter[..|Delimiter| - q][|Delimiter| - 1 - q] == body[|Delimiter| - 1 - q];
    }
  }

  // ---------------------------------------------------------------------------
  // The source's loops

  /** `parse_prolog_output` as the source runs it: a loop over the chunks, appending
      one record per chunk. */
  method ParseLogOutput(content: string) returns (r: Result<seq<Record>, ParseError>)
    ensures r == ParseLog(content)
  {
    var testCases := TestCases(content);
    ghost var cases := CaseOutcomes(testCases);
    var results: seq<Record> := [];
    var k := 0;
    while k < |testCases|
      invariant 0 <= k <= |testCases|
      invariant Collect(cases[..k]) == Ok(results)
    {
      var lines := CaseLines(testCases[k]);
      var caseResults := ReadCaseLines(lines);
      ChunkStep(testCases, k, results, caseResults);
      if caseResults.Err? {
        return Err(ParseError(k, caseResults.error));
      }
      results := results + [caseResults.value];
      k := k + 1;
    }
    assert cases[..k] == cases;
    r := Ok(results);
  }

  /** One turn of the chunk loop: a good chunk extends the records read so far, and a
      bad one decides the outcome of the whole log. */
  lemma ChunkStep(chunks: seq<string>, k: nat, results: seq<Record>, r: Result<Record, CaseError>)
    requires k < |chunks| && Collect(CaseOutcomes(chunks)[..k]) == Ok(results)
    requires r == ReadCase(CaseLines(chunks[k]))
    ensures r.Ok? ==> Collect(CaseOutcomes(chunks)[..k + 1]) == Ok(results + [r.value])
    ensures r.Err? ==> Collect(CaseOutcomes(chunks)) == Err((k, r.error))
  {
    assert CaseOutcomes(chunks)[k] == r;
    CollectNext(CaseOutcomes(chunks), k, results, r);
  }

  /** The body of the chunk loop once the chunk is cut into lines: the loop over
      `range(1, len(lines), 2)` that writes each pair into the case's map as it is read. */
  method ReadCaseLines(lines: seq<string>) returns (r: Result<Record, CaseError>)
    requires |lines| >= 1
    ensures r == ReadCase(lines)
  {
    if lines[0] == [] {
      return Err(EmptyInputList);
    }
    var caseResults: Record := map[InputListKey := lines[0]];
    ghost var pairs: seq<Pair> := [];
    ghost var j := 0;
    var i := 1;
    while i < |lines|
      invariant i == 2 * j + 1 && j <= |PairOutcomes(lines)|
      invariant Collect(PairOutcomes(lines)[..j]) == Ok(pairs)
      invariant caseResults == Assign(map[InputListKey := lines[0]], pairs)
    {
      var pair := ParsePair(lines, i);
      PairStep(lines, j, pairs, pair);
      if pair.Err? {
        return Err(pair.error);
      }
      AssignStep(map[InputListKey := lines[0]], pairs, pair.value);
      caseResults := caseResults[pair.value.name := pair.value.time];
      pairs := pairs + [pair.value];
      i, j := i + 2, j + 1;
    }
    PairsDone(lines, j, pairs);
    r := Ok(caseResults);
  }

  /** One turn of the pair loop: a pair that reads extends the pairs read so far, and
      one that fails is the error of the whole case. */
  lemma PairStep(lines: seq<string>, j: nat, pairs: seq<Pair>, pair: Result<Pair, CaseError>)
    requires |lines| >= 1 && lines[0] != [] && 2 * j + 1 < |lines|
    requires Collect(PairOutcomes(lines)[..j]) == Ok(pairs)
    requires pair == ParsePair(lines, 2 * j + 1)
    ensures j < |PairOutcomes(lines)|
    ensures pair.Ok? ==> Collect(PairOutcomes(lines)[..j + 1]) == Ok(pairs + [pair.value])
    ensures pair.Err? ==> ReadCase(lines) == Err(pair.error)
  {
    var outcomes := PairOutcomes(lines);
    assert j < |outcomes| && outcomes[j] == pair;
    if pair.Ok? {
      CollectStep(outcomes, j, pairs, pair.value);
    } else {
      CollectFirstError(outcomes, j, pairs, pair.error);
      ReadCaseOfPairs(lines);
    }
  }

  /** A case with an input-list line is decided by collecting its pairs. */
  lemma ReadCaseOfPairs(lines: seq<string>)
    requires |lines| >= 1 && lines[0] != []
    ensures var c := Collect(PairOutcomes(lines));
      && (c.Err? ==> ReadCase(lines) == Err(c.error.1))
      && (c.Ok? ==> ReadCase(lines) == Ok(Assign(map[InputListKey := lines[0]], c.value)))
  {
  }

  /** Once every pair has read, the case's record is the pairs assigned in order. */
  lemma PairsDone(lines: seq<string>, j: nat, pairs: seq<Pair>)
    requires |lines| >= 1 && lines[0] != [] && j == |PairOutcomes(lines)|
    requires Collect(PairOutcomes(lines)[..j]) == Ok(pairs)
    ensures ReadCase(lines) == Ok(Assign(map[InputListKey := lines[0]], pairs))
  {
    assert PairOutcomes(lines)[..j] == PairOutcomes(lines);
    ReadCaseOfPairs(lines);
  }

  /** Writing one more pair into the map is assigning one more pair. */
  lemma AssignStep(m: Record, ps: seq<Pair>, p: Pair)
    ensures Assign(m, ps + [p]) == Assign(m, ps)[p.name := p.time]
  {
    assert (ps + [p])[..|ps|] == ps;
  }
}
