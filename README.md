# Sorting-benchmark log to CSV

This is a model of `beast.py`, the script that turns the log of a Prolog sorting
benchmark into a CSV table, together with proofs about it. The script has two parts:

- `parse_prolog_output` cuts the log at every `Running algorithms on list:`
  delimiter. In each test case it reads the input-list line and then pairs of lines,
  a `CPU time: <t>` line followed by an `Algotype: <name>` line. It builds one record
  per case that maps `input_list` to the input list and each algorithm name to its
  CPU time. When an algorithm appears twice in a case, the later time wins.
- `save_to_csv` writes nothing when there are no records. Otherwise it writes a header
  of `input_list` followed by every algorithm name in sorted order, then one row per
  record. A column that a record lacks gets an empty cell.

The project has these modules:

- `Wrappers`: `Option`, `Result`, and `Collect`, which gathers outcomes in order and
  stops at the first error.
- `Text`: Python's `str.strip`, `str.split` and `str.join` on `seq<char>`, together
  with the counting and splitting lemmas the round trip needs.
- `LogParser`:
  - the two regular expressions, with their leftmost and greedy semantics;
  - the syntax Python's `float()` accepts;
  - the case parser and the log parser, as specification functions;
  - the source's two nested loops, as methods proved equal to those functions;
  - the meaning of a case record ("the last write wins").
- `StringOrder`: Python's string order (code point by code point, a proper prefix
  first) and `sorted` of a set of strings, proved to be the unique strictly ascending
  listing of the set.
- `CsvTable`:
  - the header;
  - the row `csv.DictWriter` writes for each record;
  - `save_to_csv` as a loop;
  - the proof that a parsed record is recovered from the non-empty cells of its row.
- `LogFormat`: the log as the benchmark driver writes it. The main result is the
  round trip: parsing the log written for any well-formed list of cases gives back
  exactly one record per case, in order.

Each record is a `map<string, string>`. The input list is kept as the text of its
line. The CPU time is kept as the token the regular expression captured, after the
check that `float()` accepts it.

Errors follow the source's order of evaluation. The first failing case aborts the whole
parse, and the error names that case and what failed in it:

- the input-list line is empty (`eval("")` raises);
- no `CPU time:` match (`.group` on `None` raises);
- a token `float()` rejects;
- no line after a CPU-time line (`IndexError`);
- no `Algotype:` match.

Two behaviours of the code are easy to misread:

- A case whose lines after the input list are odd in number fails, because
  `lines[i+1]` raises. Its last line is not silently dropped (`LogParser.OddPairLinesFail`).
- The algorithm name is the rest of the line after `Algotype: `, taken as it is. It is
  not trimmed.

## Model

| member | source | states |
|---|---|---|
| Text.Strip | beast.py:11 | the result is empty or starts and ends with a non-whitespace character (whitespace is Python's `str.isspace` set) |
| Text.StripSlice | beast.py:11 | `case.strip()` is a contiguous slice of the chunk with only whitespace before and after it |
| Text.StripSurrounded | beast.py:11 | stripping text framed by whitespace gives back exactly that text |
| Text.TrimStart | beast.py:11 | removes the leading whitespace: the result is a suffix, what was dropped is all whitespace, and the result does not start with whitespace |
| Text.TrimEnd | beast.py:11 | removes the trailing whitespace: the result is a prefix, what was dropped is all whitespace, and the result does not end with whitespace |
| Text.TrimStartSkips | beast.py:11 | removing leading whitespace from whitespace followed by text gives that text |
| Text.TrimEndSkips | beast.py:11 | removing trailing whitespace from text followed by whitespace gives that text |
| Text.Split | beast.py:8 | the pieces, joined with the separator again, give back the input (`sep.join(s.split(sep)) == s`) |
| Text.Lines | beast.py:11 | `split("\n")` yields one more line than the text holds newlines, and the lines joined by newlines give back the text |
| Text.SplitCount | beast.py:8 | when the separator cannot overlap itself, splitting yields one more piece than the separator has occurrences |
| Text.SplitJoin | beast.py:11 | splitting lines joined by a character none of them holds gives back the lines |
| Text.SplitWithout | beast.py:8 | text with no occurrence of the separator splits into itself alone |
| Text.SplitAfter | beast.py:8 | the first piece ends at the first occurrence of the separator |
| Text.SplitJoinDelimited | beast.py:8 | splitting pieces joined by a non-self-overlapping separator that none of them holds gives back the pieces |
| Text.JoinConsHead | beast.py:8 | a character put in front of the first piece lands in front of the joined text |
| Text.CountOccurrence | beast.py:8 | an occurrence at the start counts once, and nothing inside it counts again |
| Text.CountSkip | beast.py:8 | positions where the separator does not start add nothing to the count |
| Text.NoOverlapAfter | beast.py:8 | after an occurrence of a non-self-overlapping separator, no other occurrence starts inside it |
| Text.NoEarlyMatch | beast.py:8 | when a non-empty prefix holds no occurrence, the separator that follows it does not match at position 0 |
| Text.CountBetweenNewlines | beast.py:8 | newlines around a text add no occurrence of a separator that has no newline |
| Text.CountAcrossNewline | beast.py:8 | such a separator never straddles a newline: counts on both sides add up |
| Text.CountAfterPrefix | beast.py:8 | a prefix without the separator's first character adds no occurrence |
| Text.CountWithoutFirst | beast.py:8 | text without the separator's first character holds no occurrence |
| Text.CountJoinedLines | beast.py:8 | lines without the separator, joined by newlines, hold no occurrence |
| Text.JoinEnds | beast.py:11 | joined text starts with the first piece and ends with the last one |
| Wrappers.Collect | beast.py:9-20 | on success, one value per outcome in order; on failure, the position of the first error, with every earlier outcome a success |
| Wrappers.CollectStep | beast.py:19 | one more success appends its value to the collected values |
| Wrappers.CollectFirstError | beast.py:16-17 | an error after successes decides the result, whatever follows it |
| Wrappers.CollectErrAt | beast.py:10-19 | the first error, wherever it sits, decides the result of a loop that stops at the first error |
| Wrappers.CollectNext | beast.py:10-19 | one turn of a loop that stops at the first error: a success extends the values and an error decides the outcome |
| LogParser.Search | beast.py:16-17 | `re.search`: the leftmost position where the pattern (label plus at least one group character) matches, or `None` exactly when it matches nowhere |
| LogParser.TokenPrefix | beast.py:16 | greedy `[\d.e-]+`: the longest prefix of token characters |
| LogParser.LinePrefix | beast.py:17 | greedy `.+`: the text up to the first newline |
| LogParser.CpuTimeToken | beast.py:16 | `None` exactly when `CPU time: ([\d.e-]+)` matches nowhere; otherwise the non-empty greedy group of the leftmost match |
| LogParser.AlgotypeName | beast.py:17 | `None` exactly when `Algotype: (.+)` matches nowhere; otherwise the rest of the line after the leftmost match, not trimmed |
| LogParser.CpuTimeOfLabelledLine | beast.py:16 | a line written as `CPU time: <token>` reads back as that token |
| LogParser.AlgotypeOfLabelledLine | beast.py:17 | a line written as `Algotype: <name>` reads back as that name |
| LogParser.IndexOf | beast.py:16 | the first position of a character, or the length when it is absent (used for the syntax `float()` accepts) |
| LogParser.CaseLines | beast.py:11 | `case.strip().split("\n")` has at least one line and no line holds a newline |
| LogParser.ParsePair | beast.py:16-17 | a pair reads exactly when line `i` has a `CPU time:` match whose token `float()` accepts, and line `i+1` exists and has an `Algotype:` match; the pair read is then (that name, that token) |
| LogParser.MissingCpuTimeFails | beast.py:16 | a pair line with no `CPU time:` match makes the case fail, with that error when the input-list line and every earlier pair read |
| LogParser.MalformedCpuTimeFails | beast.py:16 | a CPU-time token `float()` rejects makes the case fail, with that error when everything before it reads |
| LogParser.MissingAlgotypeFails | beast.py:17 | a line after a CPU-time line with no `Algotype:` match makes the case fail, with that error when everything before it reads |
| LogParser.PairFails | beast.py:15-17 | any pair that fails makes the case fail, and its error is the case's error when the input-list line and every earlier pair read |
| LogParser.IsFloatText | beast.py:16 | the syntax `float()` accepts within `[\d.e-]+` (optional `-`, digits with at most one point, optional `e` exponent); an accepted token holds at least one digit |
| LogParser.IntegerIsFloat | beast.py:16 | `float()` accepts a run of digits, with or without a leading `-` |
| LogParser.DecimalIsFloat | beast.py:16 | `float()` accepts digits, a point, then digits, when one side of the point has a digit |
| LogParser.Assign | beast.py:13-18 | writing the pairs into the map in order: the keys are the starting keys plus the pair names, and a starting key no pair names keeps its value |
| LogParser.ReadCase | beast.py:12-19 | a case that reads has a non-empty input-list line and an `input_list` key; a case with an input-list line that fails carries the error of one of its pairs |
| LogParser.ParseCase | beast.py:11-19 | a chunk that is empty or all whitespace fails as an empty input list; a parsed chunk's record has an `input_list` key |
| LogParser.ParseLog | beast.py:5-20 | on success, one record per occurrence of the delimiter; a failure names a chunk that exists; a log without the delimiter yields no records |
| LogParser.PairOutcomes | beast.py:15 | `range(1, len(lines), 2)`: one outcome per pair of lines after the input list, the one starting at line `2j+1` |
| LogParser.AssignLastWriteWins | beast.py:13-18 | filling the map pair by pair gives keys `input_list` plus the names; each name holds the time of its last pair; `input_list` keeps its line unless an algorithm is named `input_list` |
| LogParser.LastWinsAt | beast.py:18 | the last pair of a name is written last, and an earlier pair keeps the value it had |
| LogParser.NameOf | beast.py:18 | every pair's name becomes a key of the record |
| LogParser.LastOfNameInPrefix | beast.py:18 | a pair that is the last of its name stays so among the pairs before the final one |
| LogParser.LastWriteWinsUnique | beast.py:13-18 | the last-write-wins description pins the record down uniquely |
| LogParser.LastIndexOf | beast.py:18 | every key that is a name has a last pair bearing it |
| LogParser.NameIndex | beast.py:18 | every key that is a name has some pair bearing it |
| LogParser.ParseCaseMeaning | beast.py:11-19 | a case that parses has a non-empty input-list line and an odd number of lines, every pair reads, and its record is the last-write-wins record of those pairs |
| LogParser.ParseCaseFailure | beast.py:12-17 | a case fails exactly when its input-list line is empty or some pair fails, and then with the error of the first failing pair |
| LogParser.OddPairLinesFail | beast.py:15-17 | an even number of stripped lines, which leaves a CPU-time line with no partner, makes the case fail |
| LogParser.ParsedValuesNonEmpty | beast.py:14-18 | every value of a parsed record is non-empty text |
| LogParser.TestCases | beast.py:8 | `re.split(...)[1:]` yields exactly one chunk per occurrence of the delimiter |
| LogParser.PreambleChunks | beast.py:8 | text before the first delimiter changes none of the chunks `[1:]` keeps |
| LogParser.PreambleIgnored | beast.py:8 | text before the first delimiter contributes nothing: the parse is the same without it |
| LogParser.ParseLogMeaning | beast.py:5-20 | on success, one record per delimiter, each the record of its own chunk in order; on failure, the first failing chunk and its error, with every earlier chunk parsing |
| LogParser.DelimiterNoSelfOverlap | beast.py:8 | no proper suffix of `Running algorithms on list:` is a prefix of it, so occurrences never overlap |
| LogParser.ParseLogOutput | beast.py:5-20 | the loop over the chunks returns exactly the result of the log parser `ParseLog` |
| LogParser.ChunkStep | beast.py:10-19 | one turn of the chunk loop: a good chunk appends its record, and a bad one decides the whole result |
| LogParser.ReadCaseLines | beast.py:12-18 | the loop over the line pairs, writing each pair into the map as it is read, returns exactly the case result `ReadCase` |
| LogParser.PairStep | beast.py:15-18 | one turn of the pair loop: a pair that reads extends the pairs read so far, and one that fails is the error of the whole case |
| LogParser.PairsDone | beast.py:15-19 | once every pair has read, the case's record is the pairs written into the map in order |
| LogParser.AssignStep | beast.py:18 | writing one more pair into the map is assigning one more pair |
| StringOrder.BelowIrreflexive | beast.py:26 | no string sorts before itself |
| StringOrder.BelowAsymmetric | beast.py:26 | if `a` sorts before `b`, then `b` does not sort before `a` |
| StringOrder.BelowTransitive | beast.py:26 | the string order is transitive |
| StringOrder.BelowTotal | beast.py:26 | of two different strings, one sorts before the other |
| StringOrder.LeastExists | beast.py:26 | a non-empty set of strings has a least element |
| StringOrder.LeastUnique | beast.py:26 | that least element is unique |
| StringOrder.SortedStrings | beast.py:26 | `sorted(set)`: strictly ascending, holding exactly the set's elements, as many as the set has |
| StringOrder.SortedStringsUnique | beast.py:26 | any strictly ascending listing of exactly the set's elements is `sorted(set)` |
| StringOrder.AscendingHead | beast.py:26 | the first element of an ascending listing of a set is the set's least element |
| StringOrder.SortedStep | beast.py:26 | the sorted listing is the least element followed by the sorted rest |
| StringOrder.TailElements | beast.py:26 | the tail of an ascending listing of a set is an ascending listing of the set without its first element |
| CsvTable.AlgorithmNames | beast.py:26 | the set of algorithm names excludes `input_list`, holds every other key of every record, and holds only keys of some record |
| CsvTable.Columns | beast.py:26 | the header starts with `input_list` and is followed by strictly ascending names; a name is in it exactly when it is a key of some record other than `input_list`; every key of every record is a column |
| CsvTable.ColumnsDistinct | beast.py:26 | no column name occurs twice in the header |
| CsvTable.DistinctAfterHead | beast.py:26 | a name followed by strictly ascending names it is not among gives a header without repeats |
| CsvTable.Cell | beast.py:31 | `rowdict.get(key, "")`: the cell holds the record's value under that column, or is empty when the record has no such key |
| CsvTable.RowOf | beast.py:28-31 | `DictWriter.writerow` fails exactly when the record has a key that is not a column; otherwise the row has one cell per column, holding the record's value or an empty cell |
| CsvTable.RowWritten | beast.py:26-31 | `writerow` never raises for a record under the header built from all records, since every key is a column |
| CsvTable.RowHoldsCells | beast.py:31 | a written row has one cell per column, each the record's cell for that column |
| CsvTable.RowsHoldCells | beast.py:29-31 | the rows after the header are as wide as the header and hold, column by column, their records' cells |
| CsvTable.RowRoundTrip | beast.py:28-31 | a record whose keys are all columns and whose values are all non-empty is exactly the record of its row's non-empty cells |
| CsvTable.ParsedRecordsSurvive | beast.py:5-31 | every record a successful parse yields is written as a row whose non-empty cells, keyed by the header, are that very record |
| CsvTable.ParsedValuesAllNonEmpty | beast.py:14-19 | every value of every parsed record is non-empty |
| CsvTable.RecordsSurvive | beast.py:26-31 | records with non-empty values are each the record of their row's non-empty cells under the header built from them |
| CsvTable.SaveToCsv | beast.py:22-31 | nothing is written exactly when there are no records; otherwise the header row comes first, followed by one row per record in order, each as wide as the header and holding the record's value for each column or an empty cell |
| LogFormat.CaseText | beast.py:11-17 | a case is written as its input-list line followed by two lines per run |
| LogFormat.CaseTextLayout | beast.py:15-17 | run `j` is written on lines `2j+1` (`CPU time:`) and `2j+2` (`Algotype:`), the lines the parser's loop reads for it |
| LogFormat.CpuLinePlain | beast.py:16 | a well-formed run's CPU-time line has no newline and no delimiter |
| LogFormat.AlgotypeLinePlain | beast.py:17 | a well-formed run's Algotype line has no newline and no delimiter |
| LogFormat.PlainAppend | beast.py:11 | appending two plain lines to plain lines keeps them all plain |
| LogFormat.DropLastRun | beast.py:15-18 | a well-formed case without its last run is still well-formed |
| LogFormat.CaseTextLines | beast.py:11 | every line of a well-formed case is plain |
| LogFormat.BlockHasNoDelimiter | beast.py:8 | a well-formed case's block holds no delimiter |
| LogFormat.LastLineEnd | beast.py:11 | a well-formed case's last line ends in a non-whitespace character |
| LogFormat.StripBlock | beast.py:11 | stripping a block leaves exactly its lines joined by newlines |
| LogFormat.BlockLines | beast.py:11 | cutting a well-formed block into lines gives back the case's lines |
| LogFormat.ReadCaseText | beast.py:12-18 | a well-formed case's lines read back as the record its runs describe |
| LogFormat.SplitRendered | beast.py:8 | the delimiter cuts the written log into an empty preamble and one block per case |
| LogFormat.ParseRenderedLog | beast.py:5-20 | parsing the log written for well-formed cases gives one record per case, in order, each the record its runs describe |

## Left out

- File I/O: reading the log (beast.py:6-7) and opening the CSV file (beast.py:27). The
  log content is a parameter, and the table is returned as rows of cells.
- The `print` calls and the script lines that run the two functions (beast.py:24, 32-36).
- `eval(lines[0])`: the input list is kept as the text of its line. Only the failure
  `eval` certainly raises is modelled: an empty line. Other text that is not a Python
  expression is accepted by the model, although `eval` would raise on it.
- The float value of a CPU time and `str` of that float in the CSV. The model keeps the
  matched token, after checking that `float()` accepts it. Written back, a float can
  print differently from its token (`1e-3` becomes `0.001`).
- `\d` matches every Unicode decimal digit. The model matches only `0`-`9`.
- The CSV byte format: quoting, escaping and line endings (RFC 4180 dialect details).
  A row is a sequence of cell strings. `CsvTable.RecordOfRow` maps each column to its
  cell and keeps only the non-empty cells. That is the dict `csv.DictReader` returns,
  without its `''` entries. It serves as a specification only.
- `defaultdict(float)`: no code reads a missing key, so it behaves as a plain map here.
- Text.Strip: its contract states only that the ends are not whitespace. That the
  result is the slice of the input between the removed whitespace is stated
  separately, by `Text.StripSlice`.
