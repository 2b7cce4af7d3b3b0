# histori — a Dafny model of the shell-history command counter

`histori` reads a shell history file whose lines look like
`<metadata>;<command> <args...>`. It turns each line into a history record,
counts how many records carry each command name, and reports the count for
the name it is given. When that name is `all`, it first lists every name
whose count is above a threshold, most frequent first, and then still
reports the count of the name `all` itself.

This project models the core of that program (`main.go`) and proves
properties of the model:

- **`GoStrings`** (`go_strings.dfy`) models the piece of Go's `strings` package the
  parser uses: the first occurrence of a character, the text before it, and
  `strings.Split` for a one-character separator. It proves that `Split` and
  `Join` are inverse to each other.
- **`History`** (`history.dfy`) models the line parser
  `createHistoryRecordFromLine` with its two error paths, as a `Result` over
  a `ParseError` datatype. It also models the line loop of `parseHistoryFile`,
  as written (with its 1000 pre-filled zero-valued records) and as corrected.
- **`Counter`** (`counter.dfy`) models `countCommands`,
  `incrementCommandCounter` and `getCommandCount`. The count map is tied to
  the number of records carrying each name.
- **`Ranking`** (`ranking.dfy`) models `PairList`, `toSortedPairList` and the
  filter loop of `printAllCmd`:
  - the map is copied into an array and sorted in place, by `Swap`, into
    non-increasing order of count;
  - the pairs above the threshold are kept in that order.
- **`Pipeline`** (`pipeline.dfy`) models `main` from the history lines to
  the report, over the corrected history. With `all`, the list comes first
  and the count lookup still follows it, as in `main`. It proves that the
  counts reported are the numbers of lines that parse to each name, and it
  states the pre-fill defect.

The model follows the code as written, including where its behaviour is surprising:

- A line is split on EVERY `;` and the second piece is the command. The
  command is therefore the text between the first and the second `;`, not
  everything after the first `;`.
- The command name is the text before the first single space. A command
  that starts with a space gets the empty name.
- The "no command" check (`main.go:153`) can never fire, because
  `strings.Split` always returns at least one piece. So there is no error
  case for it, and an empty command segment is accepted with the empty name
  (`History.CommandNameShape`).
- Pairs are ordered by count only. Nothing breaks ties between equal counts.

Two things in `main.go` do not compile as written, and they are modelled as
evidently intended:

- `toSortedPairList` (`main.go:57-65`) builds and sorts its list but does not
  return it, though `main` uses its result. `Ranking.ToSortedPairList`
  returns the sorted list.
- `printAllCmd` (`main.go:69`) compares against an undefined `thresold`.
  `Ranking.PrintAllCmd` uses its `threshold` parameter.

Go maps are modelled as Dafny `map` values. `incrementCommandCounter` updates
its map argument in place, so here it returns the updated map.

## Model

| member | source | states |
|---|---|---|
| GoStrings.IndexOfFirst | main.go:145 | the position found is the first occurrence of the separator: no earlier character is the separator |
| GoStrings.Found | main.go:145 | the separator is found exactly when it occurs in the string |
| GoStrings.TakeUntil | main.go:151 | the first piece of a split is a prefix of the string that holds no separator, and it ends at the end of the string or at a separator |
| GoStrings.Split | main.go:145 | `strings.Split` always yields at least one piece, even for the empty string |
| GoStrings.SplitHeadTail | main.go:145-146 | there is a single piece exactly when the separator is absent; the first piece is the text before the first separator; the later pieces are the split of the text after it |
| GoStrings.SplitPiecesFree | main.go:145 | no piece of a split contains the separator |
| GoStrings.JoinSplit | main.go:145 | splitting loses nothing: joining the pieces with the separator gives back the line |
| GoStrings.SplitJoin | main.go:145 | splitting the join of separator-free pieces gives back exactly those pieces, so `Split` is the only such cutting |
| History.CreateHistoryRecordFromLine | main.go:143-170 | the parser itself; what it accepts and returns is stated by `History.ParseLineSpec` and `History.CommandNameShape` |
| History.CommandSegment | main.go:145-151 | the command segment starts right after the first `;`, holds no `;`, and ends at the next `;` or at the end of the line |
| History.ParseLineSpec | main.go:143-170 | a line without `;` is rejected as missing its command; otherwise the line is rejected exactly when its command segment holds `=`; an accepted record keeps the raw line, the command segment as `cmd`, and the segment's text before the first space as `cmdName` |
| History.CommandNameShape | main.go:151-156 | an accepted command name has no space and is a prefix of the command; it is empty exactly when the command is empty or starts with a space (the check at line 153 never rejects) |
| History.WellFormedLine | main.go:143-170 | `<meta>;<name><args>`, with no `;` in the meta, a name free of `;`, `=` and spaces, and arguments that are empty or start with a space and hold no `;` or `=`, is accepted with exactly that line, command and name |
| History.AssignmentLine | main.go:158-163 | a line whose command segment holds `=` is rejected as an assignment |
| History.AcceptedAppend | main.go:114-124 | parsing the lines of two histories one after the other collects the records of the first, then those of the second |
| History.AcceptedMembers | main.go:114-124 | a record is collected exactly when some line parses to it |
| History.ScanLines | main.go:114-124 | the loop appends to its accumulator exactly the records of the lines that parse, in input order, and skips the lines that fail |
| History.ZeroRecords | main.go:110 | `make` creates the given number of records, each with empty line, command and name |
| History.ParseHistoryFile | main.go:109-132 | as written: the result is the 1000 zero-valued records followed by the records of the lines that parse |
| History.ParseHistoryFileFresh | main.go:109-132 | as intended: the result is exactly the records of the lines that parse, each one coming from some line |
| Counter.OccurrencesPositive | main.go:94-100 | a name has a positive count exactly when some record carries it |
| Counter.OccurrencesAppend | main.go:94-100 | the count of a name in two concatenated record lists is the sum of its counts in each |
| Counter.OccurrencesRepeated | main.go:94-100 | `n` copies of a record are counted `n` times under its name |
| Counter.GetCommandCount | main.go:102-107 | the stored count for a name that has an entry, 0 for a name that has none |
| Counter.IncrementCommandCounter | main.go:134-141 | the name gains an entry if it lacked one; its count becomes its old count (0 if absent) plus one; every other entry is unchanged |
| Counter.CountCommands | main.go:94-100 | the map's keys are exactly the names that occur in the records, and every name's count (0 when absent) is its number of records; no records give the empty map |
| Ranking.Less | main.go:30 | compares counts only; its meaning for the sorted list is stated by `Ranking.SortedDescending`, which `Ranking.SortDescending` and `Ranking.ToSortedPairList` ensure |
| Ranking.Swap | main.go:31 | the two positions exchange their pairs, every other position is unchanged, and the multiset of pairs is kept |
| Ranking.IndexOfMax | main.go:64 | the maximum search of the selection sort that stands in for `sort.Sort`, comparing with the `Less` of line 30: the position returned lies in the range searched, and no pair in that range has a larger count |
| Ranking.SortDescending | main.go:64 | after sorting, no pair has a smaller count than a pair after it, and the array holds the same pairs as before |
| Ranking.PairsOf | main.go:58-63 | a new array as long as the map holds each (key, value) entry of the map exactly once |
| Ranking.ToSortedPairList | main.go:57-65 | the list holds each entry of the map exactly once and nothing else, no name twice, and it is in non-increasing order of count |
| Ranking.AboveThresholdMembers | main.go:67-73 | a pair is reported exactly when it is in the list and its count exceeds the threshold |
| Ranking.AboveThresholdAppend | main.go:67-73 | filtering two lists one after the other gives the filtered first list, then the filtered second, so the list order is kept |
| Ranking.AboveThresholdOfSorted | main.go:67-73 | on a list sorted by non-increasing count, the reported pairs are a prefix of the list, and every pair after it is at or below the threshold |
| Ranking.AboveThresholdDistinct | main.go:67-73 | filtering a list in which no name repeats leaves no name repeated |
| Ranking.AboveThresholdSorted | main.go:67-73 | filtering a sorted list gives a sorted list |
| Ranking.PrintAllCmd | main.go:67-73 | the loop reports the pairs of the list above the threshold, in list order, and exactly those |
| Pipeline.OccurrencesOfAccepted | main.go:94-124 | the count of a name over the collected records is the number of history lines that parse to that name |
| Pipeline.PrefillInflatesEmptyName | main.go:110 | over the as-written history, every non-empty name is counted correctly, but the empty name gets 1000 extra occurrences |
| Pipeline.EmptyHistoryStillCountsEmptyName | main.go:110 | with no lines at all, the as-written history counts the empty name 1000 times |
| Pipeline.TableOfLines | main.go:94-107 | the counted table gives every name its number of parsed lines, and has an entry exactly for the names with at least one |
| Pipeline.ReportedPairs | main.go:46-49 | every reported pair is a name with at least one parsed line, paired with its number of parsed lines, which is above the threshold; and every name with at least one parsed line whose number exceeds the threshold is reported |
| Pipeline.Report | main.go:44-54 | over the corrected history (see ## Findings): for `all`, the list is in non-increasing order of count, names no name twice, and holds exactly the names with at least one parsed line whose number exceeds the threshold, each with that number; for any other name nothing is listed; in both cases, `all` included, the count reported for the name is its number of parsed lines, 0 for a name never seen |

## Left out

- The argument handling of `main` (`main.go:37-42`) and the final log line (`main.go:54`) are left out. `Pipeline.Report` takes the command name and the threshold as parameters, and returns the list and the count it would log.
- The hard-coded threshold 30 (`main.go:49`) is not built in, because `Pipeline.Report` takes any threshold.
- `buildHistoryModel` and `determineHistoryFilePath` (`main.go:75-92`, `172` onwards) are left out. They read `HOME`, probe the file system and open the history file. They are I/O, so the model starts from the lines already read.
- `bufio.Scanner` (`main.go:112-114`) and the check of `scanner.Err()` (`main.go:127-129`) are I/O. The lines arrive as a sequence of strings, and read errors are not modelled.
- All `log` and `fmt` output is left out: the messages, the `fmt.Errorf` at `main.go:118-119` whose result is thrown away, and `log.Fatalf`. Error messages become `ParseError` values, and `Ranking.PrintAllCmd` returns the pairs it would print.
- The record fields `args`, `flags` and `envVars` are left out, because the program never fills them in.
- The algorithm of Go's `sort.Sort` is not modelled. A selection sort over the same `Less` and `Swap` gives its result. Because the sort is not stable, the order among equal counts is left open, as Go leaves it.
- Go's random map iteration order is modelled as an arbitrary choice of the next key (`Ranking.PairsOf`).
- The update of a Go map in place through an aliased reference is not modelled. Maps are values, and `Counter.IncrementCommandCounter` returns the updated map.
- Counter.CountCommands: counts are unbounded integers, so the wrap-around of Go's 64-bit `int` is not modelled. A count can never exceed the number of records.

## Findings

| source | as written | input that shows it | evidently intended | confidence | as-written member | corrected member |
|---|---|---|---|---|---|---|
| main.go:110 | `make([]HistoryRecord, 1000)` gives the slice length 1000, so every history starts with 1000 zero-valued records whose command name is empty, and the records parsed from the file are appended after them | an empty history file: the count for the empty command name is 1000 (`Pipeline.EmptyHistoryStillCountsEmptyName`), and with `all` the empty name is listed with 1000 | 1000 as the capacity of an empty slice (`make([]HistoryRecord, 0, 1000)`), so only parsed lines are counted | high, not executed | Pipeline.PrefillInflatesEmptyName | History.ParseHistoryFileFresh |

`History.ParseHistoryFile` models the as-written loop. The whole pipeline
(`Pipeline.Report`) uses the corrected
`History.ParseHistoryFileFresh`, and on that history every name's count is
its number of parsed lines (`Pipeline.OccurrencesOfAccepted`).
