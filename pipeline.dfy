/**
  How `main` strings the core together: read history lines, parse them,
  count the records, then rank all names above a threshold when the name
  asked for is `all`, and in every case look the name up.
 */
module Pipeline {
  import opened History
  import opened Counter
  import opened Ranking

  /** Number of lines of `lines` that parse to a record named `name`. */
  function ParsedAs(lines: seq<string>, name: string): (n: nat)
    ensures n <= |lines|
    decreases |lines|
  {
    if lines == [] then 0
    else
      var last := CreateHistoryRecordFromLine(lines[|lines| - 1]);
      ParsedAs(lines[..|lines| - 1], name) + (if last.Ok? && last.value.cmdName == name then 1 else 0)
  }

  /** Counting the collected records counts, per name, the lines that parse
      to that name. */
  lemma {:induction false} OccurrencesOfAccepted(lines: seq<string>, name: string)
    ensures Occurrences(Accepted(lines), name) == ParsedAs(lines, name)
    decreases |lines|
  {
    if lines != [] {
      var init := lines[..|lines| - 1];
      OccurrencesOfAccepted(init, name);
      AcceptedLast(lines);
      var r := CreateHistoryRecordFromLine(lines[|lines| - 1]);
      if r.Ok? {
        OccurrencesAppend(Accepted(init), [r.value], name);
      } else {
        assert Accepted(lines) == Accepted(init);
      }
    }
  }

  /** The history as `parseHistoryFile` builds it (with its zero-valued
      records in front) counts every line-parsed name correctly, but the empty
      name gets `HistoryPrefill` extra occurrences. */
  lemma PrefillInflatesEmptyName(lines: seq<string>, name: string)
    ensures Occurrences(ZeroRecords(HistoryPrefill) + Accepted(lines), name) ==
      (if name == "" then HistoryPrefill else 0) + ParsedAs(lines, name)
  {
    var zeros := ZeroRecords(HistoryPrefill);
    OccurrencesAppend(zeros, Accepted(lines), name);
    OccurrencesOfAccepted(lines, name);
    assert zeros == seq(HistoryPrefill, _ => HistoryRecord("", "", ""));
    OccurrencesRepeated(HistoryRecord("", "", ""), HistoryPrefill);
    if name != "" {
      NoOccurrencesOfOtherName(zeros, name);
    }
  }

  /** Records all named `""` contribute nothing to any other name. */
  lemma {:induction false} NoOccurrencesOfOtherName(records: seq<HistoryRecord>, name: string)
    requires name != ""
    requires forall k :: 0 <= k < |records| ==> records[k].cmdName == ""
    ensures Occurrences(records, name) == 0
    decreases |records|
  {
    if records != [] {
      NoOccurrencesOfOtherName(records[..|records| - 1], name);
    }
  }

  /** With no history lines at all, the as-written history still reports the
      empty command name 1000 times. */
  lemma EmptyHistoryStillCountsEmptyName()
    ensures Occurrences(ZeroRecords(HistoryPrefill) + Accepted([]), "") == 1000
  {
    PrefillInflatesEmptyName([], "");
  }

  /** A table built by `CountCommands` from the collected records holds, for
      each name, the number of lines that parse to it, and has a key exactly
      for the names with at least one such line. */
  lemma TableOfLines(lines: seq<string>, table: map<string, int>)
    requires table.Keys == Names(Accepted(lines))
    requires forall name :: GetCommandCount(table, name) == Occurrences(Accepted(lines), name)
    ensures forall name :: GetCommandCount(table, name) == ParsedAs(lines, name)
    ensures forall name :: name in table <==> ParsedAs(lines, name) > 0
  {
    forall name
      ensures GetCommandCount(table, name) == ParsedAs(lines, name)
      ensures name in table <==> ParsedAs(lines, name) > 0
    {
      OccurrencesOfAccepted(lines, name);
      OccurrencesPositive(Accepted(lines), name);
    }
  }

  /** What the report shows, given a table whose counts are the per-name
      line counts, a list holding exactly the table's entries, and a filter
      that keeps the list's pairs above the threshold. */
  lemma ReportedPairs(lines: seq<string>, table: map<string, int>, pl: seq<Pair>, threshold: int, shown: seq<Pair>)
    requires forall name :: GetCommandCount(table, name) == ParsedAs(lines, name)
    requires forall name :: name in table <==> ParsedAs(lines, name) > 0
    requires forall k :: k in table ==> Pair(k, table[k]) in pl
    requires forall p :: p in pl ==> p.Key in table && table[p.Key] == p.Value
    requires forall p :: p in shown <==> p in pl && p.Value > threshold
    ensures forall p :: p in shown ==>
      p.Value == ParsedAs(lines, p.Key) > threshold && ParsedAs(lines, p.Key) > 0
    ensures forall name :: ParsedAs(lines, name) > threshold && ParsedAs(lines, name) > 0 ==>
      Pair(name, ParsedAs(lines, name)) in shown
  {
    forall name | ParsedAs(lines, name) > threshold && ParsedAs(lines, name) > 0
      ensures Pair(name, ParsedAs(lines, name)) in shown
    {
      assert name in table;
      assert Pair(name, table[name]) in pl;
    }
  }

  /** `main` from the history lines on (main.go:44-54), over the corrected
      history. For the name `all`, the pairs reported are in non-increasing
      order of count, no name is reported twice, and they are exactly the
      names with at least one parsed line whose number of parsed lines exceeds
      the threshold, each with that number; for any other name nothing is listed. In both cases, `all`
      included, the count looked up for `cmdName` is its number of parsed
      lines, 0 for a name never seen. */
  method Report(lines: seq<string>, cmdName: string, threshold: int)
    returns (shown: seq<Pair>, count: int)
    ensures cmdName != "all" ==> shown == []
    ensures cmdName == "all" ==> SortedDescending(shown) && DistinctKeys(shown)
    ensures cmdName == "all" ==>
      forall p :: p in shown ==>
        p.Value == ParsedAs(lines, p.Key) > threshold && ParsedAs(lines, p.Key) > 0
    ensures cmdName == "all" ==>
      forall name :: ParsedAs(lines, name) > threshold && ParsedAs(lines, name) > 0 ==>
        Pair(name, ParsedAs(lines, name)) in shown
    ensures count == ParsedAs(lines, cmdName)
  {
    var historyRecords := ParseHistoryFileFresh(lines);
    var cmdsCount := CountCommands(historyRecords);
    TableOfLines(lines, cmdsCount);
    shown := [];
    if cmdName == "all" {
      var pl := ToSortedPairList(cmdsCount);
      shown := PrintAllCmd(pl, threshold);
      ReportedPairs(lines, cmdsCount, pl, threshold, shown);
      AboveThresholdSorted(pl, threshold);
      AboveThresholdDistinct(pl, threshold);
    }
    count := GetCommandCount(cmdsCount, cmdName);
  }
}
