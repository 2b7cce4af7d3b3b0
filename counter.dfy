/**
  `countCommands`, `incrementCommandCounter` and `getCommandCount`: a map
  from command name to the number of records carrying that name.
 */
module Counter {
  import opened History

  /** Number of records whose command name is `name`. */
  function Occurrences(records: seq<HistoryRecord>, name: string): (n: nat)
    ensures n <= |records|
    decreases |records|
  {
    if records == [] then 0
    else
      Occurrences(records[..|records| - 1], name) +
      (if records[|records| - 1].cmdName == name then 1 else 0)
  }

  /** The command names that occur in `records`. */
  function Names(records: seq<HistoryRecord>): set<string>
  {
    set k | 0 <= k < |records| :: records[k].cmdName
  }

  /** A name occurs a positive number of times exactly when some record
      carries it. */
  lemma {:induction false} OccurrencesPositive(records: seq<HistoryRecord>, name: string)
    ensures Occurrences(records, name) > 0 <==> name in Names(records)
    decreases |records|
  {
    if records != [] {
      var n := |records| - 1;
      var init := records[..n];
      OccurrencesPositive(init, name);
      assert Names(records) == Names(init) + {records[n].cmdName} by {
        forall x | x in Names(records) ensures x in Names(init) + {records[n].cmdName} {
          var k :| 0 <= k < |records| && records[k].cmdName == x;
          if k < n {
            assert init[k] == records[k];
          }
        }
        forall x | x in Names(init) ensures x in Names(records) {
          var k :| 0 <= k < |init| && init[k].cmdName == x;
          assert records[k] == init[k];
        }
      }
    }
  }

  /** Counting a concatenation adds the counts of its parts. */
  lemma {:induction false} OccurrencesAppend(a: seq<HistoryRecord>, b: seq<HistoryRecord>, name: string)
    ensures Occurrences(a + b, name) == Occurrences(a, name) + Occurrences(b, name)
    decreases |b|
  {
    if b == [] {
      assert a + b == a;
    } else {
      var b' := b[..|b| - 1];
      assert (a + b)[..|a + b| - 1] == a + b';
      OccurrencesAppend(a, b', name);
    }
  }

  /** `n` records with the same name are counted `n` times under it. */
  lemma {:induction false} OccurrencesRepeated(rec: HistoryRecord, n: nat)
    ensures Occurrences(seq(n, _ => rec), rec.cmdName) == n
  {
    if n > 0 {
      assert seq(n, _ => rec)[..n - 1] == seq(n - 1, _ => rec);
      OccurrencesRepeated(rec, n - 1);
    }
  }

  /** `getCommandCount`: the stored count, or 0 for a name never counted. */
  function GetCommandCount(counts: map<string, int>, commandName: string): (count: int)
    ensures commandName in counts ==> count == counts[commandName]
    ensures commandName !in counts ==> count == 0
  {
    if commandName in counts then counts[commandName] else 0
  }

  /** `incrementCommandCounter`: the count for `cmdName` goes up by one, an
      absent name counting as 0 before; every other entry stays as it was.
      The Go map is updated in place; here the updated map is returned. */
  method IncrementCommandCounter(cmdCounter: map<string, int>, cmdName: string)
    returns (updated: map<string, int>)
    ensures updated.Keys == cmdCounter.Keys + {cmdName}
    ensures updated[cmdName] == GetCommandCount(cmdCounter, cmdName) + 1
    ensures forall name :: name in cmdCounter && name != cmdName ==> updated[name] == cmdCounter[name]
  {
    var val := 0;
    if cmdName in cmdCounter {
      val := cmdCounter[cmdName];
    }
    val := val + 1;
    updated := cmdCounter[cmdName := val];
  }

  /** `countCommands`: the keys are exactly the names that occur, and the
      count of every name (0 for an absent one) is its number of records. */
  method CountCommands(historyRecords: seq<HistoryRecord>) returns (cmdsCounter: map<string, int>)
    ensures cmdsCounter.Keys == Names(historyRecords)
    ensures forall name :: GetCommandCount(cmdsCounter, name) == Occurrences(historyRecords, name)
    ensures historyRecords == [] ==> cmdsCounter == map[]
  {
    cmdsCounter := map[];
    for i := 0 to |historyRecords|
      invariant cmdsCounter.Keys == Names(historyRecords[..i])
      invariant forall name :: GetCommandCount(cmdsCounter, name) == Occurrences(historyRecords[..i], name)
    {
      var done := historyRecords[..i];
      var next := historyRecords[..i + 1];
      assert next[..i] == done;
      assert Names(next) == Names(done) + {historyRecords[i].cmdName} by {
        forall x | x in Names(next) ensures x in Names(done) + {historyRecords[i].cmdName} {
          var k :| 0 <= k < i + 1 && next[k].cmdName == x;
          if k < i {
            assert done[k] == next[k];
          }
        }
        forall x | x in Names(done) ensures x in Names(next) {
          var k :| 0 <= k < i && done[k].cmdName == x;
          assert next[k] == done[k];
        }
      }
      cmdsCounter := IncrementCommandCounter(cmdsCounter, historyRecords[i].cmdName);
    }
    assert historyRecords[..|historyRecords|] == historyRecords;
  }
}
