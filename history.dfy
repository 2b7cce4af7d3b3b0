/**
  The history-line parser (`createHistoryRecordFromLine`) and the loop of
  `parseHistoryFile` that collects the records of the lines that parse.
  A history line has the shape `<metadata>;<command> <args...>`.
 */
module History {
  import opened GoStrings

  /** One accepted history line: the raw line, its command segment and the
      command name (the aggregation key). The source's `args`, `flags` and
      `envVars` fields are never filled in, so they are not modelled. */
  datatype HistoryRecord = HistoryRecord(line: string, cmd: string, cmdName: string)

  /** Why a line was rejected; each carries the offending line, as the
      source's error messages do. */
  datatype ParseError =
    | MissingCommandSegment(line: string)  // the line has no `;`
    | AssignmentPrefix(line: string)       // the command segment contains `=`

  datatype Result<T, E> = Ok(value: T) | Err(error: E)

  /** The command segment of a line that has a `;`: the text after its first
      `;`, up to the next `;` or to the end of the line. */
  function CommandSegment(line: string): (cmd: string)
    requires ';' in line
    ensures var i := IndexOf(line, ';');
      && i < |line| && line[i] == ';'
      && (forall j :: 0 <= j < i ==> line[j] != ';')
      && cmd <= line[i + 1..]
      && (forall j :: 0 <= j < |cmd| ==> cmd[j] != ';')
      && (i + 1 + |cmd| == |line| || line[i + 1 + |cmd|] == ';')
  {
    Found(line, ';');
    IndexOfFirst(line, ';');
    TakeUntil(line[IndexOf(line, ';') + 1..], ';')
  }

  /** `createHistoryRecordFromLine`: split on every `;`, keep the second
      piece as the command, reject it when it contains `=`, and take the text
      before its first single space as the command name. */
  function CreateHistoryRecordFromLine(line: string): Result<HistoryRecord, ParseError>
  {
    var sl := Split(line, ';');
    if |sl| < 2 then
      Err(MissingCommandSegment(line))
    else
      var parsedCommand := Split(sl[1], ' ');
      if '=' in sl[1] then
        Err(AssignmentPrefix(line))
      else
        Ok(HistoryRecord(line, sl[1], parsedCommand[0]))
  }

  /** What the parser decides, in terms of the line's own text: a line
      without `;` is rejected as missing its command segment; otherwise the
      line is rejected as an assignment exactly when its command segment holds
      a `=`; an accepted line keeps the raw line, its command segment, and the
      segment's text before the first space as the command name. */
  lemma ParseLineSpec(line: string)
    ensures var r := CreateHistoryRecordFromLine(line);
      && (r == Err(MissingCommandSegment(line)) <==> ';' !in line)
      && (r == Err(AssignmentPrefix(line)) <==> ';' in line && '=' in CommandSegment(line))
      && (r.Ok? <==> ';' in line && '=' !in CommandSegment(line))
      && (r.Ok? ==>
            && r.value.line == line
            && r.value.cmd == CommandSegment(line)
            && r.value.cmdName == TakeUntil(r.value.cmd, ' '))
  {
    Found(line, ';');
    SplitHeadTail(line, ';');
    if ';' in line {
      SplitHeadTail(line[IndexOf(line, ';') + 1..], ';');
      Found(Split(line, ';')[1], '=');
      SplitHeadTail(Split(line, ';')[1], ' ');
    }
  }

  /** A command name never contains a space and is the start of the command;
      the name is empty exactly when the command segment is empty or starts
      with a space. The source's "no command" test can never reject a line,
      so such lines are accepted with the empty name. */
  lemma CommandNameShape(line: string)
    requires CreateHistoryRecordFromLine(line).Ok?
    ensures var rec := CreateHistoryRecordFromLine(line).value;
      && ' ' !in rec.cmdName
      && rec.cmdName <= rec.cmd
      && (rec.cmdName == "" <==> rec.cmd == "" || rec.cmd[0] == ' ')
  {
    ParseLineSpec(line);
  }

  /** In `<meta>;<cmd>` with no `;` in `meta` or `cmd`, the command segment
      is `cmd`. */
  lemma SegmentOfJoined(meta: string, cmd: string)
    requires ';' !in meta && ';' !in cmd
    ensures ';' in meta + ";" + cmd
    ensures CommandSegment(meta + ";" + cmd) == cmd
  {
    var line := meta + ";" + cmd;
    assert line == meta + [';'] + cmd;
    assert line[|meta|] == ';';
    IndexOfAfterPrefix(meta, ';', cmd);
    assert line[|meta| + 1..] == cmd;
    Found(cmd, ';');
  }

  /** The text of `name + args` before its first space is `name`, when
      `name` has no space and `args` is empty or starts with one. */
  lemma NameBeforeArgs(name: string, args: string)
    requires ' ' !in name
    requires args == "" || args[0] == ' '
    ensures TakeUntil(name + args, ' ') == name
  {
    if args == "" {
      assert name + args == name;
      Found(name, ' ');
    } else {
      assert name + args == name + [' '] + args[1..];
      IndexOfAfterPrefix(name, ' ', args[1..]);
    }
  }

  /** A line `<meta>;<name><args>` whose metadata has no `;`, whose name has
      no `;`, `=` or space, and whose arguments are empty or start with a space
      and hold no `;` or `=`, is accepted with `name` as its command name. */
  lemma WellFormedLine(meta: string, name: string, args: string)
    requires ';' !in meta
    requires ';' !in name && '=' !in name && ' ' !in name
    requires ';' !in args && '=' !in args
    requires args == "" || args[0] == ' '
    ensures var line := meta + ";" + name + args;
      CreateHistoryRecordFromLine(line) == Ok(HistoryRecord(line, name + args, name))
  {
    var cmd := name + args;
    var line := meta + ";" + cmd;
    assert meta + ";" + name + args == line;
    assert ';' !in cmd && '=' !in cmd;
    SegmentOfJoined(meta, cmd);
    NameBeforeArgs(name, args);
    ParseLineSpec(line);
  }

  /** A line whose command segment holds a `=` is rejected as an
      assignment, whatever follows it. */
  lemma AssignmentLine(meta: string, cmd: string)
    requires ';' !in meta && ';' !in cmd && '=' in cmd
    ensures var line := meta + ";" + cmd;
      CreateHistoryRecordFromLine(line) == Err(AssignmentPrefix(line))
  {
    SegmentOfJoined(meta, cmd);
    ParseLineSpec(meta + ";" + cmd);
  }

  /** The records of the lines that parse, in input order; lines that fail
      contribute nothing. */
  function Accepted(lines: seq<string>): (records: seq<HistoryRecord>)
    ensures |records| <= |lines|
    decreases |lines|
  {
    if lines == [] then []
    else
      var init := Accepted(lines[..|lines| - 1]);
      match CreateHistoryRecordFromLine(lines[|lines| - 1])
      case Ok(rec) => init + [rec]
      case Err(_) => init
  }

  /** Parsing a concatenation of histories gives the concatenation of their
      records, so relative order is kept. */
  lemma {:induction false} AcceptedAppend(a: seq<string>, b: seq<string>)
    ensures Accepted(a + b) == Accepted(a) + Accepted(b)
    decreases |b|
  {
    if b != [] {
      var b' := b[..|b| - 1];
      assert (a + b)[..|a + b| - 1] == a + b';
      AcceptedAppend(a, b');
    } else {
      assert a + b == a;
    }
  }

  /** Line number `k` of `lines` parses to `rec`. */
  predicate ParsedAt(lines: seq<string>, k: int, rec: HistoryRecord)
  {
    0 <= k < |lines| && CreateHistoryRecordFromLine(lines[k]) == Ok(rec)
  }

  /** The collected records after the last line is added. */
  lemma AcceptedLast(lines: seq<string>)
    requires lines != []
    ensures Accepted(lines) ==
      Accepted(lines[..|lines| - 1]) +
      (if CreateHistoryRecordFromLine(lines[|lines| - 1]).Ok?
       then [CreateHistoryRecordFromLine(lines[|lines| - 1]).value] else [])
  {
  }

  /** Dropping the last line keeps what the earlier lines parse to. */
  lemma ParsedAtInit(lines: seq<string>, k: int, rec: HistoryRecord)
    requires 0 <= k < |lines| - 1
    ensures ParsedAt(lines, k, rec) <==> ParsedAt(lines[..|lines| - 1], k, rec)
  {
    assert lines[..|lines| - 1][k] == lines[k];
  }

  /** A record is collected exactly when some line parses to it. */
  lemma {:induction false} AcceptedMembers(lines: seq<string>, rec: HistoryRecord)
    ensures rec in Accepted(lines) <==> exists k :: ParsedAt(lines, k, rec)
    decreases |lines|
  {
    if lines == [] {
      assert forall k :: !ParsedAt(lines, k, rec);
    } else {
      var n := |lines| - 1;
      var init := lines[..n];
      AcceptedMembers(init, rec);
      AcceptedLast(lines);
      var inLast := ParsedAt(lines, n, rec);
      assert rec in Accepted(lines) <==> rec in Accepted(init) || inLast;
      if k :| ParsedAt(lines, k, rec) {
        if k < n {
          ParsedAtInit(lines, k, rec);
        }
      }
      if k :| ParsedAt(init, k, rec) {
        ParsedAtInit(lines, k, rec);
      }
    }
  }

  /** The loop of `parseHistoryFile` over lines already read: each line goes
      through the parser, failures are skipped and successes are appended to
      the accumulator `init`. */
  method ScanLines(init: seq<HistoryRecord>, lines: seq<string>) returns (records: seq<HistoryRecord>)
    ensures records == init + Accepted(lines)
  {
    records := init;
    for i := 0 to |lines|
      invariant records == init + Accepted(lines[..i])
    {
      assert lines[..i + 1][..i] == lines[..i];
      var rec := CreateHistoryRecordFromLine(lines[i]);
      if rec.Err? {
        continue;
      }
      records := records + [rec.value];
    }
    assert lines[..|lines|] == lines;
  }

  /** Number of records `parseHistoryFile` pre-allocates. */
  const HistoryPrefill: nat := 1000

  /** `n` zero-valued records, as `make([]HistoryRecord, n)` creates. */
  function ZeroRecords(n: nat): (records: seq<HistoryRecord>)
    ensures |records| == n
    ensures forall k :: 0 <= k < n ==> records[k] == HistoryRecord("", "", "")
  {
    seq(n, _ => HistoryRecord("", "", ""))
  }

  /** `parseHistoryFile` as written: the slice starts with `HistoryPrefill`
      zero-valued records and the accepted records are appended after them. */
  method ParseHistoryFile(lines: seq<string>) returns (records: seq<HistoryRecord>)
    ensures |records| == HistoryPrefill + |Accepted(lines)|
    ensures records[..HistoryPrefill] == ZeroRecords(HistoryPrefill)
    ensures records[HistoryPrefill..] == Accepted(lines)
  {
    records := ScanLines(ZeroRecords(HistoryPrefill), lines);
  }

  /** `parseHistoryFile` as evidently intended: the slice starts empty (1000
      was meant as a capacity), so the result holds only accepted records. */
  method ParseHistoryFileFresh(lines: seq<string>) returns (records: seq<HistoryRecord>)
    ensures records == Accepted(lines)
    ensures forall rec :: rec in records ==> exists k :: ParsedAt(lines, k, rec)
  {
    records := ScanLines([], lines);
    forall rec | rec in records
      ensures exists k :: ParsedAt(lines, k, rec)
    {
      AcceptedMembers(lines, rec);
    }
  }
}
