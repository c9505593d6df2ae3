/** The sequential part of lab2/runner.py: the menu script fed to the colouring
  * program, the result records, the report blocks, the writer that drains the
  * result queue up to its `None` sentinel, the input filter, the worker cap and
  * the success tally. Processes, threads, clocks and files are parameters or
  * are left out. */
module BatchRunner {
  import opened Text

  datatype Option<T> = None | Some(value: T)

  /** The dictionary built for one input file. */
  datatype Record = Record(file: string, stdout: string, stderr: string, timestamp: string, success: bool)

  /** How the child process ended, as observed by `run_program_for_file`. */
  datatype RunOutcome =
    | Completed(out: string, err: string)
    | TimedOut
    | Raised(message: string)

  const TimeoutMessage: string := "ERROR: Timeout al procesar el archivo"
  /** `'=' * 50`. */
  const Rule: string := Repeat('=', 50)

  /** The text written to the child's stdin: read a file, give its path,
    * solve, exit. */
  function StdinScript(inputFile: string): (s: string)
    requires '\n' !in inputFile
    ensures SplitOn(s, '\n') == ["1", "examples/" + inputFile, "2", "4", ""]
  {
    var path := "examples/" + inputFile;
    var s := "1\n" + path + "\n" + "2\n" + "4\n";
    assert s == "1" + "\n" + (path + "\n" + ("2" + "\n" + ("4" + "\n" + "")));
    assert '\n' !in path;
    SplitAfterLine("4", "", '\n');
    SplitAfterLine("2", "4" + "\n" + "", '\n');
    SplitAfterLine(path, "2" + "\n" + ("4" + "\n" + ""), '\n');
    SplitAfterLine("1", path + "\n" + ("2" + "\n" + ("4" + "\n" + "")), '\n');
    s
  }

  /** The record `run_program_for_file` puts on the queue. */
  function MakeRecord(inputFile: string, outcome: RunOutcome, timestamp: string): (r: Record)
    ensures r.file == inputFile && r.timestamp == timestamp
    ensures r.success <==> outcome.Completed?
    ensures outcome.Completed? ==> r.stdout == outcome.out && r.stderr == outcome.err
    ensures outcome.TimedOut? ==> r.stdout == "" && r.stderr == TimeoutMessage
    ensures outcome.Raised? ==> r.stdout == "" && r.stderr == "ERROR: " + outcome.message
  {
    match outcome
    case Completed(out, err) => Record(inputFile, out, err, timestamp, true)
    case TimedOut => Record(inputFile, "", TimeoutMessage, timestamp, false)
    case Raised(message) => Record(inputFile, "", "ERROR: " + message, timestamp, false)
  }

  function FileLine(r: Record): string { "Resultados para el archivo: " + r.file }

  function TimestampLine(r: Record): string { "Timestamp: " + r.timestamp }

  function BlockHeader(r: Record): string
  {
    "\n" + (Rule + ("\n" + (FileLine(r) + ("\n" + (TimestampLine(r) + ("\n" + (Rule + "\n")))))))
  }

  /** What the writer appends to the output file for one record. */
  function FormatBlock(r: Record): (b: string)
  {
    BlockHeader(r) + r.stdout + (if r.stderr != "" then "\nErrores:\n" + r.stderr else "") + "\n"
  }

  /** The header lines of a block can be read back: after the leading blank
    * line come the rule, the file line, the timestamp line and the rule. */
  lemma HeaderLines(r: Record)
    requires '\n' !in r.file && '\n' !in r.timestamp
    ensures SplitOn(BlockHeader(r), '\n')
         == ["", Rule, "Resultados para el archivo: " + r.file, "Timestamp: " + r.timestamp, Rule, ""]
  {
    RuleHasNoNewline();
    LabelLinesHaveNoNewline(r);
    SplitFramed(Rule, FileLine(r), TimestampLine(r), Rule, '\n');
  }

  lemma LabelLinesHaveNoNewline(r: Record)
    requires '\n' !in r.file && '\n' !in r.timestamp
    ensures '\n' !in FileLine(r) && '\n' !in TimestampLine(r)
  {
  }

  lemma RuleHasNoNewline()
    ensures '\n' !in Rule
  {
    assert forall k :: 0 <= k < |Rule| ==> Rule[k] == '=';
  }

  /** The block starts with its header, ends with a newline, and carries the
    * error section exactly when stderr is non-empty. */
  lemma BlockShape(r: Record)
    ensures StartsWith(FormatBlock(r), BlockHeader(r) + r.stdout)
    ensures EndsWith(FormatBlock(r), "\n")
    ensures r.stderr == "" ==> FormatBlock(r) == BlockHeader(r) + r.stdout + "\n"
    ensures r.stderr != "" ==> EndsWith(FormatBlock(r), "\nErrores:\n" + r.stderr + "\n")
  {
    var b := FormatBlock(r);
    var h := BlockHeader(r) + r.stdout;
    if r.stderr == "" {
      assert b == h + "\n";
    } else {
      var tail := "\nErrores:\n" + r.stderr + "\n";
      assert b == h + tail;
      assert b[|b| - |tail|..] == tail;
    }
    assert b[..|h|] == h;
  }

  /** The records taken from the queue before the first `None`. */
  function BeforeSentinel(queue: seq<Option<Record>>): (rs: seq<Record>)
    ensures |rs| <= |queue|
    ensures forall i :: 0 <= i < |rs| ==> queue[i] == Some(rs[i])
    ensures |rs| < |queue| ==> queue[|rs|] == None
  {
    if |queue| == 0 || queue[0] == None then []
    else [queue[0].value] + BeforeSentinel(queue[1..])
  }

  /** All blocks of `rs`, in order. */
  function Report(rs: seq<Record>): string
  {
    if |rs| == 0 then "" else Report(rs[..|rs| - 1]) + FormatBlock(rs[|rs| - 1])
  }

  lemma ReportStep(rs: seq<Record>, i: nat)
    requires i < |rs|
    ensures Report(rs[..i + 1]) == Report(rs[..i]) + FormatBlock(rs[i])
  {
    assert rs[..i + 1][..i] == rs[..i];
  }

  /** Records put after the sentinel are never written. */
  lemma {:induction false} SentinelStops(front: seq<Option<Record>>, back: seq<Option<Record>>)
    requires None !in front
    ensures BeforeSentinel(front + [None] + back) == BeforeSentinel(front)
  {
    if |front| > 0 {
      assert (front + [None] + back)[1..] == front[1..] + [None] + back;
      SentinelStops(front[1..], back);
    }
  }

  /** `write_results_to_file` run sequentially over the queue contents: it
    * appends one block per record until the first `None`. */
  method WriteResults(queue: seq<Option<Record>>) returns (output: string, written: nat)
    requires None in queue
    ensures written < |queue| && queue[written] == None
    ensures None !in queue[..written]
    ensures output == Report(BeforeSentinel(queue))
  {
    ghost var rs := BeforeSentinel(queue);
    assert |rs| < |queue|;
    output := "";
    written := 0;
    while queue[written] != None
      invariant 0 <= written <= |rs|
      invariant output == Report(rs[..written])
      decreases |rs| - written
    {
      ReportStep(rs, written);
      output := output + FormatBlock(queue[written].value);
      written := written + 1;
    }
    assert written == |rs|;
    assert rs[..written] == rs;
    assert forall i :: 0 <= i < written ==> queue[..written][i] == Some(rs[i]);
  }

  /** The input files: the directory entries ending in `.txt`, in listing order. */
  function InputFiles(entries: seq<string>): (fs: seq<string>)
    ensures |fs| <= |entries|
    ensures forall f :: f in fs <==> f in entries && EndsWith(f, ".txt")
  {
    if |entries| == 0 then []
    else if EndsWith(entries[0], ".txt") then [entries[0]] + InputFiles(entries[1..])
    else InputFiles(entries[1..])
  }

  /** Filtering twice filters nothing more. */
  lemma {:induction false} InputFilesIdempotent(entries: seq<string>)
    ensures InputFiles(InputFiles(entries)) == InputFiles(entries)
  {
    if |entries| > 0 {
      InputFilesIdempotent(entries[1..]);
    }
  }

  /** `min(32, os.cpu_count() * 2)`. */
  function WorkerCount(cpuCount: nat): (n: nat)
    requires cpuCount >= 1
    ensures 2 <= n <= 32 && n <= 2 * cpuCount
    ensures n == 32 || n == 2 * cpuCount
  {
    if 2 * cpuCount < 32 then 2 * cpuCount else 32
  }

  /** `sum(1 for future in futures if future.result()['success'])`. */
  function SuccessCount(rs: seq<Record>): nat
  {
    if |rs| == 0 then 0 else (if rs[0].success then 1 else 0) + SuccessCount(rs[1..])
  }

  function SuccessIndices(rs: seq<Record>): set<nat>
  {
    set i: nat | i < |rs| && rs[i].success
  }

  /** The tally is the number of successful records, and never exceeds the
    * number of input files. */
  lemma {:induction false} SuccessCountIsCardinality(rs: seq<Record>)
    ensures SuccessCount(rs) == |SuccessIndices(rs)|
    ensures SuccessCount(rs) <= |rs|
  {
    if |rs| > 0 {
      var n := |rs| - 1;
      var front := rs[..n];
      SuccessCountIsCardinality(front);
      SuccessCountSnoc(front, rs[n]);
      assert front + [rs[n]] == rs;
      if rs[n].success {
        assert SuccessIndices(rs) == SuccessIndices(front) + {n};
      } else {
        assert SuccessIndices(rs) == SuccessIndices(front);
      }
    }
  }

  lemma {:induction false} SuccessCountSnoc(rs: seq<Record>, r: Record)
    ensures SuccessCount(rs + [r]) == SuccessCount(rs) + (if r.success then 1 else 0)
  {
    if |rs| > 0 {
      assert (rs + [r])[1..] == rs[1..] + [r];
      SuccessCountSnoc(rs[1..], r);
    } else {
      assert rs + [r] == [r];
    }
  }

  /** When every child completes, every file counts as a success. */
  lemma {:induction false} AllCompletedAllSucceed(files: seq<string>, outs: seq<RunOutcome>, ts: seq<string>)
    requires |files| == |outs| == |ts|
    requires forall i :: 0 <= i < |outs| ==> outs[i].Completed?
    ensures SuccessCount(seq(|files|, i requires 0 <= i < |files| => MakeRecord(files[i], outs[i], ts[i]))) == |files|
  {
    if |files| > 0 {
      var rs := seq(|files|, i requires 0 <= i < |files| => MakeRecord(files[i], outs[i], ts[i]));
      AllCompletedAllSucceed(files[1..], outs[1..], ts[1..]);
      assert rs[1..] == seq(|files[1..]|, i requires 0 <= i < |files[1..]| => MakeRecord(files[1..][i], outs[1..][i], ts[1..][i]));
    }
  }
}
