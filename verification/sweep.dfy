/**
  The three passes of the sweep over a file store: execution writes one
  result file per point whose output holds a time, the image check pairs
  each generated image with its reference, and aggregation turns the
  result files into the CSV table.
 */
module Sweep {
  import opened Text
  import opened Decimal
  import opened Names
  import opened Extraction
  import opened Grid

  /** The files the passes read and write, by path. */
  type Store = map<string, string>

  /** `key` is present in both stores with the same content, or in neither. */
  predicate SameAt(fs: Store, fs': Store, key: string) {
    (key in fs <==> key in fs') && (key in fs ==> fs[key] == fs'[key])
  }

  /** What the aggregation pass reads for `p`: the stripped content of its
      result file, or nothing when the file is missing. */
  function ReadResult(fs: Store, p: GridPoint): Option<string> {
    if ResultPath(p) in fs then Some(Strip(fs[ResultPath(p)])) else None
  }

  /** One iteration of the execution pass, given what the program printed:
      the time, if found, is written with a line break to the point's
      result file; without a time the store is left as it was. */
  function RunPoint(fs: Store, p: GridPoint, stdout: string): (fs': Store)
    ensures ExecutionTime(stdout).None? ==> fs' == fs
    ensures ExecutionTime(stdout).Some? ==> ReadResult(fs', p) == ExecutionTime(stdout)
    ensures forall key :: key != ResultPath(p) ==> SameAt(fs, fs', key)
  {
    match ExecutionTime(stdout)
    case Some(t) =>
      StripAppendedSpace(t, "\n");
      fs[ResultPath(p) := t + "\n"]
    case None => fs
  }

  /** `key` is the result path of one of `pts`. */
  predicate IsResultPathOf(pts: seq<GridPoint>, key: string) {
    exists k :: 0 <= k < |pts| && ResultPath(pts[k]) == key
  }

  /** The execution pass over `pts`, the k-th run printing `outs[k]`. */
  function Execute(fs: Store, pts: seq<GridPoint>, outs: seq<string>): Store
    requires |outs| == |pts|
    decreases |pts|
  {
    if |pts| == 0 then fs else Execute(RunPoint(fs, pts[0], outs[0]), pts[1..], outs[1..])
  }

  /** Nothing but the result files of the visited points changes: a file
      that is no point's result file keeps its content, or stays absent. */
  lemma {:induction false} ExecuteFrame(fs: Store, pts: seq<GridPoint>, outs: seq<string>, key: string)
    requires |outs| == |pts|
    requires !IsResultPathOf(pts, key)
    ensures SameAt(fs, Execute(fs, pts, outs), key)
    decreases |pts|
  {
    if |pts| > 0 {
      var fs1 := RunPoint(fs, pts[0], outs[0]);
      assert key != ResultPath(pts[0]);
      ExecuteFrame(fs1, pts[1..], outs[1..], key);
    }
  }

  lemma ReadResultOfSame(fs: Store, fs': Store, p: GridPoint)
    requires SameAt(fs, fs', ResultPath(p))
    ensures ReadResult(fs', p) == ReadResult(fs, p)
  {
  }

  lemma HeadPathNotInTail(pts: seq<GridPoint>)
    requires |pts| > 0 && Distinct(pts)
    ensures !IsResultPathOf(pts[1..], ResultPath(pts[0]))
  {
    forall j | 0 <= j < |pts[1..]| ensures ResultPath(pts[1..][j]) != ResultPath(pts[0]) {
      ResultPathInjective(pts[j + 1], pts[0]);
    }
  }

  /** After the execution pass over distinct points, each point reads back
      the time its own run printed, or what was there before when the run
      printed none. */
  lemma {:induction false} ExecuteReadBack(fs: Store, pts: seq<GridPoint>, outs: seq<string>, k: nat)
    requires |outs| == |pts| && Distinct(pts) && k < |pts|
    ensures ReadResult(Execute(fs, pts, outs), pts[k])
      == if ExecutionTime(outs[k]).Some? then ExecutionTime(outs[k]) else ReadResult(fs, pts[k])
    decreases |pts|
  {
    var fs1 := RunPoint(fs, pts[0], outs[0]);
    var r := Execute(fs, pts, outs);
    assert r == Execute(fs1, pts[1..], outs[1..]);
    if k == 0 {
      HeadPathNotInTail(pts);
      ExecuteFrame(fs1, pts[1..], outs[1..], ResultPath(pts[0]));
      ReadResultOfSame(fs1, r, pts[0]);
    } else {
      ExecuteReadBack(fs1, pts[1..], outs[1..], k - 1);
      ResultPathInjective(pts[0], pts[k]);
      ReadResultOfSame(fs, fs1, pts[k]);
    }
  }

  /** Across the two passes: when the result directory holds no file for
      any grid point, then after the execution pass the aggregation pass
      reads for each point exactly the time extracted from that point's
      run, and nothing for a run whose output had none. */
  lemma SweepThenRead(cfg: Config, fs0: Store, outs: seq<string>, k: nat)
    requires AxesDistinct(cfg)
    requires |outs| == |ExecutionOrder(cfg)|
    requires forall j :: 0 <= j < |ExecutionOrder(cfg)| ==> ResultPath(ExecutionOrder(cfg)[j]) !in fs0
    requires k < |ExecutionOrder(cfg)|
    ensures ReadResult(Execute(fs0, ExecutionOrder(cfg), outs), ExecutionOrder(cfg)[k])
      == ExecutionTime(outs[k])
  {
    ExecutionOrderDistinct(cfg);
    ExecuteReadBack(fs0, ExecutionOrder(cfg), outs, k);
  }

  /** One line of the CSV table after its label. */
  datatype Row = Row(size: nat, step: nat, threads: nat, time: string)

  function RowOf(p: GridPoint, time: string): Row {
    Row(p.size, p.step, Threads(p), time)
  }

  /** The rows emitted for `pts` when `read` says what each point's result
      file holds: in order, skipping the points without one. */
  function RowsOf(read: GridPoint -> Option<string>, pts: seq<GridPoint>): seq<Row> {
    if |pts| == 0 then
      []
    else
      var head := match read(pts[0])
        case Some(t) => [RowOf(pts[0], t)]
        case None => [];
      head + RowsOf(read, pts[1..])
  }

  /** The rows the aggregation pass emits for `pts` from the store. */
  function Rows(fs: Store, pts: seq<GridPoint>): seq<Row> {
    RowsOf(p => ReadResult(fs, p), pts)
  }

  /** A row is emitted exactly for each point that has a result, with that
      point's coordinates, thread count and time; never more rows than
      points. */
  lemma {:induction false} RowsOfMembers(read: GridPoint -> Option<string>, pts: seq<GridPoint>, row: Row)
    ensures |RowsOf(read, pts)| <= |pts|
    ensures row in RowsOf(read, pts) <==>
      exists k :: 0 <= k < |pts| && read(pts[k]).Some? && row == RowOf(pts[k], read(pts[k]).value)
  {
    if |pts| > 0 {
      RowsOfMembers(read, pts[1..], row);
      if k :| 0 <= k < |pts[1..]| && read(pts[1..][k]).Some? && row == RowOf(pts[1..][k], read(pts[1..][k]).value) {
        assert pts[1..][k] == pts[k + 1];
      }
      if k :| 0 < k < |pts| && read(pts[k]).Some? && row == RowOf(pts[k], read(pts[k]).value) {
        assert pts[k] == pts[1..][k - 1];
      }
    }
  }

  /** The aggregation pass emits a row for each point that has a result
      file, with the stripped content of that file as its time, and no
      other row. */
  lemma RowsMembers(fs: Store, pts: seq<GridPoint>, row: Row)
    ensures |Rows(fs, pts)| <= |pts|
    ensures row in Rows(fs, pts) <==>
      exists k :: 0 <= k < |pts| && ReadResult(fs, pts[k]).Some?
        && row == RowOf(pts[k], ReadResult(fs, pts[k]).value)
  {
    RowsOfMembers(p => ReadResult(fs, p), pts, row);
  }

  lemma {:induction false} RowsOfAppend(read: GridPoint -> Option<string>, a: seq<GridPoint>, b: seq<GridPoint>)
    ensures RowsOf(read, a + b) == RowsOf(read, a) + RowsOf(read, b)
  {
    if |a| > 0 {
      assert (a + b)[1..] == a[1..] + b;
      assert (a + b)[0] == a[0];
      RowsOfAppend(read, a[1..], b);
    } else {
      assert a + b == b;
    }
  }

  /** Rows of consecutive stretches of points follow one another: the pass
      keeps its visiting order and a missing file only drops its own row. */
  lemma RowsAppend(fs: Store, a: seq<GridPoint>, b: seq<GridPoint>)
    ensures Rows(fs, a + b) == Rows(fs, a) + Rows(fs, b)
  {
    RowsOfAppend(p => ReadResult(fs, p), a, b);
  }

  /** A point whose result file is missing contributes no row and does not
      stop the rows after it. */
  lemma MissingResultSkipped(fs: Store, a: seq<GridPoint>, p: GridPoint, b: seq<GridPoint>)
    requires ReadResult(fs, p).None?
    ensures Rows(fs, a + [p] + b) == Rows(fs, a) + Rows(fs, b)
  {
    RowsOfSkip(q => ReadResult(fs, q), a, p, b);
  }

  lemma RowsOfSkip(read: GridPoint -> Option<string>, a: seq<GridPoint>, p: GridPoint, b: seq<GridPoint>)
    requires read(p).None?
    ensures RowsOf(read, a + [p] + b) == RowsOf(read, a) + RowsOf(read, b)
  {
    RowsOfAppend(read, a + [p], b);
    RowsOfAppend(read, a, [p]);
    assert RowsOf(read, [p]) == [];
  }

  lemma {:induction false} RowsOfDependOnReads(read: GridPoint -> Option<string>, read': GridPoint -> Option<string>, pts: seq<GridPoint>)
    requires forall k :: 0 <= k < |pts| ==> read(pts[k]) == read'(pts[k])
    ensures RowsOf(read, pts) == RowsOf(read', pts)
  {
    if |pts| > 0 {
      RowsOfDependOnReads(read, read', pts[1..]);
    }
  }

  const CsvFile: string := "heat_results.csv"
  const HeaderLine: string := "config,size,step,threads,time"

  /** `CUDA,<size>,<step>,<threads>,<time>` without its line break. */
  function RowLine(row: Row): string {
    "CUDA," + (NatToString(row.size) + ("," + (NatToString(row.step) +
    ("," + (NatToString(row.threads) + ("," + row.time))))))
  }

  function RowFields(row: Row): seq<string> {
    ["CUDA", NatToString(row.size), NatToString(row.step), NatToString(row.threads), row.time]
  }

  lemma DigitsHaveNoComma(s: string)
    requires AllDigits(s)
    ensures ',' !in s
  {
  }

  /** A row line splits on commas into its five fields, the time being
      recovered as written, as long as the time holds no comma. */
  lemma RowLineFields(row: Row)
    requires ',' !in row.time
    ensures Split(RowLine(row), ',') == RowFields(row)
  {
    var ws := RowFields(row);
    DigitsHaveNoComma(NatToString(row.size));
    DigitsHaveNoComma(NatToString(row.step));
    DigitsHaveNoComma(NatToString(row.threads));
    assert Join(ws[4..], ',') == ws[4];
    assert Join(ws[3..], ',') == ws[3] + ([','] + Join(ws[4..], ','));
    assert Join(ws[2..], ',') == ws[2] + ([','] + Join(ws[3..], ','));
    assert Join(ws[1..], ',') == ws[1] + ([','] + Join(ws[2..], ','));
    assert Join(ws, ',') == ws[0] + ([','] + Join(ws[1..], ','));
    assert "CUDA," == "CUDA" + [','];
    assert Join(ws, ',') == RowLine(row);
    SplitJoin(ws, ',');
  }

  /** The rows as text, each followed by a line break. */
  function RenderRows(rows: seq<Row>): string {
    if |rows| == 0 then "" else RowLine(rows[0]) + ("\n" + RenderRows(rows[1..]))
  }

  /** The header line, then the rows, each line ending in a line break. */
  function TableText(rows: seq<Row>): string {
    HeaderLine + ("\n" + RenderRows(rows))
  }

  /** The table the aggregation pass writes: the rows of the points in CSV
      order under the header. */
  function CsvText(fs: Store, cfg: Config): string {
    TableText(Rows(fs, AggregationOrder(cfg)))
  }

  /** The aggregation pass: the table file is replaced as a whole. */
  function WriteCsv(fs: Store, cfg: Config): (fs': Store)
    ensures CsvFile in fs'
    ensures forall key :: key != CsvFile ==> SameAt(fs, fs', key)
  {
    fs[CsvFile := CsvText(fs, cfg)]
  }

  lemma DigitsHaveNoLineBreak(s: string)
    requires AllDigits(s)
    ensures '\n' !in s
  {
  }

  lemma RowLineHasNoLineBreak(row: Row)
    requires '\n' !in row.time
    ensures '\n' !in RowLine(row)
  {
    DigitsHaveNoLineBreak(NatToString(row.size));
    DigitsHaveNoLineBreak(NatToString(row.step));
    DigitsHaveNoLineBreak(NatToString(row.threads));
  }

  /** Splitting the rendered rows into lines gives one line per row, in
      order, and the empty text after the last line break. */
  lemma {:induction false} RenderRowsLines(rows: seq<Row>)
    requires forall i :: 0 <= i < |rows| ==> '\n' !in rows[i].time
    ensures |Split(RenderRows(rows), '\n')| == |rows| + 1
    ensures forall i :: 0 <= i < |rows| ==> Split(RenderRows(rows), '\n')[i] == RowLine(rows[i])
    ensures Split(RenderRows(rows), '\n')[|rows|] == ""
  {
    if |rows| > 0 {
      RenderRowsLines(rows[1..]);
      RowLineHasNoLineBreak(rows[0]);
      SplitAfter(RowLine(rows[0]), '\n', RenderRows(rows[1..]));
    }
  }

  lemma SplitAfter(w: string, sep: char, rest: string)
    requires sep !in w
    ensures Split(w + ([sep] + rest), sep) == [w] + Split(rest, sep)
  {
    var s := w + ([sep] + rest);
    assert s[|w|] == sep;
    assert s[..|w|] == w;
    assert IndexOf(s, sep) == |w|;
    assert s[|w| + 1..] == rest;
  }

  /** The table, read line by line, is the header and then exactly one
      line per row, in order; a line break closes the last line. */
  lemma CsvLines(rows: seq<Row>)
    requires forall i :: 0 <= i < |rows| ==> '\n' !in rows[i].time
    ensures var lines := Split(TableText(rows), '\n');
      && |lines| == |rows| + 2
      && lines[0] == HeaderLine
      && (forall i :: 0 <= i < |rows| ==> lines[i + 1] == RowLine(rows[i]))
      && lines[|rows| + 1] == ""
  {
    RenderRowsLines(rows);
    SplitAfter(HeaderLine, '\n', RenderRows(rows));
  }

  lemma CsvFileIsNoResultFile(p: GridPoint)
    ensures CsvFile != ResultPath(p)
  {
    assert ResultPath(p)[..|ResultsFolder|] == ResultsFolder;
    assert CsvFile[0] != ResultsFolder[0];
  }

  /** Writing the table again without touching the result files writes the
      same bytes: the pass is idempotent. */
  lemma WriteCsvIdempotent(fs: Store, cfg: Config)
    ensures WriteCsv(WriteCsv(fs, cfg), cfg) == WriteCsv(fs, cfg)
  {
    var fs1 := WriteCsv(fs, cfg);
    var pts := AggregationOrder(cfg);
    forall k | 0 <= k < |pts| ensures ReadResult(fs, pts[k]) == ReadResult(fs1, pts[k]) {
      CsvFileIsNoResultFile(pts[k]);
      ReadResultOfSame(fs, fs1, pts[k]);
    }
    RowsOfDependOnReads(p => ReadResult(fs, p), p => ReadResult(fs1, p), pts);
  }

  /** Rows read over `ag` from what runs over `ex` left behind: when the two
      visit the same points and each point of `ex` reads back its run's
      result `times[k]`, a row is emitted exactly for each run with a
      result. */
  lemma RowsOfRuns(read: GridPoint -> Option<string>, ex: seq<GridPoint>, ag: seq<GridPoint>,
                   times: seq<Option<string>>, row: Row)
    requires |times| == |ex|
    requires forall p :: p in ag <==> p in ex
    requires forall k :: 0 <= k < |ex| ==> read(ex[k]) == times[k]
    ensures row in RowsOf(read, ag) <==>
      exists k :: 0 <= k < |ex| && times[k].Some? && row == RowOf(ex[k], times[k].value)
  {
    RowsOfMembers(read, ag, row);
    if row in RowsOf(read, ag) {
      var k' :| 0 <= k' < |ag| && read(ag[k']).Some? && row == RowOf(ag[k'], read(ag[k']).value);
      assert ag[k'] in ex;
      var k :| 0 <= k < |ex| && ex[k] == ag[k'];
      assert times[k].Some? && row == RowOf(ex[k], times[k].value);
    }
    if k :| 0 <= k < |ex| && times[k].Some? && row == RowOf(ex[k], times[k].value) {
      assert ex[k] in ag;
      var k' :| 0 <= k' < |ag| && ag[k'] == ex[k];
      assert read(ag[k']).Some? && row == RowOf(ag[k'], read(ag[k']).value);
    }
  }

  /** End to end: starting from a result directory with no file for any grid
      point, the CSV after the execution pass holds a row for grid point `p`
      with time `t` exactly when `p`'s run printed the time `t`. */
  lemma SweepThenAggregate(cfg: Config, fs0: Store, outs: seq<string>, row: Row)
    requires AxesDistinct(cfg)
    requires |outs| == |ExecutionOrder(cfg)|
    requires forall j :: 0 <= j < |ExecutionOrder(cfg)| ==> ResultPath(ExecutionOrder(cfg)[j]) !in fs0
    ensures var fs1 := Execute(fs0, ExecutionOrder(cfg), outs);
      row in Rows(fs1, AggregationOrder(cfg)) <==>
        exists k :: 0 <= k < |ExecutionOrder(cfg)| && ExecutionTime(outs[k]).Some?
          && row == RowOf(ExecutionOrder(cfg)[k], ExecutionTime(outs[k]).value)
  {
    var ex := ExecutionOrder(cfg);
    var ag := AggregationOrder(cfg);
    var fs1 := Execute(fs0, ex, outs);
    var times := seq(|outs|, k requires 0 <= k < |outs| => ExecutionTime(outs[k]));
    forall p ensures p in ag <==> p in ex {
      AggregationOrderMembers(cfg, p);
    }
    forall k | 0 <= k < |ex| ensures ReadResult(fs1, ex[k]) == times[k] {
      SweepThenRead(cfg, fs0, outs, k);
    }
    RowsOfRuns(p => ReadResult(fs1, p), ex, ag, times, row);
  }

  /** The image the run for `p` wrote, and the serial reference it is
      compared with. */
  function ImagePair(p: GridPoint): (string, string) {
    (ArtifactPath(p), ReferencePath(p.size, p.step))
  }

  /** The image-check pass: the pairs to compare, in execution order. */
  function ImagePairs(cfg: Config): (r: seq<(string, string)>)
    ensures |r| == |ExecutionOrder(cfg)|
  {
    var pts := ExecutionOrder(cfg);
    seq(|pts|, k requires 0 <= k < |pts| => ImagePair(pts[k]))
  }

  /** The image-check pass follows the execution pass step by step: the
      k-th pair compares the image the k-th run was told to write (the fourth
      word of its command line) with the serial reference of that run's
      size and step. */
  lemma ImagePairsFollowRuns(cfg: Config, k: nat)
    requires k < |ExecutionOrder(cfg)|
    ensures |Split(Command(ExecutionOrder(cfg)[k]), ' ')| == 6
    ensures ImagePairs(cfg)[k].0 == Split(Command(ExecutionOrder(cfg)[k]), ' ')[3]
    ensures ImagePairs(cfg)[k].1
      == ReferencePath(ExecutionOrder(cfg)[k].size, ExecutionOrder(cfg)[k].step)
  {
    var p := ExecutionOrder(cfg)[k];
    CommandArguments(p);
    assert ImagePairs(cfg)[k] == ImagePair(p);
  }

  /** Two points are checked against the same reference exactly when they
      share size and step, whatever their thread shapes. */
  lemma ReferenceIgnoresShape(p: GridPoint, q: GridPoint)
    ensures ImagePair(p).1 == ImagePair(q).1 <==> (p.size == q.size && p.step == q.step)
  {
    SharedReference(p, q);
    if ReferencePath(p.size, p.step) == ReferencePath(q.size, q.step) {
      JoinPathInjective(SerialBmpFolder, ReferenceFileName(p.size, p.step), ReferenceFileName(q.size, q.step));
    }
  }
}

module SweepExample {
  import opened Text
  import opened Decimal
  import opened Names
  import opened Extraction
  import opened Grid
  import opened Sweep

  lemma SmallNumbersText()
    ensures NatToString(100) == "100" && NatToString(2) == "2"
  {
    assert NatToString(1) == "1";
    assert NatToString(10) == NatToString(1) + "0";
    assert NatToString(100) == NatToString(10) + "0";
  }

  lemma SinglePointRow()
    ensures RowLine(Row(100, 100, 2, "0.5")) == "CUDA,100,100,2,0.5"
  {
    SmallNumbersText();
  }

  /** Running one point whose program prints `The Execution Time= 0.5`
      writes exactly one result file, holding `0.5` and a line break. */
  lemma SinglePointRun(p: GridPoint)
    ensures Execute(map[], [p], ["The Execution Time= 0.5\n"]) == map[ResultPath(p) := "0.5\n"]
  {
    ExtractsSpacedTime();
    var fs1 := RunPoint(map[], p, "The Execution Time= 0.5\n");
    assert fs1 == map[][ResultPath(p) := "0.5" + "\n"];
    assert "0.5" + "\n" == "0.5\n";
    assert Execute(map[], [p], ["The Execution Time= 0.5\n"]) == Execute(fs1, [], []);
  }

  /** Reading that result file back gives one row. */
  lemma SinglePointRows(p: GridPoint)
    requires p == GridPoint(100, 100, 2, 1)
    ensures Rows(map[ResultPath(p) := "0.5\n"], [p]) == [Row(100, 100, 2, "0.5")]
  {
    var fs1 := map[ResultPath(p) := "0.5\n"];
    StripAppendedSpace("0.5", "\n");
    assert "0.5" + "\n" == "0.5\n";
    assert ReadResult(fs1, p) == Some("0.5");
    assert [p][1..] == [];
    assert Rows(fs1, [p]) == [RowOf(p, "0.5")] + Rows(fs1, []);
  }

  /** That row under the header, each line ended by a line break. */
  lemma SinglePointTable()
    ensures Split(TableText([Row(100, 100, 2, "0.5")]), '\n')
      == ["config,size,step,threads,time", "CUDA,100,100,2,0.5", ""]
  {
    CsvLines([Row(100, 100, 2, "0.5")]);
    SinglePointRow();
  }

  /** The whole one-point sweep: one result file, and a table with the
      header and the single row, each ended by a line break. */
  lemma SinglePointSweep()
    ensures var cfg := Config([100], [100], [(2, 1)]);
      var fs1 := Execute(map[], ExecutionOrder(cfg), ["The Execution Time= 0.5\n"]);
      && fs1 == map[ResultPath(GridPoint(100, 100, 2, 1)) := "0.5\n"]
      && Split(CsvText(fs1, cfg), '\n') == ["config,size,step,threads,time", "CUDA,100,100,2,0.5", ""]
  {
    var cfg := Config([100], [100], [(2, 1)]);
    var p := GridPoint(100, 100, 2, 1);
    ExecutionOrderAt(cfg, 0, 0, 0);
    AggregationOrderAt(cfg, 0, 0, 0);
    assert ExecutionOrder(cfg) == [p];
    assert AggregationOrder(cfg) == [p];
    SinglePointRun(p);
    SinglePointRows(p);
    SinglePointTable();
  }
}
