/**
  The parameter grid and the two orders in which the script walks it: the
  execution and image-check passes loop size, then step, then thread shape;
  the CSV pass loops size, then thread shape, then step.
 */
module Grid {
  import opened Names

  /** A thread-block shape `(x, y)`. */
  type Shape = (nat, nat)

  /** The three axes of the sweep, each in its configured order. */
  datatype Config = Config(sizes: seq<nat>, steps: seq<nat>, threads: seq<Shape>)

  /** The grid the script is configured with. */
  const Configured: Config := Config(
    [100, 1000, 2000],
    [100, 1000, 10000, 100000],
    [(2, 1), (2, 2), (4, 2), (4, 4), (8, 4), (8, 8), (16, 8), (16, 16), (32, 16), (32, 32)])

  function Point(size: nat, step: nat, t: Shape): GridPoint {
    GridPoint(size, step, t.0, t.1)
  }

  predicate InGrid(cfg: Config, p: GridPoint) {
    p.size in cfg.sizes && p.step in cfg.steps && (p.threadX, p.threadY) in cfg.threads
  }

  predicate Distinct<T(==)>(s: seq<T>) {
    forall i, j :: 0 <= i < j < |s| ==> s[i] != s[j]
  }

  /** No axis repeats a value. */
  predicate AxesDistinct(cfg: Config) {
    Distinct(cfg.sizes) && Distinct(cfg.steps) && Distinct(cfg.threads)
  }

  predicate Uniform<T>(blocks: seq<seq<T>>, w: nat) {
    forall i :: 0 <= i < |blocks| ==> |blocks[i]| == w
  }

  /** The blocks of a nested loop, one after the other. */
  function Concat<T>(blocks: seq<seq<T>>): seq<T> {
    if |blocks| == 0 then [] else blocks[0] + Concat(blocks[1..])
  }

  lemma {:induction false} ConcatLength<T>(blocks: seq<seq<T>>, w: nat)
    requires Uniform(blocks, w)
    ensures |Concat(blocks)| == |blocks| * w
  {
    if |blocks| > 0 {
      ConcatLength(blocks[1..], w);
    }
  }

  /** Element `c` of block `i` sits at `i * w + c` when every block has `w`
      elements. */
  lemma {:induction false} ConcatAt<T>(blocks: seq<seq<T>>, w: nat, i: nat, c: nat)
    requires Uniform(blocks, w)
    requires i < |blocks| && c < w
    ensures i * w + c < |Concat(blocks)| && Concat(blocks)[i * w + c] == blocks[i][c]
  {
    ConcatLength(blocks, w);
    if i > 0 {
      ConcatAt(blocks[1..], w, i - 1, c);
      assert i * w + c == w + ((i - 1) * w + c);
    }
  }

  lemma {:induction false} ConcatMember<T>(blocks: seq<seq<T>>, x: T)
    ensures x in Concat(blocks) <==> exists i :: 0 <= i < |blocks| && x in blocks[i]
  {
    if |blocks| > 0 {
      ConcatMember(blocks[1..], x);
      if x in Concat(blocks[1..]) {
        var i :| 0 <= i < |blocks[1..]| && x in blocks[1..][i];
        assert x in blocks[i + 1];
      }
      if i :| 0 < i < |blocks| && x in blocks[i] {
        assert x in blocks[1..][i - 1];
      }
    }
  }

  lemma {:induction false} ConcatDistinct<T>(blocks: seq<seq<T>>)
    requires forall i :: 0 <= i < |blocks| ==> Distinct(blocks[i])
    requires forall i, j, x :: 0 <= i < j < |blocks| && x in blocks[i] ==> x !in blocks[j]
    ensures Distinct(Concat(blocks))
  {
    if |blocks| > 0 {
      var rest := Concat(blocks[1..]);
      ConcatDistinct(blocks[1..]);
      forall x | x in blocks[0] ensures x !in rest {
        ConcatMember(blocks[1..], x);
      }
      var s := blocks[0] + rest;
      forall i, j | 0 <= i < j < |s| ensures s[i] != s[j] {
        if j >= |blocks[0]| && i < |blocks[0]| {
          assert s[j] in rest;
        }
      }
    }
  }

  /** Innermost loop of the execution pass: every shape, for one size and
      step. */
  function ExecRow(cfg: Config, a: nat, b: nat): seq<GridPoint>
    requires a < |cfg.sizes| && b < |cfg.steps|
  {
    seq(|cfg.threads|, c requires 0 <= c < |cfg.threads| => Point(cfg.sizes[a], cfg.steps[b], cfg.threads[c]))
  }

  function ExecRows(cfg: Config, a: nat): seq<seq<GridPoint>>
    requires a < |cfg.sizes|
  {
    seq(|cfg.steps|, b requires 0 <= b < |cfg.steps| => ExecRow(cfg, a, b))
  }

  /** Every step, and inside it every shape, for one size. */
  function ExecBlock(cfg: Config, a: nat): seq<GridPoint>
    requires a < |cfg.sizes|
  {
    Concat(ExecRows(cfg, a))
  }

  function ExecBlocks(cfg: Config): seq<seq<GridPoint>> {
    seq(|cfg.sizes|, a requires 0 <= a < |cfg.sizes| => ExecBlock(cfg, a))
  }

  /** The order in which the execution pass (and the image check) visits
      the grid. */
  function ExecutionOrder(cfg: Config): seq<GridPoint> {
    Concat(ExecBlocks(cfg))
  }

  /** Innermost loop of the CSV pass: every step, for one size and shape. */
  function AggRow(cfg: Config, a: nat, c: nat): seq<GridPoint>
    requires a < |cfg.sizes| && c < |cfg.threads|
  {
    seq(|cfg.steps|, b requires 0 <= b < |cfg.steps| => Point(cfg.sizes[a], cfg.steps[b], cfg.threads[c]))
  }

  function AggRows(cfg: Config, a: nat): seq<seq<GridPoint>>
    requires a < |cfg.sizes|
  {
    seq(|cfg.threads|, c requires 0 <= c < |cfg.threads| => AggRow(cfg, a, c))
  }

  /** Every shape, and inside it every step, for one size. */
  function AggBlock(cfg: Config, a: nat): seq<GridPoint>
    requires a < |cfg.sizes|
  {
    Concat(AggRows(cfg, a))
  }

  function AggBlocks(cfg: Config): seq<seq<GridPoint>> {
    seq(|cfg.sizes|, a requires 0 <= a < |cfg.sizes| => AggBlock(cfg, a))
  }

  /** The order in which the CSV pass visits the grid. */
  function AggregationOrder(cfg: Config): seq<GridPoint> {
    Concat(AggBlocks(cfg))
  }

  lemma InnerIndexBound(b: nat, c: nat, n: nat, w: nat)
    requires b < n && c < w
    ensures b * w + c < n * w
  {
    assert b * w + c < (b + 1) * w;
    assert (b + 1) * w <= n * w;
  }

  lemma IndexRegroup(a: nat, b: nat, c: nat, n: nat, w: nat)
    ensures (a * n + b) * w + c == a * (n * w) + (b * w + c)
  {
    assert (a * n + b) * w == a * n * w + b * w;
  }

  /** The execution pass makes |sizes| * |steps| * |threads| invocations,
      none at all when one of the axes is empty. */
  lemma ExecutionOrderLength(cfg: Config)
    ensures |ExecutionOrder(cfg)| == |cfg.sizes| * (|cfg.steps| * |cfg.threads|)
  {
    forall a' | 0 <= a' < |cfg.sizes| ensures |ExecBlock(cfg, a')| == |cfg.steps| * |cfg.threads| {
      ConcatLength(ExecRows(cfg, a'), |cfg.threads|);
    }
    ConcatLength(ExecBlocks(cfg), |cfg.steps| * |cfg.threads|);
  }

  /** The CSV pass looks up |sizes| * |threads| * |steps| points: as many as
      the execution pass runs. */
  lemma AggregationOrderLength(cfg: Config)
    ensures |AggregationOrder(cfg)| == |cfg.sizes| * (|cfg.threads| * |cfg.steps|)
    ensures |AggregationOrder(cfg)| == |ExecutionOrder(cfg)|
  {
    forall a' | 0 <= a' < |cfg.sizes| ensures |AggBlock(cfg, a')| == |cfg.threads| * |cfg.steps| {
      ConcatLength(AggRows(cfg, a'), |cfg.steps|);
    }
    ConcatLength(AggBlocks(cfg), |cfg.threads| * |cfg.steps|);
    ExecutionOrderLength(cfg);
    assert |cfg.threads| * |cfg.steps| == |cfg.steps| * |cfg.threads|;
  }

  /** The execution pass makes |sizes| * |steps| * |threads| invocations,
      and the one at index `(a * |steps| + b) * |threads| + c` is for size
      `a`, step `b` and shape `c`: size outermost, shape innermost. */
  lemma ExecutionOrderAt(cfg: Config, a: nat, b: nat, c: nat)
    requires a < |cfg.sizes| && b < |cfg.steps| && c < |cfg.threads|
    ensures |ExecutionOrder(cfg)| == |cfg.sizes| * (|cfg.steps| * |cfg.threads|)
    ensures (a * |cfg.steps| + b) * |cfg.threads| + c < |ExecutionOrder(cfg)|
    ensures ExecutionOrder(cfg)[(a * |cfg.steps| + b) * |cfg.threads| + c]
      == Point(cfg.sizes[a], cfg.steps[b], cfg.threads[c])
  {
    var S, T := |cfg.steps|, |cfg.threads|;
    var outer := ExecBlocks(cfg);
    ExecutionOrderLength(cfg);
    forall a' | 0 <= a' < |cfg.sizes| ensures |ExecBlock(cfg, a')| == S * T {
      ConcatLength(ExecRows(cfg, a'), T);
    }
    ConcatAt(ExecRows(cfg, a), T, b, c);
    InnerIndexBound(b, c, S, T);
    ConcatAt(outer, S * T, a, b * T + c);
    IndexRegroup(a, b, c, S, T);
  }

  /** The CSV pass visits the same number of points, and the one at index
      `(a * |threads| + c) * |steps| + b` is for size `a`, shape `c` and step
      `b`: size outermost, step innermost. */
  lemma AggregationOrderAt(cfg: Config, a: nat, b: nat, c: nat)
    requires a < |cfg.sizes| && b < |cfg.steps| && c < |cfg.threads|
    ensures |AggregationOrder(cfg)| == |cfg.sizes| * (|cfg.threads| * |cfg.steps|)
    ensures (a * |cfg.threads| + c) * |cfg.steps| + b < |AggregationOrder(cfg)|
    ensures AggregationOrder(cfg)[(a * |cfg.threads| + c) * |cfg.steps| + b]
      == Point(cfg.sizes[a], cfg.steps[b], cfg.threads[c])
  {
    var S, T := |cfg.steps|, |cfg.threads|;
    var outer := AggBlocks(cfg);
    AggregationOrderLength(cfg);
    forall a' | 0 <= a' < |cfg.sizes| ensures |AggBlock(cfg, a')| == T * S {
      ConcatLength(AggRows(cfg, a'), S);
    }
    ConcatAt(AggRows(cfg, a), S, c, b);
    InnerIndexBound(c, b, T, S);
    ConcatAt(outer, T * S, a, c * S + b);
    IndexRegroup(a, c, b, T, S);
  }

  lemma ExecRowMember(cfg: Config, a: nat, b: nat, p: GridPoint)
    requires a < |cfg.sizes| && b < |cfg.steps|
    ensures p in ExecRow(cfg, a, b) <==>
      p.size == cfg.sizes[a] && p.step == cfg.steps[b] && (p.threadX, p.threadY) in cfg.threads
  {
    if (p.threadX, p.threadY) in cfg.threads && p.size == cfg.sizes[a] && p.step == cfg.steps[b] {
      var c :| 0 <= c < |cfg.threads| && cfg.threads[c] == (p.threadX, p.threadY);
      assert ExecRow(cfg, a, b)[c] == p;
    }
  }

  lemma ExecBlockMember(cfg: Config, a: nat, p: GridPoint)
    requires a < |cfg.sizes|
    ensures p in ExecBlock(cfg, a) <==>
      p.size == cfg.sizes[a] && p.step in cfg.steps && (p.threadX, p.threadY) in cfg.threads
  {
    ConcatMember(ExecRows(cfg, a), p);
    if p in ExecBlock(cfg, a) {
      var b :| 0 <= b < |cfg.steps| && p in ExecRows(cfg, a)[b];
      ExecRowMember(cfg, a, b, p);
    }
    if p.size == cfg.sizes[a] && p.step in cfg.steps && (p.threadX, p.threadY) in cfg.threads {
      var b :| 0 <= b < |cfg.steps| && cfg.steps[b] == p.step;
      ExecRowMember(cfg, a, b, p);
      assert p in ExecRows(cfg, a)[b];
    }
  }

  /** The execution pass visits exactly the points of the grid. */
  lemma ExecutionOrderMembers(cfg: Config, p: GridPoint)
    ensures p in ExecutionOrder(cfg) <==> InGrid(cfg, p)
  {
    ConcatMember(ExecBlocks(cfg), p);
    if p in ExecutionOrder(cfg) {
      var a :| 0 <= a < |cfg.sizes| && p in ExecBlocks(cfg)[a];
      ExecBlockMember(cfg, a, p);
    }
    if InGrid(cfg, p) {
      var a :| 0 <= a < |cfg.sizes| && cfg.sizes[a] == p.size;
      ExecBlockMember(cfg, a, p);
      assert p in ExecBlocks(cfg)[a];
    }
  }

  /** With no value repeated on any axis, the execution pass visits each
      grid point once. */
  lemma ExecutionOrderDistinct(cfg: Config)
    requires AxesDistinct(cfg)
    ensures Distinct(ExecutionOrder(cfg))
  {
    forall a | 0 <= a < |cfg.sizes| ensures Distinct(ExecBlock(cfg, a)) {
      forall b | 0 <= b < |cfg.steps| ensures Distinct(ExecRows(cfg, a)[b]) {
        assert ExecRows(cfg, a)[b] == ExecRow(cfg, a, b);
      }
      forall b, b', p | 0 <= b < b' < |cfg.steps| && p in ExecRows(cfg, a)[b]
        ensures p !in ExecRows(cfg, a)[b']
      {
        ExecRowMember(cfg, a, b, p);
        ExecRowMember(cfg, a, b', p);
      }
      ConcatDistinct(ExecRows(cfg, a));
    }
    forall a, a', p | 0 <= a < a' < |cfg.sizes| && p in ExecBlocks(cfg)[a]
      ensures p !in ExecBlocks(cfg)[a']
    {
      ExecBlockMember(cfg, a, p);
      ExecBlockMember(cfg, a', p);
    }
    ConcatDistinct(ExecBlocks(cfg));
  }

  lemma AggRowMember(cfg: Config, a: nat, c: nat, p: GridPoint)
    requires a < |cfg.sizes| && c < |cfg.threads|
    ensures p in AggRow(cfg, a, c) <==>
      p.size == cfg.sizes[a] && p.step in cfg.steps && (p.threadX, p.threadY) == cfg.threads[c]
  {
    if p.step in cfg.steps && p.size == cfg.sizes[a] && (p.threadX, p.threadY) == cfg.threads[c] {
      var b :| 0 <= b < |cfg.steps| && cfg.steps[b] == p.step;
      assert AggRow(cfg, a, c)[b] == p;
    }
  }

  lemma AggBlockMember(cfg: Config, a: nat, p: GridPoint)
    requires a < |cfg.sizes|
    ensures p in AggBlock(cfg, a) <==>
      p.size == cfg.sizes[a] && p.step in cfg.steps && (p.threadX, p.threadY) in cfg.threads
  {
    ConcatMember(AggRows(cfg, a), p);
    if p in AggBlock(cfg, a) {
      var c :| 0 <= c < |cfg.threads| && p in AggRows(cfg, a)[c];
      AggRowMember(cfg, a, c, p);
    }
    if p.size == cfg.sizes[a] && p.step in cfg.steps && (p.threadX, p.threadY) in cfg.threads {
      var c :| 0 <= c < |cfg.threads| && cfg.threads[c] == (p.threadX, p.threadY);
      AggRowMember(cfg, a, c, p);
      assert p in AggRows(cfg, a)[c];
    }
  }

  /** The CSV pass visits exactly the points of the grid, the same ones the
      execution pass visits. */
  lemma AggregationOrderMembers(cfg: Config, p: GridPoint)
    ensures p in AggregationOrder(cfg) <==> InGrid(cfg, p)
    ensures p in AggregationOrder(cfg) <==> p in ExecutionOrder(cfg)
  {
    ExecutionOrderMembers(cfg, p);
    ConcatMember(AggBlocks(cfg), p);
    if p in AggregationOrder(cfg) {
      var a :| 0 <= a < |cfg.sizes| && p in AggBlocks(cfg)[a];
      AggBlockMember(cfg, a, p);
    }
    if InGrid(cfg, p) {
      var a :| 0 <= a < |cfg.sizes| && cfg.sizes[a] == p.size;
      AggBlockMember(cfg, a, p);
      assert p in AggBlocks(cfg)[a];
    }
  }

  /** With no value repeated on any axis, the CSV pass reads each grid
      point once. */
  lemma AggregationOrderDistinct(cfg: Config)
    requires AxesDistinct(cfg)
    ensures Distinct(AggregationOrder(cfg))
  {
    forall a | 0 <= a < |cfg.sizes| ensures Distinct(AggBlock(cfg, a)) {
      forall c | 0 <= c < |cfg.threads| ensures Distinct(AggRows(cfg, a)[c]) {
        assert AggRows(cfg, a)[c] == AggRow(cfg, a, c);
      }
      forall c, c', p | 0 <= c < c' < |cfg.threads| && p in AggRows(cfg, a)[c]
        ensures p !in AggRows(cfg, a)[c']
      {
        AggRowMember(cfg, a, c, p);
        AggRowMember(cfg, a, c', p);
      }
      ConcatDistinct(AggRows(cfg, a));
    }
    forall a, a', p | 0 <= a < a' < |cfg.sizes| && p in AggBlocks(cfg)[a]
      ensures p !in AggBlocks(cfg)[a']
    {
      AggBlockMember(cfg, a, p);
      AggBlockMember(cfg, a', p);
    }
    ConcatDistinct(AggBlocks(cfg));
  }

  /** The configured sweep: 3 sizes, 4 step counts and 10 shapes, no value
      repeated, so 120 invocations, one per grid point. */
  lemma ConfiguredGrid()
    ensures AxesDistinct(Configured)
    ensures |ExecutionOrder(Configured)| == 120
    ensures Distinct(ExecutionOrder(Configured))
  {
    ExecutionOrderAt(Configured, 0, 0, 0);
    ExecutionOrderDistinct(Configured);
  }
}
