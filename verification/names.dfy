/**
  How a grid point becomes file names, paths and a command line in the sweep
  script: the generated image, the result file, the serial reference image
  and the shell command that runs the compute program.
 */
module Names {
  import opened Text
  import opened Decimal

  /** One combination of problem size, step count and thread-block shape. */
  datatype GridPoint = GridPoint(size: nat, step: nat, threadX: nat, threadY: nat)

  /** Total number of threads in a block, the `_th_` field of the names. */
  function Threads(p: GridPoint): nat {
    p.threadX * p.threadY
  }

  const Executable: string := "./heat_cuda"
  const BmpFolder: string := "bmp"
  const ResultsFolder: string := "results"
  const SerialBmpFolder: string := "bmp_serial"

  const ArtifactPrefix: string := "output_cuda_nx_"
  const ResultPrefix: string := "heat_cuda_nx_"
  const ReferencePrefix: string := "output_serial_nx_"
  const BmpExt: string := ".bmp"
  const TxtExt: string := ".txt"

  /** `<prefix><size>_st_<step>_thx_<x>_thy_<y>_th_<x*y><ext>`, the shared
      layout of the generated image name and the result file name. */
  function Encode(prefix: string, p: GridPoint, ext: string): string {
    prefix + (NatToString(p.size) +
    ("_st_" + (NatToString(p.step) +
    ("_thx_" + (NatToString(p.threadX) +
    ("_thy_" + (NatToString(p.threadY) +
    ("_th_" + (NatToString(Threads(p)) + ext)))))))))
  }

  /** What is left of `s` after the literal `lit`, if `s` starts with it. */
  function Expect(lit: string, s: string): (r: Option<string>)
    ensures r.Some? <==> lit <= s
    ensures r.Some? ==> s == lit + r.value
  {
    if lit <= s then
      assert s == lit + s[|lit|..];
      Some(s[|lit|..])
    else
      None
  }

  /** The number written right after the literal `lit` at the start of `s`,
      with the rest of `s`. */
  function Field(lit: string, s: string): (r: Option<(nat, string)>)
    ensures r.Some? ==> s == lit + (NatToString(r.value.0) + r.value.1)
  {
    var rest :- Expect(lit, s);
    ParseNat(rest)
  }

  lemma FieldOf(lit: string, n: nat, rest: string)
    requires |rest| == 0 || !IsDigit(rest[0])
    ensures Field(lit, lit + (NatToString(n) + rest)) == Some((n, rest))
  {
    ParseNatOfNatToString(n, rest);
    assert Expect(lit, lit + (NatToString(n) + rest)) == Some(NatToString(n) + rest);
  }

  /** Reads a grid point back out of a name laid out by `Encode`; a name
      whose `_th_` field is not the product of the two shape fields is
      refused. */
  function Decode(prefix: string, ext: string, s: string): (r: Option<GridPoint>)
    ensures r.Some? ==> Encode(prefix, r.value, ext) == s
  {
    var size :- Field(prefix, s);
    var step :- Field("_st_", size.1);
    var x :- Field("_thx_", step.1);
    var y :- Field("_thy_", x.1);
    var th :- Field("_th_", y.1);
    if th.1 == ext && th.0 == x.0 * y.0 then
      Some(GridPoint(size.0, step.0, x.0, y.0))
    else
      None
  }

  /** Every coordinate can be read back from a name. */
  lemma DecodeEncode(prefix: string, p: GridPoint, ext: string)
    requires |ext| == 0 || !IsDigit(ext[0])
    ensures Decode(prefix, ext, Encode(prefix, p, ext)) == Some(p)
  {
    var t8 := "_th_" + (NatToString(Threads(p)) + ext);
    var t6 := "_thy_" + (NatToString(p.threadY) + t8);
    var t4 := "_thx_" + (NatToString(p.threadX) + t6);
    var t2 := "_st_" + (NatToString(p.step) + t4);
    FieldOf(prefix, p.size, t2);
    FieldOf("_st_", p.step, t4);
    FieldOf("_thx_", p.threadX, t6);
    FieldOf("_thy_", p.threadY, t8);
    FieldOf("_th_", Threads(p), ext);
  }

  /** Distinct grid points never share a name. */
  lemma EncodeInjective(prefix: string, p: GridPoint, q: GridPoint, ext: string)
    requires |ext| == 0 || !IsDigit(ext[0])
    requires Encode(prefix, p, ext) == Encode(prefix, q, ext)
    ensures p == q
  {
    DecodeEncode(prefix, p, ext);
    DecodeEncode(prefix, q, ext);
  }

  /** Name of the image the compute program writes for `p`. */
  function ArtifactFileName(p: GridPoint): string {
    Encode(ArtifactPrefix, p, BmpExt)
  }

  /** Name of the file holding the measured time for `p`; the execution pass
      and the aggregation pass both build it with this one function. */
  function ResultFileName(p: GridPoint): string {
    Encode(ResultPrefix, p, TxtExt)
  }

  /** Name of the serial reference image, keyed by size and step only. */
  function ReferenceFileName(size: nat, step: nat): string {
    ReferencePrefix + (NatToString(size) + ("_st_" + (NatToString(step) + BmpExt)))
  }

  function DecodeReference(s: string): (r: Option<(nat, nat)>)
    ensures r.Some? ==> ReferenceFileName(r.value.0, r.value.1) == s
  {
    var size :- Field(ReferencePrefix, s);
    var step :- Field("_st_", size.1);
    if step.1 == BmpExt then Some((size.0, step.0)) else None
  }

  /** The reference name gives back exactly its size and step. */
  lemma DecodeReferenceName(size: nat, step: nat)
    ensures DecodeReference(ReferenceFileName(size, step)) == Some((size, step))
  {
    FieldOf(ReferencePrefix, size, "_st_" + (NatToString(step) + BmpExt));
    FieldOf("_st_", step, BmpExt);
  }

  /** Two grid points share a reference image exactly when they agree on
      size and step, whatever their thread shapes. */
  lemma SharedReference(p: GridPoint, q: GridPoint)
    ensures ReferenceFileName(p.size, p.step) == ReferenceFileName(q.size, q.step)
        <==> (p.size == q.size && p.step == q.step)
  {
    DecodeReferenceName(p.size, p.step);
    DecodeReferenceName(q.size, q.step);
  }

  function ArtifactPath(p: GridPoint): string {
    JoinPath(BmpFolder, ArtifactFileName(p))
  }

  function ResultPath(p: GridPoint): string {
    JoinPath(ResultsFolder, ResultFileName(p))
  }

  function ReferencePath(size: nat, step: nat): string {
    JoinPath(SerialBmpFolder, ReferenceFileName(size, step))
  }

  /** Result paths are a one-to-one function of the grid point, and the
      point can be read back from the path's file name. */
  lemma ResultPathInjective(p: GridPoint, q: GridPoint)
    ensures ResultPath(p) == ResultPath(q) <==> p == q
    ensures Decode(ResultPrefix, TxtExt, ResultFileName(p)) == Some(p)
  {
    DecodeEncode(ResultPrefix, p, TxtExt);
    if ResultPath(p) == ResultPath(q) {
      JoinPathInjective(ResultsFolder, ResultFileName(p), ResultFileName(q));
      EncodeInjective(ResultPrefix, p, q, TxtExt);
    }
  }

  /** Generated image paths are a one-to-one function of the grid point. */
  lemma ArtifactPathInjective(p: GridPoint, q: GridPoint)
    ensures ArtifactPath(p) == ArtifactPath(q) <==> p == q
    ensures Decode(ArtifactPrefix, BmpExt, ArtifactFileName(p)) == Some(p)
  {
    DecodeEncode(ArtifactPrefix, p, BmpExt);
    if ArtifactPath(p) == ArtifactPath(q) {
      JoinPathInjective(BmpFolder, ArtifactFileName(p), ArtifactFileName(q));
      EncodeInjective(ArtifactPrefix, p, q, BmpExt);
    }
  }

  /** The shell command run for `p`:
      `./heat_cuda <size> <step> bmp/<image name> <x> <y>`. */
  function Command(p: GridPoint): string {
    Executable + (" " + (NatToString(p.size) + (" " + (NatToString(p.step) +
    (" " + (ArtifactPath(p) + (" " + (NatToString(p.threadX) +
    (" " + NatToString(p.threadY))))))))))
  }

  /** The arguments the command hands to the compute program, in order. */
  function Arguments(p: GridPoint): seq<string> {
    [NatToString(p.size), NatToString(p.step), ArtifactPath(p),
     NatToString(p.threadX), NatToString(p.threadY)]
  }

  /** Characters `/bin/sh` takes literally and never splits on: ASCII
      digits, lower-case letters, `_`, `.` and `/`. No blank, line break,
      quote, `$`, `;`, glob or redirection character is among them. */
  predicate IsShellWordChar(c: char) {
    IsDigit(c) || 'a' <= c <= 'z' || c == '_' || c == '.' || c == '/'
  }

  /** Text the shell reads back as one literal word. */
  predicate IsShellWord(s: string) {
    |s| > 0 && ShellSafe(s)
  }

  /** Every character of `s` is one the shell takes literally. */
  predicate ShellSafe(s: string) {
    forall k :: 0 <= k < |s| ==> IsShellWordChar(s[k])
  }

  lemma ShellSafeConcat(a: string, b: string)
    requires ShellSafe(a) && ShellSafe(b)
    ensures ShellSafe(a + b)
  {
  }

  lemma DigitsAreShellSafe(s: string)
    requires AllDigits(s)
    ensures ShellSafe(s) && ' ' !in s
  {
  }

  lemma LiteralsAreShellSafe()
    ensures ShellSafe("_st_") && ShellSafe("_thx_") && ShellSafe("_thy_") && ShellSafe("_th_")
    ensures ShellSafe(ArtifactPrefix) && ShellSafe(BmpExt) && ShellSafe(BmpFolder + "/")
    ensures ShellSafe(Executable)
  {
  }

  /** The generated image path is made of shell-literal characters only, so
      the shell passes it to the program as one word, unchanged. */
  lemma ArtifactPathIsShellWord(p: GridPoint)
    ensures IsShellWord(ArtifactPath(p))
    ensures ' ' !in ArtifactPath(p)
  {
    var n0, n1, n2, n3, n4 := NatToString(p.size), NatToString(p.step), NatToString(p.threadX),
      NatToString(p.threadY), NatToString(Threads(p));
    DigitsAreShellSafe(n0);
    DigitsAreShellSafe(n1);
    DigitsAreShellSafe(n2);
    DigitsAreShellSafe(n3);
    DigitsAreShellSafe(n4);
    LiteralsAreShellSafe();
    var s := n4 + BmpExt;
    ShellSafeConcat(n4, BmpExt);
    ShellSafeConcat("_th_", s);
    s := "_th_" + s;
    ShellSafeConcat(n3, s);
    s := n3 + s;
    ShellSafeConcat("_thy_", s);
    s := "_thy_" + s;
    ShellSafeConcat(n2, s);
    s := n2 + s;
    ShellSafeConcat("_thx_", s);
    s := "_thx_" + s;
    ShellSafeConcat(n1, s);
    s := n1 + s;
    ShellSafeConcat("_st_", s);
    s := "_st_" + s;
    ShellSafeConcat(n0, s);
    s := n0 + s;
    ShellSafeConcat(ArtifactPrefix, s);
    s := ArtifactPrefix + s;
    assert s == ArtifactFileName(p);
    ShellSafeConcat(BmpFolder + "/", s);
    assert ArtifactPath(p) == (BmpFolder + "/") + s;
    assert !IsShellWordChar(' ');
  }

  /** Splitting the command line on spaces yields the executable followed by
      exactly the five arguments: size, step, image path, x, y. */
  lemma CommandArguments(p: GridPoint)
    ensures Split(Command(p), ' ') == [Executable] + Arguments(p)
    ensures |Split(Command(p), ' ')| == 6
  {
    var ws := [Executable] + Arguments(p);
    DigitsAreShellSafe(NatToString(p.size));
    DigitsAreShellSafe(NatToString(p.step));
    DigitsAreShellSafe(NatToString(p.threadX));
    DigitsAreShellSafe(NatToString(p.threadY));
    ArtifactPathIsShellWord(p);
    assert Join(ws[5..], ' ') == ws[5];
    assert Join(ws[4..], ' ') == ws[4] + ([' '] + Join(ws[5..], ' '));
    assert Join(ws[3..], ' ') == ws[3] + ([' '] + Join(ws[4..], ' '));
    assert Join(ws[2..], ' ') == ws[2] + ([' '] + Join(ws[3..], ' '));
    assert Join(ws[1..], ' ') == ws[1] + ([' '] + Join(ws[2..], ' '));
    assert Join(ws, ' ') == ws[0] + ([' '] + Join(ws[1..], ' '));
    assert Join(ws, ' ') == Command(p);
    SplitJoin(ws, ' ');
  }

  /** Every word of the command line is a non-empty run of shell-literal
      characters, so `/bin/sh` splits it into exactly these six words and
      hands each to the program as written. */
  lemma CommandWordsAreShellWords(p: GridPoint)
    ensures var ws := Split(Command(p), ' ');
      |ws| == 6 && forall k :: 0 <= k < 6 ==> IsShellWord(ws[k])
  {
    CommandArguments(p);
    ArgumentsAreShellWords(p);
    LiteralsAreShellSafe();
    var ws := Split(Command(p), ' ');
    forall k | 0 <= k < 6 ensures IsShellWord(ws[k]) {
      if k > 0 {
        assert ws[k] == Arguments(p)[k - 1];
      }
    }
  }

  lemma ArgumentsAreShellWords(p: GridPoint)
    ensures forall k :: 0 <= k < 5 ==> IsShellWord(Arguments(p)[k])
  {
    var args := Arguments(p);
    DigitsAreShellSafe(args[0]);
    DigitsAreShellSafe(args[1]);
    ArtifactPathIsShellWord(p);
    DigitsAreShellSafe(args[3]);
    DigitsAreShellSafe(args[4]);
  }

  /** The command line determines the grid point: two points with the same
      command are the same point. */
  lemma CommandInjective(p: GridPoint, q: GridPoint)
    requires Command(p) == Command(q)
    ensures p == q
  {
    CommandArguments(p);
    CommandArguments(q);
    var wp, wq := [Executable] + Arguments(p), [Executable] + Arguments(q);
    assert wp == wq;
    assert wp[1..] == Arguments(p) && wq[1..] == Arguments(q);
    ArgumentsInjective(p, q);
  }

  lemma ArgumentsInjective(p: GridPoint, q: GridPoint)
    requires Arguments(p) == Arguments(q)
    ensures p == q
  {
    assert Arguments(p)[2] == ArtifactPath(p);
    ArtifactPathInjective(p, q);
  }
}
