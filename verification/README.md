# heat_cuda sweep script: the string layer

`heat_cuda_tests.py` runs a CUDA heat-equation solver over a grid of
configurations: three plate sizes, four step counts and ten thread-block
shapes. For every grid point it does four things:

- it builds a command line and an output image name;
- it scans the program's standard output for `The Execution Time=<number>`;
- it stores the number in a per-point result file;
- finally, it collects every result file into `heat_results.csv`.

An optional pass pairs each generated image with a serial reference image.

This project models that script's pure string logic in Dafny and proves that
the pieces fit together. The modules are:

- `Text`: an `Option` type, Python's `str.isspace` set, `str.strip()`,
  `str.split(sep)` with its inverse `join`, and POSIX `os.path.join`.
- `Decimal`: `str(n)` for naturals, with parsing back and injectivity.
- `Names`: the grid point and the names built from it. These are the image
  name, the result-file name, the reference name and the command line. A
  decoder is provided for each file name and proved to be its inverse. The
  command line splits back into its six words, and distinct grid points give
  distinct command lines.
- `Extraction`: `re.search(r"The Execution Time=\s*([\d.]+)", stdout)`, both
  as a scanner and as a declarative leftmost-greedy match, with the two proved
  equal.
- `Grid`: the configured axes and the two loop nests. Execution runs
  size→step→threads. The CSV pass runs size→threads→step.
- `Sweep`: the result directory and the CSV file as a `map<string,string>`
  store, the execution pass, the CSV pass, the image pairing, and the
  end-to-end lemmas. `SweepExample` holds a concrete one-point sweep.

The external program is a parameter: the execution pass takes one stdout
string per run, in execution order. Nothing in the model interprets the time
as a number. It stays the digit/dot text the regex captured.

A run's exit status plays no part: the script calls `subprocess.run` without
`check=True` and never reads `returncode` (line 66). The run's time is stored
when its stdout holds the marker, whatever the exit status, and otherwise
nothing is stored. A nonzero exit never aborts the sweep; the next grid point
runs as usual.

The rows below that name a function without a contract of its own (the name
builders, the loop orders, the passes) point to the lemmas that state what
it computes.

## Model

| member | source | states |
|---|---|---|
| Text.Strip | heat_cuda_tests.py:113 | `strip()` returns a slice of its input that neither starts nor ends with whitespace, and everything cut away on either side is whitespace |
| Text.StripAppendedSpace | heat_cuda_tests.py:76 | a value with no whitespace at either end, written with trailing whitespace appended, is recovered exactly by `strip()` |
| Text.SplitJoin | heat_cuda_tests.py:64 | splitting a separator-joined list gives the list back when no piece holds the separator |
| Text.JoinSplit | heat_cuda_tests.py:64 | joining the pieces of a split gives the original text |
| Text.JoinPath | heat_cuda_tests.py:64 | `os.path.join(dir, name)` ends with `name`, and starts with `dir` when `name` is relative |
| Text.JoinPathInjective | heat_cuda_tests.py:75 | within one folder, distinct relative file names give distinct paths |
| Decimal.NatToString | heat_cuda_tests.py:62 | an integer in an f-string is a non-empty run of decimal digits with no leading zero, of length one exactly below ten |
| Decimal.DigitsToNatOfNatToString | heat_cuda_tests.py:62 | reading the decimal digits of `n` gives `n` back |
| Decimal.NatToStringOfDigitsToNat | heat_cuda_tests.py:62 | every canonical digit string is the decimal form of the number it denotes |
| Decimal.NatToStringInjective | heat_cuda_tests.py:62 | distinct integers print differently |
| Decimal.ParseNat | heat_cuda_tests.py:62 | a parsed number followed by the remaining text rebuilds the input, and the remainder does not start with a digit |
| Decimal.ParseNatOfNatToString | heat_cuda_tests.py:62 | parsing a printed number followed by non-digit text recovers the number and the text |
| Names.Encode | heat_cuda_tests.py:62-63 | the shared `<prefix><size>_st_<step>_thx_<x>_thy_<y>_th_<x*y><ext>` layout; Names.DecodeEncode, Names.Decode and Names.EncodeInjective state that it is one-to-one and invertible |
| Names.ArtifactFileName | heat_cuda_tests.py:62 | the image name built in the execution pass, also rebuilt at line 91; Names.ArtifactPathInjective states that it decodes back to the grid point |
| Names.ResultFileName | heat_cuda_tests.py:63 | the result-file name, built by the same function for the lookup at line 110; Names.ResultPathInjective states that it decodes back to the grid point |
| Names.ReferenceFileName | heat_cuda_tests.py:92 | the serial reference name; Names.DecodeReferenceName and Names.SharedReference state that it carries exactly size and step |
| Names.ArtifactPath | heat_cuda_tests.py:64 | `os.path.join("bmp", image name)`, also built at line 93; Names.ArtifactPathInjective and Names.ArtifactPathIsShellWord state its properties |
| Names.ResultPath | heat_cuda_tests.py:75 | `os.path.join("results", result name)`, also built at line 112; Names.ResultPathInjective states that it is one-to-one in the grid point |
| Names.ReferencePath | heat_cuda_tests.py:94 | `os.path.join("bmp_serial", reference name)`; Sweep.ReferenceIgnoresShape states that it depends exactly on size and step |
| Names.Command | heat_cuda_tests.py:64 | the command line; Names.CommandArguments and Names.CommandWordsAreShellWords state its six words |
| Names.Field | heat_cuda_tests.py:62 | a literal followed by a number is recognised only in text that is the literal, the number and the rest |
| Names.Decode | heat_cuda_tests.py:62-63 | a name that decodes to a grid point is exactly that point's name, so its `_th_` field is `thread_x*thread_y` |
| Names.DecodeEncode | heat_cuda_tests.py:62-63 | the name of every grid point decodes back to that point: size, step, thread_x and thread_y are all recoverable |
| Names.EncodeInjective | heat_cuda_tests.py:62-63 | two grid points with the same name are the same point |
| Names.DecodeReference | heat_cuda_tests.py:92 | a reference name that decodes to (size, step) is exactly the reference name of that pair |
| Names.DecodeReferenceName | heat_cuda_tests.py:92 | every reference name decodes back to its size and step |
| Names.SharedReference | heat_cuda_tests.py:92 | two grid points share a reference name exactly when they share size and step, whatever their thread shapes |
| Names.ResultPathInjective | heat_cuda_tests.py:63 | the result path written for a point and the one read for a point coincide exactly when the points are equal, and the result-file name decodes to the point |
| Names.ArtifactPathInjective | heat_cuda_tests.py:62-64 | the image path passed to the program is one-to-one in the grid point and decodes to it |
| Names.ArtifactPathIsShellWord | heat_cuda_tests.py:64 | the image path is non-empty and made only of ASCII digits, lower-case letters, `_`, `.` and `/`, so `/bin/sh` (`shell=True`, line 66) passes it on as one literal word; in particular it holds no space |
| Names.CommandWordsAreShellWords | heat_cuda_tests.py:64-66 | each of the six space-separated words of the command line is a non-empty run of shell-literal characters, so the shell hands the program exactly these words |
| Names.CommandArguments | heat_cuda_tests.py:64 | the command line splits on spaces into exactly six words: the executable, then size, step, image path, thread_x and thread_y |
| Names.CommandInjective | heat_cuda_tests.py:64 | two grid points with the same command line are the same point: size, step, thread_x and thread_y are all recoverable from the command |
| Extraction.MatchAt | heat_cuda_tests.py:69 | a match at a position captures a non-empty run of digits and dots |
| Extraction.MatchAtIsRegexMatch | heat_cuda_tests.py:69 | the scanner matches at position `i` with capture `v` exactly when the pattern matches there: the literal, some whitespace, then a maximal digit/dot run `v` |
| Extraction.Search | heat_cuda_tests.py:69 | the search finds nothing exactly when no position matches, and otherwise returns the capture at the first matching position |
| Extraction.ExecutionTime | heat_cuda_tests.py:69-71 | the extracted time is non-empty, holds only digits and dots, and holds no whitespace |
| Extraction.NoTimeIffNoMatch | heat_cuda_tests.py:69-70 | no time is extracted exactly when the pattern matches nowhere in the output |
| Extraction.TimeIsLeftmostMatch | heat_cuda_tests.py:69-71 | the extracted time is `v` exactly when `v` is the group of the leftmost position where the pattern matches |
| Extraction.ExtractsPlainTime | heat_cuda_tests.py:69-71 | `The Execution Time=3.14159` yields `3.14159` |
| Extraction.ExtractsSpacedTime | heat_cuda_tests.py:69-71 | `The Execution Time= 0.5` and a line break yield `0.5`: the whitespace and the line break are not captured |
| Grid.ExecutionOrder | heat_cuda_tests.py:58-60 | the points of the execution loop nest in visiting order; Grid.ExecutionOrderLength, Grid.ExecutionOrderAt, Grid.ExecutionOrderMembers and Grid.ExecutionOrderDistinct state its count, order and contents |
| Grid.AggregationOrder | heat_cuda_tests.py:106-109 | the points of the CSV loop nest in visiting order; Grid.AggregationOrderLength, Grid.AggregationOrderAt, Grid.AggregationOrderMembers and Grid.AggregationOrderDistinct state its count, order and contents |
| Grid.ExecutionOrderLength | heat_cuda_tests.py:58-60 | the execution pass makes exactly (number of sizes)·(number of steps)·(number of shapes) runs for every configuration, none when an axis is empty |
| Grid.AggregationOrderLength | heat_cuda_tests.py:106-109 | the CSV pass looks up (number of sizes)·(number of shapes)·(number of steps) points for every configuration, the same number as the execution pass runs |
| Grid.ExecutionOrderAt | heat_cuda_tests.py:58-60 | with S steps and T shapes, run number (a·S+b)·T+c of the execution pass is size a, step b, shape c (the run count itself is Grid.ExecutionOrderLength) |
| Grid.ExecutionOrderMembers | heat_cuda_tests.py:58-61 | the execution pass visits a point exactly when its coordinates come from the three axes |
| Grid.ExecutionOrderDistinct | heat_cuda_tests.py:58-60 | with duplicate-free axes, no point is visited twice |
| Grid.AggregationOrderAt | heat_cuda_tests.py:106-109 | with S steps and T shapes, lookup number (a·T+c)·S+b of the CSV pass is size a, shape c, step b (the lookup count is Grid.AggregationOrderLength) |
| Grid.AggregationOrderMembers | heat_cuda_tests.py:106-109 | the CSV pass looks up exactly the points the execution pass ran |
| Grid.AggregationOrderDistinct | heat_cuda_tests.py:106-109 | with duplicate-free axes, no point is looked up twice |
| Grid.ConfiguredGrid | heat_cuda_tests.py:23-37 | the configured axes are duplicate-free and give 120 distinct runs |
| Sweep.ReadResult | heat_cuda_tests.py:111-113 | the stripped content of a point's result file, or nothing when it is missing; Sweep.RunPoint and Text.StripAppendedSpace state that it returns what the execution pass stored |
| Sweep.Execute | heat_cuda_tests.py:57-83 | the execution pass over a sequence of points; Sweep.ExecuteFrame, Sweep.ExecuteReadBack and Sweep.SweepThenRead state what it writes and what it keeps |
| Sweep.Rows | heat_cuda_tests.py:106-116 | the rows the CSV pass emits; Sweep.RowsMembers, Sweep.RowsAppend and Sweep.MissingResultSkipped state which rows and in which order |
| Sweep.RowLine | heat_cuda_tests.py:114 | one CSV row; Sweep.RowLineFields states its five fields |
| Sweep.CsvText | heat_cuda_tests.py:105-116 | the text written to `heat_results.csv`; Sweep.CsvLines and Sweep.SweepThenAggregate state its lines and rows |
| Sweep.ImagePair | heat_cuda_tests.py:91-94 | the two paths compared for one point; Sweep.ImagePairsFollowRuns and Sweep.ReferenceIgnoresShape state which image and which reference |
| Sweep.RunPoint | heat_cuda_tests.py:69-82 | a run without a time leaves the store unchanged; a run with a time makes its result file read back that time; no other file changes |
| Sweep.ExecuteFrame | heat_cuda_tests.py:57-83 | a file that is no visited point's result file keeps its content, or stays absent, through the execution pass |
| Sweep.ExecuteReadBack | heat_cuda_tests.py:57-83 | after the execution pass over distinct points, each point reads back the time its own run printed, or its earlier content when the run printed none |
| Sweep.SweepThenRead | heat_cuda_tests.py:57-83 | starting with no result files, each grid point reads back exactly what its run's output yields: the time, or nothing |
| Sweep.RowsMembers | heat_cuda_tests.py:106-116 | the CSV pass emits a row exactly for each point with a result file, holding its size, step, thread_x·thread_y and stripped content, and no other row |
| Sweep.RowsAppend | heat_cuda_tests.py:106-116 | rows of consecutive stretches of points follow one another in visiting order |
| Sweep.MissingResultSkipped | heat_cuda_tests.py:111-116 | a missing result file drops only its own row; the rows after it still follow |
| Sweep.RowLineFields | heat_cuda_tests.py:114 | a row line splits on commas into `CUDA`, size, step, thread count and time |
| Sweep.CsvLines | heat_cuda_tests.py:105-114 | the CSV text is the header `config,size,step,threads,time` and then one line per row, in order, each line ended by a line break |
| Sweep.WriteCsv | heat_cuda_tests.py:102-105 | writing the CSV creates or replaces `heat_results.csv` and leaves every other file as it was |
| Sweep.WriteCsvIdempotent | heat_cuda_tests.py:102-116 | running the CSV pass twice leaves the same store as running it once |
| Sweep.SweepThenAggregate | heat_cuda_tests.py:57-116 | starting with no result files, the CSV after the execution pass holds a row for a point with time `t` exactly when that point's run printed `t` |
| Sweep.ImagePairs | heat_cuda_tests.py:87-94 | the image check compares one pair per run of the execution pass; Sweep.ImagePairsFollowRuns states which pair belongs to which run |
| Sweep.ImagePairsFollowRuns | heat_cuda_tests.py:58-64 | the k-th pair of the image check (lines 87-94) compares the image named by the fourth word of the k-th run's command line with the serial reference of that run's size and step |
| Sweep.ReferenceIgnoresShape | heat_cuda_tests.py:92-94 | two points are compared against the same reference image exactly when they share size and step |
| SweepExample.SinglePointRun | heat_cuda_tests.py:69-76 | a run printing `The Execution Time= 0.5` writes exactly one result file, holding `0.5` and a line break |
| SweepExample.SinglePointSweep | heat_cuda_tests.py:57-116 | a one-point sweep yields that file and the CSV lines `config,size,step,threads,time`, `CUDA,100,100,2,0.5` |

## Left out

- `compile_program` and `setup_folders` (lines 39-55) are left out. They are the `nvcc` call, `os.makedirs` and the `rm -f` shell calls. In the model, the state of the result folder before the sweep is a parameter. The end-to-end lemmas assume it holds no result file for any grid point, which is what the deleting setup provides.
- The image comparison itself (line 95, `cmp -s`) is a byte comparison done by a foreign program. Only the pairing of names is modelled.
- `time.sleep(1)` and every `print` (lines 65, 72, 78-84, 97-99, 116) are left out. They are timing and logging, with no result to state.
- The `__main__` block and its exception handlers (lines 118-141) are left out. The control flags are constants that run the execution and CSV passes.
- The CUDA program is not modelled. Each run contributes only an arbitrary stdout string; stderr, which the script only prints (line 82, logging left out above), and the exit status, which it never reads, are not modelled. The images the program itself writes under `bmp/` are outside the store, which holds only the files the script writes: the result files and `heat_results.csv`.
- Extraction.IsTimeChar: `\d` is limited to the ASCII digits `0`-`9` (Decimal.IsDigit). Python's `str` patterns also accept other Unicode decimal digits. This shapes Extraction.RegexMatchAt, Extraction.MatchAt, Extraction.Search and Extraction.ExecutionTime alike.
- Extraction.ExecutionTime: the captured text is not checked to be a well-formed number. Texts such as `.` or `1.2.3` are captured, as the regex captures them, and the script never parses them.
- Grid coordinates are naturals. Negative sizes, steps or thread counts, which `str(int)` would print with a minus sign, are not modelled. The configured values are all positive.
- Shell tokenisation is modelled only as far as Names.CommandWordsAreShellWords goes: the words hold no character `/bin/sh` treats specially, so no quoting, expansion or redirection applies.
- File contents are strings. Text-mode newline translation and encodings are not modelled.
