# Log plotters: incremental ingestion, decimation and trailing window

This project models the ingestion core of the live log plotters in
`logplotters.py`. A `BasePlotter` follows a growing log file. On every wake-up
it reads what was appended since the last read and does four things:

- It splits the text into complete lines and keeps the unterminated tail (the
  *residual*) for the next read.
- It counts every line and keeps only every `decimate`-th one.
- It matches the kept lines against the plotter's fixed line grammar. It
  collects each named group into a per-field dictionary `d`, slices each
  field again by `decimate`, and appends the values. The `ts` field goes to
  the timestamp array; every other field goes to its measurement array.
- It cuts the timestamp array and every measurement array down to the samples
  of the trailing window `[max(ts[0], ts[-1] - x_last), ts[-1]]`.

Three concrete plotters use this:

| plotter | log file | grammar | decimate |
|---|---|---|---|
| `JittPlotter` | `/tmp/jitt.log` | `ts, stream_ts, delta_ms, jitter_max, jitter_min` | 1 |
| `LatencyPlotter` | `/tmp/tuner.log` | `ts, niq, target` | 8 |
| `FreqEstimatorPlotter` | `/tmp/fe.log` | `ts, filtered, target, p, i` | 1 |

Each grammar separates its fields by a comma. The jitter and latency grammars
want exactly one whitespace character after each comma (`,\s`). The estimator
grammar accepts any number, including none (`,\s*`).

## Files

- `wrappers.dfy`: module `Wrappers`, holding `Option`.
- `lines.dfy`: module `Lines`.
  - Python's `bytes.split(b'\n')` as `Split`.
  - One `read_lines` call as the function `SplitLines`.
  - Reading a log chunk by chunk as `ReadAll`.
- `grammars.dfy`: module `Grammars`. The three anchored regular expressions
  are written as deterministic scanners.
  - No field class admits a comma or whitespace, so each field is the longest
    run of its class.
  - The scanners are proved to accept exactly the lines built from
    well-formed field texts and separators (`Render`).
- `series.dfy`: module `Series`. One `process_lines` call written as functions
  of the state before the call:
  - decimation: `Kept`;
  - matching: `Matching`;
  - the dictionary `d`: `Batch`;
  - slicing: `Stride`;
  - appending: `Appended`;
  - the window: `Window`;
  - the whole call: `Step`.
- `plotters.dfy`: module `Plotters`.
  - The class `BasePlotter`, with the fields the source updates in place:
    `textResidual`, `lineCounter`, `ts`, `measurements`.
  - Its methods `ReadLines` and `ProcessLines`. They are written with the
    source's loops and are proved to return the state `Series.Step` specifies.
  - The series invariant `Series.Consistent` is kept throughout. It says every
    measurement array is as long as `ts`, and the keys are either none or all
    the grammar's measurement fields.
  - The three concrete plotters are the values of `Kind`.

Where the code and its description disagree, the model follows the code:

- Decimation counts every complete line, not only the lines that match.
- The counter runs across calls (`KeptConcat`).
- The values of one call are sliced a second time by `v[::decimate]`. That
  slice starts again at every call, so how many samples reach the arrays
  depends on how the lines are split across reads. `LatencyPlotter` decimates
  by 8. Sixteen matching latency lines read in one call from counter 0 append
  one timestamp. The same lines read as two calls of eight append one each
  (`BatchingMatters`). Of 8·n matching lines the counter keeps n. When
  each call keeps many of them, the slice reduces those n to about n/8 in
  total. A call that keeps between one and eight matching lines appends
  exactly one timestamp (`OneCall`), so reads that each keep few lines push
  the total towards n.
- The latest sample survives the window only when `ts[0] <= ts[-1]` and
  `x_last >= 0`. Otherwise the window is empty and every array is emptied
  (`WindowKeepsLatest`). With timestamps that never decrease, the first
  condition always holds.

## Model

| member | source | states |
|---|---|---|
| Lines.SplitLines | logplotters.py:27-32 | The lines, each followed by `\n`, then the new residual, give back residual + chunk exactly. No line and no residual holds `\n`. The number of lines is the number of terminators. |
| Lines.Split | logplotters.py:27 | `split(b'\n')` always yields at least one piece, and no piece holds `\n`. `SplitJoin` and `JoinSplit` show it is the inverse of joining. |
| Lines.SplitJoin | logplotters.py:27 | Joining the pieces of `split(b'\n')` with `\n` gives back the text. |
| Lines.JoinSplit | logplotters.py:27 | Splitting a join of terminator-free pieces gives back the pieces. Split and join are inverses. |
| Lines.SplitCount | logplotters.py:27-28 | `split` yields one more piece than there are terminators, so `pop()` always has a piece to take. |
| Lines.NoCompleteLine | logplotters.py:27-28 | A call returns no line exactly when residual and chunk hold no terminator. All of the text is then kept as the residual. |
| Lines.ResidualEmpty | logplotters.py:28-32 | The new residual is empty exactly when the buffered text is empty or ends with `\n`. So the `endswith` branch never fires. |
| Lines.ReadAllRoundTrip | logplotters.py:26-33 | Over any number of reads, all returned lines (terminated) plus the last residual equal the first residual followed by every chunk. |
| Lines.ReadAll | logplotters.py:26-33 | Over any sequence of reads, no returned line holds `\n`. `ReadAllRoundTrip` and `ReadAllResidual` give the rest. |
| Lines.ReadAllResidual | logplotters.py:28-32 | The residual never holds a terminator after any number of reads. |
| Lines.LogRoundTrip | logplotters.py:23-33 | Reading a log from its opening point loses and duplicates nothing. A partial line is left over exactly when the text is non-empty and does not end with `\n`. |
| Plotters.BasePlotter.ReadLines | logplotters.py:26-33 | The method returns the lines and sets the residual exactly as `SplitLines` does. In the dead `endswith` branch, the verifier refutes the branch condition. |
| Grammars.Run | logplotters.py:98 | A greedy `k*` takes a prefix of class `k`, and stops only at the end or at a character outside `k`. |
| Grammars.RunStops | logplotters.py:98 | A run followed by a character outside its class is consumed whole. |
| Grammars.SepWidth | logplotters.py:98 | A separator found after a comma is a prefix of whitespace, exactly one character wide under `,\s` (logplotters.py:98 and 118); under `,\s*` (137) it may be any width. |
| Grammars.ScanField | logplotters.py:98 | One field step cuts the text after its comma into separator, value and remainder, whose lengths add up to that text. `ScanFieldSound` and `ScanFieldCons` give the contents in both directions. The same step serves the grammars at lines 118 and 137. |
| Grammars.ScanTail | logplotters.py:98 | An accepted tail yields one value and one separator per field. `ScanTailSound` and `ScanTailComplete` give the if-and-only-if with `RenderTail`. |
| Grammars.Scan | logplotters.py:98 | An accepted line yields one value per field and one separator per comma. `ScanSound` and `ScanComplete` give the if-and-only-if with `Render`. |
| Grammars.Match | logplotters.py:47-50 | A match binds exactly the grammar's group names. `MatchSound` and `MatchComplete` give the if-and-only-if with well-formed renderings. |
| Grammars.Names | logplotters.py:98 | The group names are exactly the names of the grammar's fields. |
| Grammars.GroupDict | logplotters.py:50 | `groupdict()` has exactly the grammar's group names as keys. |
| Grammars.ScanFieldSound | logplotters.py:98 | One field step consumes a comma, whitespace (exactly one character under `,\s`) and a maximal run of the field's class. |
| Grammars.ScanFieldCons | logplotters.py:98 | One field step takes back exactly the separator and value placed before a comma or the end of the line. |
| Grammars.ScanTailSound | logplotters.py:98 | What the tail scanner accepts is a well-formed rendering of its result. |
| Grammars.ScanTailComplete | logplotters.py:98 | The tail scanner accepts every well-formed tail and recovers the tail's pieces. |
| Grammars.ScanSound | logplotters.py:98 | An accepted line is the rendering of well-formed field texts and separators. |
| Grammars.ScanComplete | logplotters.py:98 | Every well-formed line is accepted and its pieces are recovered, so the scanner and `Render` are inverses. |
| Grammars.GroupDictAt | logplotters.py:50 | Because group names are distinct, each name is bound to its own field's text. |
| Grammars.MatchSound | logplotters.py:47-50 | A match binds exactly the grammar's names. The line is a well-formed rendering, and each name holds its field's text. |
| Grammars.MatchComplete | logplotters.py:47-50 | Every well-formed line matches, binding each name to its field's text. |
| Grammars.ScanHead | logplotters.py:118 | A first field ending at a comma leaves the rest of the line to the tail scanner. |
| Grammars.OneSpaceRefusesTwo | logplotters.py:118 | Under `,\s`, a comma followed by two whitespace characters never matches. |
| Grammars.OneSpaceRefusesNone | logplotters.py:118 | Under `,\s`, a comma not followed by whitespace never matches. |
| Grammars.KnownGrammarsValid | logplotters.py:97-98 | The three grammars have distinct group names and no whitespace field. |
| Grammars.JittNames | logplotters.py:98 | The jitter grammar's names are ts, stream_ts, delta_ms, jitter_max and jitter_min. |
| Grammars.LatencyNames | logplotters.py:118 | The latency grammar's names are ts, niq and target. |
| Grammars.FreqEstimatorNames | logplotters.py:137 | The estimator grammar's names are ts, filtered, target, p and i. |
| Grammars.JittFields | logplotters.py:98 | A jitter match yields exactly the groups ts, stream_ts, delta_ms, jitter_max and jitter_min. |
| Grammars.LatencyFields | logplotters.py:118 | A latency match yields exactly ts, niq and target. |
| Grammars.FreqEstimatorFields | logplotters.py:137-138 | An estimator match yields exactly ts, filtered, target, p and i. |
| Grammars.LatencyOneSpace | logplotters.py:118 | `100, 5, 1.0` matches the latency grammar with ts=100, niq=5 and target=1.0. |
| Grammars.LatencyTwoSpaces | logplotters.py:118 | `100,  5, 1.0` (two spaces) does not match. |
| Grammars.LatencyNoSpace | logplotters.py:118 | `100,5, 1.0` (no space) does not match. |
| Grammars.LatencyEmptyFields | logplotters.py:118 | `, , ` matches, with every group the empty text (`\d*` takes nothing). |
| Grammars.FreqEstimatorSpacing | logplotters.py:137 | `1,2,  3.5, -1e-3, 4` matches the estimator grammar (no space, two spaces, one space), with the expected groups. |
| Series.KeptAll | logplotters.py:43-46 | With `decimate` 1 every line reaches the matcher. |
| Series.Kept | logplotters.py:43-46 | Decimation keeps at most the lines it is given. The count is in `KeptCount`, membership in `KeptFrom` and composition across calls in `KeptConcat`. |
| Series.KeptFrom | logplotters.py:43-46 | Every kept line is one of the call's lines. |
| Series.KeptConcat | logplotters.py:44-45 | Decimation continues across calls: two calls decimate as one call over both batches of lines would. |
| Series.KeptCount | logplotters.py:43-46 | Exactly the multiples of `decimate` among the counter values `c0+1 .. c0+n` are kept: `(c0+n)/d - c0/d` lines. |
| Series.Matching | logplotters.py:47-50 | At most one group dictionary per kept line. Each has exactly the grammar's group names. |
| Series.NoneMatching | logplotters.py:47-49 | Lines that fail the grammar yield no group dictionary. |
| Series.AllMatching | logplotters.py:47-50 | When every line matches, there is one group dictionary per line. |
| Series.KeptAllMatch | logplotters.py:43-50 | When every line of a call matches, every kept line yields a group dictionary. |
| Series.AddRecord | logplotters.py:51 | Folding one match into `d` leaves exactly the match's names as keys. Contents are stated by `AddRecordShape` and `ColumnsShape`. |
| Series.AddRecordShape | logplotters.py:51 | Folding one more match into a `d` of the shape `ColumnsShape` states extends every list by that match's text, keeping the shape. |
| Series.Columns | logplotters.py:42-51 | With no match, `d` is empty. Otherwise its keys are those of the last match. |
| Series.ColumnsShape | logplotters.py:51 | `d` has all the group names or none. Its list for a name holds that group's texts in line order, one per matching line. |
| Series.BatchShape | logplotters.py:42-51 | For one call, `d` has the grammar's names (or none), and one text per kept matching line under each name. |
| Series.Batch | logplotters.py:42-51 | `d` for one call has either no keys or exactly the grammar's group names. |
| Series.BatchSnoc | logplotters.py:43-51 | One more line adds its groups to `d` exactly when its counter value is a multiple of `decimate` and it matches. |
| Series.BatchNext | logplotters.py:43-51 | `BatchSnoc` for the line at position `i` of a call, as the first loop meets it. |
| Series.StrideLength | logplotters.py:55-56 | `v[::step]` has `|v|/step` elements, rounded up. |
| Series.Stride | logplotters.py:55-56 | `v[::step]` is no longer than `v`, and it starts with `v[0]` when `v` is not empty. `StrideLength` and `StrideAt` give its length and elements. |
| Series.StrideAt | logplotters.py:55-56 | Element `j` of `v[::step]` is element `j*step` of `v`. |
| Series.StrideSameLength | logplotters.py:55-56 | Equally long arrays stay equally long after slicing. |
| Series.PrepareSameLength | logplotters.py:54-56 | Fields with equally many texts yield equally many values after conversion and slicing. |
| Series.Floats | logplotters.py:54 | The conversion yields one value per text. |
| Series.Prepare | logplotters.py:54-56 | Without decimation every text yields a value. With `decimate > 1`, there are no more values than texts, and the first text's value comes first. |
| Series.Rescale | logplotters.py:58 | Rescaling yields one timestamp per value. |
| Series.MergeTs | logplotters.py:53-58 | Appending never changes the timestamps already there: the old array is a prefix of the new one. |
| Series.MergeMeas | logplotters.py:53-63 | Appending adds exactly the data fields of `d` that were appended to the measurement keys. Every old array is a prefix of its new array. |
| Series.MergeTsStep | logplotters.py:53-58 | Appending one more field of `d`: only `ts` goes to the timestamp array. |
| Series.MergeMeasStep | logplotters.py:53-63 | Appending one more field of `d` appends it to its measurement array or starts that array. `ts` goes nowhere here. |
| Series.MergeEmpty | logplotters.py:53 | An empty `d` appends nothing. |
| Series.MergeMeasKeys | logplotters.py:57-63 | After the loop, the measurement fields are the old ones plus those of `d` other than `ts`. |
| Series.MergeMeasAt | logplotters.py:60-63 | A field's array after the loop is its old array, if any, followed by the field's new values. |
| Series.MergeConsistent | logplotters.py:53-63 | Appending a `d` of the grammar's shape keeps every array aligned with `ts`. The measurement keys become exactly the data fields. |
| Series.MergeFieldLength | logplotters.py:53-63 | After a full `d` is appended, each measurement field is as long as `ts`. |
| Series.MergeEqual | logplotters.py:53-63 | Every measurement field receives exactly as many values as `ts`. |
| Series.Appended | logplotters.py:42-63 | Decimating, matching, folding and appending keeps the series invariant. |
| Series.AppendCount | logplotters.py:42-58 | A call appends one timestamp per kept matching line, or for `decimate > 1` one per element of those sliced by `decimate`. |
| Series.AppendEqual | logplotters.py:53-63 | Once anything matched, every measurement field (started on the first such call) grows by as many values as `ts`. |
| Series.AppendNothing | logplotters.py:47-49 | When no kept line matches, no array changes. |
| Series.OneCall | logplotters.py:42-58 | A call at decimation 8 whose lines all match, and which keeps between one and eight of them, appends exactly one timestamp. |
| Series.BatchingMatters | logplotters.py:42-58 | Unlike decimation, the second slicing does not compose across calls. At decimation 8, sixteen matching lines in one call from counter 0 append one timestamp, while two calls of eight append one each. |
| Series.Indices | logplotters.py:70 | `np.where`: the positions, increasing, whose timestamp lies in `[lo, hi]`, and every such position. |
| Series.Pick | logplotters.py:71 | `v[idx]` has one element per index. |
| Series.RestrictStep | logplotters.py:72-73 | The truncation loop cuts one more array with the same positions. |
| Series.Restrict | logplotters.py:72-73 | Truncation keeps every measurement key. Arrays already cut hold one value per retained position, the others keep their length. |
| Series.RestrictAt | logplotters.py:72-73 | An array the loop has not yet cut is unchanged. |
| Series.Window | logplotters.py:65-73 | The window keeps every measurement key, keeps the arrays aligned and never grows `ts`. With no timestamps, nothing is truncated. |
| Series.IndicesLength | logplotters.py:70 | There are no more retained positions than samples. |
| Series.WindowBounds | logplotters.py:68-71 | Every retained timestamp lies in `[max(ts[0], ts[-1] - x_last), ts[-1]]`. |
| Series.WindowStart | logplotters.py:69 | The window's lower end is at least `ts[0]` and at least `ts[-1] - x_last`, and it is one of the two. |
| Series.WindowSameIndices | logplotters.py:68-73 | There is a single increasing index list: exactly the in-window positions, applied to `ts` and to every measurement array. |
| Series.WindowKeepsLatest | logplotters.py:68-71 | The latest sample survives exactly when `ts[0] <= ts[-1]` and `x_last >= 0`, and then it is last. |
| Series.WindowSorted | logplotters.py:70-71 | Nondecreasing timestamps stay nondecreasing. |
| Series.Step | logplotters.py:38-73 | One call keeps the series invariant. |
| Series.Advance | logplotters.py:42-73 | A call with complete lines sets the residual and raises the counter by the number of lines, keeping the invariant. |
| Series.StepCounter | logplotters.py:39-44 | The counter grows by the number of terminators read. The residual is the split's tail and holds no terminator. |
| Series.StepNoCompleteLine | logplotters.py:39-41 | Without a complete line, only the residual changes (it becomes residual + chunk). Counter, `ts` and measurements stay as they were. |
| Series.StepNothingMatched | logplotters.py:39-73 | When no kept line matches, nothing is appended. A call with lines only applies the window, and a call without any changes no array. |
| Plotters.BasePlotter.constructor | logplotters.py:12-24 | The plotter starts with no residual, a zero counter, no timestamps and no measurements. |
| Plotters.BasePlotter.ProcessLines | logplotters.py:38-73 | The new state is `Series.Step` of the old one, and the invariant is kept. |
| Plotters.BasePlotter.ProcessBatch | logplotters.py:42-73 | After lines were read, the state becomes `Series.Advance` of the state before the read. |
| Plotters.BasePlotter.CollectMatches | logplotters.py:42-51 | The first loop raises the counter by the number of lines and builds `d` equal to `Series.Batch`. |
| Plotters.BasePlotter.AppendBatch | logplotters.py:53-63 | The second loop, in any key order, yields `MergeTs` and `MergeMeas` of all of `d`. |
| Plotters.BasePlotter.TrimToWindow | logplotters.py:65-73 | `ts` and the measurements become `Series.Window` of their old values. |
| Plotters.BasePlotter.CutMeasurements | logplotters.py:72-73 | Every measurement array is cut to the same positions. |
| Plotters.BasePlotter.Call | logplotters.py:100-154 | A plotter's call, on the default span of 90 seconds, is `Series.Step` with its own decimation. It draws exactly when there are measurements, and then every plotted field is present and aligned with `ts`. |
| Plotters.KindGrammar | logplotters.py:95-141 | Each plotter's grammar is valid, has a `ts` group and has at least one measurement group. |
| Plotters.KindDecimate | logplotters.py:104-145 | Every plotter's decimation is at least 1. |
| Plotters.KindPath | logplotters.py:99-139 | Every plotter follows a `.log` file under `/tmp/`. |
| Plotters.PlottedFields | logplotters.py:109-154 | Every plotter draws at least one field, and never `ts` itself. |
| Plotters.OnlyLatencyDecimates | logplotters.py:124 | Only the latency plotter passes `decimate > 1` (it passes 8). |
| Plotters.PlottedFieldsDeclared | logplotters.py:109-131 | Every field a plotter draws is a measurement field of its grammar. |
| Plotters.PlottedFieldsPresent | logplotters.py:106-131 | Once the measurements are not empty, every looked-up field is there and as long as `ts`. |

## Left out

- File access (`os.open`, `os.lseek`, `os.read`, `fileno`, logplotters.py:21-22, 27, 35-36). The bytes one read returns are the `chunk` parameter, at most `ReadSize` of them.
- `BasePlotter.start_time` comes from the clock when the class is loaded. It is the `startTime` parameter.
- UTF-8 decoding (logplotters.py:33): strings stand for the decoded text, assuming the bytes are valid UTF-8. `\n` is one byte in UTF-8, so splitting before or after decoding gives the same lines. The `UnicodeDecodeError` path for invalid bytes is not modelled.
- The regular-expression engine is replaced by explicit scanners. `\d` is modelled as the ASCII digits only; Python also accepts other Unicode decimal digits in a `str` pattern. `\s` is the set `str.isspace` accepts.
- `float()` is the total parameter `toReal`. Python's `float` raises `ValueError` on texts the grammars admit, such as an empty field (`LatencyEmptyFields`) or `1.2.3`. That exception path is not modelled.
- Floating point: timestamps and values are exact reals. `(v - start_time) / 1e9` is `Series.Rescale` over reals, so rounding and NaN are not modelled.
- `decimate == 0` makes Python raise `ZeroDivisionError` at the `%`. The model requires `decimate != 0`.
- `plot` (logplotters.py:75-92) and the drawing in each `__call__`, including the unit conversions `/1e6` and `/44100*1e3`: matplotlib only. `Call` models a `__call__` up to the decision to draw.
- The concrete plotters' constructors: their grammar and log path are the functions `KindGrammar` and `KindPath` on `Kind`. They pass no span, so `x_last` keeps its default of 90 (`DefaultSpan`, which `Call` requires). The decimation each `__call__` passes to `process_lines` (logplotters.py:104, 124, 145) is `KindDecimate`. `FreqEstimatorPlotter`'s `twinx` axis and the axes themselves are not modelled.
- csvplotter.py (the `select` loop, figure setup, `plt.pause`) is not part of this model.
- Concurrency: none exists in the source; each call runs alone.
