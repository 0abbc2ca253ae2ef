/**
 * The plotter objects: `BasePlotter` with its residual buffer, line counter and
 * series, updated in place by `read_lines` and `process_lines`, and the three
 * concrete plotters, which differ in grammar, log file and decimation.
 */
module Plotters {
  import Grammars
  import Lines
  import Series

  /** `os.read(self.fd, 40960)` returns at most this many bytes. */
  const ReadSize: nat := 40960

  /** `x_last_=90`: the default span of the trailing window, in seconds. */
  const DefaultSpan: real := 90.0

  /** The three concrete plotters. */
  datatype Kind = Jitt | Latency | FreqEstimator

  /** The jitter grammar can feed a series: valid, with a `ts` group and measurement groups. */
  lemma JittSchema()
    ensures Series.Schema(Grammars.Jitt)
  {
    Grammars.KnownGrammarsValid();
    Grammars.JittNames();
  }

  /** The latency grammar can feed a series. */
  lemma LatencySchema()
    ensures Series.Schema(Grammars.Latency)
  {
    Grammars.KnownGrammarsValid();
    Grammars.LatencyNames();
  }

  /** The frequency estimator grammar can feed a series. */
  lemma FreqEstimatorSchema()
    ensures Series.Schema(Grammars.FreqEstimator)
  {
    Grammars.KnownGrammarsValid();
    Grammars.FreqEstimatorNames();
  }

  /** The grammar each plotter compiles. */
  function KindGrammar(k: Kind): (g: Grammars.Grammar)
    ensures Series.Schema(g)
  {
    match k
    case Jitt => JittSchema(); Grammars.Jitt
    case Latency => LatencySchema(); Grammars.Latency
    case FreqEstimator => FreqEstimatorSchema(); Grammars.FreqEstimator
  }

  /** The log file each plotter follows. */
  function KindPath(k: Kind): (p: string)
    ensures |p| > 9 && p[..5] == "/tmp/" && p[|p| - 4..] == ".log"
  {
    match k
    case Jitt => "/tmp/jitt.log"
    case Latency => "/tmp/tuner.log"
    case FreqEstimator => "/tmp/fe.log"
  }

  /** The `decimate` argument each plotter's `__call__` passes to `process_lines`. */
  function KindDecimate(k: Kind): (d: int)
    ensures d >= 1
  {
    match k
    case Jitt => 1
    case Latency => 8
    case FreqEstimator => 1
  }

  /** The measurement fields each plotter's `__call__` looks up to draw its curves. */
  function PlottedFields(k: Kind): (fs: set<string>)
    ensures fs != {} && "ts" !in fs
  {
    match k
    case Jitt => {"delta_ms", "jitter_max", "jitter_min"}
    case Latency => {"niq", "target"}
    case FreqEstimator => {"filtered", "target", "p", "i"}
  }

  /** Only the Latency plotter decimates. */
  lemma OnlyLatencyDecimates(k: Kind)
    ensures KindDecimate(k) > 1 <==> k == Latency
  {
  }

  /** The jitter plot draws measurement fields of the jitter grammar. */
  lemma JittPlotted()
    ensures PlottedFields(Jitt) <= Series.DataNames(Grammars.Jitt)
  {
    Grammars.JittNames();
  }

  /** The latency plot draws measurement fields of the latency grammar. */
  lemma LatencyPlotted()
    ensures PlottedFields(Latency) <= Series.DataNames(Grammars.Latency)
  {
    Grammars.LatencyNames();
  }

  /** The frequency estimator plots draw measurement fields of its grammar. */
  lemma FreqEstimatorPlotted()
    ensures PlottedFields(FreqEstimator) <= Series.DataNames(Grammars.FreqEstimator)
  {
    Grammars.FreqEstimatorNames();
  }

  /** Every field a plotter draws is a measurement field of its grammar. */
  lemma PlottedFieldsDeclared(k: Kind)
    ensures PlottedFields(k) <= Series.DataNames(KindGrammar(k))
  {
    match k
    case Jitt => JittPlotted();
    case Latency => LatencyPlotted();
    case FreqEstimator => FreqEstimatorPlotted();
  }

  /**
   * Once a plotter's measurements are not empty, each lookup of `__call__` finds
   * an array as long as the timestamps.
   */
  lemma PlottedFieldsPresent(k: Kind, ts: seq<real>, meas: map<string, seq<real>>)
    requires Series.Consistent(KindGrammar(k), ts, meas) && meas != map[]
    ensures forall f :: f in PlottedFields(k) ==> f in meas && |meas[f]| == |ts|
  {
    PlottedFieldsDeclared(k);
    assert meas.Keys != {} by {
      var f :| f in meas;
    }
  }

  /** Taking one more key out of what is left makes what is left smaller. */
  lemma SetShrinks(all: set<string>, done: set<string>, k: string)
    requires k in all - done
    ensures |all - (done + {k})| < |all - done|
  {
    assert all - done == (all - (done + {k})) + {k};
  }

  class BasePlotter {
    /** The compiled grammar of the log's lines. */
    const regexp: Grammars.Grammar
    /** The span of the trailing window, in seconds. */
    const xLast: real
    /** `BasePlotter.start_time`, in nanoseconds. */
    const startTime: int
    /** The bytes after the last terminator read so far. */
    var textResidual: string
    /** The number of complete lines read since the plotter was created. */
    var lineCounter: nat
    /** The timestamps of the retained samples, in seconds since `startTime`. */
    var ts: seq<real>
    /** One array per measurement field, aligned with `ts`. */
    var measurements: map<string, seq<real>>

    /** The updatable state, as the value that `Series.Step` works on. */
    ghost function Snapshot(): Series.State
      reads this
    {
      Series.State(textResidual, lineCounter, ts, measurements)
    }

    ghost predicate Valid()
      reads this
    {
      Series.Schema(regexp) && Series.Consistent(regexp, ts, measurements)
    }

    /**
     * `__init__` (a concrete plotter passes its `KindGrammar` and `DefaultSpan`):
     * no residual, no line counted, no series. Opening the file and seeking to
     * its end are left to the caller, who passes the bytes read after that point
     * to `ProcessLines`.
     */
    constructor (regexp: Grammars.Grammar, startTime: int, xLast: real)
      requires Series.Schema(regexp)
      ensures Valid()
      ensures this.regexp == regexp && this.startTime == startTime && this.xLast == xLast
      ensures textResidual == "" && lineCounter == 0 && ts == [] && measurements == map[]
    {
      this.regexp := regexp;
      this.startTime := startTime;
      this.xLast := xLast;
      textResidual := "";
      lineCounter := 0;
      ts := [];
      measurements := map[];
    }

    /**
     * `read_lines` on the chunk the read returned: the complete lines, with the
     * bytes after the last terminator kept for the next call.
     */
    method ReadLines(chunk: string) returns (lines: seq<string>)
      requires |chunk| <= ReadSize
      modifies this`textResidual
      ensures (lines, textResidual) == Lines.SplitLines(old(textResidual), chunk)
    {
      lines := Lines.Split(textResidual + chunk);
      var newResidual := lines[|lines| - 1];
      lines := lines[..|lines| - 1];
      if newResidual != "" && newResidual[|newResidual| - 1] == '\n' {
        // The last piece of a split never holds a terminator.
        assert false;
      }
      textResidual := newResidual;
    }

    /**
     * `process_lines(decimate)` on the chunk the read returned: the new state is
     * `Series.Step` of the old one, so the series invariant is kept.
     */
    method ProcessLines(chunk: string, decimate: int, toReal: string -> real)
      requires Valid() && decimate != 0 && |chunk| <= ReadSize
      modifies this
      ensures Valid()
      ensures Snapshot() == Series.Step(regexp, xLast, startTime, old(Snapshot()), chunk, decimate, toReal)
    {
      ghost var s0 := Snapshot();
      var logStrings := ReadLines(chunk);
      if |logStrings| == 0 {
        return;
      }
      ProcessBatch(logStrings, decimate, toReal, s0);
    }

    /**
     * `process_lines` once `read_lines` has returned complete lines: count and
     * match them, append, and apply the window; `s0` is the state before the read.
     */
    method ProcessBatch(logStrings: seq<string>, decimate: int, toReal: string -> real, ghost s0: Series.State)
      requires Valid() && decimate != 0
      requires s0.counter == lineCounter && s0.ts == ts && s0.meas == measurements
      modifies this`lineCounter, this`ts, this`measurements
      ensures Valid()
      ensures Snapshot() == Series.Advance(regexp, xLast, startTime, s0, logStrings, textResidual, decimate, toReal)
    {
      ghost var c0, ts0, meas0 := lineCounter, ts, measurements;
      var d := CollectMatches(logStrings, decimate);
      AppendBatch(d, decimate, toReal);
      assert (ts, measurements) == Series.Appended(regexp, c0, ts0, meas0, logStrings, decimate, toReal, startTime);
      ghost var ts1, meas1 := ts, measurements;
      TrimToWindow();
      assert (ts, measurements) == Series.Window(ts1, meas1, xLast);
    }

    /**
     * The first loop of `process_lines`: count every line, keep every
     * `decimate`-th, match it and fold its groups into the dictionary `d`.
     */
    method CollectMatches(logStrings: seq<string>, decimate: int) returns (d: map<string, seq<string>>)
      requires Grammars.ValidGrammar(regexp) && decimate != 0
      modifies this`lineCounter
      ensures lineCounter == old(lineCounter) + |logStrings|
      ensures d == Series.Batch(regexp, old(lineCounter), logStrings, decimate)
    {
      var c0 := lineCounter;
      d := map[];
      for i := 0 to |logStrings|
        invariant lineCounter == c0 + i
        invariant d == Series.Batch(regexp, c0, logStrings[..i], decimate)
      {
        var s := logStrings[i];
        lineCounter := lineCounter + 1;
        Series.BatchNext(regexp, c0, logStrings, i, decimate, lineCounter);
        if lineCounter % decimate != 0 {
          continue;
        }
        var m := Grammars.Match(regexp, s);
        if m.None? {
          continue;
        }
        d := Series.AddRecord(d, m.value);
      }
      assert logStrings[..|logStrings|] == logStrings;
    }

    /**
     * The second loop of `process_lines`: convert, slice again and append every
     * field of `d`, in any order, the `ts` field to `ts` and the others to their
     * measurement arrays.
     */
    method AppendBatch(d: map<string, seq<string>>, decimate: int, toReal: string -> real)
      modifies this`ts, this`measurements
      ensures ts == Series.MergeTs(old(ts), d, d.Keys, decimate, toReal, startTime)
      ensures measurements == Series.MergeMeas(old(measurements), d, d.Keys, decimate, toReal)
    {
      var ts0, meas0 := ts, measurements;
      var done: set<string> := {};
      while done != d.Keys
        invariant done <= d.Keys
        invariant ts == Series.MergeTs(ts0, d, done, decimate, toReal, startTime)
        invariant measurements == Series.MergeMeas(meas0, d, done, decimate, toReal)
        decreases |d.Keys - done|
      {
        var k :| k in d.Keys - done;
        Series.MergeTsStep(ts0, d, done, k, decimate, toReal, startTime);
        Series.MergeMeasStep(meas0, d, done, k, decimate, toReal);
        var v := Series.Floats(d[k], toReal);
        if decimate > 1 {
          v := Series.Stride(v, decimate);
        }
        assert v == Series.Prepare(d[k], decimate, toReal);
        if k == "ts" {
          ts := ts + Series.Rescale(v, startTime);
        } else if k in measurements {
          measurements := measurements[k := measurements[k] + v];
        } else {
          measurements := measurements[k := v];
        }
        SetShrinks(d.Keys, done, k);
        done := done + {k};
      }
    }

    /**
     * The end of `process_lines`: when there are timestamps, keep the samples of
     * the trailing window, cutting `ts` and every measurement array with the same
     * positions.
     */
    method TrimToWindow()
      requires Series.Aligned(ts, measurements)
      modifies this`ts, this`measurements
      ensures ts == Series.Window(old(ts), old(measurements), xLast).0
      ensures measurements == Series.Window(old(ts), old(measurements), xLast).1
    {
      if |ts| == 0 {
        return;
      }
      var n := |ts|;
      var idx := Series.Indices(ts, Series.WindowStart(ts, xLast), ts[n - 1]);
      Series.WindowCut(ts, measurements, xLast);
      ts := Series.Pick(ts, idx);
      CutMeasurements(idx, n);
    }

    /** Cuts every measurement array down to the positions in `idx`, one key at a time in any order. */
    method CutMeasurements(idx: seq<nat>, n: nat)
      requires forall k :: k in measurements ==> |measurements[k]| == n
      requires forall j :: 0 <= j < |idx| ==> idx[j] < n
      modifies this`measurements
      ensures measurements == Series.Restrict(old(measurements), idx, old(measurements).Keys, n)
    {
      var meas1 := measurements;
      var m := meas1;
      var cut: set<string> := {};
      while cut != meas1.Keys
        invariant cut <= meas1.Keys
        invariant m == Series.Restrict(meas1, idx, cut, n)
        decreases |meas1.Keys - cut|
      {
        var k :| k in meas1.Keys - cut;
        Series.RestrictAt(meas1, idx, cut, n, k);
        Series.RestrictStep(meas1, idx, cut, n, k);
        m := m[k := Series.Pick(m[k], idx)];
        SetShrinks(meas1.Keys, cut, k);
        cut := cut + {k};
      }
      measurements := m;
    }

    /**
     * A concrete plotter's `__call__`, up to drawing: process the new lines with
     * the plotter's decimation, then draw only when there are measurements, in
     * which case every field it draws is there, aligned with `ts`.
     */
    method Call(k: Kind, chunk: string, toReal: string -> real) returns (draws: bool)
      requires Valid() && regexp == KindGrammar(k) && xLast == DefaultSpan && |chunk| <= ReadSize
      modifies this
      ensures Valid()
      ensures Snapshot() == Series.Step(regexp, xLast, startTime, old(Snapshot()), chunk, KindDecimate(k), toReal)
      ensures draws <==> measurements != map[]
      ensures draws ==> forall f :: f in PlottedFields(k) ==> f in measurements && |measurements[f]| == |ts|
    {
      ProcessLines(chunk, KindDecimate(k), toReal);
      draws := measurements != map[];
      if draws {
        PlottedFieldsPresent(k, ts, measurements);
      }
    }
  }
}
