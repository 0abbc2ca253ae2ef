/**
 * What one call of `BasePlotter.process_lines` does to a plotter's series, as
 * functions of the state before the call: decimation by the running line
 * counter, matching, the per-field dictionary `d`, the second slicing
 * `v[::decimate]`, appending, and the trailing-window truncation.
 */
module Series {
  import opened Wrappers
  import Grammars
  import Lines

  /** `(v - start_time) / 1e9` turns nanoseconds since process start into seconds. */
  const NanosPerSecond: real := 1000000000.0

  /** The fields `process_lines` updates: residual, line counter, timestamps and measurements. */
  datatype State = State(residual: string, counter: nat, ts: seq<real>, meas: map<string, seq<real>>)

  /** The measurement fields of a grammar: every group but `ts`. */
  function DataNames(g: Grammars.Grammar): set<string>
  {
    Grammars.Names(g.fields) - {"ts"}
  }

  /** A grammar that can feed a series: a valid grammar with a `ts` group and at least one other group. */
  predicate Schema(g: Grammars.Grammar)
  {
    Grammars.ValidGrammar(g) && "ts" in Grammars.Names(g.fields) && DataNames(g) != {}
  }

  /** Every measurement array is as long as the timestamp array. */
  predicate Aligned(ts: seq<real>, meas: map<string, seq<real>>)
  {
    forall k :: k in meas ==> |meas[k]| == |ts|
  }

  /**
   * The series invariant: arrays aligned with `ts`, and either no measurement
   * array yet (and then no timestamp either) or one per measurement field.
   */
  predicate Consistent(g: Grammars.Grammar, ts: seq<real>, meas: map<string, seq<real>>)
  {
    Aligned(ts, meas) &&
    (meas.Keys == {} || meas.Keys == DataNames(g)) &&
    (meas.Keys == {} ==> ts == [])
  }

  // ----- decimation by the running line counter -----

  /**
   * The lines of one call that reach the matcher: line `i` (from 0) raises the
   * counter to `c0 + i + 1`, and is kept when that value is a multiple of
   * `decimate`. Python's `%` and Dafny's agree on whether a remainder is zero.
   */
  function Kept(c0: nat, lines: seq<string>, decimate: int): (r: seq<string>)
    requires decimate != 0
    ensures |r| <= |lines|
    decreases |lines|
  {
    if lines == [] then []
    else
      Kept(c0, lines[..|lines| - 1], decimate) +
      (if (c0 + |lines|) % decimate == 0 then [lines[|lines| - 1]] else [])
  }

  /** Only lines of the call reach the matcher. */
  lemma {:induction false} KeptFrom(c0: nat, lines: seq<string>, decimate: int)
    requires decimate != 0
    ensures forall i :: 0 <= i < |Kept(c0, lines, decimate)| ==> Kept(c0, lines, decimate)[i] in lines
    decreases |lines|
  {
    if lines != [] {
      var init := lines[..|lines| - 1];
      KeptFrom(c0, init, decimate);
      var prev := Kept(c0, init, decimate);
      var k := Kept(c0, lines, decimate);
      forall i | 0 <= i < |k|
        ensures k[i] in lines
      {
        if i < |prev| {
          assert k[i] == prev[i];
          var j :| 0 <= j < |init| && init[j] == prev[i];
          assert lines[j] == init[j];
        } else {
          assert k[i] == lines[|lines| - 1];
        }
      }
    }
  }

  /** Without decimation every line reaches the matcher. */
  lemma {:induction false} KeptAll(c0: nat, lines: seq<string>)
    ensures Kept(c0, lines, 1) == lines
    decreases |lines|
  {
    if lines != [] {
      KeptAll(c0, lines[..|lines| - 1]);
      assert lines[..|lines| - 1] + [lines[|lines| - 1]] == lines;
    }
  }

  /**
   * Decimation counts from the opening of the log, not per call: the lines of two
   * consecutive calls are decimated as if they had come in one.
   */
  lemma {:induction false} KeptConcat(c0: nat, a: seq<string>, b: seq<string>, decimate: int)
    requires decimate != 0
    ensures Kept(c0, a + b, decimate) == Kept(c0, a, decimate) + Kept(c0 + |a|, b, decimate)
    decreases |b|
  {
    if b == [] {
      assert a + b == a;
    } else {
      var b' := b[..|b| - 1];
      assert (a + b)[..|a + b| - 1] == a + b';
      assert (a + b)[|a + b| - 1] == b[|b| - 1];
      KeptConcat(c0, a, b', decimate);
    }
  }

  /** A positive multiple of `d` is at least `d`. */
  lemma {:induction false} MulAtLeast(d: int, k: int)
    requires d > 0 && k >= 1
    ensures d * k >= d
    decreases k
  {
    if k > 1 {
      MulAtLeast(d, k - 1);
      assert d * k == d * (k - 1) + d;
    }
  }

  /** Quotient and remainder are unique. */
  lemma DivUnique(x: int, d: int, q: int, r: int)
    requires d > 0 && 0 <= r < d && x == d * q + r
    ensures x / d == q
  {
    var q', r' := x / d, x % d;
    assert x == d * q' + r' && 0 <= r' < d;
    if q' < q {
      MulAtLeast(d, q - q');
    } else if q' > q {
      MulAtLeast(d, q' - q);
    }
  }

  /** Stepping a natural number past a multiple of `d` raises its quotient by one. */
  lemma DivStep(x: nat, d: int)
    requires d > 0
    ensures (x + 1) / d == x / d + (if (x + 1) % d == 0 then 1 else 0)
  {
    var q, r := x / d, x % d;
    if r == d - 1 {
      DivUnique(x + 1, d, q + 1, 0);
      assert (x + 1) % d == 0;
    } else {
      DivUnique(x + 1, d, q, r + 1);
      assert (x + 1) % d == r + 1;
    }
  }

  /** Exactly the multiples of `decimate` among counter values `c0 + 1 .. c0 + |lines|` are kept. */
  lemma {:induction false} KeptCount(c0: nat, lines: seq<string>, decimate: int)
    requires decimate > 0
    ensures |Kept(c0, lines, decimate)| == (c0 + |lines|) / decimate - c0 / decimate
    decreases |lines|
  {
    if lines != [] {
      KeptCount(c0, lines[..|lines| - 1], decimate);
      DivStep(c0 + |lines| - 1, decimate);
    }
  }

  // ----- matching and the dictionary `d` -----

  /** The group dictionaries of the lines that match, in order; lines that do not match leave nothing. */
  function Matching(g: Grammars.Grammar, lines: seq<string>): (r: seq<map<string, string>>)
    requires Grammars.ValidGrammar(g)
    ensures |r| <= |lines|
    ensures forall j :: 0 <= j < |r| ==> r[j].Keys == Grammars.Names(g.fields)
    decreases |lines|
  {
    if lines == [] then []
    else
      var prev := Matching(g, lines[..|lines| - 1]);
      match Grammars.Match(g, lines[|lines| - 1])
      case None => prev
      case Some(m) => prev + [m]
  }

  /** No line matches the grammar. */
  predicate NoneMatch(g: Grammars.Grammar, lines: seq<string>)
    requires Grammars.ValidGrammar(g)
  {
    forall i :: 0 <= i < |lines| ==> Grammars.Match(g, lines[i]).None?
  }

  /** When no line matches, there is no group dictionary at all. */
  lemma {:induction false} NoneMatching(g: Grammars.Grammar, lines: seq<string>)
    requires Grammars.ValidGrammar(g)
    requires NoneMatch(g, lines)
    ensures Matching(g, lines) == []
    decreases |lines|
  {
    if lines != [] {
      NoneMatching(g, lines[..|lines| - 1]);
    }
  }

  /**
   * Folding one group dictionary `m` into `d`: the new `d` has the names of `m`,
   * and each group's text goes at the end of its list, or starts one.
   */
  function AddRecord(d: map<string, seq<string>>, m: map<string, string>): (r: map<string, seq<string>>)
    ensures r.Keys == m.Keys
  {
    map k | k in m :: if k in d then d[k] + [m[k]] else [m[k]]
  }

  /** The dictionary `d` after a run of group dictionaries has been folded into it. */
  function Columns(recs: seq<map<string, string>>): (r: map<string, seq<string>>)
    ensures recs == [] ==> r == map[]
    ensures recs != [] ==> r.Keys == recs[|recs| - 1].Keys
    decreases |recs|
  {
    if recs == [] then map[] else AddRecord(Columns(recs[..|recs| - 1]), recs[|recs| - 1])
  }

  /**
   * When all group dictionaries have the same names, `d` has those names (or
   * none), and its list for a name holds that group's texts in line order.
   */
  lemma {:induction false} ColumnsShape(recs: seq<map<string, string>>, names: set<string>)
    requires forall j :: 0 <= j < |recs| ==> recs[j].Keys == names
    ensures Columns(recs).Keys == if recs == [] then {} else names
    ensures forall k :: k in Columns(recs) ==> |Columns(recs)[k]| == |recs|
    ensures forall k, j :: k in Columns(recs) && 0 <= j < |recs| ==> Columns(recs)[k][j] == recs[j][k]
    decreases |recs|
  {
    if recs != [] {
      var prefix := recs[..|recs| - 1];
      var m := recs[|recs| - 1];
      ColumnsShape(prefix, names);
      assert recs == prefix + [m];
      AddRecordShape(Columns(prefix), prefix, m, names);
    }
  }

  /** Folding one more group dictionary with the same names into a `d` of the shape `ColumnsShape` states. */
  lemma AddRecordShape(c: map<string, seq<string>>, prefix: seq<map<string, string>>, m: map<string, string>, names: set<string>)
    requires m.Keys == names && forall j :: 0 <= j < |prefix| ==> prefix[j].Keys == names
    requires c.Keys == if prefix == [] then {} else names
    requires forall k :: k in c ==> |c[k]| == |prefix|
    requires forall k, j :: k in c && 0 <= j < |prefix| ==> c[k][j] == prefix[j][k]
    ensures var r := AddRecord(c, m); var recs := prefix + [m];
      r.Keys == names &&
      (forall k :: k in r ==> |r[k]| == |recs|) &&
      (forall k, j :: k in r && 0 <= j < |recs| ==> r[k][j] == recs[j][k])
  {
    var r := AddRecord(c, m);
    var recs := prefix + [m];
    forall k | k in r
      ensures r[k] == (if prefix == [] then [] else c[k]) + [m[k]]
    {
    }
    forall k, j | k in r && 0 <= j < |recs|
      ensures r[k][j] == recs[j][k]
    {
      if j < |prefix| {
        assert recs[j] == prefix[j];
      }
    }
  }

  /** `d` for the kept lines of one call: the group dictionaries of those that match, folded together. */
  function Batch(g: Grammars.Grammar, c0: nat, lines: seq<string>, decimate: int): (r: map<string, seq<string>>)
    requires Grammars.ValidGrammar(g) && decimate != 0
    ensures r.Keys == {} || r.Keys == Grammars.Names(g.fields)
  {
    Columns(Matching(g, Kept(c0, lines, decimate)))
  }

  /** The shape of `d`: all group names or none, each with one text per matching kept line. */
  lemma BatchShape(g: Grammars.Grammar, c0: nat, lines: seq<string>, decimate: int)
    requires Grammars.ValidGrammar(g) && decimate != 0
    ensures var recs := Matching(g, Kept(c0, lines, decimate));
      Batch(g, c0, lines, decimate).Keys == (if recs == [] then {} else Grammars.Names(g.fields)) &&
      forall k :: k in Batch(g, c0, lines, decimate) ==> |Batch(g, c0, lines, decimate)[k]| == |recs|
  {
    var recs := Matching(g, Kept(c0, lines, decimate));
    ColumnsShape(recs, Grammars.Names(g.fields));
  }

  /**
   * `d` for the lines seen so far, extended by one more line that raises the
   * counter to `counter`: the line adds its groups exactly when it is kept and matches.
   */
  lemma BatchSnoc(g: Grammars.Grammar, c0: nat, lines: seq<string>, line: string, decimate: int, counter: nat)
    requires Grammars.ValidGrammar(g) && decimate != 0 && counter == c0 + |lines| + 1
    ensures counter % decimate != 0 ==> Batch(g, c0, lines + [line], decimate) == Batch(g, c0, lines, decimate)
    ensures counter % decimate == 0 && Grammars.Match(g, line).None? ==>
      Batch(g, c0, lines + [line], decimate) == Batch(g, c0, lines, decimate)
    ensures counter % decimate == 0 && Grammars.Match(g, line).Some? ==>
      Batch(g, c0, lines + [line], decimate) == AddRecord(Batch(g, c0, lines, decimate), Grammars.Match(g, line).value)
  {
    var all := lines + [line];
    assert all[..|all| - 1] == lines;
    var kept := Kept(c0, lines, decimate);
    if counter % decimate == 0 {
      assert Kept(c0, all, decimate) == kept + [line];
      assert (kept + [line])[..|kept|] == kept;
      match Grammars.Match(g, line)
      case None =>
      case Some(m) =>
        var recs := Matching(g, kept);
        assert Matching(g, kept + [line]) == recs + [m];
        assert (recs + [m])[..|recs|] == recs;
    } else {
      assert Kept(c0, all, decimate) == kept + [];
      assert kept + [] == kept;
    }
  }

  /** `BatchSnoc` for the line at position `i` of a call, as the first loop of `process_lines` meets it. */
  lemma BatchNext(g: Grammars.Grammar, c0: nat, lines: seq<string>, i: nat, decimate: int, counter: nat)
    requires Grammars.ValidGrammar(g) && decimate != 0 && i < |lines| && counter == c0 + i + 1
    ensures counter % decimate != 0 || Grammars.Match(g, lines[i]).None? ==>
      Batch(g, c0, lines[..i + 1], decimate) == Batch(g, c0, lines[..i], decimate)
    ensures counter % decimate == 0 && Grammars.Match(g, lines[i]).Some? ==>
      Batch(g, c0, lines[..i + 1], decimate) == AddRecord(Batch(g, c0, lines[..i], decimate), Grammars.Match(g, lines[i]).value)
  {
    assert lines[..i + 1] == lines[..i] + [lines[i]];
    BatchSnoc(g, c0, lines[..i], lines[i], decimate, counter);
  }

  // ----- conversion and the second slicing -----

  /** `v[::step]`: the elements at positions 0, step, 2 * step, ... */
  function Stride<T>(v: seq<T>, step: nat): (r: seq<T>)
    requires step >= 1
    ensures |r| <= |v|
    ensures |v| > 0 ==> |r| >= 1 && r[0] == v[0]
    decreases |v|
  {
    if |v| <= step then (if |v| == 0 then [] else [v[0]])
    else [v[0]] + Stride(v[step..], step)
  }

  /** `n` is `m / d` rounded up, for a positive `m`. */
  predicate CeilQuotient(n: int, m: int, d: int)
  {
    (n - 1) * d < m <= n * d
  }

  /** `v[::step]` has `|v| / step` elements, rounded up. */
  lemma {:induction false} StrideLength<T>(v: seq<T>, step: nat)
    requires step >= 1
    ensures |v| == 0 ==> Stride(v, step) == []
    ensures |v| > 0 ==> CeilQuotient(|Stride(v, step)|, |v|, step)
    decreases |v|
  {
    if |v| > step {
      var n := |Stride(v[step..], step)|;
      StrideLength(v[step..], step);
      assert (n - 1) * step < |v| - step <= n * step;
      assert (n + 1 - 1) * step == (n - 1) * step + step;
      assert (n + 1) * step == n * step + step;
    }
  }

  /** Element `j` of `v[::step]` is element `j * step` of `v`. */
  lemma {:induction false} StrideAt<T>(v: seq<T>, step: nat, j: nat)
    requires step >= 1 && j < |Stride(v, step)|
    ensures j * step < |v| && Stride(v, step)[j] == v[j * step]
    decreases |v|
  {
    if j > 0 {
      var i := (j - 1) * step;
      StrideAt(v[step..], step, j - 1);
      assert Stride(v, step)[j] == v[step..][i];
      NextMultiple(j, step);
    }
  }

  /** One more step of `step` reaches the next multiple. */
  lemma NextMultiple(j: nat, step: nat)
    requires j >= 1
    ensures (j - 1) * step + step == j * step
  {
  }

  /** Slicing arrays of equal length keeps them of equal length. */
  lemma {:induction false} StrideSameLength<T, U>(v: seq<T>, w: seq<U>, step: nat)
    requires step >= 1 && |v| == |w|
    ensures |Stride(v, step)| == |Stride(w, step)|
    decreases |v|
  {
    if |v| > step {
      StrideSameLength(v[step..], w[step..], step);
    }
  }

  /** `[float(x) for x in v]`; the conversion itself is a parameter of the model. */
  function Floats(vals: seq<string>, toReal: string -> real): (r: seq<real>)
    ensures |r| == |vals|
  {
    seq(|vals|, i requires 0 <= i < |vals| => toReal(vals[i]))
  }

  /** The values of one field that are appended: converted, then sliced when `decimate > 1`. */
  function Prepare(vals: seq<string>, decimate: int, toReal: string -> real): (r: seq<real>)
    ensures decimate <= 1 ==> |r| == |vals|
    ensures decimate > 1 ==> |r| <= |vals| && (vals != [] ==> r != [] && r[0] == toReal(vals[0]))
  {
    var v := Floats(vals, toReal);
    if decimate > 1 then Stride(v, decimate) else v
  }

  /** Fields with equally many texts yield equally many values. */
  lemma PrepareSameLength(a: seq<string>, b: seq<string>, decimate: int, toReal: string -> real)
    requires |a| == |b|
    ensures |Prepare(a, decimate, toReal)| == |Prepare(b, decimate, toReal)|
  {
    if decimate > 1 {
      StrideSameLength(Floats(a, toReal), Floats(b, toReal), decimate);
    }
  }

  /** `(v - start_time) / 1e9` for every timestamp; exact arithmetic stands for floating point. */
  function Rescale(v: seq<real>, startTime: int): (r: seq<real>)
    ensures |r| == |v|
  {
    seq(|v|, i requires 0 <= i < |v| => (v[i] - startTime as real) / NanosPerSecond)
  }

  // ----- appending -----

  /** `self.ts` once the fields in `done` have been appended; only the `ts` field goes there. */
  function MergeTs(ts: seq<real>, d: map<string, seq<string>>, done: set<string>,
                   decimate: int, toReal: string -> real, startTime: int): (r: seq<real>)
    ensures |r| >= |ts| && r[..|ts|] == ts
  {
    if "ts" in done && "ts" in d then ts + Rescale(Prepare(d["ts"], decimate, toReal), startTime) else ts
  }

  /**
   * `self.measurements` once the fields in `done` have been appended: every other
   * field is appended to its array, or starts one.
   */
  function MergeMeas(meas: map<string, seq<real>>, d: map<string, seq<string>>, done: set<string>,
                     decimate: int, toReal: string -> real): (r: map<string, seq<real>>)
    ensures r.Keys == meas.Keys + (done * d.Keys - {"ts"})
    ensures forall k :: k in meas ==> |r[k]| >= |meas[k]| && r[k][..|meas[k]|] == meas[k]
  {
    map k | k in meas.Keys + (done * d.Keys - {"ts"}) ::
      if k in done * d.Keys - {"ts"} then
        (if k in meas then meas[k] + Prepare(d[k], decimate, toReal) else Prepare(d[k], decimate, toReal))
      else meas[k]
  }

  /** Appending one more field of `d`: the `ts` field goes to `self.ts`. */
  lemma MergeTsStep(ts: seq<real>, d: map<string, seq<string>>, done: set<string>, k: string,
                    decimate: int, toReal: string -> real, startTime: int)
    requires k in d && k !in done
    ensures MergeTs(ts, d, done + {k}, decimate, toReal, startTime) ==
      if k == "ts" then MergeTs(ts, d, done, decimate, toReal, startTime) + Rescale(Prepare(d[k], decimate, toReal), startTime)
      else MergeTs(ts, d, done, decimate, toReal, startTime)
  {
  }

  /** Appending one more field of `d`: any other field is appended to its array, or starts one. */
  lemma MergeMeasStep(meas: map<string, seq<real>>, d: map<string, seq<string>>, done: set<string>, k: string,
                      decimate: int, toReal: string -> real)
    requires k in d && k !in done
    ensures var before := MergeMeas(meas, d, done, decimate, toReal);
      MergeMeas(meas, d, done + {k}, decimate, toReal) ==
        if k == "ts" then before
        else if k in before then before[k := before[k] + Prepare(d[k], decimate, toReal)]
        else before[k := Prepare(d[k], decimate, toReal)]
  {
  }

  /** An empty dictionary appends nothing. */
  lemma MergeEmpty(ts: seq<real>, meas: map<string, seq<real>>, decimate: int, toReal: string -> real, startTime: int)
    ensures MergeTs(ts, map[], {}, decimate, toReal, startTime) == ts
    ensures MergeMeas(meas, map[], {}, decimate, toReal) == meas
  {
  }

  /** After appending all of `d`, the measurement fields are the old ones and those of `d` but `ts`. */
  lemma MergeMeasKeys(meas: map<string, seq<real>>, d: map<string, seq<string>>, decimate: int, toReal: string -> real)
    ensures MergeMeas(meas, d, d.Keys, decimate, toReal).Keys == meas.Keys + (d.Keys - {"ts"})
  {
    assert d.Keys * d.Keys == d.Keys;
  }

  /** After appending all of `d`, one measurement field: its old array with the new values after it. */
  lemma MergeMeasAt(meas: map<string, seq<real>>, d: map<string, seq<string>>, decimate: int, toReal: string -> real, k: string)
    requires k in d && k != "ts"
    ensures k in MergeMeas(meas, d, d.Keys, decimate, toReal)
    ensures MergeMeas(meas, d, d.Keys, decimate, toReal)[k] ==
      (if k in meas then meas[k] else []) + Prepare(d[k], decimate, toReal)
  {
    assert k in d.Keys * d.Keys - {"ts"};
    if k !in meas {
      assert [] + Prepare(d[k], decimate, toReal) == Prepare(d[k], decimate, toReal);
    }
  }

  /**
   * Appending a dictionary `d` of the grammar's shape keeps the series invariant:
   * `ts` and every measurement array receive equally many values.
   */
  lemma MergeConsistent(g: Grammars.Grammar, ts: seq<real>, meas: map<string, seq<real>>,
                        d: map<string, seq<string>>, decimate: int, toReal: string -> real, startTime: int)
    requires Schema(g) && Consistent(g, ts, meas)
    requires d.Keys == {} || d.Keys == Grammars.Names(g.fields)
    requires forall k :: k in d ==> |d[k]| == |d["ts"]|
    ensures Consistent(g, MergeTs(ts, d, d.Keys, decimate, toReal, startTime), MergeMeas(meas, d, d.Keys, decimate, toReal))
  {
    if d.Keys == {} {
      assert d == map[];
      MergeEmpty(ts, meas, decimate, toReal, startTime);
    } else {
      var ts1 := MergeTs(ts, d, d.Keys, decimate, toReal, startTime);
      var meas1 := MergeMeas(meas, d, d.Keys, decimate, toReal);
      MergeMeasKeys(meas, d, decimate, toReal);
      assert meas1.Keys == DataNames(g);
      forall k | k in meas1 ensures |meas1[k]| == |ts1| {
        MergeFieldLength(g, ts, meas, d, decimate, toReal, startTime, k);
      }
    }
  }

  /** One measurement field of a full `d`, once appended, is as long as the timestamps. */
  lemma MergeFieldLength(g: Grammars.Grammar, ts: seq<real>, meas: map<string, seq<real>>,
                         d: map<string, seq<string>>, decimate: int, toReal: string -> real, startTime: int, k: string)
    requires Schema(g) && Consistent(g, ts, meas)
    requires d.Keys == Grammars.Names(g.fields)
    requires forall k :: k in d ==> |d[k]| == |d["ts"]|
    requires k in DataNames(g)
    ensures k in MergeMeas(meas, d, d.Keys, decimate, toReal)
    ensures |MergeMeas(meas, d, d.Keys, decimate, toReal)[k]| == |MergeTs(ts, d, d.Keys, decimate, toReal, startTime)|
  {
    MergeMeasAt(meas, d, decimate, toReal, k);
    PrepareSameLength(d[k], d["ts"], decimate, toReal);
    assert |MergeTs(ts, d, d.Keys, decimate, toReal, startTime)| == |ts| + |Prepare(d["ts"], decimate, toReal)|;
  }

  /** Appending a dictionary whose fields have equally many texts grows every array by the same amount. */
  lemma MergeEqual(g: Grammars.Grammar, ts: seq<real>, meas: map<string, seq<real>>, d: map<string, seq<string>>,
                   decimate: int, toReal: string -> real, startTime: int)
    requires Schema(g)
    requires d.Keys == {} || d.Keys == Grammars.Names(g.fields)
    requires forall k :: k in d ==> |d[k]| == |d["ts"]|
    ensures var n := |MergeTs(ts, d, d.Keys, decimate, toReal, startTime)| - |ts|;
      forall k :: k in DataNames(g) && d != map[] ==>
        k in MergeMeas(meas, d, d.Keys, decimate, toReal) &&
        |MergeMeas(meas, d, d.Keys, decimate, toReal)[k]| == (if k in meas then |meas[k]| else 0) + n
  {
    if d != map[] {
      var p := Prepare(d["ts"], decimate, toReal);
      assert |MergeTs(ts, d, d.Keys, decimate, toReal, startTime)| == |ts| + |p|;
      forall k | k in DataNames(g)
        ensures |MergeMeas(meas, d, d.Keys, decimate, toReal)[k]| == (if k in meas then |meas[k]| else 0) + |p|
      {
        PrepareSameLength(d[k], d["ts"], decimate, toReal);
      }
    }
  }

  /**
   * The series once one call's lines have been decimated, matched, folded into
   * `d` and appended; the arrays stay aligned.
   */
  function Appended(g: Grammars.Grammar, c0: nat, ts: seq<real>, meas: map<string, seq<real>>, lines: seq<string>,
                    decimate: int, toReal: string -> real, startTime: int): (r: (seq<real>, map<string, seq<real>>))
    requires Schema(g) && Consistent(g, ts, meas) && decimate != 0
    ensures Consistent(g, r.0, r.1)
  {
    var d := Batch(g, c0, lines, decimate);
    BatchShape(g, c0, lines, decimate);
    MergeConsistent(g, ts, meas, d, decimate, toReal, startTime);
    (MergeTs(ts, d, d.Keys, decimate, toReal, startTime), MergeMeas(meas, d, d.Keys, decimate, toReal))
  }

  /**
   * How many timestamps one call appends before the window step: one per kept
   * line that matched, and with `decimate > 1` one per element of those lines
   * sliced again by `decimate` (so, by `StrideLength`, their number divided by
   * `decimate`, rounded up).
   */
  lemma AppendCount(g: Grammars.Grammar, c0: nat, ts: seq<real>, meas: map<string, seq<real>>, lines: seq<string>,
                    decimate: int, toReal: string -> real, startTime: int)
    requires Schema(g) && Consistent(g, ts, meas) && decimate != 0
    ensures var recs := Matching(g, Kept(c0, lines, decimate));
      var n := |Appended(g, c0, ts, meas, lines, decimate, toReal, startTime).0| - |ts|;
      (decimate <= 1 ==> n == |recs|) &&
      (decimate > 1 ==> n == |Stride(recs, decimate)|)
  {
    var recs := Matching(g, Kept(c0, lines, decimate));
    var d := Batch(g, c0, lines, decimate);
    BatchShape(g, c0, lines, decimate);
    if recs != [] && decimate > 1 {
      StrideSameLength(Floats(d["ts"], toReal), recs, decimate);
    }
  }

  /** Every line matches the grammar. */
  predicate AllMatch(g: Grammars.Grammar, lines: seq<string>)
    requires Grammars.ValidGrammar(g)
  {
    forall i :: 0 <= i < |lines| ==> Grammars.Match(g, lines[i]).Some?
  }

  /** When every line matches, each yields a group dictionary. */
  lemma {:induction false} AllMatching(g: Grammars.Grammar, lines: seq<string>)
    requires Grammars.ValidGrammar(g)
    requires AllMatch(g, lines)
    ensures |Matching(g, lines)| == |lines|
    decreases |lines|
  {
    if lines != [] {
      AllMatching(g, lines[..|lines| - 1]);
    }
  }

  /** The lines kept from lines that all match all match. */
  lemma KeptAllMatch(g: Grammars.Grammar, c0: nat, lines: seq<string>, decimate: int)
    requires Grammars.ValidGrammar(g) && decimate != 0
    requires AllMatch(g, lines)
    ensures |Matching(g, Kept(c0, lines, decimate))| == |Kept(c0, lines, decimate)|
  {
    var kept := Kept(c0, lines, decimate);
    KeptFrom(c0, lines, decimate);
    forall i | 0 <= i < |kept|
      ensures Grammars.Match(g, kept[i]).Some?
    {
      var j :| 0 <= j < |lines| && lines[j] == kept[i];
    }
    AllMatching(g, kept);
  }

  /** The lines of both halves match when all lines of the whole do. */
  lemma AllMatchSplit(g: Grammars.Grammar, a: seq<string>, b: seq<string>)
    requires Grammars.ValidGrammar(g) && AllMatch(g, a + b)
    ensures AllMatch(g, a) && AllMatch(g, b)
  {
    forall i | 0 <= i < |a|
      ensures Grammars.Match(g, a[i]).Some?
    {
      assert a[i] == (a + b)[i];
    }
    forall i | 0 <= i < |b|
      ensures Grammars.Match(g, b[i]).Some?
    {
      assert b[i] == (a + b)[|a| + i];
    }
  }

  /**
   * Unlike decimation (`KeptConcat`), the second slicing does not compose across
   * calls: sixteen matching lines read in one call from counter 0 append one
   * timestamp, while the same lines read as two calls of eight append one each.
   */
  lemma BatchingMatters(g: Grammars.Grammar, ts: seq<real>, meas: map<string, seq<real>>,
                        ts': seq<real>, meas': map<string, seq<real>>, a: seq<string>, b: seq<string>,
                        toReal: string -> real, startTime: int)
    requires Schema(g) && Consistent(g, ts, meas) && Consistent(g, ts', meas')
    requires |a| == 8 && |b| == 8 && AllMatch(g, a + b)
    ensures |Appended(g, 0, ts, meas, a + b, 8, toReal, startTime).0| == |ts| + 1
    ensures |Appended(g, 0, ts, meas, a, 8, toReal, startTime).0| == |ts| + 1
    ensures |Appended(g, 8, ts', meas', b, 8, toReal, startTime).0| == |ts'| + 1
  {
    AllMatchSplit(g, a, b);
    OneCall(g, 0, ts, meas, a + b, toReal, startTime, 2);
    OneCall(g, 0, ts, meas, a, toReal, startTime, 1);
    OneCall(g, 8, ts', meas', b, toReal, startTime, 1);
  }

  /** A call whose lines all match and of which `n`, at most eight, are kept appends one timestamp. */
  lemma OneCall(g: Grammars.Grammar, c0: nat, ts: seq<real>, meas: map<string, seq<real>>, lines: seq<string>,
                toReal: string -> real, startTime: int, n: nat)
    requires Schema(g) && Consistent(g, ts, meas) && AllMatch(g, lines)
    requires 1 <= n <= 8 && (c0 + |lines|) / 8 - c0 / 8 == n
    ensures |Appended(g, c0, ts, meas, lines, 8, toReal, startTime).0| == |ts| + 1
  {
    KeptCount(c0, lines, 8);
    KeptAllMatch(g, c0, lines, 8);
    AppendCount(g, c0, ts, meas, lines, 8, toReal, startTime);
  }

  /**
   * Once anything matched, one call appends to every measurement field as many
   * values as to `ts`, starting the fields' arrays on the first such call.
   */
  lemma AppendEqual(g: Grammars.Grammar, c0: nat, ts: seq<real>, meas: map<string, seq<real>>, lines: seq<string>,
                    decimate: int, toReal: string -> real, startTime: int)
    requires Schema(g) && Consistent(g, ts, meas) && decimate != 0
    requires Matching(g, Kept(c0, lines, decimate)) != []
    ensures var r := Appended(g, c0, ts, meas, lines, decimate, toReal, startTime);
      r.1.Keys == DataNames(g) &&
      forall k :: k in DataNames(g) ==> |r.1[k]| == (if k in meas then |meas[k]| else 0) + (|r.0| - |ts|)
  {
    var d := Batch(g, c0, lines, decimate);
    BatchShape(g, c0, lines, decimate);
    MergeEqual(g, ts, meas, d, decimate, toReal, startTime);
  }

  /** When no kept line matches, the series are left as they were. */
  lemma AppendNothing(g: Grammars.Grammar, c0: nat, ts: seq<real>, meas: map<string, seq<real>>, lines: seq<string>,
                      decimate: int, toReal: string -> real, startTime: int)
    requires Schema(g) && Consistent(g, ts, meas) && decimate != 0
    requires NoneMatch(g, Kept(c0, lines, decimate))
    ensures Appended(g, c0, ts, meas, lines, decimate, toReal, startTime) == (ts, meas)
  {
    NoneMatching(g, Kept(c0, lines, decimate));
    var d := Batch(g, c0, lines, decimate);
    assert d == map[] && d.Keys == {};
    MergeEmpty(ts, meas, decimate, toReal, startTime);
  }

  // ----- the trailing window -----

  function Max(a: real, b: real): real
  {
    if a >= b then a else b
  }

  /** `np.where((ts >= lo) & (ts <= hi))`: the positions whose timestamp lies in `[lo, hi]`, ascending. */
  function Indices(ts: seq<real>, lo: real, hi: real): (idx: seq<nat>)
    ensures forall j :: 0 <= j < |idx| ==> idx[j] < |ts| && lo <= ts[idx[j]] <= hi
    ensures forall j, j' :: 0 <= j < j' < |idx| ==> idx[j] < idx[j']
    ensures forall i :: 0 <= i < |ts| && lo <= ts[i] <= hi ==> i in idx
    decreases |ts|
  {
    if ts == [] then []
    else
      var prev := Indices(ts[..|ts| - 1], lo, hi);
      if lo <= ts[|ts| - 1] <= hi then prev + [|ts| - 1] else prev
  }

  /** `v[idx]`: the elements at the given positions, in the given order. */
  function Pick<T>(v: seq<T>, idx: seq<nat>): (r: seq<T>)
    requires forall j :: 0 <= j < |idx| ==> idx[j] < |v|
    ensures |r| == |idx|
  {
    seq(|idx|, j requires 0 <= j < |idx| => v[idx[j]])
  }

  /** `self.measurements` once the arrays named in `done` have been cut down to `idx`. */
  function Restrict(meas: map<string, seq<real>>, idx: seq<nat>, done: set<string>, n: nat): (r: map<string, seq<real>>)
    requires forall k :: k in meas ==> |meas[k]| == n
    requires forall j :: 0 <= j < |idx| ==> idx[j] < n
    ensures r.Keys == meas.Keys
    ensures forall k :: k in r ==> |r[k]| == if k in done then |idx| else n
  {
    map k | k in meas :: if k in done then Pick(meas[k], idx) else meas[k]
  }

  /** Cutting down one more array. */
  lemma RestrictStep(meas: map<string, seq<real>>, idx: seq<nat>, done: set<string>, n: nat, k: string)
    requires forall k :: k in meas ==> |meas[k]| == n
    requires forall j :: 0 <= j < |idx| ==> idx[j] < n
    requires k in meas && k !in done
    ensures Restrict(meas, idx, done + {k}, n) == Restrict(meas, idx, done, n)[k := Pick(meas[k], idx)]
  {
  }

  /** An array not yet cut down is still there, unchanged. */
  lemma RestrictAt(meas: map<string, seq<real>>, idx: seq<nat>, done: set<string>, n: nat, k: string)
    requires forall k :: k in meas ==> |meas[k]| == n
    requires forall j :: 0 <= j < |idx| ==> idx[j] < n
    requires k in meas && k !in done
    ensures k in Restrict(meas, idx, done, n) && Restrict(meas, idx, done, n)[k] == meas[k]
  {
  }

  /** The lower end of the window: `max(ts[0], ts[-1] - x_last)`. */
  function WindowStart(ts: seq<real>, span: real): (lo: real)
    requires ts != []
    ensures lo >= ts[0] && lo >= ts[|ts| - 1] - span
    ensures lo == ts[0] || lo == ts[|ts| - 1] - span
  {
    Max(ts[0], ts[|ts| - 1] - span)
  }

  /**
   * The window step: when there are timestamps, keep the samples whose timestamp
   * lies in `[max(ts[0], ts[-1] - span), ts[-1]]`, cutting every array with the
   * same positions. The arrays stay aligned and no measurement field is dropped.
   */
  function Window(ts: seq<real>, meas: map<string, seq<real>>, span: real): (r: (seq<real>, map<string, seq<real>>))
    requires Aligned(ts, meas)
    ensures r.1.Keys == meas.Keys && Aligned(r.0, r.1) && |r.0| <= |ts|
    ensures ts == [] ==> r.0 == [] && r.1 == meas
  {
    if ts == [] then (ts, meas)
    else
      var idx := Indices(ts, WindowStart(ts, span), ts[|ts| - 1]);
      assert |idx| <= |ts| by {
        IndicesLength(ts, WindowStart(ts, span), ts[|ts| - 1]);
      }
      (Pick(ts, idx), Restrict(meas, idx, meas.Keys, |ts|))
  }

  /** With timestamps, the window picks the positions whose timestamp lies in it, in every array. */
  lemma WindowCut(ts: seq<real>, meas: map<string, seq<real>>, span: real)
    requires Aligned(ts, meas) && ts != []
    ensures var idx := Indices(ts, WindowStart(ts, span), ts[|ts| - 1]);
      (forall j :: 0 <= j < |idx| ==> idx[j] < |ts|) &&
      Window(ts, meas, span) == (Pick(ts, idx), Restrict(meas, idx, meas.Keys, |ts|))
  {
  }

  lemma {:induction false} IndicesLength(ts: seq<real>, lo: real, hi: real)
    ensures |Indices(ts, lo, hi)| <= |ts|
    decreases |ts|
  {
    if ts != [] {
      IndicesLength(ts[..|ts| - 1], lo, hi);
    }
  }

  /** Every retained timestamp lies in the window `[max(ts[0], ts[-1] - span), ts[-1]]`. */
  lemma WindowBounds(ts: seq<real>, meas: map<string, seq<real>>, span: real)
    requires Aligned(ts, meas) && ts != []
    ensures forall j :: 0 <= j < |Window(ts, meas, span).0| ==>
      WindowStart(ts, span) <= Window(ts, meas, span).0[j] <= ts[|ts| - 1]
  {
  }

  /**
   * The window keeps every sample whose timestamp lies in it, keeps them in their
   * order, and cuts every measurement array with the very same positions.
   */
  lemma WindowSameIndices(ts: seq<real>, meas: map<string, seq<real>>, span: real)
    requires Aligned(ts, meas) && ts != []
    ensures exists idx: seq<nat> ::
      (forall j :: 0 <= j < |idx| ==> idx[j] < |ts|) &&
      (forall j, j' :: 0 <= j < j' < |idx| ==> idx[j] < idx[j']) &&
      (forall i :: 0 <= i < |ts| ==> (i in idx <==> WindowStart(ts, span) <= ts[i] <= ts[|ts| - 1])) &&
      Window(ts, meas, span).0 == Pick(ts, idx) &&
      forall k :: k in meas ==> Window(ts, meas, span).1[k] == Pick(meas[k], idx)
  {
    var idx := Indices(ts, WindowStart(ts, span), ts[|ts| - 1]);
    IndicesLength(ts, WindowStart(ts, span), ts[|ts| - 1]);
    assert forall i :: 0 <= i < |ts| && i in idx ==> WindowStart(ts, span) <= ts[i] <= ts[|ts| - 1];
  }

  /**
   * The latest sample survives the window exactly when `ts[0] <= ts[-1]` and the
   * span is not negative; otherwise the window drops every sample.
   */
  lemma WindowKeepsLatest(ts: seq<real>, meas: map<string, seq<real>>, span: real)
    requires Aligned(ts, meas) && ts != []
    ensures var w := Window(ts, meas, span).0;
      (w != [] <==> ts[0] <= ts[|ts| - 1] && span >= 0.0) &&
      (w != [] ==> w[|w| - 1] == ts[|ts| - 1])
  {
    var lo, hi := WindowStart(ts, span), ts[|ts| - 1];
    var idx := Indices(ts, lo, hi);
    if ts[0] <= hi && span >= 0.0 {
      assert |ts| - 1 in idx;
    }
    if idx != [] {
      var last := |idx| - 1;
      assert lo <= ts[idx[last]] <= hi;
      assert |ts| - 1 in idx;
      var j :| 0 <= j < |idx| && idx[j] == |ts| - 1;
      assert j == last;
    }
  }

  predicate Sorted(ts: seq<real>)
  {
    forall i, j :: 0 <= i < j < |ts| ==> ts[i] <= ts[j]
  }

  /** Nondecreasing timestamps stay nondecreasing through the window. */
  lemma WindowSorted(ts: seq<real>, meas: map<string, seq<real>>, span: real)
    requires Aligned(ts, meas) && Sorted(ts)
    ensures Sorted(Window(ts, meas, span).0)
  {
    if ts != [] {
      var idx := Indices(ts, WindowStart(ts, span), ts[|ts| - 1]);
      var w := Window(ts, meas, span).0;
      forall i, j | 0 <= i < j < |w| ensures w[i] <= w[j] {
        assert w[i] == ts[idx[i]] && w[j] == ts[idx[j]];
      }
    }
  }

  // ----- one whole call -----

  /**
   * One call of `process_lines` with the chunk that `read_lines` obtains: split
   * into lines; if there is none, only the residual changes; otherwise count and
   * decimate the lines, match and fold them into `d`, append, and apply the window.
   */
  function Step(g: Grammars.Grammar, span: real, startTime: int, s: State, chunk: string,
                decimate: int, toReal: string -> real): (r: State)
    requires Schema(g) && Consistent(g, s.ts, s.meas) && decimate != 0
    ensures Consistent(g, r.ts, r.meas)
  {
    var split := Lines.SplitLines(s.residual, chunk);
    if split.0 == [] then s.(residual := split.1)
    else Advance(g, span, startTime, s, split.0, split.1, decimate, toReal)
  }

  /** A call with complete `lines` (and new residual `rest`): count, append what matched, then apply the window. */
  function Advance(g: Grammars.Grammar, span: real, startTime: int, s: State, lines: seq<string>, rest: string,
                   decimate: int, toReal: string -> real): (r: State)
    requires Schema(g) && Consistent(g, s.ts, s.meas) && decimate != 0
    ensures Consistent(g, r.ts, r.meas)
    ensures r.residual == rest && r.counter == s.counter + |lines|
  {
    var appended := Appended(g, s.counter, s.ts, s.meas, lines, decimate, toReal, startTime);
    var w := Window(appended.0, appended.1, span);
    State(rest, s.counter + |lines|, w.0, w.1)
  }

  /** The counter grows by the number of complete lines, and the new residual holds no terminator. */
  lemma StepCounter(g: Grammars.Grammar, span: real, startTime: int, s: State, chunk: string,
                    decimate: int, toReal: string -> real)
    requires Schema(g) && Consistent(g, s.ts, s.meas) && decimate != 0
    ensures var r := Step(g, span, startTime, s, chunk, decimate, toReal);
      r.counter == s.counter + Lines.Newlines(s.residual + chunk) &&
      r.residual == Lines.SplitLines(s.residual, chunk).1 && '\n' !in r.residual
  {
  }

  /** With no complete line the call only buffers the chunk: nothing else changes. */
  lemma StepNoCompleteLine(g: Grammars.Grammar, span: real, startTime: int, s: State, chunk: string,
                           decimate: int, toReal: string -> real)
    requires Schema(g) && Consistent(g, s.ts, s.meas) && decimate != 0
    requires '\n' !in s.residual + chunk
    ensures Step(g, span, startTime, s, chunk, decimate, toReal) == s.(residual := s.residual + chunk)
  {
    Lines.NoCompleteLine(s.residual, chunk);
  }

  /**
   * When no kept line matches, nothing is appended: a call with complete lines
   * only applies the window, and a call without them changes no series.
   */
  lemma StepNothingMatched(g: Grammars.Grammar, span: real, startTime: int, s: State, chunk: string,
                           decimate: int, toReal: string -> real)
    requires Schema(g) && Consistent(g, s.ts, s.meas) && decimate != 0
    requires NoneMatch(g, Kept(s.counter, Lines.SplitLines(s.residual, chunk).0, decimate))
    ensures var r := Step(g, span, startTime, s, chunk, decimate, toReal);
      (r.ts, r.meas) == if Lines.SplitLines(s.residual, chunk).0 == [] then (s.ts, s.meas) else Window(s.ts, s.meas, span)
  {
    var lines := Lines.SplitLines(s.residual, chunk).0;
    if lines != [] {
      AppendNothing(g, s.counter, s.ts, s.meas, lines, decimate, toReal, startTime);
    }
  }
}
