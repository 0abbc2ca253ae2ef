/**
 * Line splitting with a residual buffer: what `BasePlotter.read_lines` does with
 * the bytes it has read. Strings stand for the decoded text (valid UTF-8 assumed;
 * `\n` is one byte there, so the lines are the same before and after decoding).
 */
module Lines {

  /** Number of line terminators in `s`. */
  function Newlines(s: string): nat
  {
    multiset(s)['\n']
  }

  /**
   * Python's `split(b'\n')`: the pieces between the terminators, in order.
   * There is always at least one piece, and no piece holds a terminator.
   */
  function Split(s: string): (r: seq<string>)
    ensures |r| >= 1
    ensures forall i :: 0 <= i < |r| ==> '\n' !in r[i]
  {
    if s == [] then [""]
    else
      var rest := Split(s[1..]);
      if s[0] == '\n' then [""] + rest
      else [[s[0]] + rest[0]] + rest[1..]
  }

  /** The pieces glued back together with one terminator between neighbours. */
  function Join(r: seq<string>): string
    requires |r| >= 1
  {
    if |r| == 1 then r[0] else r[0] + "\n" + Join(r[1..])
  }

  /** The complete lines, each followed by its terminator. */
  function Terminated(lines: seq<string>): string
  {
    if lines == [] then "" else lines[0] + "\n" + Terminated(lines[1..])
  }

  /** Splitting and joining again gives back the input. */
  lemma {:induction false} SplitJoin(s: string)
    ensures Join(Split(s)) == s
  {
    if s != [] {
      SplitJoin(s[1..]);
      var rest := Split(s[1..]);
      if s[0] != '\n' && |rest| > 1 {
        assert Join(rest) == rest[0] + "\n" + Join(rest[1..]);
        assert Join(Split(s)) == [s[0]] + rest[0] + "\n" + Join(rest[1..]);
      }
    }
  }

  /** Splitting a piece that holds no terminator in front of `t` extends the first piece of `t`. */
  lemma {:induction false} SplitPrefix(a: string, t: string)
    requires '\n' !in a
    ensures Split(a + t) == [a + Split(t)[0]] + Split(t)[1..]
  {
    var st := Split(t);
    if a == [] {
      assert a + t == t && a + st[0] == st[0];
      assert [st[0]] + st[1..] == st;
    } else {
      assert (a + t)[1..] == a[1..] + t;
      assert (a + t)[0] == a[0];
      SplitPrefix(a[1..], t);
      var rest := Split(a[1..] + t);
      assert rest[0] == a[1..] + st[0] && rest[1..] == st[1..];
      assert [a[0]] + (a[1..] + st[0]) == a + st[0];
    }
  }

  /** Joining pieces without terminators and splitting again gives back the pieces. */
  lemma {:induction false} JoinSplit(r: seq<string>)
    requires |r| >= 1
    requires forall i :: 0 <= i < |r| ==> '\n' !in r[i]
    ensures Split(Join(r)) == r
  {
    if |r| == 1 {
      SplitPrefix(r[0], "");
      assert r[0] + "" == r[0];
    } else {
      JoinSplit(r[1..]);
      var t := "\n" + Join(r[1..]);
      assert t[1..] == Join(r[1..]);
      assert Split(t) == [""] + r[1..];
      SplitPrefix(r[0], t);
      assert Join(r) == r[0] + t;
      assert r[0] + "" == r[0];
      assert [r[0]] + r[1..] == r;
    }
  }

  /** There is exactly one more piece than there are terminators. */
  lemma {:induction false} SplitCount(s: string)
    ensures |Split(s)| == Newlines(s) + 1
  {
    if s != [] {
      SplitCount(s[1..]);
      assert s == [s[0]] + s[1..];
      assert multiset(s) == multiset([s[0]]) + multiset(s[1..]);
    }
  }

  /** Joining is emitting every piece but the last with its terminator, then the last. */
  lemma {:induction false} JoinTerminated(r: seq<string>)
    requires |r| >= 1
    ensures Join(r) == Terminated(r[..|r| - 1]) + r[|r| - 1]
  {
    if |r| > 1 {
      JoinTerminated(r[1..]);
      assert r[1..][..|r| - 2] == r[..|r| - 1][1..];
    }
  }

  /**
   * One call of `read_lines` on the bytes already buffered and a newly read chunk:
   * the complete lines and the new residual. The `endswith(b'\n')` fix-up of the
   * source never fires, because the last piece of a split holds no terminator.
   */
  function SplitLines(residual: string, chunk: string): (r: (seq<string>, string))
    ensures Terminated(r.0) + r.1 == residual + chunk
    ensures forall i :: 0 <= i < |r.0| ==> '\n' !in r.0[i]
    ensures '\n' !in r.1
    ensures |r.0| == Newlines(residual + chunk)
  {
    var pieces := Split(residual + chunk);
    SplitJoin(residual + chunk);
    JoinTerminated(pieces);
    SplitCount(residual + chunk);
    (pieces[..|pieces| - 1], pieces[|pieces| - 1])
  }

  /** A call returns no line exactly when residual and chunk hold no terminator; then all of it is kept. */
  lemma NoCompleteLine(residual: string, chunk: string)
    ensures SplitLines(residual, chunk).0 == [] <==> '\n' !in residual + chunk
    ensures '\n' !in residual + chunk ==> SplitLines(residual, chunk).1 == residual + chunk
  {
    var buf := residual + chunk;
    assert '\n' in buf <==> multiset(buf)['\n'] > 0;
  }

  /** A terminated text is empty or ends with a terminator. */
  lemma {:induction false} TerminatedEnds(lines: seq<string>)
    ensures Terminated(lines) == "" || Terminated(lines)[|Terminated(lines)| - 1] == '\n'
  {
    if lines != [] {
      TerminatedEnds(lines[1..]);
    }
  }

  /** A text cut into terminated lines and a rest without terminator has an empty rest exactly when it ends with one. */
  lemma RestEmpty(lines: seq<string>, rest: string, text: string)
    requires Terminated(lines) + rest == text && '\n' !in rest
    ensures rest == "" <==> text == "" || text[|text| - 1] == '\n'
  {
    TerminatedEnds(lines);
    if rest != "" {
      assert text[|text| - 1] == rest[|rest| - 1];
      assert rest[|rest| - 1] in rest;
    } else {
      assert text == Terminated(lines);
    }
  }

  /** The residual is empty exactly when the buffered text is empty or ends with a terminator. */
  lemma ResidualEmpty(residual: string, chunk: string)
    ensures var buf := residual + chunk;
      SplitLines(residual, chunk).1 == "" <==> buf == "" || buf[|buf| - 1] == '\n'
  {
    var r := SplitLines(residual, chunk);
    RestEmpty(r.0, r.1, residual + chunk);
  }

  /** Terminating a concatenation of line lists. */
  lemma {:induction false} TerminatedAppend(a: seq<string>, b: seq<string>)
    ensures Terminated(a + b) == Terminated(a) + Terminated(b)
  {
    if a == [] {
      assert a + b == b;
    } else {
      assert (a + b)[0] == a[0];
      assert (a + b)[1..] == a[1..] + b;
      TerminatedAppend(a[1..], b);
    }
  }

  /** All the chunks, one after the other. */
  function Concat(chunks: seq<string>): string
  {
    if chunks == [] then "" else chunks[0] + Concat(chunks[1..])
  }

  /** `read_lines` called once per chunk: all lines returned, and the residual left at the end. */
  function ReadAll(residual: string, chunks: seq<string>): (r: (seq<string>, string))
    ensures forall i :: 0 <= i < |r.0| ==> '\n' !in r.0[i]
    decreases |chunks|
  {
    if chunks == [] then ([], residual)
    else
      var (lines, rest) := SplitLines(residual, chunks[0]);
      var (more, last) := ReadAll(rest, chunks[1..]);
      (lines + more, last)
  }

  /** Across any number of reads no byte is lost and none is duplicated. */
  lemma {:induction false} ReadAllRoundTrip(residual: string, chunks: seq<string>)
    ensures Terminated(ReadAll(residual, chunks).0) + ReadAll(residual, chunks).1 == residual + Concat(chunks)
    decreases |chunks|
  {
    if chunks != [] {
      var first := SplitLines(residual, chunks[0]);
      var after := ReadAll(first.1, chunks[1..]);
      assert ReadAll(residual, chunks) == (first.0 + after.0, after.1);
      ReadAllRoundTrip(first.1, chunks[1..]);
      TerminatedAppend(first.0, after.0);
      Regroup(Terminated(first.0), first.1, Terminated(after.0), after.1, residual, chunks[0], Concat(chunks[1..]));
    }
  }

  /** Text regrouping used when reads are chained. */
  lemma Regroup(lines1: string, rest1: string, lines2: string, rest2: string, before: string, chunk: string, later: string)
    requires lines1 + rest1 == before + chunk
    requires lines2 + rest2 == rest1 + later
    ensures (lines1 + lines2) + rest2 == before + (chunk + later)
  {
    calc {
      (lines1 + lines2) + rest2;
      lines1 + (lines2 + rest2);
      lines1 + (rest1 + later);
      (lines1 + rest1) + later;
      (before + chunk) + later;
    }
  }

  /** The residual left after any number of reads never holds a terminator, given a first residual without one. */
  lemma {:induction false} ReadAllResidual(residual: string, chunks: seq<string>)
    requires '\n' !in residual
    ensures '\n' !in ReadAll(residual, chunks).1
    decreases |chunks|
  {
    if chunks != [] {
      ReadAllResidual(SplitLines(residual, chunks[0]).1, chunks[1..]);
    }
  }

  /**
   * A log read from its opening point: the lines returned are all the text written,
   * less one trailing partial line, which is left over exactly when the text does
   * not end with a terminator.
   */
  lemma LogRoundTrip(chunks: seq<string>)
    ensures Terminated(ReadAll("", chunks).0) + ReadAll("", chunks).1 == Concat(chunks)
    ensures '\n' !in ReadAll("", chunks).1
    ensures var text := Concat(chunks);
      ReadAll("", chunks).1 == "" <==> text == "" || text[|text| - 1] == '\n'
  {
    ReadAllRoundTrip("", chunks);
    ReadAllResidual("", chunks);
    var r := ReadAll("", chunks);
    assert "" + Concat(chunks) == Concat(chunks);
    RestEmpty(r.0, r.1, Concat(chunks));
  }
}
