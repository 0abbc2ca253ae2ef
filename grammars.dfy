/**
 * The three fixed line grammars of the plotters, written as hand-made matchers
 * in place of Python's anchored regular expressions:
 *
 *   jitter log:    ts,\s stream_ts,\s delta_ms,\s jitter_max,\s jitter_min
 *   latency log:   ts,\s niq,\s target
 *   estimator log: ts,\s* filtered,\s* target,\s* p,\s* i
 *
 * No character class of a field admits a comma or whitespace, so every regular
 * expression has at most one way to match a line: each field is the longest run
 * of its class, and the matchers below scan it that way.
 */
module Grammars {
  import opened Wrappers

  /** `\d`, `[\d.]`, `[-e\d.]` and `\s`. */
  datatype CharClass = Digit | DigitOrDot | NumberChar | Space

  /** `\d`; only the ASCII digits are modelled. */
  predicate IsDigit(c: char)
  {
    '0' <= c <= '9'
  }

  /** `\s` in a str pattern: the characters Python's `str.isspace` accepts. */
  predicate IsSpace(c: char)
  {
    var n := c as int;
    (0x09 <= n <= 0x0D) || (0x1C <= n <= 0x20) || n == 0x85 || n == 0xA0 || n == 0x1680 ||
    (0x2000 <= n <= 0x200A) || n == 0x2028 || n == 0x2029 || n == 0x202F || n == 0x205F || n == 0x3000
  }

  predicate InClass(c: char, k: CharClass)
  {
    match k
    case Digit => IsDigit(c)
    case DigitOrDot => IsDigit(c) || c == '.'
    case NumberChar => IsDigit(c) || c == '.' || c == '-' || c == 'e'
    case Space => IsSpace(c)
  }

  predicate AllIn(s: string, k: CharClass)
  {
    forall i :: 0 <= i < |s| ==> InClass(s[i], k)
  }

  /** Length of the longest prefix of `s` drawn from class `k`: what a greedy `k*` consumes. */
  function Run(s: string, k: CharClass): (n: nat)
    ensures n <= |s|
    ensures AllIn(s[..n], k)
    ensures n < |s| ==> !InClass(s[n], k)
  {
    if s == [] || !InClass(s[0], k) then 0
    else
      var m := Run(s[1..], k);
      assert s[..1 + m] == [s[0]] + s[1..][..m];
      1 + m
  }

  /** A run of class `k` followed by text that cannot continue it is consumed whole. */
  lemma {:induction false} RunStops(a: string, b: string, k: CharClass)
    requires AllIn(a, k)
    requires b == [] || !InClass(b[0], k)
    ensures Run(a + b, k) == |a|
  {
    if a != [] {
      assert (a + b)[0] == a[0];
      assert (a + b)[1..] == a[1..] + b;
      RunStops(a[1..], b, k);
    } else {
      assert a + b == b;
    }
  }

  /** `,\s` takes exactly one whitespace character after the comma; `,\s*` takes any number. */
  datatype Separator = OneSpace | AnySpaces

  datatype Field = Field(name: string, cls: CharClass)

  datatype Grammar = Grammar(fields: seq<Field>, sep: Separator)

  /** At least one field, no field of whitespace, and no group name used twice. */
  predicate ValidGrammar(g: Grammar)
  {
    |g.fields| >= 1 &&
    (forall i :: 0 <= i < |g.fields| ==> g.fields[i].cls != Space) &&
    (forall i, j :: 0 <= i < j < |g.fields| ==> g.fields[i].name != g.fields[j].name)
  }

  function Classes(fields: seq<Field>): (cs: seq<CharClass>)
    ensures |cs| == |fields| && forall i :: 0 <= i < |fields| ==> cs[i] == fields[i].cls
  {
    seq(|fields|, i requires 0 <= i < |fields| => fields[i].cls)
  }

  /** The group names of a grammar. */
  function Names(fields: seq<Field>): (n: set<string>)
    ensures forall i :: 0 <= i < |fields| ==> fields[i].name in n
    ensures forall x :: x in n ==> exists i :: 0 <= i < |fields| && fields[i].name == x
  {
    if fields == [] then {} else {fields[0].name} + Names(fields[1..])
  }

  /** The jitter log (`JittPlotter`). */
  const Jitt := Grammar([Field("ts", Digit), Field("stream_ts", Digit), Field("delta_ms", DigitOrDot),
                         Field("jitter_max", DigitOrDot), Field("jitter_min", DigitOrDot)], OneSpace)

  /** The buffer latency log (`LatencyPlotter`). */
  const Latency := Grammar([Field("ts", Digit), Field("niq", Digit), Field("target", DigitOrDot)], OneSpace)

  /** The frequency estimator log (`FreqEstimatorPlotter`). */
  const FreqEstimator := Grammar([Field("ts", Digit), Field("filtered", DigitOrDot), Field("target", DigitOrDot),
                                  Field("p", NumberChar), Field("i", NumberChar)], AnySpaces)

  /** Width of the separator that opens `s` (the text after a comma), or None when there is none. */
  function SepWidth(s: string, sep: Separator): (w: Option<nat>)
    ensures w.Some? ==> w.value <= |s| && AllIn(s[..w.value], Space) && (sep == OneSpace ==> w.value == 1)
  {
    match sep
    case OneSpace => if s != [] && IsSpace(s[0]) then Some(1) else None
    case AnySpaces => Some(Run(s, Space))
  }

  /** What one comma-separated field consists of: its separator, its text, and the text after it. */
  datatype Piece = Piece(sep: string, value: string, rest: string)

  /**
   * One field after the first: a comma, a separator, then the longest run of the
   * field's class. None when there is no comma or no separator that fits.
   */
  function ScanField(s: string, k: CharClass, sep: Separator): (r: Option<Piece>)
    ensures r.Some? ==> 1 + |r.value.sep| + |r.value.value| + |r.value.rest| == |s|
  {
    if s == [] || s[0] != ',' then None
    else
      match SepWidth(s[1..], sep)
      case None => None
      case Some(w) =>
        var u := s[1 + w..];
        var n := Run(u, k);
        assert s[1..][..w] == s[1..1 + w];
        Some(Piece(s[1..1 + w], u[..n], u[n..]))
  }

  /**
   * The fields after the first one, each introduced by a comma and a separator;
   * the line must end right after the last field (`$`). Yields the field texts
   * and the separators.
   */
  function ScanTail(s: string, cs: seq<CharClass>, sep: Separator): (r: Option<(seq<string>, seq<string>)>)
    ensures r.Some? ==> |r.value.0| == |cs| && |r.value.1| == |cs|
    decreases |cs|
  {
    if cs == [] then
      if s == [] then Some(([], [])) else None
    else
      match ScanField(s, cs[0], sep)
      case None => None
      case Some(p) =>
        match ScanTail(p.rest, cs[1..], sep)
        case None => None
        case Some(t) => Some(([p.value] + t.0, [p.sep] + t.1))
  }

  /** The whole line, from its first character (`re.match`). */
  function Scan(s: string, cs: seq<CharClass>, sep: Separator): (r: Option<(seq<string>, seq<string>)>)
    requires |cs| >= 1
    ensures r.Some? ==> |r.value.0| == |cs| && |r.value.1| + 1 == |cs|
  {
    var n := Run(s, cs[0]);
    match ScanTail(s[n..], cs[1..], sep)
    case None => None
    case Some((vs, ws)) => Some(([s[..n]] + vs, ws))
  }

  /** `m.groupdict()`: each group name bound to the text its group captured. */
  function GroupDict(fields: seq<Field>, vs: seq<string>): (m: map<string, string>)
    requires |vs| == |fields|
    ensures m.Keys == Names(fields)
  {
    if fields == [] then map[] else GroupDict(fields[1..], vs[1..])[fields[0].name := vs[0]]
  }

  /**
   * `regexp.match(line)` followed by `groupdict()`, for a line without a
   * terminator. Python's `$` would also match just before a final `\n` (before
   * any `\n` under `re.MULTILINE`), where `Match` refuses; the lines `read_lines`
   * returns never hold one (`Lines.SplitLines`), so the two agree on them.
   */
  function Match(g: Grammar, line: string): (r: Option<map<string, string>>)
    requires |g.fields| >= 1
    ensures r.Some? ==> r.value.Keys == Names(g.fields)
  {
    match Scan(line, Classes(g.fields), g.sep)
    case None => None
    case Some((vs, _)) => Some(GroupDict(g.fields, vs))
  }

  // ----- the lines a grammar accepts, written out -----

  /** The fields after the first, each preceded by a comma and its separator. */
  function RenderTail(vs: seq<string>, ws: seq<string>): string
    requires |vs| == |ws|
  {
    if vs == [] then "" else "," + ws[0] + vs[0] + RenderTail(vs[1..], ws[1..])
  }

  /** A line built from field texts `vs` and separators `ws`. */
  function Render(vs: seq<string>, ws: seq<string>): string
    requires |vs| == |ws| + 1
  {
    vs[0] + RenderTail(vs[1..], ws)
  }

  /** Field texts drawn from their classes and separators made of whitespace, of width one under `,\s`. */
  predicate WellFormedTail(cs: seq<CharClass>, sep: Separator, vs: seq<string>, ws: seq<string>)
  {
    |vs| == |cs| && |ws| == |cs| &&
    (forall i :: 0 <= i < |cs| ==> AllIn(vs[i], cs[i])) &&
    (forall i :: 0 <= i < |ws| ==> AllIn(ws[i], Space) && (sep == OneSpace ==> |ws[i]| == 1))
  }

  predicate WellFormed(cs: seq<CharClass>, sep: Separator, vs: seq<string>, ws: seq<string>)
  {
    |cs| >= 1 && |vs| == |cs| && |ws| + 1 == |cs| &&
    AllIn(vs[0], cs[0]) && WellFormedTail(cs[1..], sep, vs[1..], ws)
  }

  /** Prepending one comma-separated field to a rendered tail. */
  lemma RenderTailCons(v: string, w: string, vs: seq<string>, ws: seq<string>)
    requires |vs| == |ws|
    ensures RenderTail([v] + vs, [w] + ws) == "," + w + v + RenderTail(vs, ws)
  {
    assert ([v] + vs)[1..] == vs && ([w] + ws)[1..] == ws;
  }

  /** Prepending one well-formed field and separator to a well-formed tail. */
  lemma WellFormedTailCons(cs: seq<CharClass>, sep: Separator, v: string, w: string, vs: seq<string>, ws: seq<string>)
    requires |cs| >= 1
    requires AllIn(v, cs[0]) && AllIn(w, Space) && (sep == OneSpace ==> |w| == 1)
    requires WellFormedTail(cs[1..], sep, vs, ws)
    ensures WellFormedTail(cs, sep, [v] + vs, [w] + ws)
  {
    var vs', ws' := [v] + vs, [w] + ws;
    forall i | 0 <= i < |cs| ensures AllIn(vs'[i], cs[i]) {
      if i > 0 { assert vs'[i] == vs[i - 1] && cs[i] == cs[1..][i - 1]; }
    }
    forall i | 0 <= i < |ws'| ensures AllIn(ws'[i], Space) && (sep == OneSpace ==> |ws'[i]| == 1) {
      if i > 0 { assert ws'[i] == ws[i - 1]; }
    }
  }

  /** A text opening with a comma, cut after the separator and after the value. */
  lemma CutAfterComma(s: string, w: nat, n: nat)
    requires s != [] && s[0] == ','
    requires 1 + w <= |s| && n <= |s| - (1 + w)
    ensures s == "," + s[1..1 + w] + s[1 + w..][..n] + s[1 + w..][n..]
  {
    var u := s[1 + w..];
    assert u == u[..n] + u[n..];
    assert s == [s[0]] + s[1..1 + w] + u;
  }

  /** What one field step accepts: a comma, whitespace (one character under `,\s`) and a run of the class. */
  lemma ScanFieldSound(s: string, k: CharClass, sep: Separator)
    requires ScanField(s, k, sep).Some?
    ensures var p := ScanField(s, k, sep).value;
      s == "," + p.sep + p.value + p.rest &&
      AllIn(p.sep, Space) && (sep == OneSpace ==> |p.sep| == 1) && AllIn(p.value, k) &&
      (p.rest == [] || !InClass(p.rest[0], k))
  {
    var w := SepWidth(s[1..], sep).value;
    var u := s[1 + w..];
    var n := Run(u, k);
    PieceParts(s, k, sep, w, n);
    assert ScanField(s, k, sep) == Some(Piece(s[1..1 + w], u[..n], u[n..]));
  }

  /** The pieces one field step cuts, stated on the cut positions. */
  lemma PieceParts(s: string, k: CharClass, sep: Separator, w: nat, n: nat)
    requires s != [] && s[0] == ','
    requires SepWidth(s[1..], sep) == Some(w) && n == Run(s[1 + w..], k)
    ensures var u := s[1 + w..]; var p := Piece(s[1..1 + w], u[..n], u[n..]);
      s == "," + p.sep + p.value + p.rest &&
      AllIn(p.sep, Space) && (sep == OneSpace ==> |p.sep| == 1) && AllIn(p.value, k) &&
      (p.rest == [] || !InClass(p.rest[0], k))
  {
    var u := s[1 + w..];
    assert s[1..][..w] == s[1..1 + w];
    assert u[n..] == [] || u[n..][0] == u[n];
    CutAfterComma(s, w, n);
  }

  /** Field classes never hold a comma, and a field never starts with whitespace. */
  lemma FieldClassExcludes(c: char, k: CharClass)
    requires k != Space
    ensures InClass(c, k) ==> c != ',' && !IsSpace(c)
  {
  }

  /** A separator followed by text that cannot continue it is consumed whole. */
  lemma SepWidthStops(w: string, after: string, sep: Separator)
    requires AllIn(w, Space) && (sep == OneSpace ==> |w| == 1)
    requires after == [] || !IsSpace(after[0])
    ensures SepWidth(w + after, sep) == Some(|w|)
  {
    if sep == AnySpaces {
      RunStops(w, after, Space);
    } else {
      assert (w + after)[0] == w[0];
    }
  }

  /** A field value followed by a comma or by nothing never opens with whitespace. */
  lemma ValueStartsNoSpace(v: string, rest: string, k: CharClass)
    requires k != Space && AllIn(v, k)
    requires rest == [] || rest[0] == ','
    ensures v + rest == [] || !IsSpace((v + rest)[0])
  {
    if v != [] {
      assert (v + rest)[0] == v[0];
      FieldClassExcludes(v[0], k);
    } else {
      assert v + rest == rest;
    }
  }

  /** How a comma, a separator `w`, a value `v` and the rest of a line cut apart. */
  lemma CommaPieces(w: string, v: string, rest: string)
    ensures var s := "," + w + v + rest;
      s != [] && s[0] == ',' && s[1..] == w + (v + rest) && s[1 + |w|..] == v + rest &&
      s[1..1 + |w|] == w && (v + rest)[|v|..] == rest && (v + rest)[..|v|] == v
  {
    var s := "," + w + v + rest;
    assert s == "," + (w + (v + rest));
  }

  /** One field step takes back exactly the separator and value in front of a comma or the end. */
  lemma ScanFieldCons(s: string, k: CharClass, sep: Separator, w: string, v: string, rest: string)
    requires s == "," + w + v + rest
    requires k != Space && AllIn(v, k) && AllIn(w, Space) && (sep == OneSpace ==> |w| == 1)
    requires rest == [] || rest[0] == ','
    ensures ScanField(s, k, sep) == Some(Piece(w, v, rest))
  {
    CommaPieces(w, v, rest);
    ConsWidth(w, v, rest, k, sep);
    ConsRun(v, rest, k);
    ScanFieldUnfold(s, k, sep, |w|, |v|);
  }

  /** The separator in front of a field value is consumed whole. */
  lemma ConsWidth(w: string, v: string, rest: string, k: CharClass, sep: Separator)
    requires k != Space && AllIn(v, k) && AllIn(w, Space) && (sep == OneSpace ==> |w| == 1)
    requires rest == [] || rest[0] == ','
    ensures SepWidth(w + (v + rest), sep) == Some(|w|)
  {
    ValueStartsNoSpace(v, rest, k);
    SepWidthStops(w, v + rest, sep);
  }

  /** A field value in front of a comma or the end is consumed whole. */
  lemma ConsRun(v: string, rest: string, k: CharClass)
    requires k != Space && AllIn(v, k)
    requires rest == [] || rest[0] == ','
    ensures Run(v + rest, k) == |v|
  {
    if rest != [] {
      FieldClassExcludes(rest[0], k);
    }
    RunStops(v, rest, k);
  }

  /** One field step, stated on the cut positions. */
  lemma ScanFieldUnfold(s: string, k: CharClass, sep: Separator, w: nat, n: nat)
    requires s != [] && s[0] == ','
    requires SepWidth(s[1..], sep) == Some(w) && n == Run(s[1 + w..], k)
    ensures ScanField(s, k, sep) == Some(Piece(s[1..1 + w], s[1 + w..][..n], s[1 + w..][n..]))
  {
  }

  /** What the tail scanner accepts is a well-formed tail, and it hands back its pieces. */
  lemma {:induction false} ScanTailSound(s: string, cs: seq<CharClass>, sep: Separator)
    requires ScanTail(s, cs, sep).Some?
    ensures WellFormedTail(cs, sep, ScanTail(s, cs, sep).value.0, ScanTail(s, cs, sep).value.1)
    ensures s == RenderTail(ScanTail(s, cs, sep).value.0, ScanTail(s, cs, sep).value.1)
    decreases |cs|
  {
    if cs != [] {
      var p := ScanField(s, cs[0], sep).value;
      ScanFieldSound(s, cs[0], sep);
      ScanTailSound(p.rest, cs[1..], sep);
      var t := ScanTail(p.rest, cs[1..], sep).value;
      assert ScanTail(s, cs, sep).value == ([p.value] + t.0, [p.sep] + t.1);
      WellFormedTailCons(cs, sep, p.value, p.sep, t.0, t.1);
      RenderTailCons(p.value, p.sep, t.0, t.1);
    }
  }

  /** A non-empty rendered tail opens with its first comma, separator and value. */
  lemma RenderTailUncons(vs: seq<string>, ws: seq<string>)
    requires |vs| == |ws| && vs != []
    ensures RenderTail(vs, ws) == "," + ws[0] + vs[0] + RenderTail(vs[1..], ws[1..])
    ensures var rest := RenderTail(vs[1..], ws[1..]); rest == [] || rest[0] == ','
  {
  }

  /** Dropping the first field of a well-formed tail. */
  lemma WellFormedTailRest(cs: seq<CharClass>, sep: Separator, vs: seq<string>, ws: seq<string>)
    requires cs != [] && WellFormedTail(cs, sep, vs, ws)
    ensures WellFormedTail(cs[1..], sep, vs[1..], ws[1..])
    ensures AllIn(vs[0], cs[0]) && AllIn(ws[0], Space) && (sep == OneSpace ==> |ws[0]| == 1)
  {
  }

  /** A field step followed by a successful scan of the rest. */
  lemma ScanTailUnfold(s: string, cs: seq<CharClass>, sep: Separator, vs: seq<string>, ws: seq<string>, rest: string)
    requires cs != [] && vs != [] && ws != []
    requires ScanField(s, cs[0], sep) == Some(Piece(ws[0], vs[0], rest))
    requires ScanTail(rest, cs[1..], sep) == Some((vs[1..], ws[1..]))
    ensures ScanTail(s, cs, sep) == Some((vs, ws))
  {
    assert [vs[0]] + vs[1..] == vs && [ws[0]] + ws[1..] == ws;
  }

  /** Every well-formed tail is accepted by the tail scanner, which recovers its pieces. */
  lemma {:induction false} ScanTailComplete(cs: seq<CharClass>, sep: Separator, vs: seq<string>, ws: seq<string>)
    requires forall i :: 0 <= i < |cs| ==> cs[i] != Space
    requires WellFormedTail(cs, sep, vs, ws)
    ensures ScanTail(RenderTail(vs, ws), cs, sep) == Some((vs, ws))
    decreases |cs|
  {
    if cs != [] {
      var s := RenderTail(vs, ws);
      var rest := RenderTail(vs[1..], ws[1..]);
      assert ScanTail(rest, cs[1..], sep) == Some((vs[1..], ws[1..])) by {
        WellFormedTailRest(cs, sep, vs, ws);
        ScanTailComplete(cs[1..], sep, vs[1..], ws[1..]);
      }
      assert ScanField(s, cs[0], sep) == Some(Piece(ws[0], vs[0], rest)) by {
        WellFormedTailRest(cs, sep, vs, ws);
        RenderTailUncons(vs, ws);
        ScanFieldCons(s, cs[0], sep, ws[0], vs[0], rest);
      }
      ScanTailUnfold(s, cs, sep, vs, ws, rest);
    }
  }

  /** A text is its first `n` characters followed by the others. */
  lemma CutAt(s: string, n: nat)
    requires n <= |s|
    ensures s == s[..n] + s[n..]
  {
  }

  /** A well-formed first field in front of a well-formed tail makes a well-formed line. */
  lemma WellFormedCons(cs: seq<CharClass>, sep: Separator, v: string, vs: seq<string>, ws: seq<string>)
    requires |cs| >= 1 && AllIn(v, cs[0]) && WellFormedTail(cs[1..], sep, vs, ws)
    ensures WellFormed(cs, sep, [v] + vs, ws)
    ensures Render([v] + vs, ws) == v + RenderTail(vs, ws)
  {
    assert ([v] + vs)[0] == v && ([v] + vs)[1..] == vs;
  }

  /** What the scanner accepts is a well-formed line, and it hands back its pieces. */
  lemma ScanSound(s: string, cs: seq<CharClass>, sep: Separator)
    requires |cs| >= 1
    requires Scan(s, cs, sep).Some?
    ensures WellFormed(cs, sep, Scan(s, cs, sep).value.0, Scan(s, cs, sep).value.1)
    ensures s == Render(Scan(s, cs, sep).value.0, Scan(s, cs, sep).value.1)
  {
    var n := Run(s, cs[0]);
    var t := ScanTail(s[n..], cs[1..], sep).value;
    assert Scan(s, cs, sep).value == ([s[..n]] + t.0, t.1);
    ScanTailSound(s[n..], cs[1..], sep);
    WellFormedCons(cs, sep, s[..n], t.0, t.1);
    CutAt(s, n);
  }

  /** A first field that stops at a comma or at the end leaves the rest of the line to the tail scanner. */
  lemma ScanHead(line: string, cs: seq<CharClass>, sep: Separator, v: string, t: string)
    requires |cs| >= 1 && cs[0] != Space
    requires line == v + t && AllIn(v, cs[0]) && (t == [] || t[0] == ',')
    ensures Scan(line, cs, sep).None? <==> ScanTail(t, cs[1..], sep).None?
  {
    if t != [] {
      FieldClassExcludes(t[0], cs[0]);
    }
    RunStops(v, t, cs[0]);
    assert line[|v|..] == t;
  }

  /** Under `,\s` a comma followed by two whitespace characters never matches. */
  lemma OneSpaceRefusesTwo(s: string, cs: seq<CharClass>)
    requires |cs| >= 1 && cs[0] != Space
    requires |s| >= 3 && s[0] == ',' && IsSpace(s[1]) && IsSpace(s[2])
    ensures ScanTail(s, cs, OneSpace) == None
  {
    FieldClassExcludes(s[2], cs[0]);
    assert Run(s[2..], cs[0]) == 0;
    assert ScanField(s, cs[0], OneSpace) == Some(Piece(s[1..2], "", s[2..]));
    assert s[2..][0] == s[2];
  }

  /** Under `,\s` a comma not followed by whitespace never matches. */
  lemma OneSpaceRefusesNone(s: string, cs: seq<CharClass>)
    requires |cs| >= 1
    requires s != [] && s[0] == ',' && (|s| == 1 || !IsSpace(s[1]))
    ensures ScanTail(s, cs, OneSpace) == None
  {
    assert s[1..] == [] || s[1..][0] == s[1];
  }

  /** Every well-formed line is accepted by the scanner, which recovers its pieces. */
  lemma ScanComplete(cs: seq<CharClass>, sep: Separator, vs: seq<string>, ws: seq<string>)
    requires forall i :: 0 <= i < |cs| ==> cs[i] != Space
    requires WellFormed(cs, sep, vs, ws)
    ensures Scan(Render(vs, ws), cs, sep) == Some((vs, ws))
  {
    var rest := RenderTail(vs[1..], ws);
    var s := Render(vs, ws);
    assert ScanTail(rest, cs[1..], sep) == Some((vs[1..], ws)) by {
      ScanTailComplete(cs[1..], sep, vs[1..], ws);
    }
    assert Run(s, cs[0]) == |vs[0]| && s[..|vs[0]|] == vs[0] && s[|vs[0]|..] == rest by {
      if rest != [] {
        FieldClassExcludes(rest[0], cs[0]);
      }
      RunStops(vs[0], rest, cs[0]);
    }
    ScanUnfold(s, cs, sep, vs, ws, rest);
  }

  /** A first field stopping where a successfully scanned tail begins. */
  lemma ScanUnfold(s: string, cs: seq<CharClass>, sep: Separator, vs: seq<string>, ws: seq<string>, rest: string)
    requires |cs| >= 1 && vs != []
    requires Run(s, cs[0]) == |vs[0]| && |vs[0]| <= |s| && s[..|vs[0]|] == vs[0] && s[|vs[0]|..] == rest
    requires ScanTail(rest, cs[1..], sep) == Some((vs[1..], ws))
    ensures Scan(s, cs, sep) == Some((vs, ws))
  {
    assert [vs[0]] + vs[1..] == vs;
  }

  /** With distinct names, each group name is bound to its own field's text. */
  lemma {:induction false} GroupDictAt(fields: seq<Field>, vs: seq<string>, i: nat)
    requires |vs| == |fields| && i < |fields|
    requires forall a, b :: 0 <= a < b < |fields| ==> fields[a].name != fields[b].name
    ensures GroupDict(fields, vs)[fields[i].name] == vs[i]
  {
    if i > 0 {
      GroupDictAt(fields[1..], vs[1..], i - 1);
    }
  }

  /**
   * A line matches exactly when it is well formed: a successful match is a
   * rendering of well-formed field texts, and binds every group name, and only
   * those, to its field's text.
   */
  lemma MatchSound(g: Grammar, line: string)
    requires ValidGrammar(g)
    requires Match(g, line).Some?
    ensures Match(g, line).value.Keys == Names(g.fields)
    ensures exists vs, ws :: WellFormed(Classes(g.fields), g.sep, vs, ws) && line == Render(vs, ws) &&
                            forall i :: 0 <= i < |g.fields| ==> Match(g, line).value[g.fields[i].name] == vs[i]
  {
    var cs := Classes(g.fields);
    ScanSound(line, cs, g.sep);
    var (vs, ws) := Scan(line, cs, g.sep).value;
    forall i | 0 <= i < |g.fields|
      ensures Match(g, line).value[g.fields[i].name] == vs[i]
    {
      GroupDictAt(g.fields, vs, i);
    }
  }

  /** Every well-formed line matches, binding each group name to its field's text. */
  lemma MatchComplete(g: Grammar, vs: seq<string>, ws: seq<string>)
    requires ValidGrammar(g)
    requires WellFormed(Classes(g.fields), g.sep, vs, ws)
    ensures Match(g, Render(vs, ws)) == Some(GroupDict(g.fields, vs))
    ensures forall i :: 0 <= i < |g.fields| ==> GroupDict(g.fields, vs)[g.fields[i].name] == vs[i]
  {
    ScanComplete(Classes(g.fields), g.sep, vs, ws);
    forall i | 0 <= i < |g.fields|
      ensures GroupDict(g.fields, vs)[g.fields[i].name] == vs[i]
    {
      GroupDictAt(g.fields, vs, i);
    }
  }

  // ----- the three grammars of the plotters -----

  /** The three fixed grammars name distinct groups and no whitespace field. */
  lemma KnownGrammarsValid()
    ensures ValidGrammar(Jitt) && ValidGrammar(Latency) && ValidGrammar(FreqEstimator)
  {
  }

  lemma JittNames()
    ensures Names(Jitt.fields) == {"ts", "stream_ts", "delta_ms", "jitter_max", "jitter_min"}
  {
    var f := Jitt.fields;
    assert f[4..][1..] == [];
    assert Names(f[4..]) == {"jitter_min"};
    assert f[3..][1..] == f[4..];
    assert Names(f[3..]) == {"jitter_max", "jitter_min"};
    assert f[2..][1..] == f[3..];
    assert Names(f[2..]) == {"delta_ms", "jitter_max", "jitter_min"};
    assert f[1..][1..] == f[2..];
    assert Names(f[1..]) == {"stream_ts", "delta_ms", "jitter_max", "jitter_min"};
  }

  lemma LatencyNames()
    ensures Names(Latency.fields) == {"ts", "niq", "target"}
  {
    var f := Latency.fields;
    assert f[2..][1..] == [];
    assert Names(f[2..]) == {"target"};
    assert f[1..][1..] == f[2..];
    assert Names(f[1..]) == {"niq", "target"};
  }

  lemma FreqEstimatorNames()
    ensures Names(FreqEstimator.fields) == {"ts", "filtered", "target", "p", "i"}
  {
    var f := FreqEstimator.fields;
    assert f[4..][1..] == [];
    assert Names(f[4..]) == {"i"};
    assert f[3..][1..] == f[4..];
    assert Names(f[3..]) == {"p", "i"};
    assert f[2..][1..] == f[3..];
    assert Names(f[2..]) == {"target", "p", "i"};
    assert f[1..][1..] == f[2..];
    assert Names(f[1..]) == {"filtered", "target", "p", "i"};
  }

  /** A jitter line yields exactly the groups ts, stream_ts, delta_ms, jitter_max and jitter_min. */
  lemma JittFields(line: string)
    ensures Match(Jitt, line).Some? ==>
      Match(Jitt, line).value.Keys == {"ts", "stream_ts", "delta_ms", "jitter_max", "jitter_min"}
  {
    if Match(Jitt, line).Some? {
      KnownGrammarsValid();
      MatchSound(Jitt, line);
      JittNames();
    }
  }

  /** A latency line yields exactly the groups ts, niq and target. */
  lemma LatencyFields(line: string)
    ensures Match(Latency, line).Some? ==> Match(Latency, line).value.Keys == {"ts", "niq", "target"}
  {
    if Match(Latency, line).Some? {
      KnownGrammarsValid();
      MatchSound(Latency, line);
      LatencyNames();
    }
  }

  /** An estimator line yields exactly the groups ts, filtered, target, p and i. */
  lemma FreqEstimatorFields(line: string)
    ensures Match(FreqEstimator, line).Some? ==>
      Match(FreqEstimator, line).value.Keys == {"ts", "filtered", "target", "p", "i"}
  {
    if Match(FreqEstimator, line).Some? {
      KnownGrammarsValid();
      MatchSound(FreqEstimator, line);
      FreqEstimatorNames();
    }
  }

  lemma LatencyPieces()
    ensures Render(["100", "5", "1.0"], [" ", " "]) == "100, 5, 1.0"
    ensures WellFormed(Classes(Latency.fields), Latency.sep, ["100", "5", "1.0"], [" ", " "])
  {
    var vs, ws := ["100", "5", "1.0"], [" ", " "];
    assert vs[1..][1..][1..] == [] && ws[1..][1..] == [];
  }

  lemma LatencyGroups()
    ensures GroupDict(Latency.fields, ["100", "5", "1.0"]) == map["ts" := "100", "niq" := "5", "target" := "1.0"]
  {
    assert Latency.fields[1..][1..][1..] == [];
  }

  /** The latency grammar takes a line with one space after each comma. */
  lemma LatencyOneSpace()
    ensures Match(Latency, "100, 5, 1.0") == Some(map["ts" := "100", "niq" := "5", "target" := "1.0"])
  {
    KnownGrammarsValid();
    LatencyPieces();
    MatchComplete(Latency, ["100", "5", "1.0"], [" ", " "]);
    LatencyGroups();
  }

  /**
   * `\d*` and `[\d.]*` admit empty fields: the latency grammar takes a line of
   * commas and spaces alone, whose groups are all empty texts.
   */
  lemma LatencyEmptyFields()
    ensures Match(Latency, ", , ") == Some(map["ts" := "", "niq" := "", "target" := ""])
  {
    KnownGrammarsValid();
    LatencyEmptyPieces();
    MatchComplete(Latency, ["", "", ""], [" ", " "]);
    LatencyEmptyGroups();
  }

  lemma LatencyEmptyPieces()
    ensures Render(["", "", ""], [" ", " "]) == ", , "
    ensures WellFormed(Classes(Latency.fields), Latency.sep, ["", "", ""], [" ", " "])
  {
    var vs, ws := ["", "", ""], [" ", " "];
    assert vs[1..][1..][1..] == [] && ws[1..][1..] == [];
  }

  lemma LatencyEmptyGroups()
    ensures GroupDict(Latency.fields, ["", "", ""]) == map["ts" := "", "niq" := "", "target" := ""]
  {
    assert Latency.fields[1..][1..][1..] == [];
  }

  /** A line the scanner refuses does not match. */
  lemma MatchRefused(g: Grammar, line: string)
    requires |g.fields| >= 1 && Scan(line, Classes(g.fields), g.sep).None?
    ensures Match(g, line) == None
  {
  }

  /** The latency grammar refuses two spaces after a comma. */
  lemma LatencyTwoSpaces()
    ensures Match(Latency, "100,  5, 1.0") == None
  {
    var line, t := "100,  5, 1.0", ",  5, 1.0";
    var cs := Classes(Latency.fields);
    assert cs == [Digit, Digit, DigitOrDot];
    assert line == "100" + t;
    assert IsSpace(t[1]) && IsSpace(t[2]) by { assert t[1] == ' ' && t[2] == ' '; }
    OneSpaceRefusesTwo(t, cs[1..]);
    ScanHead(line, cs, OneSpace, "100", t);
    MatchRefused(Latency, line);
  }

  /** The latency grammar refuses a comma with no space after it. */
  lemma LatencyNoSpace()
    ensures Match(Latency, "100,5, 1.0") == None
  {
    var line, t := "100,5, 1.0", ",5, 1.0";
    var cs := Classes(Latency.fields);
    assert cs == [Digit, Digit, DigitOrDot];
    assert line == "100" + t;
    assert !IsSpace(t[1]) by { assert t[1] == '5'; }
    OneSpaceRefusesNone(t, cs[1..]);
    ScanHead(line, cs, OneSpace, "100", t);
    MatchRefused(Latency, line);
  }

  /** Four comma-separated fields after the first, written out. */
  lemma RenderTailFour(b: string, c: string, d: string, e: string, w1: string, w2: string, w3: string, w4: string)
    ensures RenderTail([b, c, d, e], [w1, w2, w3, w4]) == "," + w1 + b + ("," + w2 + c + ("," + w3 + d + ("," + w4 + e)))
  {
    RenderTailCons(e, w4, [], []);
    RenderTailCons(d, w3, [e], [w4]);
    RenderTailCons(c, w2, [d, e], [w3, w4]);
    RenderTailCons(b, w1, [c, d, e], [w2, w3, w4]);
    assert [e] == [e] + [] && [w4] == [w4] + [];
    assert [d, e] == [d] + [e] && [w3, w4] == [w3] + [w4];
    assert [c, d, e] == [c] + [d, e] && [w2, w3, w4] == [w2] + [w3, w4];
    assert [b, c, d, e] == [b] + [c, d, e] && [w1, w2, w3, w4] == [w1] + [w2, w3, w4];
  }

  lemma FreqEstimatorRender()
    ensures Render(["1", "2", "3.5", "-1e-3", "4"], ["", "  ", " ", " "]) == "1,2,  3.5, -1e-3, 4"
  {
    var vs := ["1", "2", "3.5", "-1e-3", "4"];
    assert vs[1..] == ["2", "3.5", "-1e-3", "4"];
    RenderTailFour("2", "3.5", "-1e-3", "4", "", "  ", " ", " ");
  }

  lemma FreqEstimatorWellFormed()
    ensures WellFormed(Classes(FreqEstimator.fields), FreqEstimator.sep, ["1", "2", "3.5", "-1e-3", "4"], ["", "  ", " ", " "])
  {
    var vs, ws := ["1", "2", "3.5", "-1e-3", "4"], ["", "  ", " ", " "];
    var cs := Classes(FreqEstimator.fields);
    assert cs == [Digit, DigitOrDot, DigitOrDot, NumberChar, NumberChar];
    assert AllIn(vs[3], NumberChar) by {
      assert vs[3][0] == '-' && vs[3][2] == 'e' && vs[3][3] == '-';
    }
    assert AllIn(ws[1], Space) by {
      assert ws[1][0] == ' ' && ws[1][1] == ' ';
    }
    assert cs[1..] == [DigitOrDot, DigitOrDot, NumberChar, NumberChar];
  }

  lemma FreqEstimatorGroups()
    ensures var d := GroupDict(FreqEstimator.fields, ["1", "2", "3.5", "-1e-3", "4"]);
      d.Keys == {"ts", "filtered", "target", "p", "i"} &&
      d["ts"] == "1" && d["filtered"] == "2" && d["target"] == "3.5" && d["p"] == "-1e-3" && d["i"] == "4"
  {
    var f, vs := FreqEstimator.fields, ["1", "2", "3.5", "-1e-3", "4"];
    KnownGrammarsValid();
    FreqEstimatorNames();
    GroupDictAt(f, vs, 0);
    GroupDictAt(f, vs, 1);
    GroupDictAt(f, vs, 2);
    GroupDictAt(f, vs, 3);
    GroupDictAt(f, vs, 4);
  }

  /** The estimator grammar takes any number of spaces after each comma, none included. */
  lemma FreqEstimatorSpacing()
    ensures var m := Match(FreqEstimator, "1,2,  3.5, -1e-3, 4");
      m.Some? && m.value.Keys == {"ts", "filtered", "target", "p", "i"} &&
      m.value["ts"] == "1" && m.value["filtered"] == "2" && m.value["target"] == "3.5" &&
      m.value["p"] == "-1e-3" && m.value["i"] == "4"
  {
    KnownGrammarsValid();
    FreqEstimatorRender();
    FreqEstimatorWellFormed();
    MatchComplete(FreqEstimator, ["1", "2", "3.5", "-1e-3", "4"], ["", "  ", " ", " "]);
    FreqEstimatorGroups();
  }
}
