/**
 * The result-handling helpers of the benchmark program: reading criterion's
 * median point estimate out of its saved JSON, choosing a time unit,
 * laying out the summary's keys from the directory tree, ranking the known
 * allocators, and recolouring the violin plots by the label nearest each
 * polygon.
 *
 * Strings are `seq<char>`. Times are `real`; parsing text into an `f64` is
 * a parameter where the benchmark program needs it.
 */
module BenchSummary {
  import opened Wrappers

  // ---------------------------------------------------------------------
  // Searching and trimming strings
  // ---------------------------------------------------------------------

  /** pat occurs in s at i. */
  predicate At(s: string, pat: string, i: nat)
  {
    i + |pat| <= |s| && s[i..i + |pat|] == pat
  }

  /** Dropping the first character moves every later occurrence one place left. */
  lemma Shift(s: string, pat: string)
    requires s != []
    ensures forall j: nat :: 1 <= j ==> (At(s, pat, j) <==> At(s[1..], pat, j - 1))
  {
    forall j: nat | 1 <= j
      ensures At(s, pat, j) <==> At(s[1..], pat, j - 1)
    {
      if j + |pat| <= |s| {
        assert s[j..j + |pat|] == s[1..][j - 1..j - 1 + |pat|];
      }
    }
  }

  /** str::find: the first index at which pat occurs in s. */
  function Find(s: string, pat: string): (r: Option<nat>)
    ensures r.Some? ==> At(s, pat, r.value) && forall j :: 0 <= j < r.value ==> !At(s, pat, j)
    ensures r.None? ==> forall j: nat :: !At(s, pat, j)
    decreases |s|
  {
    if |s| < |pat| then None
    else if s[..|pat|] == pat then Some(0)
    else
      Shift(s, pat);
      match Find(s[1..], pat)
      case None => None
      case Some(i) => Some(i + 1)
  }

  /** The first occurrence is the one Find reports. */
  lemma FindIs(s: string, pat: string, k: nat)
    requires At(s, pat, k) && forall j :: 0 <= j < k ==> !At(s, pat, j)
    ensures Find(s, pat) == Some(k)
  {
  }

  /** Text added after the first occurrence does not move it. */
  lemma FindExtend(a: string, b: string, pat: string)
    requires Find(a, pat).Some?
    ensures Find(a + b, pat) == Find(a, pat)
  {
    var k := Find(a, pat).value;
    assert (a + b)[k..k + |pat|] == a[k..k + |pat|];
    forall j | 0 <= j < k
      ensures !At(a + b, pat, j)
    {
      assert (a + b)[j..j + |pat|] == a[j..j + |pat|];
      assert !At(a, pat, j);
    }
    FindIs(a + b, pat, k);
  }

  /** Text put before a string whose first occurrence is known moves it by its length. */
  lemma FindAfter(a: string, b: string, pat: string, k: nat)
    requires Find(a + b, pat) == Some(|a| + k)
    ensures Find(b, pat) == Some(k)
  {
    assert b[k..k + |pat|] == (a + b)[|a| + k..|a| + k + |pat|];
    forall j | 0 <= j < k
      ensures !At(b, pat, j)
    {
      assert At(b, pat, j) ==> At(a + b, pat, |a| + j) by {
        if j + |pat| <= |b| {
          assert b[j..j + |pat|] == (a + b)[|a| + j..|a| + j + |pat|];
        }
      }
    }
    FindIs(b, pat, k);
  }

  /** char::is_whitespace on the ASCII range. */
  predicate IsSpace(c: char)
  {
    c == ' ' || c == '\t' || c == '\n' || c == '\r' || c == '\U{0B}' || c == '\U{0C}'
  }

  /** str::trim_start: the leading whitespace removed. */
  function TrimStart(s: string): (r: string)
    ensures |r| <= |s| && r == s[|s| - |r|..]
    ensures forall i :: 0 <= i < |s| - |r| ==> IsSpace(s[i])
    ensures r == [] || !IsSpace(r[0])
  {
    if s != [] && IsSpace(s[0]) then
      var r := TrimStart(s[1..]);
      assert s[1..][|s| - 1 - |r|..] == s[|s| - |r|..];
      r
    else s
  }

  /** str::trim_end: the trailing whitespace removed. */
  function TrimEnd(s: string): (r: string)
    ensures |r| <= |s| && r == s[..|r|]
    ensures forall i :: |r| <= i < |s| ==> IsSpace(s[i])
    ensures r == [] || !IsSpace(r[|r| - 1])
  {
    if s != [] && IsSpace(s[|s| - 1]) then
      var r := TrimEnd(s[..|s| - 1]);
      assert s[..|s| - 1][..|r|] == s[..|r|];
      r
    else s
  }

  /** trim_start is idempotent. */
  lemma TrimStartTwice(s: string)
    ensures TrimStart(TrimStart(s)) == TrimStart(s)
  {
    var t := TrimStart(s);
    assert t == [] || !IsSpace(t[0]);
  }

  /** str::trim. */
  function Trim(s: string): string
  {
    TrimEnd(TrimStart(s))
  }

  /** Text that starts with a non-space keeps its leading text through trim_start. */
  lemma TrimStartJoin(v: string, w: string)
    requires w != [] && !IsSpace(w[0])
    ensures TrimStart(v + w) == TrimStart(v) + w
  {
    if v != [] && IsSpace(v[0]) {
      assert (v + w)[1..] == v[1..] + w;
      TrimStartJoin(v[1..], w);
    } else if v == [] {
      assert v + w == w;
    }
  }

  /** str::find with a set of characters: the first index holding one of them. */
  function FindAny(s: string, cs: set<char>): (r: Option<nat>)
    ensures r.Some? ==> r.value < |s| && s[r.value] in cs && forall j :: 0 <= j < r.value ==> s[j] !in cs
    ensures r.None? ==> forall j :: 0 <= j < |s| ==> s[j] !in cs
  {
    if s == [] then None
    else if s[0] in cs then Some(0)
    else match FindAny(s[1..], cs)
      case None => None
      case Some(i) => Some(i + 1)
  }

  /** The first index holding one of cs is the one FindAny reports. */
  lemma FindAnyIs(s: string, cs: set<char>, k: nat)
    requires k < |s| && s[k] in cs && forall j :: 0 <= j < k ==> s[j] !in cs
    ensures FindAny(s, cs) == Some(k)
  {
  }

  // ---------------------------------------------------------------------
  // read_estimate
  // ---------------------------------------------------------------------

  const MEDIAN: string := "\"median\""
  const POINT_ESTIMATE: string := "\"point_estimate\""

  /**
   * The text of the median's point estimate in criterion's estimates.json:
   * after the first `"point_estimate"` that follows the first `"median"`,
   * after the next ':', up to the next ',' or '}', trimmed. Any marker
   * missing gives None.
   */
  function ReadEstimate(data: string): (r: Option<string>)
    ensures r.Some? ==> Find(data, MEDIAN).Some? && Trimmed(r.value)
    ensures r.Some? ==> forall i :: 0 <= i < |r.value| ==> r.value[i] != ',' && r.value[i] != '}'
  {
    match Find(data, MEDIAN)
    case None => None
    case Some(m) => FromMedian(data[m..])
  }

  /** The estimate in the text from the first "median" on. */
  function FromMedian(s: string): (r: Option<string>)
    ensures r.Some? ==> Trimmed(r.value)
    ensures r.Some? ==> forall i :: 0 <= i < |r.value| ==> r.value[i] != ',' && r.value[i] != '}'
  {
    match Find(s, POINT_ESTIMATE)
    case None => None
    case Some(p) => FromPointEstimate(s[p + |POINT_ESTIMATE|..])
  }

  /** The estimate in the text just after "point_estimate". */
  function FromPointEstimate(s: string): (r: Option<string>)
    ensures r.Some? ==> Trimmed(r.value)
    ensures r.Some? ==> forall i :: 0 <= i < |r.value| ==> r.value[i] != ',' && r.value[i] != '}'
  {
    match Find(s, ":")
    case None => None
    case Some(c) => FieldValue(TrimStart(s[c + 1..]))
  }

  /** The trimmed text up to the first ',' or '}', if there is one. */
  function FieldValue(s: string): (r: Option<string>)
    ensures r.Some? ==> Trimmed(r.value)
    ensures r.Some? ==> forall i :: 0 <= i < |r.value| ==> r.value[i] != ',' && r.value[i] != '}'
  {
    match FindAny(s, {',', '}'})
    case None => None
    case Some(e) =>
      TrimKeeps(s[..e]);
      Some(Trim(s[..e]))
  }

  /** Neither end is whitespace. */
  predicate Trimmed(s: string)
  {
    s == [] || (!IsSpace(s[0]) && !IsSpace(s[|s| - 1]))
  }

  /** trim leaves no whitespace at either end and keeps only characters of its input. */
  lemma TrimKeeps(s: string)
    ensures Trimmed(Trim(s))
    ensures forall i :: 0 <= i < |Trim(s)| ==> Trim(s)[i] in s
  {
    TrimEnds(s);
    TrimChars(s);
  }

  lemma TrimEnds(s: string)
    ensures Trimmed(Trim(s))
  {
    var t := TrimStart(s);
    var u := TrimEnd(t);
    assert Trim(s) == u;
    hide Trim, TrimStart, TrimEnd;
    if u != [] {
      assert u[0] == t[0];
    }
  }

  lemma TrimChars(s: string)
    ensures forall i :: 0 <= i < |Trim(s)| ==> Trim(s)[i] in s
  {
    var t := TrimStart(s);
    var u := TrimEnd(t);
    assert Trim(s) == u;
    hide Trim, TrimStart, TrimEnd, IsSpace;
    forall i | 0 <= i < |u|
      ensures u[i] in s
    {
      assert u[i] == t[i] == s[|s| - |t| + i];
    }
  }

  /** FieldValue reads up to the stop FindAny reports. */
  lemma FieldValueAt(s: string, k: nat)
    requires FindAny(s, {',', '}'}) == Some(k)
    ensures FieldValue(s) == Some(Trim(s[..k]))
  {
  }

  /** The field ends at the first ',' or '}', so text free of both comes back trimmed. */
  lemma FieldValueOf(v: string, rest: string)
    requires forall i :: 0 <= i < |v| ==> v[i] != ',' && v[i] != '}'
    requires rest != [] && (rest[0] == ',' || rest[0] == '}')
    ensures FieldValue(TrimStart(v + rest)) == Some(Trim(v))
  {
    TrimStartJoin(v, rest);
    TrimStartTwice(v);
    hide *;
    var t := TrimStart(v);
    FirstStop(v, t, rest);
    var s := t + rest;
    assert s[..|t|] == t;
    FieldValueAt(s, |t|);
    TrimIs(t);
    TrimIs(v);
  }

  lemma TrimIs(s: string)
    ensures Trim(s) == TrimEnd(TrimStart(s))
  {
  }

  /** A tail of v, which holds no ',' or '}', ends at the stop that starts rest. */
  lemma FirstStop(v: string, t: string, rest: string)
    requires |t| <= |v| && t == v[|v| - |t|..]
    requires forall i :: 0 <= i < |v| ==> v[i] != ',' && v[i] != '}'
    requires rest != [] && (rest[0] == ',' || rest[0] == '}')
    ensures FindAny(t + rest, {',', '}'}) == Some(|t|)
  {
    forall j | 0 <= j < |t|
      ensures (t + rest)[j] !in {',', '}'}
    {
      assert (t + rest)[j] == v[|v| - |t| + j];
    }
    FindAnyIs(t + rest, {',', '}'}, |t|);
  }

  /** The first colon after "point_estimate" opens the field. */
  lemma FromPointEstimateOf(v: string, rest: string)
    requires forall i :: 0 <= i < |v| ==> v[i] != ',' && v[i] != '}'
    requires rest != [] && (rest[0] == ',' || rest[0] == '}')
    ensures FromPointEstimate(":" + v + rest) == Some(Trim(v))
  {
    var s := ":" + v + rest;
    FindIs(s, ":", 0);
    assert s[1..] == v + rest;
    FieldValueOf(v, rest);
  }

  /** The field is read after the first "point_estimate", wherever that ends. */
  lemma FromMedianOf(head: string, tail: string)
    requires |head| >= |POINT_ESTIMATE| && Find(head, POINT_ESTIMATE) == Some(|head| - |POINT_ESTIMATE|)
    ensures FromMedian(head + tail) == FromPointEstimate(tail)
  {
    FindExtend(head, tail, POINT_ESTIMATE);
    assert (head + tail)[|head|..] == tail;
  }

  /** The search for "point_estimate" starts at the first "median". */
  lemma ReadEstimateAt(pre: string, body: string)
    requires Find(pre + MEDIAN, MEDIAN) == Some(|pre|) && |body| >= |MEDIAN| && body[..|MEDIAN|] == MEDIAN
    ensures ReadEstimate(pre + body) == FromMedian(body)
  {
    hide *;
    assert pre + body == (pre + MEDIAN) + body[|MEDIAN|..];
    FindExtend(pre + MEDIAN, body[|MEDIAN|..], MEDIAN);
    assert (pre + body)[|pre|..] == body;
    ReadEstimateFrom(pre + body, |pre|);
  }

  /** ReadEstimate continues from the first "median". */
  lemma ReadEstimateFrom(data: string, m: nat)
    requires Find(data, MEDIAN) == Some(m)
    ensures ReadEstimate(data) == FromMedian(data[m..])
  {
  }

  /**
   * Whatever comes before the first "median" and between it and the first
   * "point_estimate" after it, the estimate read is the trimmed text between
   * the colon and the ',' or '}' that ends the field.
   */
  lemma ReadEstimateOf(pre: string, mid: string, v: string, rest: string)
    requires Find(pre + MEDIAN, MEDIAN) == Some(|pre|)
    requires Find(MEDIAN + mid + POINT_ESTIMATE, POINT_ESTIMATE) == Some(|MEDIAN| + |mid|)
    requires forall i :: 0 <= i < |v| ==> v[i] != ',' && v[i] != '}'
    requires rest != [] && (rest[0] == ',' || rest[0] == '}')
    ensures ReadEstimate(pre + (MEDIAN + mid + POINT_ESTIMATE) + (":" + v + rest)) == Some(Trim(v))
  {
    var head := MEDIAN + mid + POINT_ESTIMATE;
    var tail := ":" + v + rest;
    hide *;
    FromPointEstimateOf(v, rest);
    assert (head + tail)[..|MEDIAN|] == MEDIAN;
    assert pre + head + tail == pre + (head + tail);
    ReadEstimateAt(pre, head + tail);
    FromMedianOf(head, tail);
  }

  // ---------------------------------------------------------------------
  // format_time's unit
  // ---------------------------------------------------------------------

  datatype TimeUnit = Ms | Us | Ns

  /** format_time: milliseconds from a million nanoseconds, microseconds from a thousand, else nanoseconds. */
  function UnitFor(ns: real): TimeUnit
  {
    if ns >= 1_000_000.0 then Ms else if ns >= 1_000.0 then Us else Ns
  }

  /** The number format_time prints in its unit. */
  function Scaled(ns: real): real
  {
    match UnitFor(ns)
    case Ms => ns / 1_000_000.0
    case Us => ns / 1_000.0
    case Ns => ns
  }

  /**
   * The printed number is at least 1 in milliseconds and microseconds and
   * below 1000 in microseconds and nanoseconds, and scales back to the time.
   */
  lemma UnitChoice(ns: real)
    requires ns >= 0.0
    ensures UnitFor(ns) != Ns ==> Scaled(ns) >= 1.0
    ensures UnitFor(ns) != Ms ==> Scaled(ns) < 1000.0
    ensures ns == Scaled(ns) * (match UnitFor(ns) case Ms => 1_000_000.0 case Us => 1_000.0 case Ns => 1.0)
  {
  }

  // ---------------------------------------------------------------------
  // The allocators the summary knows, and their colours
  // ---------------------------------------------------------------------

  const KNOWN: seq<string> := [
    "system", "rstc_nightly", "rstc_percpu", "rstc_std", "rstc_nostd",
    "mimalloc", "google_tc", "jemalloc", "snmalloc", "rpmalloc"
  ]

  const WHITE: string := "\U{1B}[37m"
  const GREEN: string := "\U{1B}[32m"
  const BRIGHT_GREEN: string := "\U{1B}[92m"
  const MAGENTA: string := "\U{1B}[35m"
  const RED: string := "\U{1B}[31m"
  const CYAN: string := "\U{1B}[36m"
  const YELLOW: string := "\U{1B}[33m"
  const BRIGHT_BLUE: string := "\U{1B}[94m"
  const BRIGHT_CYAN: string := "\U{1B}[96m"
  const BRIGHT_YELLOW: string := "\U{1B}[93m"

  /** The terminal colours, in KNOWN's order. */
  const TERMINAL_COLORS: seq<string> := [
    WHITE, GREEN, BRIGHT_GREEN, MAGENTA, RED, CYAN, YELLOW, BRIGHT_BLUE, BRIGHT_CYAN, BRIGHT_YELLOW
  ]

  /** The plot colours, in KNOWN's order. */
  const SVG_COLORS: seq<string> := [
    "#888888", "#2ca02c", "#98df8a", "#9467bd", "#d62728",
    "#17becf", "#ff7f0e", "#1f77b4", "#e377c2", "#bcbd22"
  ]

  /** criterion's own violin fill, which a name outside the table keeps. */
  const DEFAULT_FILL: string := "#1f78b4"

  /** Where name sits in KNOWN, if it does. */
  function KnownIndex(name: string): (r: Option<nat>)
    ensures r.Some? ==> r.value < |KNOWN| && KNOWN[r.value] == name
    ensures r.None? ==> name !in KNOWN
  {
    IndexIn(KNOWN, name)
  }

  function IndexIn(xs: seq<string>, x: string): (r: Option<nat>)
    ensures r.Some? ==> r.value < |xs| && xs[r.value] == x
    ensures r.None? ==> x !in xs
  {
    if xs == [] then None
    else if xs[0] == x then Some(0)
    else match IndexIn(xs[1..], x)
      case None => None
      case Some(i) => Some(i + 1)
  }

  /** color_for: the name's terminal colour, white for a name outside the table. */
  function ColorFor(name: string): string
  {
    match KnownIndex(name)
    case Some(i) => TERMINAL_COLORS[i]
    case None => WHITE
  }

  /** svg_color_for: the name's plot colour, criterion's blue for a name outside the table. */
  function SvgColorFor(name: string): string
  {
    match KnownIndex(name)
    case Some(i) => SVG_COLORS[i]
    case None => DEFAULT_FILL
  }

  lemma KnownDistinct()
    ensures forall i, j :: 0 <= i < j < |KNOWN| ==> KNOWN[i] != KNOWN[j]
  {
  }

  lemma TerminalColorsDistinct()
    ensures forall i, j :: 0 <= i < j < |TERMINAL_COLORS| ==> TERMINAL_COLORS[i] != TERMINAL_COLORS[j]
  {
    forall i, j | 0 <= i < j < |TERMINAL_COLORS|
      ensures TERMINAL_COLORS[i] != TERMINAL_COLORS[j]
    {
      assert TERMINAL_COLORS[i][2] != TERMINAL_COLORS[j][2] || TERMINAL_COLORS[i][3] != TERMINAL_COLORS[j][3];
    }
  }

  lemma SvgColorsApart()
    ensures forall i, j :: 0 <= i < j < |SVG_COLORS| ==> SVG_COLORS[i] != SVG_COLORS[j]
    ensures forall i :: 0 <= i < |SVG_COLORS| ==> SVG_COLORS[i] != DEFAULT_FILL
  {
    forall i, j | 0 <= i < j < |SVG_COLORS|
      ensures SVG_COLORS[i] != SVG_COLORS[j]
    {
      assert SVG_COLORS[i][1..3] != SVG_COLORS[j][1..3] || SVG_COLORS[i][3..] != SVG_COLORS[j][3..];
    }
  }

  /**
   * Every known allocator but "system" has a terminal colour of its own;
   * "system" shares white with every unknown name.
   */
  lemma ColorsDistinct(a: string, b: string)
    ensures ColorFor(a) == WHITE <==> a == "system" || a !in KNOWN
    ensures a in KNOWN && b in KNOWN && a != b ==> ColorFor(a) != ColorFor(b)
  {
    TerminalColorsDistinct();
  }

  /**
   * Every known allocator has a plot colour of its own, never criterion's
   * default, so each known violin is recoloured and none is confused with
   * another.
   */
  lemma SvgColorsDistinct(a: string, b: string)
    ensures SvgColorFor(a) == DEFAULT_FILL <==> a !in KNOWN
    ensures a in KNOWN && b in KNOWN && a != b ==> SvgColorFor(a) != SvgColorFor(b)
  {
    SvgColorsApart();
  }
}
