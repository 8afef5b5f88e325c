/**
 * recolor_svgs: criterion's violin plots carry labels `<group>/<alloc>...`
 * at known heights and polygons filled with criterion's blue; each polygon
 * takes the plot colour of the allocator whose label is nearest its first
 * point.
 *
 * Parsing a number out of the SVG text is the parameter `parseY`, the
 * benchmark program's `str::parse::<f64>`.
 */
module BenchRecolor {
  import opened Wrappers
  import opened BenchSummary

  // ---------------------------------------------------------------------
  // str::split on one character
  // ---------------------------------------------------------------------

  /** The parts joined back with the separator between them. */
  function Join(parts: seq<string>, sep: char): string
    requires |parts| >= 1
    decreases |parts|
  {
    if |parts| == 1 then parts[0] else parts[0] + [sep] + Join(parts[1..], sep)
  }

  /** str::split: the pieces between separators, empty ones included. */
  function Split(s: string, sep: char): (parts: seq<string>)
    ensures |parts| >= 1
    ensures forall k, i :: 0 <= k < |parts| && 0 <= i < |parts[k]| ==> parts[k][i] != sep
    ensures Join(parts, sep) == s
    decreases |s|
  {
    match FindAny(s, {sep})
    case None => [s]
    case Some(i) =>
      var rest := Split(s[i + 1..], sep);
      assert s == s[..i] + [sep] + s[i + 1..];
      [s[..i]] + rest
  }

  /** Splitting pieces that hold no separator, once joined, gives them back. */
  lemma {:induction false} SplitJoin(parts: seq<string>, sep: char)
    requires |parts| >= 1
    requires forall k, i :: 0 <= k < |parts| && 0 <= i < |parts[k]| ==> parts[k][i] != sep
    ensures Split(Join(parts, sep), sep) == parts
    decreases |parts|
  {
    var p := parts[0];
    if |parts| == 1 {
      assert forall i :: 0 <= i < |p| ==> p[i] !in {sep};
    } else {
      var rest := Join(parts[1..], sep);
      var s := p + [sep] + rest;
      forall j | 0 <= j < |p|
        ensures s[j] !in {sep}
      {
        assert s[j] == parts[0][j];
      }
      FindAnyIs(s, {sep}, |p|);
      assert s[..|p|] == p;
      assert s[|p| + 1..] == rest;
      SplitJoin(parts[1..], sep);
    }
  }

  // ---------------------------------------------------------------------
  // Labels
  // ---------------------------------------------------------------------

  /**
   * The allocator a label names: the trimmed text split on '/' must have at
   * least two parts, and the second must be a known allocator.
   */
  function LabelAlloc(text: string): (r: Option<string>)
    ensures r.Some? ==> r.value in KNOWN
  {
    var parts := Split(Trim(text), '/');
    if |parts| >= 2 && parts[1] in KNOWN then Some(parts[1]) else None
  }

  /** A label `<group>/<alloc>[/...]` names alloc exactly when alloc is known. */
  lemma LabelOf(text: string, parts: seq<string>)
    requires |parts| >= 2
    requires forall k, i :: 0 <= k < |parts| && 0 <= i < |parts[k]| ==> parts[k][i] != '/'
    requires Trim(text) == Join(parts, '/')
    ensures LabelAlloc(text) == if parts[1] in KNOWN then Some(parts[1]) else None
  {
    SplitJoin(parts, '/');
  }

  /** A label without '/' names nothing. */
  lemma NoSlashNoLabel(text: string)
    requires forall i :: 0 <= i < |Trim(text)| ==> Trim(text)[i] != '/'
    ensures LabelAlloc(text) == None
  {
    SplitJoin([Trim(text)], '/');
  }

  const TEXT_OPEN: string := "<text "
  const TEXT_CLOSE: string := "</text>"
  const Y_ATTR: string := " y=\""

  /**
   * The text between the first '>' of a `<text ...>...</text>` tag and its
   * closing `</text>`, or None when there is no '>' before the closing tag.
   */
  function TagText(tag: string): (r: Option<string>)
    requires |tag| >= |TEXT_CLOSE|
    ensures r.Some? ==> exists gt :: 0 <= gt < |tag| - |TEXT_CLOSE| && tag[gt] == '>' && r.value == tag[gt + 1..|tag| - |TEXT_CLOSE|]
  {
    match FindAny(tag, {'>'})
    case None => None
    case Some(gt) => if gt + 1 > |tag| - |TEXT_CLOSE| then None else Some(tag[gt + 1..|tag| - |TEXT_CLOSE|])
  }

  /**
   * What one text tag adds to label_y: the y attribute's value and the
   * allocator the label names, when both are there.
   */
  function TagLabel(tag: string, parseY: string -> Option<real>): (r: seq<Timing>)
    requires |tag| >= |TEXT_CLOSE|
    ensures |r| <= 1
    ensures forall l :: l in r ==> l.0 in KNOWN
  {
    match Find(tag, Y_ATTR)
    case None => []
    case Some(ys) =>
      var yStr := tag[ys + |Y_ATTR|..];
      match FindAny(yStr, {'"'})
      case None => []
      case Some(ye) =>
        match parseY(yStr[..ye])
        case None => []
        case Some(y) =>
          match TagText(tag)
          case None => []
          case Some(text) =>
            match LabelAlloc(text)
            case None => []
            case Some(alloc) => [(alloc, y)]
  }

  /** An allocator's name and the height of its label. */
  type Timing = (string, real)

  /** The labels in the rest of the text, in the order the scan finds them. */
  function LabelsIn(rest: string, parseY: string -> Option<real>): (r: seq<Timing>)
    ensures forall l :: l in r ==> l.0 in KNOWN
    decreases |rest|
  {
    match Find(rest, TEXT_OPEN)
    case None => []
    case Some(start) =>
      match Find(rest[start..], TEXT_CLOSE)
      case None => []
      case Some(end) =>
        var next := start + end + |TEXT_CLOSE|;
        TagLabel(rest[start..next], parseY) + LabelsIn(rest[next..], parseY)
  }

  /** An occurrence Find reports lies inside the text. */
  lemma FoundWithin(s: string, pat: string, k: nat)
    requires Find(s, pat) == Some(k)
    ensures k + |pat| <= |s|
  {
  }

  /** One step of the scan: a closed text tag, then the labels after it. */
  lemma LabelsInStep(rest: string, start: nat, end: nat, parseY: string -> Option<real>)
    requires Find(rest, TEXT_OPEN) == Some(start)
    requires start <= |rest| && Find(rest[start..], TEXT_CLOSE) == Some(end)
    ensures start + end + |TEXT_CLOSE| <= |rest|
    ensures LabelsIn(rest, parseY) ==
      TagLabel(rest[start..start + end + |TEXT_CLOSE|], parseY) + LabelsIn(rest[start + end + |TEXT_CLOSE|..], parseY)
  {
    hide Find, At, TagLabel, TEXT_OPEN, TEXT_CLOSE, KNOWN;
    FoundWithin(rest[start..], TEXT_CLOSE, end);
  }

  /** The scan stops when no text tag opens, or the one that opens is never closed. */
  lemma LabelsInEnd(rest: string, parseY: string -> Option<real>)
    ensures Find(rest, TEXT_OPEN).None? ==> LabelsIn(rest, parseY) == []
    ensures (Find(rest, TEXT_OPEN).Some? && Find(rest, TEXT_OPEN).value <= |rest| &&
             Find(rest[Find(rest, TEXT_OPEN).value..], TEXT_CLOSE).None?) ==> LabelsIn(rest, parseY) == []
  {
    hide Find, At, TagLabel;
  }

  /** The label scan of recolor_svgs: every `<text ...>...</text>` tag in turn. */
  method ScanLabels(content: string, parseY: string -> Option<real>) returns (labels: seq<Timing>)
    ensures labels == LabelsIn(content, parseY)
    ensures forall l :: l in labels ==> l.0 in KNOWN
  {
    hide LabelsIn, Find, At, TagLabel;
    labels := [];
    var pos := 0;
    while true
      invariant pos <= |content|
      invariant labels + LabelsIn(content[pos..], parseY) == LabelsIn(content, parseY)
      decreases |content| - pos
    {
      ghost var rest := content[pos..];
      LabelsInEnd(rest, parseY);
      var found := Find(content[pos..], TEXT_OPEN);
      if found.None? {
        break;
      }
      FoundWithin(rest, TEXT_OPEN, found.value);
      var abs := pos + found.value;
      assert content[abs..] == rest[found.value..];
      var close := Find(content[abs..], TEXT_CLOSE);
      if close.None? {
        break;
      }
      FoundWithin(rest[found.value..], TEXT_CLOSE, close.value);
      var next := abs + close.value + |TEXT_CLOSE|;
      var tag := content[abs..next];
      assert tag == rest[found.value..found.value + close.value + |TEXT_CLOSE|];
      assert content[next..] == rest[found.value + close.value + |TEXT_CLOSE|..];
      LabelsInStep(rest, found.value, close.value, parseY);
      labels := labels + TagLabel(tag, parseY);
      pos := next;
    }
    assert labels == labels + [];
  }

  /** A step of the program as written: a value, or a panic that ends the whole run. */
  datatype Step<T> = Panic | Done(value: T)

  /**
   * The slice recolor_svgs takes for a text tag's content; it panics where
   * the slice's start passes its end.
   */
  function TagTextAsWritten(tag: string): Step<Option<string>>
    requires |tag| >= |TEXT_CLOSE|
  {
    match FindAny(tag, {'>'})
    case None => Done(None)
    case Some(gt) => if gt + 1 <= |tag| - |TEXT_CLOSE| then Done(Some(tag[gt + 1..|tag| - |TEXT_CLOSE|])) else Panic
  }

  /** Both agree on every tag whose opening tag is closed by '>'. */
  lemma TagTextAgrees(tag: string, gt: nat)
    requires gt < |tag| - |TEXT_CLOSE| && tag[gt] == '>'
    ensures TagTextAsWritten(tag) == Done(TagText(tag))
  {
  }

  /**
   * A text tag whose opening tag is never closed by '>' makes the slice
   * start after its end: the only '>' is the last character of `</text>`.
   * TagText, which the scan uses, skips such a tag instead.
   */
  lemma TagTextPanics()
    ensures TagTextAsWritten("<text y=\"1\"</text>") == Panic
    ensures TagText("<text y=\"1\"</text>") == None
  {
    var tag := "<text y=\"1\"</text>";
    FindAnyIs(tag, {'>'}, |tag| - 1);
  }

  // ---------------------------------------------------------------------
  // The nearest label
  // ---------------------------------------------------------------------

  function Dist(a: real, b: real): real
  {
    if a >= b then a - b else b - a
  }

  /**
   * min_by on |label y - y|: the first label at the least distance, None
   * only when there are no labels.
   */
  function Closest(labels: seq<Timing>, y: real): (r: Option<nat>)
    ensures r.None? <==> labels == []
    ensures r.Some? ==> r.value < |labels|
    ensures r.Some? ==> forall j :: 0 <= j < |labels| ==> Dist(labels[r.value].1, y) <= Dist(labels[j].1, y)
    ensures r.Some? ==> forall j :: 0 <= j < r.value ==> Dist(labels[j].1, y) > Dist(labels[r.value].1, y)
  {
    if labels == [] then None
    else match Closest(labels[1..], y)
      case None => Some(0)
      case Some(k) =>
        assert labels[1..][k] == labels[k + 1];
        if Dist(labels[k + 1].1, y) < Dist(labels[0].1, y) then Some(k + 1) else Some(0)
  }

  // ---------------------------------------------------------------------
  // Polygons
  // ---------------------------------------------------------------------

  const POLYGON_OPEN: string := "<polygon "
  const TAG_END: string := "/>"
  const POINTS: string := "points=\""
  const FILL_UPPER: string := "fill=\"#1F78B4\""
  const FILL_LOWER: string := "fill=\"#1f78b4\""
  const SPACES: set<char> := {' ', '\t', '\n', '\r', '\U{0B}', '\U{0C}'}

  function Fill(color: string): string
  {
    "fill=\"" + color + "\""
  }

  /** str::replace: every occurrence of pat, left to right and not overlapping, replaced by rep. */
  function ReplaceAll(s: string, pat: string, rep: string): (r: string)
    requires pat != []
    ensures Find(s, pat).None? ==> r == s
    decreases |s|
  {
    match Find(s, pat)
    case None => s
    case Some(i) => s[..i] + rep + ReplaceAll(s[i + |pat|..], pat, rep)
  }

  /** A text with exactly one occurrence, at |pre|, has that one replaced. */
  lemma ReplaceOne(pre: string, pat: string, post: string, rep: string)
    requires pat != []
    requires Find(pre + pat, pat) == Some(|pre|)
    requires Find(post, pat).None?
    ensures ReplaceAll(pre + pat + post, pat, rep) == pre + rep + post
  {
    FindExtend(pre + pat, post, pat);
    var s := pre + pat + post;
    assert s == (pre + pat) + post;
    assert s[..|pre|] == pre;
    assert s[|pre| + |pat|..] == post;
  }

  /** Both spellings of criterion's blue replaced by color. */
  function Repaint(tag: string, color: string): (r: string)
    ensures Find(tag, FILL_UPPER).None? && Find(tag, FILL_LOWER).None? ==> r == tag
  {
    ReplaceAll(ReplaceAll(tag, FILL_UPPER, Fill(color)), FILL_LOWER, Fill(color))
  }

  /** A polygon filled once with the lower-case spelling gets exactly that fill replaced. */
  lemma RepaintLower(pre: string, post: string, color: string)
    requires Find(pre + FILL_LOWER + post, FILL_UPPER).None?
    requires Find(pre + FILL_LOWER, FILL_LOWER) == Some(|pre|)
    requires Find(post, FILL_LOWER).None?
    ensures Repaint(pre + FILL_LOWER + post, color) == pre + Fill(color) + post
  {
    ReplaceOne(pre, FILL_LOWER, post, Fill(color));
  }

  /**
   * A polygon filled once with the upper-case spelling gets exactly that
   * fill replaced, when the result holds no lower-case spelling for the
   * second replace to find.
   */
  lemma RepaintUpper(pre: string, post: string, color: string)
    requires Find(pre + FILL_UPPER, FILL_UPPER) == Some(|pre|)
    requires Find(post, FILL_UPPER).None?
    requires Find(pre + Fill(color) + post, FILL_LOWER).None?
    ensures Repaint(pre + FILL_UPPER + post, color) == pre + Fill(color) + post
  {
    ReplaceOne(pre, FILL_UPPER, post, Fill(color));
  }

  /** split_whitespace().next(): the first run of non-space characters. */
  function FirstToken(s: string): Option<string>
  {
    var t := TrimStart(s);
    if t == [] then None
    else match FindAny(t, SPACES)
      case None => Some(t)
      case Some(e) => Some(t[..e])
  }

  /**
   * No token in blank text; otherwise the token is non-empty, free of
   * whitespace, preceded only by whitespace, and followed by whitespace or
   * the end of the text.
   */
  lemma FirstTokenShape(s: string)
    ensures FirstToken(s).None? <==> forall i :: 0 <= i < |s| ==> s[i] in SPACES
    ensures FirstToken(s).Some? ==> RunAt(s, FirstToken(s).value, |s| - |TrimStart(s)|)
  {
    FirstTokenBlank(s);
    FirstTokenRun(s);
  }

  /**
   * tok is a non-empty run of non-space characters at offset k of s,
   * preceded only by whitespace and followed by whitespace or the end.
   */
  ghost predicate RunAt(s: string, tok: string, k: nat)
  {
    && tok != [] && k + |tok| <= |s| && s[k..k + |tok|] == tok
    && (forall i :: 0 <= i < |tok| ==> tok[i] !in SPACES)
    && (forall i :: 0 <= i < k ==> s[i] in SPACES)
    && (k + |tok| == |s| || s[k + |tok|] in SPACES)
  }

  lemma FirstTokenBlank(s: string)
    ensures FirstToken(s).None? <==> forall i :: 0 <= i < |s| ==> s[i] in SPACES
  {
    var t := TrimStart(s);
    var k := |s| - |t|;
    assert FirstToken(s).None? <==> t == [];
    hide FirstToken, FindAny;
    if t == [] {
      forall i | 0 <= i < |s|
        ensures s[i] in SPACES
      {
        SpaceIn(s[i]);
      }
    } else {
      NotSpaceOut(t[0]);
      assert s[k] == t[0];
    }
  }

  lemma FirstTokenRun(s: string)
    ensures FirstToken(s).Some? ==> RunAt(s, FirstToken(s).value, |s| - |TrimStart(s)|)
  {
    hide IsSpace;
    var t := TrimStart(s);
    var k := |s| - |t|;
    if t != [] {
      var f := FindAny(t, SPACES);
      var e := if f.None? then |t| else f.value;
      assert FirstToken(s) == Some(if f.None? then t else t[..e]);
      assert t[..|t|] == t;
      assert FirstToken(s) == Some(t[..e]);
      NotSpaceOut(t[0]);
      forall i | 0 <= i < k
        ensures s[i] in SPACES
      {
        SpaceIn(s[i]);
      }
      hide FirstToken, FindAny, TrimStart;
      RunAtTail(s, t, k, e);
    }
  }

  /** A whitespace-delimited prefix of the tail s[k..], after only whitespace, is a run at k. */
  lemma RunAtTail(s: string, t: string, k: nat, e: nat)
    requires k <= |s| && t == s[k..] && e <= |t| && t != [] && t[0] !in SPACES
    requires forall i :: 0 <= i < e ==> t[i] !in SPACES
    requires e == |t| || t[e] in SPACES
    requires forall i :: 0 <= i < k ==> s[i] in SPACES
    ensures RunAt(s, t[..e], k)
  {
    assert e != 0;
    assert s[k..k + e] == t[..e];
  }

  lemma SpaceIn(c: char)
    requires IsSpace(c)
    ensures c in SPACES
  {
  }

  lemma NotSpaceOut(c: char)
    requires !IsSpace(c)
    ensures c !in SPACES
  {
  }

  /** The first point's y: the second ','-separated part of the first token, parsed. */
  function FirstY(pts: string, parseY: string -> Option<real>): Option<real>
  {
    match FirstToken(pts)
    case None => None
    case Some(tok) =>
      var parts := Split(tok, ',');
      if |parts| >= 2 then parseY(parts[1]) else None
  }

  /**
   * One polygon tag: with a points attribute whose first point has a y,
   * and at least one label, both spellings of criterion's blue become the
   * nearest label's plot colour; otherwise the tag is kept.
   */
  function RecolorTag(tag: string, labels: seq<Timing>, parseY: string -> Option<real>): (r: string)
    ensures Find(tag, POINTS).None? ==> r == tag
    ensures r == tag || exists k :: 0 <= k < |labels| && r == Repaint(tag, SvgColorFor(labels[k].0))
  {
    match Find(tag, POINTS)
    case None => tag
    case Some(ps) =>
      match FirstY(tag[ps + |POINTS|..], parseY)
      case None => tag
      case Some(y) =>
        match Closest(labels, y)
        case None => tag
        case Some(k) => Repaint(tag, SvgColorFor(labels[k].0))
  }

  /**
   * A polygon whose first point has a y takes the plot colour of the label
   * nearest that y (the first one on a tie), as min_by picks it.
   */
  lemma RecolorNearest(tag: string, labels: seq<Timing>, parseY: string -> Option<real>, ps: nat, y: real)
    requires Find(tag, POINTS) == Some(ps) && ps + |POINTS| <= |tag|
    requires FirstY(tag[ps + |POINTS|..], parseY) == Some(y)
    requires labels != []
    ensures exists k :: 0 <= k < |labels| &&
              (forall j :: 0 <= j < |labels| ==> Dist(labels[k].1, y) <= Dist(labels[j].1, y)) &&
              (forall j :: 0 <= j < k ==> Dist(labels[j].1, y) > Dist(labels[k].1, y)) &&
              RecolorTag(tag, labels, parseY) == Repaint(tag, SvgColorFor(labels[k].0))
  {
    hide Repaint, FirstY, Find, POINTS, FILL_UPPER, FILL_LOWER, SvgColorFor, Closest;
    var k := Closest(labels, y).value;
    assert RecolorTag(tag, labels, parseY) == Repaint(tag, SvgColorFor(labels[k].0));
    assert forall j :: 0 <= j < |labels| ==> Dist(labels[k].1, y) <= Dist(labels[j].1, y);
  }

  /** A polygon whose points give no first y is kept as it is. */
  lemma RecolorNoY(tag: string, labels: seq<Timing>, parseY: string -> Option<real>, ps: nat)
    requires Find(tag, POINTS) == Some(ps) && ps + |POINTS| <= |tag|
    requires FirstY(tag[ps + |POINTS|..], parseY).None?
    ensures RecolorTag(tag, labels, parseY) == tag
  {
    hide Repaint, FirstY, Find, POINTS, FILL_UPPER, FILL_LOWER, SvgColorFor, Closest;
  }

  /** Without labels no polygon changes. */
  lemma NoLabelsKeepTag(tag: string, parseY: string -> Option<real>)
    ensures RecolorTag(tag, [], parseY) == tag
  {
  }

  /**
   * Where a polygon tag starting at ps ends: just after the next "/>", or
   * at the end of the text when there is none.
   */
  function PolygonEnd(remaining: string, ps: nat): (r: nat)
    requires ps + |POLYGON_OPEN| <= |remaining|
    ensures ps < r <= |remaining|
  {
    match Find(remaining[ps..], TAG_END)
    case Some(e) => ps + e + |TAG_END|
    case None => |remaining|
  }

  /**
   * The end recolor_svgs computes, None where it lies past the text (the
   * program panics there): with no "/>" it falls back to the length of the
   * rest and still adds the two characters of "/>".
   */
  function PolygonEndAsWritten(remaining: string, ps: nat): Step<nat>
    requires ps <= |remaining|
  {
    var e := match Find(remaining[ps..], TAG_END)
      case Some(e) => e
      case None => |remaining| - ps;
    if ps + e + |TAG_END| <= |remaining| then Done(ps + e + |TAG_END|) else Panic
  }

  /** Both agree whenever the polygon is closed with "/>". */
  lemma PolygonEndAgrees(remaining: string, ps: nat)
    requires ps + |POLYGON_OPEN| <= |remaining|
    requires Find(remaining[ps..], TAG_END).Some?
    ensures PolygonEndAsWritten(remaining, ps) == Done(PolygonEnd(remaining, ps))
  {
  }

  /** An unclosed polygon at the end of the text: the program's slice panics, the model takes the rest. */
  lemma PolygonEndPanics()
    ensures PolygonEndAsWritten(POLYGON_OPEN, 0) == Panic
    ensures PolygonEnd(POLYGON_OPEN, 0) == |POLYGON_OPEN|
  {
    var s := POLYGON_OPEN[0..];
    assert s == POLYGON_OPEN;
    forall j: nat
      ensures !At(s, TAG_END, j)
    {
      if j + |TAG_END| <= |s| {
        assert s[j..j + |TAG_END|][0] == s[j] != '/';
      }
    }
  }

  /** The recoloured text from the remaining input on. */
  function RecolorFrom(remaining: string, labels: seq<Timing>, parseY: string -> Option<real>): (r: string)
    ensures Find(remaining, POLYGON_OPEN).None? ==> r == remaining
    decreases |remaining|
  {
    match Find(remaining, POLYGON_OPEN)
    case None => remaining
    case Some(ps) =>
      var end := PolygonEnd(remaining, ps);
      remaining[..ps] + RecolorTag(remaining[ps..end], labels, parseY) + RecolorFrom(remaining[end..], labels, parseY)
  }

  /** With no labels the text comes back unchanged. */
  lemma {:induction false} NoLabelsKeepText(remaining: string, parseY: string -> Option<real>)
    ensures RecolorFrom(remaining, [], parseY) == remaining
    decreases |remaining|
  {
    match Find(remaining, POLYGON_OPEN)
    case None =>
    case Some(ps) =>
      var end := PolygonEnd(remaining, ps);
      NoLabelsKeepText(remaining[end..], parseY);
      NoLabelsKeepTag(remaining[ps..end], parseY);
      assert remaining == remaining[..ps] + remaining[ps..end] + remaining[end..];
  }

  /**
   * One pass of the polygon loop: the text before the next polygon and the
   * recoloured polygon, and the text after it.
   */
  method NextPolygon(remaining: string, labels: seq<Timing>, parseY: string -> Option<real>) returns (piece: string, rest: string)
    requires Find(remaining, POLYGON_OPEN).Some?
    ensures |rest| < |remaining|
    ensures RecolorFrom(remaining, labels, parseY) == piece + RecolorFrom(rest, labels, parseY)
  {
    var ps := Find(remaining, POLYGON_OPEN).value;
    var end := PolygonEnd(remaining, ps);
    piece := remaining[..ps] + RecolorTag(remaining[ps..end], labels, parseY);
    rest := remaining[end..];
  }

  /** The polygon loop of recolor_svgs. */
  method RecolorPolygons(content: string, labels: seq<Timing>, parseY: string -> Option<real>) returns (result: string)
    ensures result == RecolorFrom(content, labels, parseY)
  {
    hide RecolorFrom, RecolorTag, PolygonEnd, Find;
    result := [];
    var remaining := content;
    while true
      invariant result + RecolorFrom(remaining, labels, parseY) == RecolorFrom(content, labels, parseY)
      decreases |remaining|
    {
      if Find(remaining, POLYGON_OPEN).None? {
        break;
      }
      var piece, rest := NextPolygon(remaining, labels, parseY);
      assert (result + piece) + RecolorFrom(rest, labels, parseY) == result + (piece + RecolorFrom(rest, labels, parseY));
      result := result + piece;
      remaining := rest;
    }
    result := result + remaining;
  }

  /**
   * One violin plot: None when it has no known label (the file is left as
   * it is), otherwise the recoloured text.
   */
  method RecolorSvg(content: string, parseY: string -> Option<real>) returns (r: Option<string>)
    ensures r.None? <==> LabelsIn(content, parseY) == []
    ensures r.Some? ==> r.value == RecolorFrom(content, LabelsIn(content, parseY), parseY)
  {
    var labels := ScanLabels(content, parseY);
    if labels == [] {
      return None;
    }
    var result := RecolorPolygons(content, labels, parseY);
    return Some(result);
  }
}
