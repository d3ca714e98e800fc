/**
 * The rewrite `makeLite` applies to the instrument definition (IDF) embedded in
 * the data file, so that its panels describe 32 x 32 super-pixels instead of
 * 256 x 256 native pixels. The text is cut into lines; a line is recognised by
 * the first of seven markers it contains, cut at its double quotes, and the
 * quoted values at fixed positions are overwritten.
 */
module InstrumentDefinition {
  import opened Wrappers
  import opened PyInt
  import opened PyText
  import opened Arith

  const Quote: char := '"'
  const Newline: char := '\n'

  /** The aggregation factor the rewrite is written for (`sumNeigh[0]`). */
  const SumNeigh: int := 8

  datatype LineKind =
    | PanelLine
    | XPixelsLine
    | YPixelsLine
    | LeftFrontBottomLine
    | LeftFrontTopLine
    | LeftBackBottomLine
    | RightFrontBottomLine
    | PlainLine

  /** The marker that identifies each kind of line. */
  function Marker(kind: LineKind): string {
    match kind
    case PanelLine => "<component type=\"panel\""
    case XPixelsLine => "xpixels="
    case YPixelsLine => "ypixels="
    case LeftFrontBottomLine => "left-front-bottom-point"
    case LeftFrontTopLine => "left-front-top-point"
    case LeftBackBottomLine => "left-back-bottom-point"
    case RightFrontBottomLine => "right-front-bottom-point"
    case PlainLine => ""
  }

  /** Position of each marker in the chain of tests; plain lines come last. */
  function Rank(kind: LineKind): nat {
    match kind
    case PanelLine => 0
    case XPixelsLine => 1
    case YPixelsLine => 2
    case LeftFrontBottomLine => 3
    case LeftFrontTopLine => 4
    case LeftBackBottomLine => 5
    case RightFrontBottomLine => 6
    case PlainLine => 7
  }

  /**
   * The `if ... elif ...` chain: a line is of the kind of the first marker it
   * contains, and plain when it contains none.
   */
  function Classify(line: string): (kind: LineKind)
    ensures kind != PlainLine ==> Contains(line, Marker(kind))
    ensures forall k :: k != PlainLine && Rank(k) < Rank(kind) ==> !Contains(line, Marker(k))
  {
    if Contains(line, Marker(PanelLine)) then PanelLine
    else if Contains(line, Marker(XPixelsLine)) then XPixelsLine
    else if Contains(line, Marker(YPixelsLine)) then YPixelsLine
    else if Contains(line, Marker(LeftFrontBottomLine)) then LeftFrontBottomLine
    else if Contains(line, Marker(LeftFrontTopLine)) then LeftFrontTopLine
    else if Contains(line, Marker(LeftBackBottomLine)) then LeftBackBottomLine
    else if Contains(line, Marker(RightFrontBottomLine)) then RightFrontBottomLine
    else PlainLine
  }

  /** Why a recognised line cannot be rewritten: Python's IndexError and ValueError. */
  datatype LineError = SpanMissing(span: nat) | NotAnInteger(span: nat)

  /** A list assignment `splitLine[index] = value`. */
  datatype SpanEdit = SpanEdit(index: nat, value: string)

  /** The assignments in order; the first index past the end raises. */
  function SetSpans(parts: seq<string>, edits: seq<SpanEdit>): Result<seq<string>, LineError>
    decreases |edits|
  {
    if |edits| == 0 then Ok(parts)
    else if edits[0].index >= |parts| then Err(SpanMissing(edits[0].index))
    else SetSpans(parts[edits[0].index := edits[0].value], edits[1..])
  }

  /** Pixel count and pixel pitch of the x- and y-pixel lines. */
  const PixelEdits: seq<SpanEdit> :=
    [SpanEdit(1, "32"), SpanEdit(3, "-0.076632"), SpanEdit(5, "+0.004944")]

  /** The two coordinates each corner-point line receives. */
  function CornerEdits(kind: LineKind): seq<SpanEdit> {
    match kind
    case LeftFrontBottomLine => [SpanEdit(1, "-0.002472"), SpanEdit(3, "-0.002472")]
    case LeftFrontTopLine => [SpanEdit(1, "0.002472"), SpanEdit(3, "-0.002472")]
    case LeftBackBottomLine => [SpanEdit(1, "-0.002472"), SpanEdit(3, "-0.002472")]
    case RightFrontBottomLine => [SpanEdit(1, "0.002472"), SpanEdit(3, "-0.002472")]
    case _ => []
  }

  predicate IsCorner(kind: LineKind) {
    kind.LeftFrontBottomLine? || kind.LeftFrontTopLine? || kind.LeftBackBottomLine?
    || kind.RightFrontBottomLine?
  }

  /** `int((idstart / 65536) * 32**2)`, exact rational arithmetic truncated toward zero. */
  function NewIdStart(idstart: int): int {
    TruncDiv(idstart * 1024, 65536)
  }

  /** `int(idstepbyrow / sumNeigh[0])`. */
  function NewIdStepByRow(idstepbyrow: int): int {
    TruncDiv(idstepbyrow, SumNeigh)
  }

  function EditLine(line: string, edits: seq<SpanEdit>): Result<string, LineError> {
    match SetSpans(Split(line, Quote), edits)
    case Ok(parts) => Ok(Join(parts, Quote))
    case Err(e) => Err(e)
  }

  /** The panel-definition line: new first pixel id in span 3, new id step per row in span 7. */
  function RewritePanelLine(parts: seq<string>): Result<string, LineError> {
    if |parts| <= 3 then Err(SpanMissing(3))
    else if ParseInt(parts[3]).None? then Err(NotAnInteger(3))
    else if |parts| <= 7 then Err(SpanMissing(7))
    else if ParseInt(parts[7]).None? then Err(NotAnInteger(7))
    else
      var idstart, idstepbyrow := ParseInt(parts[3]).value, ParseInt(parts[7]).value;
      Ok(Join(parts[3 := IntToString(NewIdStart(idstart))]
                   [7 := IntToString(NewIdStepByRow(idstepbyrow))], Quote))
  }

  /** The rewrite of a line recognised as of the given kind. */
  function RewriteAs(line: string, kind: LineKind): Result<string, LineError> {
    match kind
    case PanelLine => RewritePanelLine(Split(line, Quote))
    case XPixelsLine => EditLine(line, PixelEdits)
    case YPixelsLine => EditLine(line, PixelEdits)
    case PlainLine => Ok(line)
    case _ => EditLine(line, CornerEdits(kind))
  }

  /** The per-line body of the rewrite loop. */
  function RewriteLine(line: string): Result<string, LineError> {
    RewriteAs(line, Classify(line))
  }

  /** The line (counted from 0) whose rewrite raised, and why. */
  datatype IdfError = LineFault(line: nat, error: LineError)

  /** Line results gathered in order; the first failing line ends the collection. */
  function Collect(results: seq<Result<string, LineError>>): (r: Result<seq<string>, IdfError>)
    ensures r.Ok? <==> forall n :: 0 <= n < |results| ==> results[n].Ok?
    ensures r.Ok? ==>
      && |r.value| == |results|
      && forall n :: 0 <= n < |results| ==> results[n] == Ok(r.value[n])
    ensures r.Err? ==>
      && r.error.line < |results|
      && results[r.error.line] == Err(r.error.error)
      && forall n :: 0 <= n < r.error.line ==> results[n].Ok?
    decreases |results|
  {
    if |results| == 0 then Ok([])
    else
      var tail := results[1..];
      assert forall n :: 0 <= n < |tail| ==> tail[n] == results[n + 1];
      match results[0]
      case Err(e) => Err(LineFault(0, e))
      case Ok(first) =>
        match Collect(tail)
        case Err(f) => Err(LineFault(f.line + 1, f.error))
        case Ok(rest) => Ok([first] + rest)
  }

  /** Every line's rewrite, failing or not. */
  function LineResults(lines: seq<string>): (r: seq<Result<string, LineError>>)
    ensures |r| == |lines| && forall n :: 0 <= n < |lines| ==> r[n] == RewriteLine(lines[n])
    decreases |lines|
  {
    if |lines| == 0 then [] else [RewriteLine(lines[0])] + LineResults(lines[1..])
  }

  /** The rewrite of a list of lines: every line rewritten, or the first failure. */
  function RewriteLines(lines: seq<string>): (r: Result<seq<string>, IdfError>)
    ensures r.Ok? <==> forall n :: 0 <= n < |lines| ==> RewriteLine(lines[n]).Ok?
    ensures r.Ok? ==>
      && |r.value| == |lines|
      && forall n :: 0 <= n < |lines| ==> RewriteLine(lines[n]) == Ok(r.value[n])
    ensures r.Err? ==>
      && r.error.line < |lines|
      && RewriteLine(lines[r.error.line]) == Err(r.error.error)
      && forall n :: 0 <= n < r.error.line ==> RewriteLine(lines[n]).Ok?
  {
    Collect(LineResults(lines))
  }

  /** The rewrite of the whole IDF text. */
  function RewriteIdf(text: string): Result<string, IdfError> {
    match RewriteLines(Split(text, Newline))
    case Ok(newLines) => Ok(Join(newLines, Newline))
    case Err(e) => Err(e)
  }

  /** The loop of `makeLite` that builds `newLines` and joins them. */
  method RewriteInstrumentText(stringIdf: string) returns (r: Result<string, IdfError>)
    ensures r == RewriteIdf(stringIdf)
  {
    var lines := Split(stringIdf, Newline);
    ghost var results := LineResults(lines);
    var newLines: seq<string> := [];
    for k := 0 to |lines|
      invariant |newLines| == k
      invariant forall n :: 0 <= n < k ==> results[n] == Ok(newLines[n])
    {
      var line := RewriteLine(lines[k]);
      assert line == results[k];
      if line.Err? {
        ghost var expected := Collect(results);
        assert expected.Err? && expected.error.line == k;
        return Err(LineFault(k, line.error));
      }
      ghost var before := newLines;
      newLines := newLines + [line.value];
      forall n | 0 <= n <= k ensures results[n] == Ok(newLines[n]) {
        if n < k {
          assert newLines[n] == before[n];
        }
      }
    }
    ghost var expected := Collect(results);
    assert expected.Ok? && expected.value == newLines;
    return Ok(Join(newLines, Newline));
  }

  // ---------------------------------------------------------------------------
  // Properties of the rewrite

  /** A value the rewrite writes: no double quote, no newline. */
  predicate Plain(v: string) {
    Free(v, Quote) && Free(v, Newline)
  }

  lemma IntToStringPlain(n: int)
    ensures Plain(IntToString(n))
  {
    if n < 0 {
      assert IntToString(n) == "-" + NatToString(-n);
    }
  }

  /**
   * The new first pixel id is the old one divided by 64, truncated toward zero;
   * for the first pixel 65536 k of panel k it is 1024 k, the first super id of
   * that panel.
   */
  lemma NewIdStartFacts(idstart: int)
    ensures NewIdStart(idstart) == TruncDiv(idstart, 64)
    ensures idstart % 65536 == 0 ==> NewIdStart(idstart) == idstart / 64 == 1024 * (idstart / 65536)
  {
    var a := if idstart >= 0 then idstart else -idstart;
    DivScale(a, 64, 1024);
    assert (-idstart) * 1024 == -(idstart * 1024);
    if idstart % 65536 == 0 {
      var k := idstart / 65536;
      assert idstart == 65536 * k;
      DivIff(idstart, 64, 1024 * k);
      if idstart < 0 {
        DivIff(a, 64, -1024 * k);
      }
    }
  }

  lemma {:induction false} SetSpansKeepsFree(parts: seq<string>, edits: seq<SpanEdit>, c: char)
    requires AllFree(parts, c)
    requires forall n :: 0 <= n < |edits| ==> Free(edits[n].value, c)
    ensures SetSpans(parts, edits).Ok? ==> AllFree(SetSpans(parts, edits).value, c)
    decreases |edits|
  {
    if |edits| > 0 && edits[0].index < |parts| {
      SetSpansKeepsFree(parts[edits[0].index := edits[0].value], edits[1..], c);
    }
  }

  /** The pieces a recognised line is cut into, after the edits, are still quote-free. */
  lemma EditLineSpans(line: string, edits: seq<SpanEdit>)
    requires forall n :: 0 <= n < |edits| ==> Plain(edits[n].value)
    ensures var r := SetSpans(Split(line, Quote), edits);
      r.Ok? ==>
        && |r.value| >= 1 && AllFree(r.value, Quote)
        && EditLine(line, edits) == Ok(Join(r.value, Quote))
        && Split(Join(r.value, Quote), Quote) == r.value
    ensures Free(line, Newline) && EditLine(line, edits).Ok? ==>
      Free(EditLine(line, edits).value, Newline)
  {
    var parts := Split(line, Quote);
    SplitShape(line, Quote);
    SetSpansKeepsFree(parts, edits, Quote);
    var r := SetSpans(parts, edits);
    if r.Ok? {
      SetSpansLength(parts, edits);
      SplitJoin(r.value, Quote);
      if Free(line, Newline) {
        SplitKeepsFree(line, Quote, Newline);
        SetSpansKeepsFree(parts, edits, Newline);
        JoinKeepsFree(r.value, Quote, Newline);
      }
    }
  }

  lemma {:induction false} SetSpansLength(parts: seq<string>, edits: seq<SpanEdit>)
    ensures SetSpans(parts, edits).Ok? ==> |SetSpans(parts, edits).value| == |parts|
    decreases |edits|
  {
    if |edits| > 0 && edits[0].index < |parts| {
      SetSpansLength(parts[edits[0].index := edits[0].value], edits[1..]);
    }
  }

  /**
   * A panel-definition line is rewritten exactly when it has at least eight
   * quote-separated spans and spans 3 and 7 are integers; span 3 becomes the
   * old first pixel id over 64 and span 7 the old step per row over 8 (both
   * truncated toward zero), every other span is kept.
   */
  lemma PanelLineRewrite(line: string)
    requires Classify(line) == PanelLine
    ensures var parts := Split(line, Quote);
      RewriteLine(line).Ok? <==> |parts| > 7 && ParseInt(parts[3]).Some? && ParseInt(parts[7]).Some?
    ensures RewriteLine(line).Ok? ==>
      var parts := Split(line, Quote);
      var out := Split(RewriteLine(line).value, Quote);
      && |out| == |parts|
      && out[3] == IntToString(TruncDiv(ParseInt(parts[3]).value, 64))
      && out[7] == IntToString(TruncDiv(ParseInt(parts[7]).value, SumNeigh))
      && forall n :: 0 <= n < |parts| && n != 3 && n != 7 ==> out[n] == parts[n]
    ensures Free(line, Newline) && RewriteLine(line).Ok? ==> Free(RewriteLine(line).value, Newline)
  {
    var parts := Split(line, Quote);
    SplitShape(line, Quote);
    assert RewriteLine(line) == RewritePanelLine(parts);
    if Free(line, Newline) {
      SplitKeepsFree(line, Quote, Newline);
    }
    PanelPartsRewrite(parts);
  }

  /** The panel rewrite on the spans of a line, which hold no quote. */
  lemma PanelPartsRewrite(parts: seq<string>)
    requires |parts| >= 1 && AllFree(parts, Quote)
    ensures RewritePanelLine(parts).Ok? <==>
      |parts| > 7 && ParseInt(parts[3]).Some? && ParseInt(parts[7]).Some?
    ensures RewritePanelLine(parts).Ok? ==>
      var out := Split(RewritePanelLine(parts).value, Quote);
      && |out| == |parts|
      && out[3] == IntToString(TruncDiv(ParseInt(parts[3]).value, 64))
      && out[7] == IntToString(TruncDiv(ParseInt(parts[7]).value, SumNeigh))
      && forall n :: 0 <= n < |parts| && n != 3 && n != 7 ==> out[n] == parts[n]
    ensures AllFree(parts, Newline) && RewritePanelLine(parts).Ok? ==>
      Free(RewritePanelLine(parts).value, Newline)
  {
    if RewritePanelLine(parts).Ok? {
      var idstart, step := ParseInt(parts[3]).value, ParseInt(parts[7]).value;
      NewIdStartFacts(idstart);
      var a, b := IntToString(NewIdStart(idstart)), IntToString(NewIdStepByRow(step));
      IntToStringPlain(NewIdStart(idstart));
      IntToStringPlain(NewIdStepByRow(step));
      assert RewritePanelLine(parts) == Ok(Join(parts[3 := a][7 := b], Quote));
      AssignTwoSpans(parts, a, b);
    }
  }

  /** Spans 3 and 7 overwritten with plain values: the joined line splits back into the edited spans. */
  lemma AssignTwoSpans(parts: seq<string>, a: string, b: string)
    requires |parts| > 7 && AllFree(parts, Quote) && Plain(a) && Plain(b)
    ensures var edited := parts[3 := a][7 := b];
      && Split(Join(edited, Quote), Quote) == edited
      && (AllFree(parts, Newline) ==> Free(Join(edited, Quote), Newline))
  {
    var edited := parts[3 := a][7 := b];
    SplitJoin(edited, Quote);
    if AllFree(parts, Newline) {
      JoinKeepsFree(edited, Quote, Newline);
    }
  }

  /**
   * An x- or y-pixel line is rewritten exactly when it has at least six spans:
   * span 1 (pixel count) becomes "32", spans 3 and 5 (pitch) "-0.076632" and
   * "+0.004944"; every other span is kept.
   */
  lemma PixelLineRewrite(line: string)
    requires Classify(line) == XPixelsLine || Classify(line) == YPixelsLine
    ensures RewriteLine(line).Ok? <==> |Split(line, Quote)| > 5
    ensures RewriteLine(line).Ok? ==>
      var parts := Split(line, Quote);
      var out := Split(RewriteLine(line).value, Quote);
      && |out| == |parts|
      && out[1] == "32" && out[3] == "-0.076632" && out[5] == "+0.004944"
      && forall n :: 0 <= n < |parts| && n != 1 && n != 3 && n != 5 ==> out[n] == parts[n]
    ensures Free(line, Newline) && RewriteLine(line).Ok? ==> Free(RewriteLine(line).value, Newline)
  {
    PixelEditsPlain();
    EditLineSpans(line, PixelEdits);
  }

  lemma PixelEditsPlain()
    ensures forall n :: 0 <= n < |PixelEdits| ==> Plain(PixelEdits[n].value)
  {
    var a, b, c := "32", "-0.076632", "+0.004944";
    assert forall i :: 0 <= i < |a| ==> a[i] != Quote && a[i] != Newline;
    assert forall i :: 0 <= i < |b| ==> b[i] != Quote && b[i] != Newline;
    assert forall i :: 0 <= i < |c| ==> c[i] != Quote && c[i] != Newline;
  }

  lemma TwoEdits(parts: seq<string>, v1: string, v3: string)
    ensures SetSpans(parts, [SpanEdit(1, v1), SpanEdit(3, v3)])
      == if |parts| <= 1 then Err(SpanMissing(1))
         else if |parts| <= 3 then Err(SpanMissing(3))
         else Ok(parts[1 := v1][3 := v3])
  {
    var edits := [SpanEdit(1, v1), SpanEdit(3, v3)];
    if |parts| > 1 {
      assert edits[1..] == [SpanEdit(3, v3)];
      assert SetSpans(parts, edits) == SetSpans(parts[1 := v1], [SpanEdit(3, v3)]);
      if |parts| > 3 {
        assert [SpanEdit(3, v3)][1..] == [];
      }
    }
  }

  /** Overwriting spans 1 and 3 of a line with plain values. */
  lemma EditSpansOneThree(line: string, v1: string, v3: string)
    requires Plain(v1) && Plain(v3)
    ensures var r := EditLine(line, [SpanEdit(1, v1), SpanEdit(3, v3)]);
      && (r.Ok? <==> |Split(line, Quote)| > 3)
      && (r.Ok? ==>
        var parts := Split(line, Quote);
        var out := Split(r.value, Quote);
        && |out| == |parts| && out[1] == v1 && out[3] == v3
        && forall n :: 0 <= n < |parts| && n != 1 && n != 3 ==> out[n] == parts[n])
      && (Free(line, Newline) && r.Ok? ==> Free(r.value, Newline))
  {
    EditLineSpans(line, [SpanEdit(1, v1), SpanEdit(3, v3)]);
    TwoEdits(Split(line, Quote), v1, v3);
  }

  /**
   * A corner-point line is rewritten exactly when it has at least four spans:
   * span 1 becomes +-0.002472 (positive for the left-front-top and
   * right-front-bottom corners), span 3 becomes -0.002472; every other span is kept.
   */
  lemma CornerLineRewrite(line: string)
    requires IsCorner(Classify(line))
    ensures RewriteLine(line).Ok? <==> |Split(line, Quote)| > 3
    ensures RewriteLine(line).Ok? ==>
      var kind := Classify(line);
      var parts := Split(line, Quote);
      var out := Split(RewriteLine(line).value, Quote);
      && |out| == |parts|
      && out[1] == (if kind.LeftFrontTopLine? || kind.RightFrontBottomLine? then "0.002472" else "-0.002472")
      && out[3] == "-0.002472"
      && forall n :: 0 <= n < |parts| && n != 1 && n != 3 ==> out[n] == parts[n]
    ensures Free(line, Newline) && RewriteLine(line).Ok? ==> Free(RewriteLine(line).value, Newline)
  {
    var kind := Classify(line);
    CornerRewriteAs(line, kind);
    CornerValuesPlain(kind);
    EditSpansOneThree(line, CornerSpan1(kind), "-0.002472");
  }

  /** A corner line's rewrite is the two-span edit with that corner's span-1 value. */
  lemma CornerRewriteAs(line: string, kind: LineKind)
    requires IsCorner(kind)
    ensures RewriteAs(line, kind) == EditLine(line, [SpanEdit(1, CornerSpan1(kind)), SpanEdit(3, "-0.002472")])
  {
    assert CornerEdits(kind) == [SpanEdit(1, CornerSpan1(kind)), SpanEdit(3, "-0.002472")];
  }

  lemma CornerValuesPlain(kind: LineKind)
    ensures Plain(CornerSpan1(kind)) && Plain("-0.002472")
  {
    var neg, pos := "-0.002472", "0.002472";
    assert forall i :: 0 <= i < |neg| ==> neg[i] != Quote && neg[i] != Newline;
    assert forall i :: 0 <= i < |pos| ==> pos[i] != Quote && pos[i] != Newline;
  }

  /** The new span 1 of a corner line: positive for the left-front-top and right-front-bottom corners. */
  function CornerSpan1(kind: LineKind): string {
    if kind.LeftFrontTopLine? || kind.RightFrontBottomLine? then "0.002472" else "-0.002472"
  }

  /** A line containing none of the markers is passed through unchanged. */
  lemma PlainLineUnchanged(line: string)
    requires forall k :: k != PlainLine ==> !Contains(line, Marker(k))
    ensures Classify(line) == PlainLine && RewriteLine(line) == Ok(line)
  {
  }

  lemma RewriteLineKeepsNewlineFree(line: string)
    requires Free(line, Newline)
    ensures RewriteLine(line).Ok? ==> Free(RewriteLine(line).value, Newline)
  {
    var kind := Classify(line);
    if kind == PanelLine {
      PanelLineRewrite(line);
    } else if kind == XPixelsLine || kind == YPixelsLine {
      PixelLineRewrite(line);
    } else if IsCorner(kind) {
      CornerLineRewrite(line);
    }
  }

  lemma RewriteIdfUnfold(text: string)
    ensures var r := RewriteLines(Split(text, Newline));
      && (RewriteIdf(text).Ok? <==> r.Ok?)
      && (r.Ok? ==> RewriteIdf(text).value == Join(r.value, Newline))
  {
  }

  /** The text is rewritten exactly when every one of its lines is. */
  lemma RewriteIdfSucceeds(text: string)
    ensures var lines := Split(text, Newline);
      RewriteIdf(text).Ok? <==> forall n :: 0 <= n < |lines| ==> RewriteLine(lines[n]).Ok?
  {
    RewriteIdfUnfold(text);
  }

  /**
   * The rewritten text has as many lines as the original, and line n of it is
   * the rewrite of line n of the original; in particular lines with no marker
   * come through character for character.
   */
  lemma RewriteIdfLines(text: string)
    requires RewriteIdf(text).Ok?
    ensures var lines := Split(text, Newline);
      var out := Split(RewriteIdf(text).value, Newline);
      && |out| == |lines|
      && (forall n :: 0 <= n < |lines| ==> RewriteLine(lines[n]) == Ok(out[n]))
      && (forall n :: 0 <= n < |lines| && Classify(lines[n]) == PlainLine ==> out[n] == lines[n])
  {
    var lines := Split(text, Newline);
    var r := RewriteLines(lines);
    RewriteIdfUnfold(text);
    SplitShape(text, Newline);
    forall n | 0 <= n < |lines| ensures Free(r.value[n], Newline) {
      RewriteLineKeepsNewlineFree(lines[n]);
    }
    SplitJoin(r.value, Newline);
  }

  /** A text in which no line carries a marker is left exactly as it was. */
  lemma MarkerFreeTextUnchanged(text: string)
    requires forall line :: line in Split(text, Newline) ==> Classify(line) == PlainLine
    ensures RewriteIdf(text) == Ok(text)
  {
    var lines := Split(text, Newline);
    var r := RewriteLines(lines);
    RewriteIdfUnfold(text);
    assert forall n :: 0 <= n < |lines| ==> RewriteLine(lines[n]) == Ok(lines[n]);
    assert r.value == lines;
    JoinSplit(text, Newline);
  }
}
