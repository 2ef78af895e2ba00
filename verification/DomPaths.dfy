/**
 * Printing an element's position as a CSS path and as an XPath, reading the XPath back as a CSS path,
 * and reading a CSS path as a selector.
 */
module DomPaths {
  import opened Text
  import opened Dom

  function CssSegment(s: Step): string {
    s.tag + ":nth-of-type(" + Decimal(s.index) + ")"
  }

  function XPathSegment(s: Step): string {
    s.tag + "[" + Decimal(s.index) + "]"
  }

  function CssSegments(steps: seq<Step>): seq<string> {
    seq(|steps|, i requires 0 <= i < |steps| => CssSegment(steps[i]))
  }

  function XPathSegments(steps: seq<Step>): seq<string> {
    seq(|steps|, i requires 0 <= i < |steps| => XPathSegment(steps[i]))
  }

  function CssPath(steps: seq<Step>): string {
    Join(CssSegments(steps), " > ")
  }

  function XPath(steps: seq<Step>): string {
    "/" + Join(XPathSegments(steps), "/")
  }

  // ----- printing, as the loops do it -----------------------------------------------------

  /** `nth_of_type_index`: walk back over the earlier siblings. */
  method NthOfTypeIndex(siblings: seq<Node>, i: nat) returns (idx: nat)
    requires i < |siblings| && siblings[i].Element?
    ensures idx == NthOfType(siblings, i)
  {
    var tag := siblings[i].tag;
    idx := 1;
    var sib := i;
    while sib > 0
      invariant sib <= i
      invariant idx + SameTypeBefore(siblings, sib, tag) == NthOfType(siblings, i)
    {
      sib := sib - 1;
      if siblings[sib].Element? && siblings[sib].tag == tag {
        idx := idx + 1;
      }
    }
  }

  function Reversed(parts: seq<string>): seq<string> {
    seq(|parts|, i requires 0 <= i < |parts| => parts[|parts| - 1 - i])
  }

  /** The steps of an ancestor are those of the element, cut short. */
  lemma {:induction false} AncestorSteps(doc: Document, a: Address, n: nat)
    requires IsElement(doc, a) && 0 < n <= |a|
    ensures IsElement(doc, a[..n]) && Steps(doc, a[..n]) == Steps(doc, a)[..n]
    ensures Steps(doc, a)[n - 1] == StepOf(doc, a[..n])
    decreases |a|
  {
    if n == |a| {
      assert a[..n] == a && Steps(doc, a)[..n] == Steps(doc, a);
      StepsEndAtElement(doc, a);
    } else {
      StepsEndAtElement(doc, a);
      AncestorSteps(doc, Parent(a), n);
      assert Parent(a)[..n] == a[..n];
    }
  }

  /**
   * Each step on the way down names the element there by its tag and by one more than the number of earlier
   * siblings with that tag.
   */
  lemma StepsCountSiblings(doc: Document, a: Address, n: nat)
    requires IsElement(doc, a) && n < |a|
    ensures IsElement(doc, a[..n + 1])
    ensures var s := SiblingsOf(doc, a[..n + 1]);
            Steps(doc, a)[n] == Step(s[a[n]].tag, 1 + |PositionsBefore(s, a[n], s[a[n]].tag)|)
    ensures n == 0 ==> SiblingsOf(doc, a[..n + 1]) == doc
    ensures n > 0 ==> IsElement(doc, a[..n]) && SiblingsOf(doc, a[..n + 1]) == ElementAt(doc, a[..n]).children
  {
    AncestorSteps(doc, a, n + 1);
    var b := a[..n + 1];
    SameTypeIsCounted(SiblingsOf(doc, b), a[n], ElementAt(doc, b).tag);
    if n > 0 {
      ParentIsElement(doc, b);
      assert Parent(b) == a[..n];
    }
  }

  /** `css_path_of`: climb to the root collecting segments, then turn them round. */
  method CssPathOf(doc: Document, el: Address) returns (path: string)
    requires IsElement(doc, el)
    ensures path == CssPath(Steps(doc, el))
  {
    ghost var segs := CssSegments(Steps(doc, el));
    var parts: seq<string> := [];
    var cur := el;
    while cur != []
      invariant cur <= el && |parts| + |cur| == |el|
      invariant cur != [] ==> IsElement(doc, cur)
      invariant forall k :: 0 <= k < |parts| ==> parts[k] == segs[|el| - 1 - k]
      decreases |cur|
    {
      AncestorSteps(doc, el, |cur|);
      assert el[..|cur|] == cur;
      var idx := NthOfTypeIndex(SiblingsOf(doc, cur), cur[|cur| - 1]);
      parts := parts + [ElementAt(doc, cur).tag + ":nth-of-type(" + Decimal(idx) + ")"];
      assert parts[|parts| - 1] == CssSegment(StepOf(doc, cur));
      if |cur| > 1 { ParentIsElement(doc, cur); }
      cur := Parent(cur);
    }
    parts := Reversed(parts);
    assert parts == segs;
    path := Join(parts, " > ");
  }

  /** `xpath_of`: the same climb with the other notation. */
  method XPathOf(doc: Document, el: Address) returns (path: string)
    requires IsElement(doc, el)
    ensures path == XPath(Steps(doc, el))
  {
    ghost var segs := XPathSegments(Steps(doc, el));
    var parts: seq<string> := [];
    var cur := el;
    while cur != []
      invariant cur <= el && |parts| + |cur| == |el|
      invariant cur != [] ==> IsElement(doc, cur)
      invariant forall k :: 0 <= k < |parts| ==> parts[k] == segs[|el| - 1 - k]
      decreases |cur|
    {
      AncestorSteps(doc, el, |cur|);
      assert el[..|cur|] == cur;
      var idx := NthOfTypeIndex(SiblingsOf(doc, cur), cur[|cur| - 1]);
      parts := parts + [ElementAt(doc, cur).tag + "[" + Decimal(idx) + "]"];
      assert parts[|parts| - 1] == XPathSegment(StepOf(doc, cur));
      if |cur| > 1 { ParentIsElement(doc, cur); }
      cur := Parent(cur);
    }
    parts := Reversed(parts);
    assert parts == segs;
    path := "/" + Join(parts, "/");
  }

  // ----- reading an XPath as a CSS path ------------------------------------------------------

  /** What `xpath_to_css` does on any string: it may also slice out of order and panic. */
  datatype Conversion = Css(path: string) | NoPath | Panics

  datatype SegmentResult = Skipped | Segment(css: string) | Rejected | Aborted

  function TrimStart(s: string, c: char): string {
    if s != "" && s[0] == c then TrimStart(s[1..], c) else s
  }

  /** What becomes of one segment: a step is read, the path is given up, or the slice panics. */
  datatype Fate = Reads(step: Step) | Refuses | Crashes

  function ConvertSegment(seg: string): SegmentResult {
    if seg == "" then Skipped else Converted(SegmentFate(seg))
  }

  function Converted(f: Fate): SegmentResult {
    match f
    case Reads(s) => Segment(CssSegment(s))
    case Refuses => Rejected
    case Crashes => Aborted
  }

  /** The segment is cut at its first '[' and its first ']', wherever they are. */
  function SegmentFate(seg: string): Fate {
    CutAt(seg, IndexOf(seg, '['), IndexOf(seg, ']'))
  }

  function CutAt(seg: string, open: nat, close: nat): Fate
    requires open <= |seg| && close <= |seg|
  {
    if open == |seg| then Reads(Step(seg, 1))
    else if close == |seg| then Refuses
    else if close < open + 1 then Crashes
    else Numbered(seg[..open], seg[open + 1..close])
  }

  function Numbered(tag: string, number: string): Fate {
    match ParseUsize(number)
    case Some(idx) => Reads(Step(tag, idx))
    case None => Refuses
  }

  function ConvertSegments(segs: seq<string>): seq<SegmentResult> {
    seq(|segs|, i requires 0 <= i < |segs| => ConvertSegment(segs[i]))
  }

  datatype Collected = Parts(parts: seq<string>) | NotAPath | Panicked

  /** Segments are taken in order; the first that fails decides. */
  function Collect(rs: seq<SegmentResult>): Collected {
    if rs == [] then Parts([])
    else
      match rs[0]
      case Rejected => NotAPath
      case Aborted => Panicked
      case Skipped => Collect(rs[1..])
      case Segment(css) =>
        match Collect(rs[1..])
        case Parts(rest) => Parts([css] + rest)
        case other => other
  }

  function XPathToCss(xpath: string): Conversion {
    PathFrom(Collect(ConvertSegments(Split(TrimStart(xpath, '/'), "/"))))
  }

  function PathFrom(c: Collected): Conversion {
    match c
    case NotAPath => NoPath
    case Panicked => Panics
    case Parts(parts) => if parts == [] then NoPath else Css(Join(parts, " > "))
  }

  /** One segment, as the loop body reads it. */
  method ReadSegment(seg: string) returns (r: SegmentResult)
    ensures r == ConvertSegment(seg)
  {
    if seg == "" { return Skipped; }
    var open := IndexOf(seg, '[');
    if open == |seg| { return Segment(seg + ":nth-of-type(" + Decimal(1) + ")"); }
    var close := IndexOf(seg, ']');
    if close == |seg| { return Rejected; }
    if close < open + 1 { return Aborted; }
    var idx := ParseUsize(seg[open + 1..close]);
    if idx.None? { return Rejected; }
    return Segment(seg[..open] + ":nth-of-type(" + Decimal(idx.value) + ")");
  }

  /** `xpath_to_css`, collecting the converted segments one by one. */
  method XPathToCssLoop(xpath: string) returns (r: Conversion)
    ensures r == XPathToCss(xpath)
  {
    var segs := Split(TrimStart(xpath, '/'), "/");
    ghost var rs := ConvertSegments(segs);
    var out: seq<string> := [];
    var i := 0;
    while i < |segs|
      invariant 0 <= i <= |segs|
      invariant Collect(rs) == match Collect(rs[i..]) case Parts(rest) => Parts(out + rest) case other => other
    {
      var seg := ReadSegment(segs[i]);
      assert rs[i..][0] == seg && rs[i..][1..] == rs[i + 1..];
      if seg.Rejected? { return NoPath; }
      if seg.Aborted? { return Panics; }
      if seg.Segment? {
        ghost var rest := Collect(rs[i + 1..]);
        if rest.Parts? { assert out + ([seg.css] + rest.parts) == (out + [seg.css]) + rest.parts; }
        out := out + [seg.css];
      }
      i := i + 1;
    }
    assert rs[i..] == [] && out + [] == out;
    r := if out == [] then NoPath else Css(Join(out, " > "));
  }

  lemma {:induction false} CollectsOnlySegments(rs: seq<SegmentResult>)
    requires Collect(rs).Parts?
    ensures forall p :: p in Collect(rs).parts ==> Segment(p) in rs
  {
    if rs != [] {
      CollectsOnlySegments(rs[1..]);
      assert forall r :: r in rs[1..] ==> r in rs;
    }
  }

  // ----- the two notations agree ------------------------------------------------------------

  /** A tag that the XPath notation can carry. */
  predicate Quotable(tag: string) {
    !Contains(tag, '/') && !Contains(tag, '[') && !Contains(tag, ']')
  }

  predicate SlashFree(steps: seq<Step>) {
    forall i :: 0 <= i < |steps| ==> !Contains(steps[i].tag, '/')
  }

  predicate AllQuotable(steps: seq<Step>) {
    forall i :: 0 <= i < |steps| ==> Quotable(steps[i].tag)
  }

  /** What the HTML tokenizer lets into a tag name, as far as the path separator is concerned. */
  predicate HtmlTag(tag: string) {
    !Contains(tag, ' ') && !Contains(tag, '>')
  }

  predicate HtmlTags(steps: seq<Step>) {
    forall i :: 0 <= i < |steps| ==> HtmlTag(steps[i].tag)
  }

  predicate IndexesFit(steps: seq<Step>) {
    forall i :: 0 <= i < |steps| ==> steps[i].index <= USIZE_MAX
  }

  lemma IndexOfIs(s: string, c: char, i: nat)
    requires i <= |s| && (forall k :: 0 <= k < i ==> s[k] != c) && (i < |s| ==> s[i] == c)
    ensures IndexOf(s, c) == i
  {}

  lemma DecimalHasNo(n: nat, c: char)
    requires !IsDigit(c)
    ensures !Contains(Decimal(n), c)
  {}

  /**
   * What becomes of a step when the segment printed for it is read back. A tag without brackets is read
   * as printed; a ']' before the '[' makes the slice run backwards; otherwise what stands between them
   * must be a number, and the rest of the tag is dropped.
   */
  function FateOf(s: Step): Fate {
    var open, close := IndexOf(s.tag, '['), IndexOf(s.tag, ']');
    if close < open then Crashes
    else if open == |s.tag| then Reads(s)
    else if close == |s.tag| then Refuses
    else Numbered(s.tag[..open], s.tag[open + 1..close])
  }

  lemma PrefixIndex(a: string, b: string, c: char)
    ensures IndexOf(a + b, c) == if Contains(a, c) then IndexOf(a, c) else |a| + IndexOf(b, c)
  {
    var s := a + b;
    assert forall k :: 0 <= k < |a| ==> s[k] == a[k];
    if Contains(a, c) {
      IndexOfIs(s, c, IndexOf(a, c));
    } else {
      assert forall k :: |a| <= k < |s| ==> s[k] == b[k - |a|];
      IndexOfIs(s, c, |a| + IndexOf(b, c));
    }
  }

  lemma NumberEnds(n: nat)
    ensures IndexOf("[" + Decimal(n) + "]", '[') == 0
    ensures IndexOf("[" + Decimal(n) + "]", ']') == 1 + |Decimal(n)|
  {
    var s, digits := "[" + Decimal(n) + "]", Decimal(n);
    forall k | 0 <= k < 1 + |digits| ensures s[k] != ']' {
      if k > 0 { assert IsDigit(digits[k - 1]) && s[k] == digits[k - 1]; }
    }
    IndexOfIs(s, ']', 1 + |digits|);
  }

  /** Where the first brackets of a printed segment are. */
  lemma SegmentMarks(s: Step)
    ensures var seg, tag := XPathSegment(s), s.tag;
            && seg == tag + ("[" + Decimal(s.index) + "]")
            && IndexOf(seg, '[') == IndexOf(tag, '[')
            && IndexOf(seg, ']') == if IndexOf(tag, ']') < |tag| then IndexOf(tag, ']') else |seg| - 1
  {
    var number := "[" + Decimal(s.index) + "]";
    assert XPathSegment(s) == s.tag + number;
    PrefixIndex(s.tag, number, '[');
    PrefixIndex(s.tag, number, ']');
    NumberEnds(s.index);
  }

  /** Cutting a segment inside its tag, and around its number. */
  lemma SegmentSlices(s: Step, i: nat, j: nat)
    requires i <= j <= |s.tag|
    ensures var seg, n := XPathSegment(s), |s.tag|;
            seg[i..j] == s.tag[i..j] && seg[..j] == s.tag[..j] && seg[n + 1..|seg| - 1] == Decimal(s.index)
  {}

  lemma PlainCut(s: Step)
    requires s.index <= USIZE_MAX
    ensures CutAt(XPathSegment(s), |s.tag|, |XPathSegment(s)| - 1) == Reads(s)
  {
    SegmentSlices(s, 0, |s.tag|);
    ParsePrinted(s.index);
  }

  lemma UnclosedCut(s: Step, open: nat)
    requires open < |s.tag|
    ensures CutAt(XPathSegment(s), open, |XPathSegment(s)| - 1) == Refuses
  {
    var seg := XPathSegment(s);
    var slice, k := seg[open + 1..|seg| - 1], |s.tag| - open - 1;
    assert slice[k] == '[';
    if ParseUsize(slice).Some? { ParsedIsNumeral(slice, k); }
  }

  lemma BracketedCut(s: Step, open: nat, close: nat)
    requires open < close < |s.tag|
    ensures CutAt(XPathSegment(s), open, close) == Numbered(s.tag[..open], s.tag[open + 1..close])
  {
    SegmentSlices(s, open + 1, close);
    SegmentSlices(s, 0, open);
  }

  /** Reading back the segment printed for a step depends on its tag alone. */
  lemma SegmentReading(s: Step)
    requires s.index <= USIZE_MAX
    ensures ConvertSegment(XPathSegment(s)) == Converted(FateOf(s))
  {
    var open, close := IndexOf(s.tag, '['), IndexOf(s.tag, ']');
    SegmentMarks(s);
    if close < open {
      assert SegmentFate(XPathSegment(s)) == Crashes;
    } else if open == |s.tag| {
      PlainCut(s);
    } else if close == |s.tag| {
      UnclosedCut(s, open);
    } else {
      BracketedCut(s, open, close);
    }
  }

  function Fates(steps: seq<Step>): seq<Fate> {
    seq(|steps|, i requires 0 <= i < |steps| => FateOf(steps[i]))
  }

  /** A path as it is read back: the first step that cannot be read decides. */
  datatype Reread = Read(steps: seq<Step>) | Refused | Crashed

  function Gather(fs: seq<Fate>): Reread {
    if fs == [] then Read([])
    else
      match fs[0]
      case Reads(s) => (match Gather(fs[1..]) case Read(rest) => Read([s] + rest) case other => other)
      case Refuses => Refused
      case Crashes => Crashed
  }

  function AsCollected(r: Reread): Collected {
    match r
    case Read(steps) => Parts(CssSegments(steps))
    case Refused => NotAPath
    case Crashed => Panicked
  }

  lemma {:induction false} CollectGathers(fs: seq<Fate>, rs: seq<SegmentResult>)
    requires |rs| == |fs| && forall i :: 0 <= i < |fs| ==> rs[i] == Converted(fs[i])
    ensures Collect(rs) == AsCollected(Gather(fs))
  {
    if fs != [] {
      CollectGathers(fs[1..], rs[1..]);
      var rest := Gather(fs[1..]);
      if fs[0].Reads? && rest.Read? {
        assert CssSegments([fs[0].step] + rest.steps) == [CssSegment(fs[0].step)] + CssSegments(rest.steps);
      }
    }
  }

  lemma CollectReadings(steps: seq<Step>)
    requires IndexesFit(steps)
    ensures Collect(ConvertSegments(XPathSegments(steps))) == AsCollected(Gather(Fates(steps)))
  {
    var rs := ConvertSegments(XPathSegments(steps));
    forall i | 0 <= i < |steps| ensures rs[i] == Converted(Fates(steps)[i]) {
      SegmentReading(steps[i]);
    }
    CollectGathers(Fates(steps), rs);
  }

  /** Outside its fixed part and its digits, a CSS segment has the characters of its tag. */
  lemma CssSegmentContains(s: Step, c: char)
    requires !IsDigit(c) && c !in ":nth-of-type()"
    ensures Contains(CssSegment(s), c) <==> Contains(s.tag, c)
  {
    DecimalHasNo(s.index, c);
    assert forall i :: 0 <= i < |":nth-of-type("| ==> ":nth-of-type("[i] in ":nth-of-type()";
    ConcatContains(s.tag + ":nth-of-type(" + Decimal(s.index), ")", c);
    ConcatContains(s.tag + ":nth-of-type(", Decimal(s.index), c);
    ConcatContains(s.tag, ":nth-of-type(", c);
  }

  lemma SegmentHasNoSlash(s: Step)
    ensures Contains(XPathSegment(s), '/') <==> Contains(s.tag, '/')
    ensures Contains(s.tag, '/') ==> Contains(CssSegment(s), '/')
    ensures Contains(s.tag, '[') ==> Contains(CssSegment(s), '[')
  {
    var number := "[" + Decimal(s.index) + "]";
    SegmentMarks(s);
    NumberHasNo(s.index, '/');
    ConcatContains(s.tag, number, '/');
    CssSegmentContains(s, '/');
    CssSegmentContains(s, '[');
  }

  lemma NumberHasNo(n: nat, c: char)
    requires !IsDigit(c) && c != '[' && c != ']'
    ensures !Contains("[" + Decimal(n) + "]", c)
  {
    DecimalHasNo(n, c);
    ConcatContains("[" + Decimal(n), "]", c);
    ConcatContains("[", Decimal(n), c);
  }

  /** Splitting the printed XPath gives back its segments. */
  lemma XPathSplits(steps: seq<Step>)
    requires steps != [] && SlashFree(steps)
    ensures Split(TrimStart(XPath(steps), '/'), "/") == XPathSegments(steps)
  {
    var segs := XPathSegments(steps);
    forall p | p in segs ensures !Contains(p, '/') {
      var i :| 0 <= i < |segs| && segs[i] == p;
      SegmentHasNoSlash(steps[i]);
      assert !Contains(steps[i].tag, '/');
    }
    SplitJoin(segs, "/");
    var x := XPath(steps);
    assert x[1..] == Join(segs, "/");
    assert segs[0] in segs && segs[0] != "";
    assert x[1] == segs[0][0];
    assert x[1] != '/';
  }

  /** What reading back a printed XPath comes to, for tags without a slash. */
  lemma ConversionExactly(steps: seq<Step>)
    requires steps != [] && IndexesFit(steps) && SlashFree(steps)
    ensures XPathToCss(XPath(steps)) ==
            match Gather(Fates(steps))
            case Read(r) => Css(CssPath(r))
            case Refused => NoPath
            case Crashed => Panics
  {
    XPathSplits(steps);
    CollectReadings(steps);
    GatherPointwise(Fates(steps));
  }

  /** A path that can be read is read step by step. */
  lemma {:induction false} GatherPointwise(fs: seq<Fate>)
    ensures Gather(fs).Read? <==> forall i :: 0 <= i < |fs| ==> fs[i].Reads?
    ensures Gather(fs).Read? ==>
              var r := Gather(fs).steps;
              |r| == |fs| && forall i :: 0 <= i < |fs| ==> fs[i] == Reads(r[i])
  {
    if fs != [] {
      GatherPointwise(fs[1..]);
      assert forall i :: 0 < i < |fs| ==> fs[i] == fs[1..][i - 1];
    }
  }

  predicate CrashesAt(fs: seq<Fate>, i: int) {
    0 <= i < |fs| && fs[i].Crashes? && forall j :: 0 <= j < i ==> fs[j].Reads?
  }

  lemma {:induction false} GatherCrashes(fs: seq<Fate>)
    ensures Gather(fs) == Crashed <==> exists i :: CrashesAt(fs, i)
  {
    if fs != [] {
      GatherCrashes(fs[1..]);
      if i :| CrashesAt(fs[1..], i) && fs[0].Reads? { assert CrashesAt(fs, i + 1); }
      if i :| CrashesAt(fs, i) && i > 0 { assert fs[0].Reads? && CrashesAt(fs[1..], i - 1); }
      if fs[0].Crashes? { assert CrashesAt(fs, 0); }
    }
  }

  /** The conversion panics if and only if the first tag it cannot read has a ']' before any '['. */
  lemma PanicsExactly(steps: seq<Step>)
    requires steps != [] && IndexesFit(steps) && SlashFree(steps)
    ensures XPathToCss(XPath(steps)) == Panics <==> exists i :: CrashesAt(Fates(steps), i)
  {
    ConversionExactly(steps);
    GatherCrashes(Fates(steps));
  }

  lemma ReadAsPrinted(s: Step)
    ensures FateOf(s) == Reads(s) <== !Contains(s.tag, '[') && !Contains(s.tag, ']')
    ensures FateOf(s).Reads? && !Contains(s.tag, '[') ==> !Contains(s.tag, ']')
  {}

  /** For tags the notation can carry, reading the XPath back gives the CSS path. */
  lemma XPathRoundTrip(steps: seq<Step>)
    requires steps != [] && IndexesFit(steps) && AllQuotable(steps)
    ensures XPathToCss(XPath(steps)) == Css(CssPath(steps))
  {
    forall i | 0 <= i < |steps| ensures !Contains(steps[i].tag, '/') && Fates(steps)[i] == Reads(steps[i]) {
      assert Quotable(steps[i].tag);
      ReadAsPrinted(steps[i]);
    }
    ConversionExactly(steps);
    GatherPointwise(Fates(steps));
    assert Gather(Fates(steps)).steps == steps;
  }

  lemma {:induction false} SplitPiecesClean(s: string, sep: string)
    requires |sep| == 1
    ensures forall p :: p in Split(s, sep) ==> !Contains(p, sep[0])
  {
    if s != "" {
      if s[..1] == sep {
        SplitPiecesClean(s[1..], sep);
      } else {
        SplitPiecesClean(s[1..], sep);
        var rest := Split(s[1..], sep);
        assert s[..1][0] == s[0];
        ConcatContains([s[0]], rest[0], sep[0]);
        assert rest[0] in rest;
        assert forall p :: p in rest[1..] ==> p in rest;
      }
    }
  }

  /** A converted segment is printed for what stands before the first '['. */
  lemma ConvertedTag(seg: string)
    requires SegmentFate(seg).Reads?
    ensures SegmentFate(seg).step.tag == seg[..IndexOf(seg, '[')]
  {}

  lemma ConvertedIsClean(seg: string)
    requires !Contains(seg, '/') && ConvertSegment(seg).Segment?
    ensures !Contains(ConvertSegment(seg).css, '/') && !Contains(ConvertSegment(seg).css, '[')
  {
    ConvertedTag(seg);
    var s := SegmentFate(seg).step;
    assert forall k :: 0 <= k < |s.tag| ==> s.tag[k] == seg[k];
    CssSegmentContains(s, '/');
    CssSegmentContains(s, '[');
  }

  /** Whatever `xpath_to_css` prints has neither a slash nor an opening bracket. */
  lemma OutputIsClean(xpath: string)
    requires XPathToCss(xpath).Css?
    ensures !Contains(XPathToCss(xpath).path, '/') && !Contains(XPathToCss(xpath).path, '[')
  {
    SplitPiecesClean(TrimStart(xpath, '/'), "/");
    PathIsClean(Split(TrimStart(xpath, '/'), "/"));
  }

  lemma PathIsClean(segs: seq<string>)
    requires PathFrom(Collect(ConvertSegments(segs))).Css? && forall p :: p in segs ==> !Contains(p, '/')
    ensures var path := PathFrom(Collect(ConvertSegments(segs))).path; !Contains(path, '/') && !Contains(path, '[')
  {
    var parts := Collect(ConvertSegments(segs)).parts;
    PartsAreClean(segs);
    JoinHasNo(parts, " > ", '/');
    JoinHasNo(parts, " > ", '[');
  }

  lemma PartsAreClean(segs: seq<string>)
    requires Collect(ConvertSegments(segs)).Parts? && forall p :: p in segs ==> !Contains(p, '/')
    ensures forall p :: p in Collect(ConvertSegments(segs)).parts ==> !Contains(p, '/') && !Contains(p, '[')
  {
    var rs := ConvertSegments(segs);
    CollectsOnlySegments(rs);
    forall p | p in Collect(rs).parts ensures !Contains(p, '/') && !Contains(p, '[') {
      var k :| 0 <= k < |rs| && rs[k] == Segment(p);
      assert segs[k] in segs;
      ConvertedIsClean(segs[k]);
    }
  }

  lemma TagShowsInCssPath(steps: seq<Step>, i: nat, c: char)
    requires i < |steps| && (c == '/' || c == '[') && Contains(steps[i].tag, c)
    ensures Contains(CssPath(steps), c)
  {
    SegmentHasNoSlash(steps[i]);
    assert Contains(CssSegments(steps)[i], c);
    JoinContains(CssSegments(steps), " > ", c);
  }

  /** Only a path whose tags the notation can carry is read back as it was. */
  lemma RoundTripMeansQuotable(steps: seq<Step>)
    requires steps != [] && IndexesFit(steps) && XPathToCss(XPath(steps)) == Css(CssPath(steps))
    ensures AllQuotable(steps)
  {
    OutputIsClean(XPath(steps));
    forall k | 0 <= k < |steps| ensures !Contains(steps[k].tag, '/') && !Contains(steps[k].tag, '[') {
      if Contains(steps[k].tag, '/') { TagShowsInCssPath(steps, k, '/'); }
      if Contains(steps[k].tag, '[') { TagShowsInCssPath(steps, k, '['); }
    }
    ConversionExactly(steps);
    GatherPointwise(Fates(steps));
    forall k | 0 <= k < |steps| ensures Quotable(steps[k].tag) {
      assert Fates(steps)[k].Reads?;
      ReadAsPrinted(steps[k]);
    }
  }

  /**
   * For every element of every document: the XPath it is recorded under reads back as its CSS path if
   * and only if no tag on the way down to it contains '/', '[' or ']'. The tokenizer lets brackets
   * into tag names, so this is not every element.
   */
  lemma RoundTripExactly(doc: Document, el: Address)
    requires IsElement(doc, el) && IndexesFit(Steps(doc, el))
    ensures XPathToCss(XPath(Steps(doc, el))) == Css(CssPath(Steps(doc, el))) <==> AllQuotable(Steps(doc, el))
  {
    var steps := Steps(doc, el);
    if AllQuotable(steps) { XPathRoundTrip(steps); }
    if XPathToCss(XPath(steps)) == Css(CssPath(steps)) { RoundTripMeansQuotable(steps); }
  }

  /** A last tag that itself looks like a segment is misread as that segment: the path of a sibling. */
  lemma BracketedTagIsMisread(init: seq<Step>, inner: Step, index: nat)
    requires IndexesFit(init + [inner]) && index <= USIZE_MAX && AllQuotable(init + [inner])
    ensures XPathToCss(XPath(init + [Step(XPathSegment(inner), index)])) == Css(CssPath(init + [inner]))
  {
    var steps, read := init + [Step(XPathSegment(inner), index)], init + [inner];
    forall i | 0 <= i < |steps|
      ensures steps[i].index <= USIZE_MAX && !Contains(steps[i].tag, '/') && Fates(steps)[i] == Reads(read[i])
    {
      assert Quotable(read[i].tag) && read[i].index <= USIZE_MAX;
      if i < |init| {
        ReadAsPrinted(init[i]);
      } else {
        SegmentHasNoSlash(inner);
        SegmentLikeTag(inner, index);
      }
    }
    ConversionExactly(steps);
    GatherPointwise(Fates(steps));
    assert Gather(Fates(steps)).steps == read;
  }

  lemma SegmentLikeTag(inner: Step, index: nat)
    requires Quotable(inner.tag) && inner.index <= USIZE_MAX
    ensures FateOf(Step(XPathSegment(inner), index)) == Reads(inner)
  {
    SegmentMarks(inner);
    var seg, open := XPathSegment(inner), |inner.tag|;
    assert IndexOf(seg, '[') == open && IndexOf(seg, ']') == |seg| - 1;
    PlainCut(inner);
    assert Numbered(seg[..open], seg[open + 1..|seg| - 1]) == Reads(inner);
  }

  // ----- XPaths that were not printed here ----------------------------------------------------------

  /** A piece between slashes: nothing, a tag alone, or a tag with a number. */
  datatype Piece = Blank | Bare(tag: string) | Indexed(tag: string, index: nat)

  function PieceText(p: Piece): string {
    match p
    case Blank => ""
    case Bare(tag) => tag
    case Indexed(tag, index) => tag + "[" + Decimal(index) + "]"
  }

  predicate IsPiece(p: Piece) {
    match p
    case Blank => true
    case Bare(tag) => tag != "" && !Contains(tag, '[') && !Contains(tag, '/')
    case Indexed(tag, index) => Quotable(tag) && !Contains(tag, '/') && index <= USIZE_MAX
  }

  /** What the pieces stand for: a tag alone is the first of its kind, and nothing is nothing. */
  function StepsOf(ps: seq<Piece>): seq<Step> {
    if ps == [] then []
    else
      match ps[0]
      case Blank => StepsOf(ps[1..])
      case Bare(tag) => [Step(tag, 1)] + StepsOf(ps[1..])
      case Indexed(tag, index) => [Step(tag, index)] + StepsOf(ps[1..])
  }

  function PieceTexts(ps: seq<Piece>): seq<string> {
    seq(|ps|, i requires 0 <= i < |ps| => PieceText(ps[i]))
  }

  lemma PieceConverts(p: Piece)
    requires IsPiece(p)
    ensures ConvertSegment(PieceText(p)) ==
            match p case Blank => Skipped case Bare(tag) => Segment(CssSegment(Step(tag, 1)))
                    case Indexed(tag, index) => Segment(CssSegment(Step(tag, index)))
    ensures !Contains(PieceText(p), '/')
  {
    match p
    case Blank =>
    case Bare(tag) =>
    case Indexed(tag, index) =>
      SegmentReading(Step(tag, index));
      ReadAsPrinted(Step(tag, index));
      SegmentHasNoSlash(Step(tag, index));
  }

  lemma CssSegmentsCons(s: Step, rest: seq<Step>)
    ensures CssSegments([s] + rest) == [CssSegment(s)] + CssSegments(rest)
  {}

  lemma {:induction false} PiecesCollect(ps: seq<Piece>)
    requires forall p :: p in ps ==> IsPiece(p)
    ensures Collect(ConvertSegments(PieceTexts(ps))) == Parts(CssSegments(StepsOf(ps)))
  {
    if ps != [] {
      PiecesCollect(ps[1..]);
      PieceConverts(ps[0]);
      var rs, rest := ConvertSegments(PieceTexts(ps)), StepsOf(ps[1..]);
      assert rs[0] == ConvertSegment(PieceText(ps[0])) && rs[1..] == ConvertSegments(PieceTexts(ps[1..]));
      match ps[0]
      case Blank =>
      case Bare(tag) => CssSegmentsCons(Step(tag, 1), rest);
      case Indexed(tag, index) => CssSegmentsCons(Step(tag, index), rest);
    }
  }

  lemma {:induction false} TrimLeading(lead: string, rest: string)
    requires forall i :: 0 <= i < |lead| ==> lead[i] == '/'
    requires rest == "" || rest[0] != '/'
    ensures TrimStart(lead + rest, '/') == rest
  {
    if lead == "" {
      assert lead + rest == rest;
    } else {
      assert (lead + rest)[1..] == lead[1..] + rest;
      TrimLeading(lead[1..], rest);
    }
  }

  lemma PiecesSplit(ps: seq<Piece>)
    requires ps != [] && (ps[0].Blank? ==> |ps| == 1) && forall p :: p in ps ==> IsPiece(p)
    ensures var text := Join(PieceTexts(ps), "/");
            Split(text, "/") == PieceTexts(ps) && (text == "" || text[0] != '/')
  {
    var texts := PieceTexts(ps);
    forall t | t in texts ensures !Contains(t, '/') {
      var i :| 0 <= i < |ps| && texts[i] == t;
      PieceConverts(ps[i]);
    }
    SplitJoin(texts, "/");
    assert ps[0] in ps && texts[0] == PieceText(ps[0]);
    assert ps[0].Indexed? ==> texts[0][|ps[0].tag|] == '[';
    JoinStarts(texts, "/");
  }

  lemma JoinStarts(parts: seq<string>, sep: string)
    requires parts != [] && (parts[0] == "" ==> |parts| == 1) && forall p :: p in parts ==> !Contains(p, '/')
    ensures var text := Join(parts, sep); text == "" || text[0] != '/'
  {
    assert parts[0] in parts;
    assert parts[0] != "" ==> Join(parts, sep)[0] == parts[0][0];
  }

  /**
   * Any XPath of tags and numbered tags reads as the steps it stands for, however many slashes stand in
   * front or between; one that stands for no step is refused.
   */
  lemma WrittenPathReads(lead: string, ps: seq<Piece>)
    requires forall i :: 0 <= i < |lead| ==> lead[i] == '/'
    requires ps != [] && (ps[0].Blank? ==> |ps| == 1) && forall p :: p in ps ==> IsPiece(p)
    ensures XPathToCss(lead + Join(PieceTexts(ps), "/")) ==
            if StepsOf(ps) == [] then NoPath else Css(CssPath(StepsOf(ps)))
  {
    PiecesSplit(ps);
    TrimLeading(lead, Join(PieceTexts(ps), "/"));
    PiecesCollect(ps);
  }

}
