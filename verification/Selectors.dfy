/**
 * The CSS engine, known by what it makes of printed paths and tags, and what follows for the paths of
 * elements. An engine for plain paths shows that such an engine exists.
 */
module Selectors {
  import opened Prelude
  import opened Text
  import opened Dom
  import opened DomPaths

  // ----- identifiers -------------------------------------------------------------------------

  predicate NameStart(c: char) {
    'a' <= c <= 'z' || 'A' <= c <= 'Z' || c == '_' || c as int >= 0x80
  }

  predicate NameChar(c: char) {
    NameStart(c) || IsDigit(c) || c == '-'
  }

  /** An identifier without escapes (section 4.3.11 of CSS Syntax Level 3): what a type selector can be. */
  predicate IsTag(t: string) {
    && t != "" && (forall i :: 0 <= i < |t| ==> NameChar(t[i]))
    && (NameStart(t[0]) || (t[0] == '-' && |t| > 1 && (NameStart(t[1]) || t[1] == '-')))
  }

  lemma TagHasNo(t: string, c: char)
    requires IsTag(t) && !NameChar(c)
    ensures !Contains(t, c)
  {}

  /** The largest number the engine keeps as written. */
  const CSS_INT_MAX := 0x7FFF_FFFF

  predicate AllPlain(steps: seq<Step>) {
    forall i :: 0 <= i < |steps| ==> IsTag(steps[i].tag)
  }

  predicate WellTagged(steps: seq<Step>) {
    AllPlain(steps) && forall i :: 0 <= i < |steps| ==> steps[i].index <= CSS_INT_MAX
  }

  lemma PlainTagsAreHtml(steps: seq<Step>)
    requires AllPlain(steps)
    ensures HtmlTags(steps) && AllQuotable(steps)
  {
    forall i | 0 <= i < |steps| ensures HtmlTag(steps[i].tag) && Quotable(steps[i].tag) {
      assert IsTag(steps[i].tag);
    }
  }

  // ----- the engine ----------------------------------------------------------------------------

  /** `doc.select(&sel)`: what it lists are elements of the document. */
  type SelectFn = f: (Document, string) -> seq<Address> | forall doc, css, a :: a in f(doc, css) ==> IsElement(doc, a)
    witness (doc: Document, css: string) => []

  /** Whether `Selector::parse` accepts a string, and what an accepted one selects. */
  datatype Engine = Engine(accepts: string -> bool, select: SelectFn)

  /** The first element selected, if the selector is accepted and selects one. */
  function SelectFirst(e: Engine, doc: Document, css: string): (r: Option<Address>)
    ensures r.Some? ==> IsElement(doc, r.value)
  {
    if e.accepts(css) && e.select(doc, css) != [] then
      assert e.select(doc, css)[0] in e.select(doc, css);
      Some(e.select(doc, css)[0])
    else None
  }

  predicate HasTag(doc: Document, a: Address, tag: string) {
    IsElement(doc, a) && ElementAt(doc, a).tag == tag
  }

  /** Type selectors, each with its `:nth-of-type()`, joined by child combinators. */
  function SelectorText(steps: seq<Step>): string {
    Join(seq(|steps|, i requires 0 <= i < |steps| =>
      steps[i].tag + ":nth-of-type(" + Decimal(steps[i].index) + ")"), " > ")
  }

  /** A chain of compound selectors selects by its steps. */
  ghost predicate ReadsPaths(e: Engine) {
    forall doc, steps :: steps != [] && WellTagged(steps) ==>
      SelectFirst(e, doc, SelectorText(steps)) == Select(doc, steps) && e.accepts(SelectorText(steps))
  }

  lemma PathIsSelectorText(steps: seq<Step>)
    ensures CssPath(steps) == SelectorText(steps)
  {
    assert CssSegments(steps) == seq(|steps|, i requires 0 <= i < |steps| =>
      steps[i].tag + ":nth-of-type(" + Decimal(steps[i].index) + ")");
  }

  /** An identifier selects the elements with that tag, in document order. */
  ghost predicate ReadsTags(e: Engine) {
    forall doc, tag :: IsTag(tag) ==> e.accepts(tag) && ListsTagged(doc, tag, e.select(doc, tag))
  }

  ghost predicate ListsTagged(doc: Document, tag: string, as_: seq<Address>) {
    InOrder(as_) && forall a :: a in as_ <==> HasTag(doc, a, tag)
  }

  function Bracketed(x: string, number: string, y: string): string {
    x + "[" + number + "]" + y
  }

  /** No bracket, and nothing that could open a comment. */
  predicate Clean(x: string) {
    !Contains(x, '[') && !Contains(x, ']') && !Contains(x, '/')
  }

  /** A number in brackets is not an attribute selector, whatever stands around it. */
  ghost predicate RefusesNumbers(e: Engine) {
    forall x, number, y :: Clean(x) && ParseUsize(number).Some? ==> !e.accepts(Bracketed(x, number, y))
  }

  ghost predicate LawfulEngine(e: Engine) {
    ReadsPaths(e) && ReadsTags(e) && RefusesNumbers(e)
  }

  const NTH := ":nth-of-type("

  /** The number in `:nth-of-type(number)`. */
  function NthIndex(rest: string): Option<nat> {
    if |NTH| < |rest| && rest[..|NTH|] == NTH && rest[|rest| - 1] == ')'
    then ParseUsize(rest[|NTH|..|rest| - 1]) else None
  }

  function ParseCompound(seg: string): Option<Step> {
    var n := IndexOf(seg, ':');
    if IsTag(seg[..n]) && NthIndex(seg[n..]).Some? then Some(Step(seg[..n], NthIndex(seg[n..]).value)) else None
  }

  /** All the compounds, if every one of them parses. */
  function Sequence(cs: seq<Option<Step>>): (r: Option<seq<Step>>)
    ensures r.Some? ==> |r.value| == |cs|
  {
    if cs == [] then Some([])
    else
      match (cs[0], Sequence(cs[1..]))
      case (Some(s), Some(rest)) => Some([s] + rest)
      case _ => None
  }

  /** A chain of compounds joined by the child combinator. */
  function ParseSelector(css: string): Option<seq<Step>> {
    var segs := Split(css, " > ");
    Sequence(seq(|segs|, i requires 0 <= i < |segs| => ParseCompound(segs[i])))
  }

  lemma ParsePrintedCompound(s: Step)
    requires IsTag(s.tag) && s.index <= USIZE_MAX
    ensures ParseCompound(CssSegment(s)) == Some(s)
  {
    var seg, n, digits := CssSegment(s), |s.tag|, Decimal(s.index);
    TagHasNo(s.tag, ':');
    assert forall k :: 0 <= k < n ==> seg[k] == s.tag[k];
    assert seg[n] == NTH[0];
    IndexOfIs(seg, ':', n);
    assert seg[..n] == s.tag;
    var rest := seg[n..];
    assert rest == NTH + digits + ")";
    assert rest[..|NTH|] == NTH && rest[|rest| - 1] == ')' && rest[|NTH|..|rest| - 1] == digits;
    ParsePrinted(s.index);
  }

  lemma {:induction false} SequenceOfSome(cs: seq<Option<Step>>, steps: seq<Step>)
    requires |cs| == |steps| && forall i :: 0 <= i < |cs| ==> cs[i] == Some(steps[i])
    ensures Sequence(cs) == Some(steps)
  {
    if cs != [] {
      SequenceOfSome(cs[1..], steps[1..]);
      assert steps == [steps[0]] + steps[1..];
    }
  }

  lemma {:induction false} SequenceFails(cs: seq<Option<Step>>, i: nat)
    requires i < |cs| && cs[i].None?
    ensures Sequence(cs).None?
  {
    if i > 0 { SequenceFails(cs[1..], i - 1); }
  }

  /** Splitting a printed CSS path gives back its segments. */
  lemma CssPathSplits(steps: seq<Step>)
    requires steps != [] && HtmlTags(steps)
    ensures Split(CssPath(steps), " > ") == CssSegments(steps)
  {
    var segs := CssSegments(steps);
    forall p | p in segs ensures !Contains(p, ' ') {
      var i :| 0 <= i < |segs| && segs[i] == p;
      assert HtmlTag(steps[i].tag);
      CssSegmentContains(steps[i], ' ');
    }
    SplitJoin(segs, " > ");
  }

  /** Reading a printed path of identifiers gives back its steps. */
  lemma ParsePrintedPath(steps: seq<Step>)
    requires steps != [] && AllPlain(steps) && IndexesFit(steps)
    ensures ParseSelector(CssPath(steps)) == Some(steps)
  {
    PlainTagsAreHtml(steps);
    CssPathSplits(steps);
    var segs := CssSegments(steps);
    var cs := seq(|segs|, i requires 0 <= i < |segs| => ParseCompound(segs[i]));
    forall i | 0 <= i < |cs| ensures cs[i] == Some(steps[i]) {
      ParsePrintedCompound(steps[i]);
    }
    SequenceOfSome(cs, steps);
  }

  /** The last colon of a segment ends its tag. */
  lemma SegmentIsInjective(s: Step, t: Step)
    requires CssSegment(s) == CssSegment(t)
    ensures s == t
  {
    var seg := CssSegment(s);
    LastColon(s);
    LastColon(t);
    assert |s.tag| == |t.tag|;
    assert seg[..|s.tag|] == s.tag && seg[..|t.tag|] == t.tag;
    var from, to := |s.tag| + |NTH|, |seg| - 1;
    assert seg[from..to] == Decimal(s.index) && seg[from..to] == Decimal(t.index);
    DecimalIsInjective(s.index, t.index);
  }

  lemma LastColon(s: Step)
    ensures var seg, n := CssSegment(s), |s.tag|;
            n < |seg| && seg[n] == ':' && forall k :: n < k < |seg| ==> seg[k] != ':'
  {
    var seg, n, digits := CssSegment(s), |s.tag|, Decimal(s.index);
    assert seg == s.tag + (NTH + digits + ")");
    assert forall i :: 0 < i < |NTH| ==> NTH[i] != ':';
    forall k | n < k < |seg| ensures seg[k] != ':' {
      var i := k - n;
      assert seg[k] == (NTH + digits + ")")[i];
      if |NTH| <= i < |NTH| + |digits| { assert IsDigit(digits[i - |NTH|]); }
    }
  }

  lemma CssPathIsInjective(a: seq<Step>, b: seq<Step>)
    requires a != [] && b != [] && HtmlTags(a) && HtmlTags(b) && CssPath(a) == CssPath(b)
    ensures a == b
  {
    CssPathSplits(a);
    CssPathSplits(b);
    assert |CssSegments(a)| == |CssSegments(b)|;
    forall i | 0 <= i < |a| ensures a[i] == b[i] {
      assert CssSegments(a)[i] == CssSegments(b)[i];
      SegmentIsInjective(a[i], b[i]);
    }
  }

  /** Distinct elements have distinct CSS paths. */
  lemma CssPathsAreDistinct(doc: Document, a: Address, b: Address)
    requires IsElement(doc, a) && IsElement(doc, b) && HtmlTags(Steps(doc, a)) && HtmlTags(Steps(doc, b))
    requires CssPath(Steps(doc, a)) == CssPath(Steps(doc, b))
    ensures a == b
  {
    CssPathIsInjective(Steps(doc, a), Steps(doc, b));
    StepsDetermineElement(doc, a, b);
  }

  /** A printed path selects the first element whose way down ends with it, if there is one. */
  lemma PathSelectsFirst(e: Engine, doc: Document, steps: seq<Step>, a: Address)
    requires LawfulEngine(e) && steps != [] && WellTagged(steps)
    ensures SelectFirst(e, doc, CssPath(steps)) == Some(a) <==> ReachedBy(doc, a, steps) && NoneBefore(doc, a, steps)
    ensures SelectFirst(e, doc, CssPath(steps)) == None ==> !ReachedBy(doc, a, steps)
  {
    PathIsSelectorText(steps);
    SelectIsFirstReached(doc, steps, a);
  }

  /**
   * Resolving an element's own CSS path in its document selects that element if and only if no element
   * before it has a way down that ends with its own.
   */
  lemma OwnPathSelectsElement(e: Engine, doc: Document, el: Address)
    requires LawfulEngine(e) && IsElement(doc, el) && WellTagged(Steps(doc, el))
    ensures SelectFirst(e, doc, CssPath(Steps(doc, el))) == Some(el) <==> NoneBefore(doc, el, Steps(doc, el))
  {
    var way := Steps(doc, el);
    assert way != [];
    assert ReachedBy(doc, el, way) by { OwnStepsReach(doc, el); }
    ReachedIsSelectedIff(e, doc, way, el);
  }

  lemma ReachedIsSelectedIff(e: Engine, doc: Document, steps: seq<Step>, a: Address)
    requires LawfulEngine(e) && steps != [] && WellTagged(steps) && ReachedBy(doc, a, steps)
    ensures SelectFirst(e, doc, CssPath(steps)) == Some(a) <==> NoneBefore(doc, a, steps)
  {
    PathSelectsFirst(e, doc, steps, a);
  }

  // ----- every selector with positive indexes selects something somewhere ------------------------

  predicate Positive(sel: seq<Step>) {
    forall i :: 0 <= i < |sel| ==> sel[i].index >= 1
  }

  /** A document made for a selector: at each level enough empty siblings before the element on the way. */
  function Witness(sel: seq<Step>): seq<Node>
    requires Positive(sel)
  {
    if sel == [] then [] else Level(sel[0].tag, sel[0].index - 1, Witness(sel[1..]))
  }

  function Level(tag: string, n: nat, below: seq<Node>): seq<Node> {
    seq(n, _ => Element(tag, [], [])) + [Element(tag, [], below)]
  }

  function WayDown(sel: seq<Step>): Address
    requires Positive(sel)
  {
    if sel == [] then [] else [sel[0].index - 1] + WayDown(sel[1..])
  }

  lemma {:induction false} CountAllAlike(nodes: seq<Node>, i: nat, tag: string)
    requires i <= |nodes| && forall k :: 0 <= k < |nodes| ==> nodes[k].Element? && nodes[k].tag == tag
    ensures SameTypeBefore(nodes, i, tag) == i
  {
    if i > 0 { CountAllAlike(nodes, i - 1, tag); }
  }

  lemma {:induction false} WitnessIsReached(sel: seq<Step>)
    requires sel != [] && Positive(sel)
    ensures IsElement(Witness(sel), WayDown(sel)) && Steps(Witness(sel), WayDown(sel)) == sel
  {
    LastOfLevel(sel[0].tag, sel[0].index - 1, Witness(sel[1..]));
    assert WayDown(sel)[1..] == WayDown(sel[1..]);
    if |sel| > 1 {
      WitnessIsReached(sel[1..]);
      assert sel == [sel[0]] + sel[1..];
    } else {
      assert WayDown(sel[1..]) == [];
    }
  }

  lemma LastOfLevel(tag: string, n: nat, below: seq<Node>)
    ensures var nodes := Level(tag, n, below);
            n < |nodes| && nodes[n] == Element(tag, [], below) && NthOfType(nodes, n) == n + 1
  {
    CountAllAlike(Level(tag, n, below), n, tag);
  }

  lemma {:induction false} StepsArePositive(doc: Document, a: Address)
    requires IsElement(doc, a)
    ensures Positive(Steps(doc, a))
    decreases |a|
  {
    if |a| > 1 { StepsArePositive(doc[a[0]].children, a[1..]); }
  }

  /** A selector can select something, in some document, if and only if its indexes are positive. */
  lemma SelectableIff(sel: seq<Step>)
    requires sel != []
    ensures Positive(sel) ==> Select(Witness(sel), sel).Some?
    ensures !Positive(sel) ==> forall doc :: Select(doc, sel).None?
  {
    if Positive(sel) {
      WitnessIsReached(sel);
      OwnStepsReach(Witness(sel), WayDown(sel));
      SelectIsFirstReached(Witness(sel), sel, WayDown(sel));
    } else {
      forall doc ensures Select(doc, sel).None? {
        if Select(doc, sel).Some? { SelectedIsPositive(doc, sel); }
      }
    }
  }

  lemma SelectedIsPositive(doc: Document, sel: seq<Step>)
    requires sel != [] && Select(doc, sel).Some?
    ensures Positive(sel)
  {
    var a := Select(doc, sel).value;
    SelectIsFirstReached(doc, sel, a);
    StepsArePositive(doc, a);
    assert forall i :: 0 <= i < |sel| ==> sel[i] == Steps(doc, a)[|a| - |sel| + i];
  }

  // ----- numbers in brackets ---------------------------------------------------------------------

  lemma CssPathCons(s: Step, rest: seq<Step>)
    requires rest != []
    ensures CssPath([s] + rest) == CssSegment(s) + " > " + CssPath(rest)
  {
    assert CssSegments([s] + rest)[1..] == CssSegments(rest);
  }

  lemma CutAround(t: string, open: nat, close: nat)
    requires open < close < |t| && t[open] == '[' && t[close] == ']'
    ensures t == Bracketed(t[..open], t[open + 1..close], t[close + 1..])
  {
    assert t == t[..open] + t[open..close] + t[close..];
    assert t[open..close] == "[" + t[open + 1..close] && t[close..] == "]" + t[close + 1..];
  }

  lemma CleanFront(t: string, open: nat, close: nat)
    requires open == IndexOf(t, '[') < close == IndexOf(t, ']') && !Contains(t, '/')
    ensures Clean(t[..open])
  {
    assert forall k :: 0 <= k < open ==> t[..open][k] == t[k];
  }

  /** A tag that is read up to a number in brackets, taken apart there. */
  lemma TagWithNumber(s: Step) returns (x: string, number: string, y: string)
    requires FateOf(s).Reads? && Contains(s.tag, '[') && !Contains(s.tag, '/')
    ensures s.tag == Bracketed(x, number, y) && Clean(x) && ParseUsize(number).Some?
  {
    var open, close := IndexOf(s.tag, '['), IndexOf(s.tag, ']');
    CutAround(s.tag, open, close);
    CleanFront(s.tag, open, close);
    x, number, y := s.tag[..open], s.tag[open + 1..close], s.tag[close + 1..];
  }

  lemma BracketedBetween(a: string, x: string, number: string, y: string, b: string)
    ensures a + Bracketed(x, number, y) + b == Bracketed(a + x, number, y + b)
  {}

  lemma PlainSegmentIsClean(s: Step)
    requires !Contains(s.tag, '[') && !Contains(s.tag, ']') && !Contains(s.tag, '/')
    ensures Clean(CssSegment(s) + " > ")
  {
    forall c | c == '[' || c == ']' || c == '/' ensures !Contains(CssSegment(s) + " > ", c) {
      CssSegmentContains(s, c);
      ConcatContains(CssSegment(s), " > ", c);
    }
  }

  /** A path that is read step by step, though some tag has brackets, has a number in brackets first. */
  lemma {:induction false} PathWithNumber(steps: seq<Step>) returns (x: string, number: string, y: string)
    requires steps != [] && SlashFree(steps) && !AllQuotable(steps)
    requires forall i :: 0 <= i < |steps| ==> FateOf(steps[i]).Reads?
    ensures CssPath(steps) == Bracketed(x, number, y) && Clean(x) && ParseUsize(number).Some?
  {
    var s, rest := steps[0], steps[1..];
    assert steps == [s] + rest && FateOf(s).Reads?;
    if Contains(s.tag, '[') {
      x, number, y := FirstTagHasNumber(steps);
    } else {
      ReadAsPrinted(s);
      OtherTagIsOdd(steps);
      x, number, y := PathWithNumber(rest);
      CssPathCons(s, rest);
      PlainSegmentIsClean(s);
      CleanConcat(CssSegment(s) + " > ", x);
      BracketedBetween(CssSegment(s) + " > ", x, number, y, "");
      x, y := CssSegment(s) + " > " + x, y + "";
    }
  }

  lemma FirstTagHasNumber(steps: seq<Step>) returns (x: string, number: string, y: string)
    requires steps != [] && FateOf(steps[0]).Reads? && Contains(steps[0].tag, '[') && !Contains(steps[0].tag, '/')
    ensures CssPath(steps) == Bracketed(x, number, y) && Clean(x) && ParseUsize(number).Some?
  {
    x, number, y := TagWithNumber(steps[0]);
    var tail := FirstTag(steps);
    BracketedBetween("", x, number, y, tail);
    assert "" + x == x;
    y := y + tail;
  }

  lemma FirstTag(steps: seq<Step>) returns (tail: string)
    requires steps != []
    ensures CssPath(steps) == "" + steps[0].tag + tail
  {
    var s, rest := steps[0], steps[1..];
    assert steps == [s] + rest;
    tail := NTH + Decimal(s.index) + ")";
    assert CssSegment(s) == s.tag + tail;
    if rest != [] {
      CssPathCons(s, rest);
      tail := tail + (" > " + CssPath(rest));
    }
  }

  lemma OtherTagIsOdd(steps: seq<Step>)
    requires steps != [] && Quotable(steps[0].tag) && !AllQuotable(steps)
    ensures steps[1..] != [] && !AllQuotable(steps[1..])
  {
    var i :| 0 <= i < |steps| && !Quotable(steps[i].tag);
    assert steps[1..][i - 1] == steps[i];
  }

  lemma CleanConcat(a: string, b: string)
    requires Clean(a) && Clean(b)
    ensures Clean(a + b)
  {
    ConcatContains(a, b, '[');
    ConcatContains(a, b, ']');
    ConcatContains(a, b, '/');
  }

  // ----- such an engine exists --------------------------------------------------------------------

  function TaggedAmong(doc: Document, as_: seq<Address>, tag: string): seq<Address> {
    if as_ == [] then []
    else
      TaggedAmong(doc, as_[..|as_| - 1], tag) + if HasTag(doc, as_[|as_| - 1], tag) then [as_[|as_| - 1]] else []
  }

  lemma {:induction false} TaggedAmongLists(doc: Document, as_: seq<Address>, tag: string)
    requires InOrder(as_)
    ensures InOrder(TaggedAmong(doc, as_, tag))
    ensures forall a :: a in TaggedAmong(doc, as_, tag) <==> a in as_ && HasTag(doc, a, tag)
  {
    if as_ != [] {
      var init, a := as_[..|as_| - 1], as_[|as_| - 1];
      TaggedAmongLists(doc, init, tag);
      assert as_ == init + [a];
      var before := TaggedAmong(doc, init, tag);
      forall p | 0 <= p < |before| ensures Precedes(before[p], a) {
        assert before[p] in before;
        var k :| 0 <= k < |init| && init[k] == before[p];
      }
    }
  }

  function PlainSelect(doc: Document, css: string): (as_: seq<Address>)
    ensures forall a :: a in as_ ==> IsElement(doc, a)
  {
    if IsTag(css) then
      TaggedAmongLists(doc, AllElements(doc), css);
      TaggedAmong(doc, AllElements(doc), css)
    else
      match ParseSelector(css)
      case None => []
      case Some(sel) => (match Select(doc, sel) case Some(a) => [a] case None => [])
  }

  function PlainEngine(): Engine {
    Engine(css => IsTag(css) || ParseSelector(css).Some?, PlainSelect)
  }

  lemma {:induction false} SplitKeeps(s: string, sep: string, c: char)
    requires sep != "" && Contains(s, c) && !Contains(sep, c)
    ensures exists p :: p in Split(s, sep) && Contains(p, c)
  {
    if |s| < |sep| {
      assert s in Split(s, sep);
    } else if s[..|sep|] == sep {
      assert s == sep + s[|sep|..];
      ConcatContains(sep, s[|sep|..], c);
      SplitKeeps(s[|sep|..], sep, c);
      var p :| p in Split(s[|sep|..], sep) && Contains(p, c);
      assert p in Split(s, sep);
    } else {
      var rest := Split(s[1..], sep);
      var parts := Split(s, sep);
      assert parts == [[s[0]] + rest[0]] + rest[1..];
      ConcatContains([s[0]], s[1..], c);
      assert s == [s[0]] + s[1..];
      if s[0] == c {
        assert parts[0][0] == c && parts[0] in parts;
      } else {
        SplitKeeps(s[1..], sep, c);
        var p :| p in rest && Contains(p, c);
        var k :| 0 <= k < |rest| && rest[k] == p;
        ConcatContains([s[0]], rest[0], c);
        assert Contains(parts[k], c) && parts[k] in parts;
      }
    }
  }

  lemma NthHasNoBracket(rest: string, i: nat)
    requires NthIndex(rest).Some? && i < |rest|
    ensures rest[i] != '['
  {
    var number := rest[|NTH|..|rest| - 1];
    if i < |NTH| {
      assert rest[i] == rest[..|NTH|][i] == NTH[i];
    } else if i < |rest| - 1 {
      assert number[i - |NTH|] == rest[i];
      ParsedIsNumeral(number, i - |NTH|);
    }
  }

  lemma CompoundHasNoBracket(seg: string)
    requires Contains(seg, '[')
    ensures ParseCompound(seg).None?
  {
    var k :| 0 <= k < |seg| && seg[k] == '[';
    var n := IndexOf(seg, ':');
    if k < n {
      assert seg[..n][k] == '[' && !NameChar('[');
    } else {
      assert seg[n..][k - n] == '[';
      if NthIndex(seg[n..]).Some? { NthHasNoBracket(seg[n..], k - n); }
    }
  }

  lemma PlainRefusesBracket(css: string)
    requires Contains(css, '[')
    ensures !IsTag(css) && ParseSelector(css).None?
  {
    if IsTag(css) { TagHasNo(css, '['); }
    SplitKeeps(css, " > ", '[');
    var segs := Split(css, " > ");
    var p :| p in segs && Contains(p, '[');
    var k :| 0 <= k < |segs| && segs[k] == p;
    CompoundHasNoBracket(p);
    SequenceFails(seq(|segs|, i requires 0 <= i < |segs| => ParseCompound(segs[i])), k);
  }

  lemma PathIsNoTag(steps: seq<Step>)
    requires steps != []
    ensures !IsTag(CssPath(steps))
  {
    var n := |steps[0].tag|;
    var segs := CssSegments(steps);
    assert CssPath(steps)[n] == segs[0][n] == ':';
    if IsTag(CssPath(steps)) { TagHasNo(CssPath(steps), ':'); }
  }

  /** The laws can be met. */
  lemma PlainEngineIsLawful()
    ensures LawfulEngine(PlainEngine())
  {
    var e := PlainEngine();
    forall doc, steps | steps != [] && WellTagged(steps)
      ensures SelectFirst(e, doc, SelectorText(steps)) == Select(doc, steps) && e.accepts(SelectorText(steps))
    {
      PathIsSelectorText(steps);
      ParsePrintedPath(steps);
      PathIsNoTag(steps);
    }
    forall doc, tag | IsTag(tag) ensures ListsTagged(doc, tag, e.select(doc, tag)) {
      TaggedAmongLists(doc, AllElements(doc), tag);
    }
    forall x, number, y | Clean(x) && ParseUsize(number).Some? ensures !e.accepts(Bracketed(x, number, y)) {
      assert Bracketed(x, number, y)[|x|] == '[';
      PlainRefusesBracket(Bracketed(x, number, y));
    }
  }
}
