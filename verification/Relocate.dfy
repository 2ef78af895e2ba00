/**
 * Finding a recorded element again: by its CSS path, by its XPath, and failing both by a scored search
 * over the elements with its tag.
 */
module Relocate {
  import opened Prelude
  import opened Text
  import opened Dom
  import opened DomPaths
  import opened Selectors
  import opened Fingerprints
  import opened FingerprintStore

  datatype LocateOutcome =
    | ExactMatch(node: NodeRef)
    | FuzzyMatch(node: NodeRef, score: real)
    | Ambiguous(candidates: seq<(NodeRef, real)>)
    | NotFound
    | BadTagSelector
    | Aborts

  // ----- the scored search ------------------------------------------------------------------

  datatype Scored = Scored(at: Address, node: NodeRef, score: real)

  /** The libraries at work: text similarity, hashing and JSON, and the CSS engine. */
  datatype World = World(lib: Lib, css: Engine)

  function Score(lib: Lib, fp: Fingerprint, doc: Document, a: Address): real
    requires IsElement(doc, a)
  {
    Similarity(lib, fp, BuildNodeRef(doc, a))
  }

  function ScoredAt(lib: Lib, fp: Fingerprint, doc: Document, a: Address): Scored
    requires IsElement(doc, a)
  {
    Scored(a, BuildNodeRef(doc, a), Score(lib, fp, doc, a))
  }

  /** An element with the stored tag, with its score. */
  predicate IsCandidate(lib: Lib, fp: Fingerprint, doc: Document, x: Scored) {
    HasTag(doc, x.at, fp.tagName) && x == ScoredAt(lib, fp, doc, x.at)
  }

  /** The given elements, scored. */
  function Candidates(lib: Lib, fp: Fingerprint, doc: Document, as_: seq<Address>): seq<Scored>
    requires forall a :: a in as_ ==> IsElement(doc, a)
  {
    seq(|as_|, i requires 0 <= i < |as_| => assert as_[i] in as_; ScoredAt(lib, fp, doc, as_[i]))
  }

  function InsertDesc(s: seq<Scored>, x: Scored): seq<Scored> {
    if s == [] || s[0].score < x.score then [x] + s else [s[0]] + InsertDesc(s[1..], x)
  }

  /** The stable sort by descending score. */
  function SortDesc(s: seq<Scored>): seq<Scored> {
    if s == [] then [] else InsertDesc(SortDesc(s[..|s| - 1]), s[|s| - 1])
  }

  function AtLeast(s: seq<Scored>, threshold: real): seq<Scored> {
    if s == [] then []
    else if s[0].score >= threshold then [s[0]] + AtLeast(s[1..], threshold)
    else AtLeast(s[1..], threshold)
  }

  function Listed(s: seq<Scored>): seq<(NodeRef, real)> {
    seq(|s|, i requires 0 <= i < |s| => (s[i].node, s[i].score))
  }

  /** At least one of the two hashes taken at recording time is still the live one. */
  predicate HashAgrees(lib: Lib, fp: Fingerprint, doc: Document, a: Address) {
    && IsElement(doc, a)
    && (HashAttrs(lib, ElementAt(doc, a).attrs) == fp.attrsHash || HashNeighbors(lib, doc, a) == fp.neighborHash)
  }

  /** What the stored tag selects, scored and sorted. */
  function Ranked(w: World, fp: Fingerprint, doc: Document): (s: seq<Scored>)
    ensures Descending(s)
    ensures forall x :: x in s <==> x.at in w.css.select(doc, fp.tagName) && x == ScoredAt(w.lib, fp, doc, x.at)
  {
    var candidates := Candidates(w.lib, fp, doc, w.css.select(doc, fp.tagName));
    SortDescends(candidates);
    CandidatesAreScored(w.lib, fp, doc, w.css.select(doc, fp.tagName));
    SortDesc(candidates)
  }

  function Decide(scored: seq<Scored>, bestAgrees: bool, threshold: real): LocateOutcome {
    if scored == [] || scored[0].score < threshold then NotFound
    else if bestAgrees then FuzzyMatch(scored[0].node, scored[0].score)
    else Ambiguous(Listed(AtLeast(scored, threshold)))
  }

  function Search(w: World, fp: Fingerprint, doc: Document, threshold: real): LocateOutcome {
    var scored := Ranked(w, fp, doc);
    if !w.css.accepts(fp.tagName) then BadTagSelector
    else Decide(scored, scored != [] && HashAgrees(w.lib, fp, doc, scored[0].at), threshold)
  }

  ghost predicate Descending(s: seq<Scored>) {
    forall i, j :: 0 <= i < j < |s| ==> s[i].score >= s[j].score
  }

  lemma {:induction false} InsertDescends(s: seq<Scored>, x: Scored)
    requires Descending(s)
    ensures Descending(InsertDesc(s, x)) && forall y :: y in InsertDesc(s, x) <==> y in s || y == x
  {
    if s != [] && s[0].score >= x.score {
      InsertDescends(s[1..], x);
      var r := InsertDesc(s[1..], x);
      assert s == [s[0]] + s[1..];
      forall k | 0 <= k < |r| ensures s[0].score >= r[k].score {
        assert r[k] in r;
        if r[k] != x {
          var j :| 0 <= j < |s| - 1 && s[1..][j] == r[k];
          assert s[j + 1] == r[k];
        }
      }
    }
  }

  lemma {:induction false} SortDescends(s: seq<Scored>)
    ensures Descending(SortDesc(s)) && forall y :: y in SortDesc(s) <==> y in s
  {
    if s != [] {
      SortDescends(s[..|s| - 1]);
      assert s == s[..|s| - 1] + [s[|s| - 1]];
      InsertDescends(SortDesc(s[..|s| - 1]), s[|s| - 1]);
    }
  }

  lemma CandidatesAreScored(lib: Lib, fp: Fingerprint, doc: Document, as_: seq<Address>)
    requires forall a :: a in as_ ==> IsElement(doc, a)
    ensures forall x :: x in Candidates(lib, fp, doc, as_) <==> x.at in as_ && x == ScoredAt(lib, fp, doc, x.at)
  {
    var s := Candidates(lib, fp, doc, as_);
    forall x: Scored | x.at in as_ && x == ScoredAt(lib, fp, doc, x.at) ensures x in s {
      var i :| 0 <= i < |as_| && as_[i] == x.at;
      assert s[i] == x;
    }
  }

  /** Higher score first; equal scores in document order. */
  predicate RanksBefore(x: Scored, y: Scored) {
    x.score > y.score || (x.score == y.score && Precedes(x.at, y.at))
  }

  ghost predicate RankOrdered(s: seq<Scored>) {
    forall i, j :: 0 <= i < j < |s| ==> RanksBefore(s[i], s[j])
  }

  lemma {:induction false} InsertKeepsRank(s: seq<Scored>, x: Scored)
    requires RankOrdered(s) && forall y :: y in s ==> Precedes(y.at, x.at)
    ensures RankOrdered(InsertDesc(s, x)) && forall y :: y in InsertDesc(s, x) <==> y in s || y == x
  {
    if s != [] && s[0].score >= x.score {
      InsertKeepsRank(s[1..], x);
      var r := InsertDesc(s[1..], x);
      assert s == [s[0]] + s[1..];
      forall y | y in r ensures RanksBefore(s[0], y) {
        if y != x {
          assert y in s[1..];
          var k :| 0 <= k < |s[1..]| && s[1..][k] == y;
          assert s[k + 1] == y;
        }
      }
    }
  }

  ghost predicate InDocOrder(s: seq<Scored>) {
    forall i, j :: 0 <= i < j < |s| ==> Precedes(s[i].at, s[j].at)
  }

  lemma {:induction false} SortRanks(s: seq<Scored>)
    requires InDocOrder(s)
    ensures RankOrdered(SortDesc(s)) && forall y :: y in SortDesc(s) <==> y in s
  {
    if s != [] {
      var init := s[..|s| - 1];
      SortRanks(init);
      assert s == init + [s[|s| - 1]];
      forall y | y in SortDesc(init) ensures Precedes(y.at, s[|s| - 1].at) {
        var k :| 0 <= k < |init| && init[k] == y;
      }
      InsertKeepsRank(SortDesc(init), s[|s| - 1]);
    }
  }

  /** For an identifier as the stored tag, the candidates are the elements with that tag, best first. */
  lemma RankedIsRanking(w: World, fp: Fingerprint, doc: Document)
    requires LawfulEngine(w.css) && IsTag(fp.tagName)
    ensures RankOrdered(Ranked(w, fp, doc)) && forall x :: x in Ranked(w, fp, doc) <==> IsCandidate(w.lib, fp, doc, x)
  {
    var as_ := w.css.select(doc, fp.tagName);
    assert ListsTagged(doc, fp.tagName, as_);
    var s := Candidates(w.lib, fp, doc, as_);
    assert InDocOrder(s);
    SortRanks(s);
  }

  // ----- what the search answers, without its algorithm ---------------------------------------

  /** `s` lists the elements with the stored tag that score at least `threshold`, best first. */
  ghost predicate Ranking(lib: Lib, fp: Fingerprint, doc: Document, threshold: real, s: seq<Scored>) {
    RankOrdered(s) && forall x :: x in s <==> IsCandidate(lib, fp, doc, x) && x.score >= threshold
  }

  /** What to answer for a ranking. */
  ghost predicate Answers(lib: Lib, fp: Fingerprint, doc: Document, s: seq<Scored>, o: LocateOutcome) {
    && (s == [] ==> o == NotFound)
    && (s != [] ==>
          if HashAgrees(lib, fp, doc, s[0].at) then o == FuzzyMatch(s[0].node, s[0].score)
          else o == Ambiguous(Listed(s)))
  }

  lemma {:induction false} NoneAtLeast(s: seq<Scored>, threshold: real)
    requires forall i :: 0 <= i < |s| ==> s[i].score < threshold
    ensures AtLeast(s, threshold) == []
  {
    if s != [] { NoneAtLeast(s[1..], threshold); }
  }

  lemma {:induction false} AtLeastIsPrefix(s: seq<Scored>, threshold: real)
    requires Descending(s)
    ensures AtLeast(s, threshold) <= s
    ensures forall x :: x in AtLeast(s, threshold) <==> x in s && x.score >= threshold
  {
    if s != [] {
      if s[0].score < threshold {
        NoneAtLeast(s, threshold);
      } else {
        assert s == [s[0]] + s[1..];
        AtLeastIsPrefix(s[1..], threshold);
      }
    }
  }

  /**
   * The search is fully determined: its answer is the one for the ranking of all same-tag elements at or
   * above the threshold. So the node chosen has the maximum score and is the earliest such in the
   * document, `NotFound` means that every same-tag element is below the threshold, and `Ambiguous` lists
   * exactly those at or above it.
   */
  lemma SearchIsExact(w: World, fp: Fingerprint, doc: Document, threshold: real, s: seq<Scored>)
    requires LawfulEngine(w.css) && IsTag(fp.tagName) && Ranking(w.lib, fp, doc, threshold, s)
    ensures Answers(w.lib, fp, doc, s, Search(w, fp, doc, threshold))
  {
    var all := Ranked(w, fp, doc);
    var t := AtLeast(all, threshold);
    RankedIsRanking(w, fp, doc);
    AtLeastIsPrefix(all, threshold);
    RankingIsUnique(s, t);
    if s == [] && all != [] {
      assert all[0] in all && all[0] !in t;
    }
    if s != [] {
      assert s[0] in s && s[0] == all[0];
    }
  }

  /** There always is a ranking to compare with. */
  lemma RankingExists(w: World, fp: Fingerprint, doc: Document, threshold: real)
    requires LawfulEngine(w.css) && IsTag(fp.tagName)
    ensures Ranking(w.lib, fp, doc, threshold, AtLeast(Ranked(w, fp, doc), threshold))
  {
    RankedIsRanking(w, fp, doc);
    AtLeastIsPrefix(Ranked(w, fp, doc), threshold);
  }

  lemma HeadOccursOnce(s: seq<Scored>)
    requires s != [] && RankOrdered(s)
    ensures s[0] !in s[1..]
  {
    PrecedesIsStrict(s[0].at, s[0].at);
  }

  /** There is only one way to rank the same elements. */
  lemma {:induction false} RankingIsUnique(s: seq<Scored>, t: seq<Scored>)
    requires RankOrdered(s) && RankOrdered(t) && forall x :: x in s <==> x in t
    ensures s == t
  {
    assert t == [] || t[0] in t;
    if s != [] {
      assert s[0] in t;
      assert t[0] in s;
      var i :| 0 <= i < |t| && t[i] == s[0];
      var j :| 0 <= j < |s| && s[j] == t[0];
      PrecedesIsStrict(s[0].at, t[0].at);
      assert s[0] == t[0];
      HeadOccursOnce(s);
      HeadOccursOnce(t);
      assert s == [s[0]] + s[1..] && t == [t[0]] + t[1..];
      forall x ensures x in s[1..] <==> x in t[1..] {
        assert x in s <==> x in t;
      }
      RankingIsUnique(s[1..], t[1..]);
    }
  }

  // ----- locate ---------------------------------------------------------------------------

  function ViaXPath(w: World, fp: Fingerprint, doc: Document, threshold: real): LocateOutcome {
    match XPathToCss(fp.xpath)
    case Panics => Aborts
    case NoPath => Search(w, fp, doc, threshold)
    case Css(css) =>
      match SelectFirst(w.css, doc, css)
      case Some(el) => ExactMatch(BuildNodeRef(doc, el))
      case None => Search(w, fp, doc, threshold)
  }

  function Located(w: World, stored: Option<Fingerprint>, doc: Document, threshold: real): LocateOutcome {
    match stored
    case None => NotFound
    case Some(fp) =>
      match SelectFirst(w.css, doc, fp.cssPath)
      case Some(el) => ExactMatch(BuildNodeRef(doc, el))
      case None => ViaXPath(w, fp, doc, threshold)
  }

  lemma CandidateAt(lib: Lib, fp: Fingerprint, doc: Document, as_: seq<Address>, i: nat)
    requires i < |as_| && forall a :: a in as_ ==> IsElement(doc, a)
    ensures IsElement(doc, as_[i])
    ensures Candidates(lib, fp, doc, as_)[i] == ScoredAt(lib, fp, doc, as_[i])
  {
    assert as_[i] in as_;
  }

  /** The scoring loop over what the tag selected. */
  method ScoreEach(lib: Lib, fp: Fingerprint, doc: Document, selected: seq<Address>) returns (scored: seq<Scored>)
    requires forall a :: a in selected ==> IsElement(doc, a)
    ensures scored == Candidates(lib, fp, doc, selected)
  {
    ghost var all := Candidates(lib, fp, doc, selected);
    scored := [];
    for i := 0 to |selected|
      invariant scored == all[..i]
    {
      CandidateAt(lib, fp, doc, selected, i);
      var node := BuildNodeRef(doc, selected[i]);
      var s := Similarity(lib, fp, node);
      assert all[..i + 1] == all[..i] + [all[i]];
      scored := scored + [Scored(selected[i], node, s)];
    }
  }

  class Relocator {
    const w: World
    const store: ParseStore

    constructor (w: World, store: ParseStore)
      ensures this.w == w && this.store == store
    {
      this.w := w;
      this.store := store;
    }

    method ScoreAll(fp: Fingerprint, doc: Document) returns (scored: seq<Scored>)
      ensures scored == Ranked(w, fp, doc)
    {
      scored := ScoreEach(w.lib, fp, doc, w.css.select(doc, fp.tagName));
      scored := SortDesc(scored);
    }

    method Locate(doc: Document, stableId: string, urlFld: string, threshold: real) returns (o: LocateOutcome)
      ensures o == Located(w, Find(store.rows, (stableId, urlFld)), doc, threshold)
    {
      var stored := store.Lookup(stableId, urlFld);
      if stored.None? { return NotFound; }
      var fp := stored.value;
      var exact := SelectFirst(w.css, doc, fp.cssPath);
      if exact.Some? { return ExactMatch(BuildNodeRef(doc, exact.value)); }
      var css := XPathToCssLoop(fp.xpath);
      if css.Panics? { return Aborts; }
      if css.Css? {
        var viaXPath := SelectFirst(w.css, doc, css.path);
        if viaXPath.Some? { return ExactMatch(BuildNodeRef(doc, viaXPath.value)); }
      }
      o := SearchByScore(fp, doc, threshold);
    }

    method SearchByScore(fp: Fingerprint, doc: Document, threshold: real) returns (o: LocateOutcome)
      ensures o == Search(w, fp, doc, threshold)
    {
      if !w.css.accepts(fp.tagName) { return BadTagSelector; }
      var scored := ScoreAll(fp, doc);
      if scored == [] || scored[0].score < threshold { return NotFound; }
      var best := scored[0];
      assert best in scored;
      var attrsMismatch := HashAttrs(w.lib, ElementAt(doc, best.at).attrs) != fp.attrsHash;
      var neighborMismatch := HashNeighbors(w.lib, doc, best.at) != fp.neighborHash;
      if attrsMismatch && neighborMismatch { return Ambiguous(Listed(AtLeast(scored, threshold))); }
      return FuzzyMatch(best.node, best.score);
    }

    /** Only the row of this id and site changes, and only if the selector is accepted and picks an element. */
    method Record(doc: Document, css: string, stableId: string, urlFld: string, now: SystemTime) returns (ok: bool)
      modifies store
      ensures ok == SelectFirst(w.css, doc, css).Some?
      ensures !ok ==> store.rows == old(store.rows)
      ensures ok ==>
                var fp := BuildFingerprint(w.lib, doc, SelectFirst(w.css, doc, css).value, stableId, urlFld, now);
                store.rows == old(store.rows)[(stableId, urlFld) := ToRow(fp)]
    {
      var picked := SelectFirst(w.css, doc, css);
      if picked.None? { return false; }
      store.Upsert(BuildFingerprint(w.lib, doc, picked.value, stableId, urlFld, now));
      return true;
    }
  }

  // ----- the fallback ------------------------------------------------------------------------

  /** An element recorded in a document under a key. */
  datatype Recording = Recording(doc: Document, el: Address, stableId: string, urlFld: string, at: SystemTime)

  predicate IsRecording(rec: Recording) {
    IsElement(rec.doc, rec.el) && IndexesFit(Steps(rec.doc, rec.el))
  }

  function WayDownOf(rec: Recording): seq<Step>
    requires IsRecording(rec)
  {
    Steps(rec.doc, rec.el)
  }

  /** What the store finds for a recording once it is made. */
  function Recorded(w: World, rows: Rows, rec: Recording): (found: Option<Fingerprint>)
    requires IsRecording(rec)
    ensures found.Some?
    ensures found.value.cssPath == CssPath(WayDownOf(rec)) && found.value.xpath == XPath(WayDownOf(rec))
  {
    var fp := BuildFingerprint(w.lib, rec.doc, rec.el, rec.stableId, rec.urlFld, rec.at);
    Find(rows[(rec.stableId, rec.urlFld) := ToRow(fp)], (rec.stableId, rec.urlFld))
  }

  function ExactOr(doc: Document, found: Option<Address>, otherwise: LocateOutcome): LocateOutcome
    requires found.Some? ==> IsElement(doc, found.value)
  {
    if found.Some? then ExactMatch(BuildNodeRef(doc, found.value)) else otherwise
  }

  /** In this document the fallback makes no difference: what the CSS path misses goes to the search. */
  predicate Idle(w: World, fp: Fingerprint, doc: Document, threshold: real) {
    Located(w, Some(fp), doc, threshold) ==
    ExactOr(doc, SelectFirst(w.css, doc, fp.cssPath), Search(w, fp, doc, threshold))
  }

  /** The XPath is read as something that can get in the way: a panic, or a path that can match. */
  ghost predicate Misleads(e: Engine, c: Conversion) {
    match c
    case Panics => true
    case NoPath => false
    case Css(css) => exists doc :: SelectFirst(e, doc, css).Some?
  }

  lemma FallbackIsIdle(w: World, rows: Rows, rec: Recording, doc: Document, threshold: real)
    requires IsRecording(rec) && AllQuotable(WayDownOf(rec))
    ensures Idle(w, Recorded(w, rows, rec).value, doc, threshold)
  {
    RoundTripExactly(rec.doc, rec.el);
  }

  lemma HarmlessIsIdle(w: World, fp: Fingerprint, doc: Document, threshold: real)
    requires !Misleads(w.css, XPathToCss(fp.xpath))
    ensures Idle(w, fp, doc, threshold)
  {
    match XPathToCss(fp.xpath)
    case Css(css) => assert SelectFirst(w.css, doc, css).None?;
    case _ =>
  }

  lemma SearchNeverExact(w: World, fp: Fingerprint, doc: Document, threshold: real)
    ensures !Search(w, fp, doc, threshold).ExactMatch? && !Search(w, fp, doc, threshold).Aborts?
  {}

  lemma NothingInEmpty(e: Engine, css: string)
    ensures SelectFirst(e, [], css).None?
  {}

  /** A document in which a misleading XPath makes a difference, when the CSS path is not a selector. */
  lemma MisleadingIsNotIdle(w: World, fp: Fingerprint, threshold: real) returns (doc: Document)
    requires Misleads(w.css, XPathToCss(fp.xpath))
    requires XPathToCss(fp.xpath).Css? ==> !w.css.accepts(fp.cssPath)
    ensures !Idle(w, fp, doc, threshold)
  {
    match XPathToCss(fp.xpath)
    case Panics => doc := [];
    case Css(css) => doc :| SelectFirst(w.css, doc, css).Some?;
    NothingInEmpty(w.css, fp.cssPath);
    SearchNeverExact(w, fp, doc, threshold);
  }

  /** A path that is read back though it is not as printed is no selector: it has a number in brackets. */
  lemma MisreadPathIsRefused(e: Engine, steps: seq<Step>)
    requires LawfulEngine(e) && steps != [] && IndexesFit(steps) && SlashFree(steps) && !AllQuotable(steps)
    requires XPathToCss(XPath(steps)).Css?
    ensures !e.accepts(CssPath(steps))
  {
    ConversionExactly(steps);
    GatherPointwise(Fates(steps));
    assert forall i :: 0 <= i < |steps| ==> FateOf(steps[i]) == Fates(steps)[i];
    var x, number, y := PathWithNumber(steps);
    assert !e.accepts(Bracketed(x, number, y));
  }

  /**
   * The XPath fallback of a recorded element makes no difference in any document if and only if its tags
   * can be carried by the XPath notation, or its XPath is read as nothing that can get in the way.
   */
  lemma FallbackIsIdleIff(w: World, rows: Rows, rec: Recording, threshold: real)
    requires LawfulEngine(w.css) && IsRecording(rec) && SlashFree(WayDownOf(rec))
    ensures (forall doc :: Idle(w, Recorded(w, rows, rec).value, doc, threshold))
            <==> AllQuotable(WayDownOf(rec)) || !Misleads(w.css, XPathToCss(XPath(WayDownOf(rec))))
  {
    var steps, fp := WayDownOf(rec), Recorded(w, rows, rec).value;
    if AllQuotable(steps) {
      forall doc ensures Idle(w, fp, doc, threshold) { FallbackIsIdle(w, rows, rec, doc, threshold); }
    } else if !Misleads(w.css, XPathToCss(fp.xpath)) {
      forall doc ensures Idle(w, fp, doc, threshold) { HarmlessIsIdle(w, fp, doc, threshold); }
    } else {
      if XPathToCss(fp.xpath).Css? { MisreadPathIsRefused(w.css, steps); }
      var doc := MisleadingIsNotIdle(w, fp, threshold);
      assert !Idle(w, fp, doc, threshold);
    }
  }

  /** A step that is read back, if at all, as an identifier with a number the engine holds. */
  predicate ReadsKnown(f: Fate) {
    f.Reads? ==> IsTag(f.step.tag) && f.step.index <= CSS_INT_MAX
  }

  /**
   * Which tags mislead, where all that is read is identifiers: the first that cannot be read has a ']'
   * before any '[', or all of them can be read, with positive numbers.
   */
  lemma MisleadsOnTags(e: Engine, steps: seq<Step>)
    requires LawfulEngine(e) && steps != [] && IndexesFit(steps) && SlashFree(steps)
    requires forall i :: 0 <= i < |steps| ==> ReadsKnown(FateOf(steps[i]))
    ensures Misleads(e, XPathToCss(XPath(steps))) <==>
            || (exists i :: CrashesAt(Fates(steps), i))
            || (forall i :: 0 <= i < |steps| ==> FateOf(steps[i]).Reads? && FateOf(steps[i]).step.index >= 1)
  {
    var fs := Fates(steps);
    ConversionExactly(steps);
    GatherCrashes(fs);
    GatherPointwise(fs);
    assert forall i :: 0 <= i < |steps| ==> fs[i] == FateOf(steps[i]);
    if Gather(fs).Read? {
      var r := Gather(fs).steps;
      assert forall i :: 0 <= i < |r| ==> fs[i] == Reads(r[i]);
      PathCanMatchIff(e, r);
    }
  }

  lemma PathCanMatchIff(e: Engine, steps: seq<Step>)
    requires LawfulEngine(e) && steps != [] && WellTagged(steps)
    ensures Misleads(e, Css(CssPath(steps))) <==> Positive(steps)
  {
    SelectableIff(steps);
    PathIsSelectorText(steps);
    assert forall doc :: SelectFirst(e, doc, CssPath(steps)) == Select(doc, steps);
    if Positive(steps) { assert SelectFirst(e, Witness(steps), CssPath(steps)).Some?; }
  }

  /**
   * Where a recorded element is looked for, the first element whose way down ends with the recorded one
   * is the exact match; if there is none, the search decides.
   */
  lemma ExactMatchIsFirstReached(w: World, rows: Rows, rec: Recording, doc: Document, threshold: real)
    requires LawfulEngine(w.css) && IsRecording(rec) && WellTagged(WayDownOf(rec))
    ensures var way, found := WayDownOf(rec), Recorded(w, rows, rec);
            var o := Located(w, found, doc, threshold);
            && (forall a :: ReachedBy(doc, a, way) && NoneBefore(doc, a, way) ==> o == ExactMatch(BuildNodeRef(doc, a)))
            && ((forall a :: !ReachedBy(doc, a, way)) ==> o == Search(w, found.value, doc, threshold))
            && (o.ExactMatch? <==> exists a :: ReachedBy(doc, a, way) && NoneBefore(doc, a, way))
  {
    var way, fp := WayDownOf(rec), Recorded(w, rows, rec).value;
    PlainTagsAreHtml(way);
    FallbackIsIdle(w, rows, rec, doc, threshold);
    SearchNeverExact(w, fp, doc, threshold);
    var r := SelectFirst(w.css, doc, CssPath(way));
    forall a ensures r == Some(a) <==> ReachedBy(doc, a, way) && NoneBefore(doc, a, way)
             ensures r == None ==> !ReachedBy(doc, a, way)
    {
      PathSelectsFirst(w.css, doc, way, a);
    }
    if r.Some? { assert ReachedBy(doc, r.value, way) && NoneBefore(doc, r.value, way); }
  }

  /** An element reached by another's steps, and not that other, prints a longer path. */
  lemma ReachedPathIsLonger(doc: Document, el: Address, a: Address)
    requires IsElement(doc, el) && ReachedBy(doc, a, Steps(doc, el)) && a != el
    ensures |CssPath(Steps(doc, a))| > |CssPath(Steps(doc, el))|
  {
    var whole, tail := Steps(doc, a), Steps(doc, el);
    if |a| == |el| {
      assert whole[0..] == whole;
      StepsDetermineElement(doc, a, el);
    } else {
      LongerPath(whole, |a| - |el|);
    }
  }

  lemma {:induction false} LongerPath(steps: seq<Step>, k: nat)
    requires 0 < k < |steps|
    ensures |CssPath(steps)| > |CssPath(steps[k..])|
  {
    assert CssSegments(steps)[1..] == CssSegments(steps[1..]);
    if k > 1 {
      LongerPath(steps[1..], k - 1);
      assert steps[1..][k - 1..] == steps[k..];
    }
  }

  lemma ReachedIsReportedApart(doc: Document, el: Address, a: Address)
    requires IsElement(doc, el) && ReachedBy(doc, a, Steps(doc, el)) && a != el
    ensures BuildNodeRef(doc, a) != BuildNodeRef(doc, el)
  {
    ReachedPathIsLonger(doc, el, a);
  }

  lemma SelectedIsLocated(w: World, fp: Fingerprint, doc: Document, threshold: real)
    requires SelectFirst(w.css, doc, fp.cssPath).Some?
    ensures var el := SelectFirst(w.css, doc, fp.cssPath).value;
            Located(w, Some(fp), doc, threshold) == ExactMatch(BuildNodeRef(doc, el))
  {}

  /**
   * Recording an element and looking for it in the same document finds that element if and only if no
   * element before it has a way down that ends with its own.
   */
  lemma RecordThenLocate(w: World, rows: Rows, rec: Recording, threshold: real)
    requires LawfulEngine(w.css) && IsRecording(rec) && WellTagged(WayDownOf(rec))
    ensures Located(w, Recorded(w, rows, rec), rec.doc, threshold) == ExactMatch(BuildNodeRef(rec.doc, rec.el))
            <==> NoneBefore(rec.doc, rec.el, WayDownOf(rec))
  {
    var doc, el, way := rec.doc, rec.el, WayDownOf(rec);
    OwnStepsReach(doc, el);
    PathSelectsFirst(w.css, doc, way, el);
    var a := SelectFirst(w.css, doc, CssPath(way)).value;
    PathSelectsFirst(w.css, doc, way, a);
    SelectedIsLocated(w, Recorded(w, rows, rec).value, doc, threshold);
    if a != el { ReachedIsReportedApart(doc, el, a); }
  }

  /** In particular where the root tag occurs only at the root. */
  lemma UniqueRootIsFound(w: World, rows: Rows, rec: Recording, threshold: real)
    requires LawfulEngine(w.css) && IsRecording(rec) && WellTagged(WayDownOf(rec))
    requires RootTagUnique(rec.doc, rec.doc[rec.el[0]].tag)
    ensures Located(w, Recorded(w, rows, rec), rec.doc, threshold) == ExactMatch(BuildNodeRef(rec.doc, rec.el))
  {
    UniqueRootLeavesNoneBefore(rec.doc, rec.el);
    RecordThenLocate(w, rows, rec, threshold);
  }

  /** Elements with html tags are told apart by what is reported of them. */
  lemma NodeRefsAreDistinct(doc: Document, a: Address, b: Address)
    requires IsElement(doc, a) && IsElement(doc, b) && HtmlTags(Steps(doc, a)) && HtmlTags(Steps(doc, b))
    requires BuildNodeRef(doc, a) == BuildNodeRef(doc, b)
    ensures a == b
  {
    CssPathsAreDistinct(doc, a, b);
  }

  /**
   * With tags the notation cannot carry it goes wrong: an element whose tag is, say, `b[2]` or `x_y[2]` and
   * whose parent has two `b` or `x_y` children is recorded, and looking for it in the very same document
   * reports the second of them as an exact match.
   */
  lemma BracketedTagFindsSibling(
    w: World, rows: Rows, rec: Recording, sibling: Address, inner: Step, threshold: real)
    requires LawfulEngine(w.css) && IsRecording(rec) && |rec.el| > 1 && IsElement(rec.doc, sibling)
    requires WellTagged(Steps(rec.doc, sibling)) && NoneBefore(rec.doc, sibling, Steps(rec.doc, sibling))
    requires Steps(rec.doc, sibling) == WayDownOf(rec)[..|rec.el| - 1] + [inner]
    requires WayDownOf(rec)[|rec.el| - 1].tag == XPathSegment(inner)
    ensures Located(w, Recorded(w, rows, rec), rec.doc, threshold) == ExactMatch(BuildNodeRef(rec.doc, sibling))
    ensures rec.el != sibling
  {
    var doc, steps, read := rec.doc, WayDownOf(rec), Steps(rec.doc, sibling);
    var init, last := steps[..|rec.el| - 1], steps[|rec.el| - 1];
    assert steps == init + [Step(XPathSegment(inner), last.index)];
    SegmentLikeTagMisleads(w.css, init, inner, last.index);
    OwnPathSelectsElement(w.css, doc, sibling);
  }

  /** The path that ends in a tag like a segment is no selector; its XPath is read as another's path. */
  lemma SegmentLikeTagMisleads(e: Engine, init: seq<Step>, inner: Step, index: nat)
    requires LawfulEngine(e) && WellTagged(init + [inner]) && index <= USIZE_MAX
    ensures var steps := init + [Step(XPathSegment(inner), index)];
            && XPathToCss(XPath(steps)) == Css(CssPath(init + [inner])) && !e.accepts(CssPath(steps))
            && steps != init + [inner]
  {
    var steps, read := init + [Step(XPathSegment(inner), index)], init + [inner];
    assert read[|init|] == inner && forall i :: 0 <= i < |init| ==> init[i] == read[i];
    PlainTagsAreHtml(read);
    BracketedTagIsMisread(init, inner, index);
    SegmentHasNoSlash(inner);
    SegmentMarks(inner);
    assert XPathSegment(inner)[|inner.tag|] == '[';
    assert !Quotable(steps[|init|].tag) && steps[|init|] != read[|init|];
    assert forall i :: 0 <= i < |init| ==> Quotable(read[i].tag);
    MisreadPathIsRefused(e, steps);
  }

  // ----- the threshold -------------------------------------------------------------------------

  function Kept(cs: seq<(NodeRef, real)>, threshold: real): seq<(NodeRef, real)> {
    if cs == [] then []
    else if cs[0].1 >= threshold then [cs[0]] + Kept(cs[1..], threshold)
    else Kept(cs[1..], threshold)
  }

  /** An earlier answer, looked at with a higher threshold. */
  function Raised(o: LocateOutcome, threshold: real): LocateOutcome {
    match o
    case FuzzyMatch(_, score) => if score >= threshold then o else NotFound
    case Ambiguous(cs) => if Kept(cs, threshold) == [] then NotFound else Ambiguous(Kept(cs, threshold))
    case _ => o
  }

  lemma {:induction false} KeptOfListed(s: seq<Scored>, threshold: real)
    ensures Kept(Listed(s), threshold) == Listed(AtLeast(s, threshold))
  {
    if s != [] {
      KeptOfListed(s[1..], threshold);
      assert Listed(s)[0] == (s[0].node, s[0].score) && Listed(s)[1..] == Listed(s[1..]);
      var more := AtLeast(s[1..], threshold);
      assert Listed([s[0]] + more) == [(s[0].node, s[0].score)] + Listed(more);
    }
  }

  lemma {:induction false} AtLeastTwice(s: seq<Scored>, low: real, high: real)
    requires low <= high
    ensures AtLeast(AtLeast(s, low), high) == AtLeast(s, high)
  {
    if s != [] {
      AtLeastTwice(s[1..], low, high);
      var below := AtLeast(s[1..], low);
      assert ([s[0]] + below)[1..] == below;
    }
  }

  lemma DecideIsMonotone(s: seq<Scored>, agrees: bool, low: real, high: real)
    requires low <= high && Descending(s)
    ensures Decide(s, agrees, high) == Raised(Decide(s, agrees, low), high)
  {
    AtLeastTwice(s, low, high);
    KeptOfListed(AtLeast(s, low), high);
    AtLeastIsPrefix(s, high);
    if s != [] {
      var t := AtLeast(s, high);
      assert s[0] in s;
      assert t == [] || t[0] in t;
      assert Listed(t) == [] <==> t == [];
    }
  }

  /**
   * Raising the threshold filters the answer and does nothing else: an exact match stays, the best node
   * and the kind of a fuzzy answer stay, and candidates only drop out of the list.
   */
  lemma ThresholdIsMonotone(w: World, stored: Option<Fingerprint>, doc: Document, low: real, high: real)
    requires low <= high
    ensures Located(w, stored, doc, high) == Raised(Located(w, stored, doc, low), high)
  {
    if stored.Some? {
      FallbackIsMonotone(w, stored.value, doc, low, high);
    }
  }

  lemma FallbackIsMonotone(w: World, fp: Fingerprint, doc: Document, low: real, high: real)
    requires low <= high
    ensures ViaXPath(w, fp, doc, high) == Raised(ViaXPath(w, fp, doc, low), high)
  {
    SearchIsMonotone(w, fp, doc, low, high);
  }

  lemma SearchIsMonotone(w: World, fp: Fingerprint, doc: Document, low: real, high: real)
    requires low <= high
    ensures Search(w, fp, doc, high) == Raised(Search(w, fp, doc, low), high)
  {
    var s := Ranked(w, fp, doc);
    DecideIsMonotone(s, s != [] && HashAgrees(w.lib, fp, doc, s[0].at), low, high);
  }
}
