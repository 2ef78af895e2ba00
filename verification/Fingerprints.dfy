/**
 * Describing an element so that it can be found again, and scoring how alike a stored description
 * and a live element are.
 */
module Fingerprints {
  import opened Prelude
  import opened Text
  import opened Dom
  import opened DomPaths

  type Attrs = seq<(string, string)>

  const TWO_64 := 0x1_0000_0000_0000_0000
  const TWO_63 := 0x8000_0000_0000_0000

  type U64 = n: int | 0 <= n < TWO_64

  /** Nanoseconds since the Unix epoch; a system clock counts its seconds in an i64. */
  type SystemTime = t: int | -TWO_63 * NANOS_PER_SEC <= t < TWO_63 * NANOS_PER_SEC

  /** The library functions the module relies on, known only by the laws below. */
  datatype Lib = Lib(
    jaroWinkler: (string, string) -> real,
    xxh3: string -> U64,
    attrsToJson: Attrs -> string,
    attrsFromJson: string -> Attrs)

  ghost predicate Lawful(lib: Lib) {
    && (forall s, t :: 0.0 <= lib.jaroWinkler(s, t) <= 1.0)
    && (forall s :: lib.jaroWinkler(s, s) == 1.0)
    && (forall a :: lib.attrsFromJson(lib.attrsToJson(a)) == a)
  }

  datatype Fingerprint = Fingerprint(
    stableId: string, urlFld: string, cssPath: string, xpath: string, textNorm: string, tagName: string,
    attrsJson: string, attrsHash: U64, neighborHash: U64, lastSeen: SystemTime)

  datatype NodeRef = NodeRef(cssPath: string, text: string, attrs: Attrs)

  // ----- text ----------------------------------------------------------------------------

  /** Length of the longest prefix without white space. */
  function WordEnd(s: string): (n: nat)
    ensures n <= |s| && (forall k :: 0 <= k < n ==> !IsSpace(s[k])) && (n < |s| ==> IsSpace(s[n]))
  {
    if s == "" || IsSpace(s[0]) then 0 else 1 + WordEnd(s[1..])
  }

  /** `s.split_whitespace()` */
  function Words(s: string): seq<string>
    decreases |s|
  {
    if s == "" then []
    else if IsSpace(s[0]) then Words(s[1..])
    else [s[..WordEnd(s)]] + Words(s[WordEnd(s)..])
  }

  function NormalizeText(s: string): string {
    Join(Words(s), " ")
  }

  predicate IsWord(w: string) {
    w != "" && forall k :: 0 <= k < |w| ==> !IsSpace(w[k])
  }

  lemma {:induction false} WordsAreWords(s: string)
    ensures forall w :: w in Words(s) ==> IsWord(w)
    decreases |s|
  {
    if s != "" {
      if IsSpace(s[0]) { WordsAreWords(s[1..]); } else { WordsAreWords(s[WordEnd(s)..]); }
    }
  }

  lemma {:induction false} WordsOfJoin(ws: seq<string>)
    requires forall w :: w in ws ==> IsWord(w)
    ensures Words(Join(ws, " ")) == ws
  {
    if |ws| >= 1 {
      var w := ws[0];
      assert w in ws;
      var s := Join(ws, " ");
      assert forall k :: 0 <= k < |w| ==> s[k] == w[k];
      if |ws| == 1 {
        assert WordEnd(s) == |s| && s[..|s|] == w && s[|s|..] == "";
      } else {
        assert s[|w|] == ' ' && IsSpace(' ');
        assert WordEnd(s) == |w| && s[..|w|] == w;
        var rest := s[|w|..];
        assert rest[1..] == Join(ws[1..], " ");
        WordsOfJoin(ws[1..]);
      }
    }
  }

  /** Normalised text is already normal. */
  lemma NormalizeIdempotent(s: string)
    ensures NormalizeText(NormalizeText(s)) == NormalizeText(s)
  {
    WordsAreWords(s);
    WordsOfJoin(Words(s));
  }

  /** The characters that are not white space. */
  function Letters(s: string): string {
    if s == "" then "" else (if IsSpace(s[0]) then "" else [s[0]]) + Letters(s[1..])
  }

  lemma {:induction false} LettersConcat(a: string, b: string)
    ensures Letters(a + b) == Letters(a) + Letters(b)
  {
    if a == "" {
      assert a + b == b;
    } else {
      assert (a + b)[1..] == a[1..] + b;
      LettersConcat(a[1..], b);
    }
  }

  lemma {:induction false} LettersOfWords(s: string)
    ensures Letters(Join(Words(s), " ")) == Letters(s)
    decreases |s|
  {
    if s != "" {
      if IsSpace(s[0]) {
        LettersOfWords(s[1..]);
      } else {
        var n := WordEnd(s);
        var word, rest := s[..n], s[n..];
        LettersOfWords(rest);
        assert s == word + rest;
        LettersConcat(word, rest);
        var more := Words(rest);
        assert ([word] + more)[1..] == more;
        if more != [] {
          assert Join([word] + more, " ") == word + (" " + Join(more, " "));
          LettersConcat(word, " " + Join(more, " "));
          LettersConcat(" ", Join(more, " "));
          assert Letters(" ") == "";
        } else {
          assert Letters(word) + "" == Letters(word);
        }
      }
    }
  }

  /** Normalising keeps every word and every character that is not white space, in order. */
  lemma NormalizeKeepsContent(s: string)
    ensures Words(NormalizeText(s)) == Words(s) && Letters(NormalizeText(s)) == Letters(s)
  {
    WordsAreWords(s);
    WordsOfJoin(Words(s));
    LettersOfWords(s);
  }

  /** All the text below a node, in document order. */
  function TextOf(nodes: seq<Node>): string
    decreases nodes
  {
    if nodes == [] then ""
    else
      (match nodes[0]
       case TextNode(t) => t
       case Element(_, _, children) => TextOf(children)
       case OtherNode => "") + TextOf(nodes[1..])
  }

  /** The text of a list of nodes is the text of each of them, in order. */
  lemma {:induction false} TextConcat(a: seq<Node>, b: seq<Node>)
    ensures TextOf(a + b) == TextOf(a) + TextOf(b)
  {
    if a == [] {
      assert a + b == b;
    } else {
      assert a == [a[0]] + a[1..] && a + b == [a[0]] + (a[1..] + b);
      TextCons(a[0], a[1..]);
      TextCons(a[0], a[1..] + b);
      TextConcat(a[1..], b);
      TextAssociates(TextOf([a[0]]), TextOf(a[1..]), TextOf(b));
    }
  }

  lemma TextCons(n: Node, rest: seq<Node>)
    ensures TextOf([n] + rest) == TextOf([n]) + TextOf(rest)
  {
    TextOfOne(n);
    assert ([n] + rest)[1..] == rest;
  }

  lemma TextAssociates(x: string, y: string, z: string)
    ensures (x + y) + z == x + (y + z)
  {}

  lemma TextOfOne(n: Node)
    ensures TextOf([n]) ==
            match n
            case TextNode(t) => t
            case Element(_, _, children) => TextOf(children)
            case OtherNode => ""
  {}

  // ----- attributes, independent of their order --------------------------------------------

  predicate Sorted(s: seq<string>) {
    forall i, j :: 0 <= i < j < |s| ==> LexLeq(s[i], s[j])
  }

  function Insert(x: string, s: seq<string>): seq<string> {
    if s == [] || LexLeq(x, s[0]) then [x] + s else [s[0]] + Insert(x, s[1..])
  }

  function Sort(s: seq<string>): seq<string> {
    if s == [] then [] else Insert(s[0], Sort(s[1..]))
  }

  lemma {:induction false} InsertKeeps(x: string, s: seq<string>)
    requires Sorted(s)
    ensures Sorted(Insert(x, s)) && multiset(Insert(x, s)) == multiset{x} + multiset(s)
  {
    if s == [] {
    } else if LexLeq(x, s[0]) {
      forall j | 0 <= j < |s| ensures LexLeq(x, s[j]) {
        if j > 0 { LexTransitive(x, s[0], s[j]); }
      }
    } else {
      InsertKeeps(x, s[1..]);
      LexTotal(x, s[0]);
      var r := Insert(x, s[1..]);
      assert s == [s[0]] + s[1..];
      forall j | 0 <= j < |r| ensures LexLeq(s[0], r[j]) {
        assert r[j] in multiset(r);
        if r[j] != x { assert r[j] in s[1..]; }
      }
    }
  }

  lemma {:induction false} SortSorts(s: seq<string>)
    ensures Sorted(Sort(s)) && multiset(Sort(s)) == multiset(s)
  {
    if s != [] {
      SortSorts(s[1..]);
      InsertKeeps(s[0], Sort(s[1..]));
      assert s == [s[0]] + s[1..];
    }
  }

  lemma SortedHeadsAgree(a: seq<string>, b: seq<string>)
    requires Sorted(a) && Sorted(b) && multiset(a) == multiset(b) && a != [] && b != []
    ensures a[0] == b[0]
  {
    assert a[0] in multiset(b) && b[0] in multiset(a);
    var i :| 0 <= i < |b| && b[i] == a[0];
    var j :| 0 <= j < |a| && a[j] == b[0];
    if i > 0 && j > 0 { LexAntisymmetric(a[0], b[0]); }
  }

  lemma TailLosesHead(a: seq<string>)
    requires a != []
    ensures multiset(a[1..]) == multiset(a) - multiset{a[0]}
  {
    assert a == [a[0]] + a[1..];
  }

  /** A sorted sequence is determined by its elements. */
  lemma {:induction false} SortedIsUnique(a: seq<string>, b: seq<string>)
    requires Sorted(a) && Sorted(b) && multiset(a) == multiset(b)
    ensures a == b
  {
    assert |multiset(a)| == |a| && |multiset(b)| == |b|;
    if a != [] {
      SortedHeadsAgree(a, b);
      TailLosesHead(a);
      TailLosesHead(b);
      SortedIsUnique(a[1..], b[1..]);
      assert a == [a[0]] + a[1..] && b == [b[0]] + b[1..];
    }
  }

  function Pairs(attrs: Attrs): seq<string> {
    seq(|attrs|, i requires 0 <= i < |attrs| => attrs[i].0 + "=" + attrs[i].1)
  }

  function SortedAttrsString(attrs: Attrs): string {
    Join(Sort(Pairs(attrs)), "|")
  }

  function HashAttrs(lib: Lib, attrs: Attrs): U64 {
    lib.xxh3(SortedAttrsString(attrs))
  }

  lemma RemovedAt<T>(s: seq<T>, i: nat)
    requires i < |s|
    ensures multiset(s[..i] + s[i + 1..]) == multiset(s) - multiset{s[i]}
  {
    assert s == s[..i] + [s[i]] + s[i + 1..];
  }

  function Without(attrs: Attrs, i: nat): Attrs
    requires i < |attrs|
  {
    attrs[..i] + attrs[i + 1..]
  }

  lemma PairsWithout(attrs: Attrs, i: nat)
    requires i < |attrs|
    ensures multiset(Pairs(attrs)) == multiset{Pairs(attrs)[i]} + multiset(Pairs(Without(attrs, i)))
  {
    var ps := Pairs(attrs);
    assert Pairs(Without(attrs, i)) == ps[..i] + ps[i + 1..];
    assert ps == ps[..i] + [ps[i]] + ps[i + 1..];
  }

  lemma {:induction false} PairsOfPermutation(a: Attrs, b: Attrs)
    requires multiset(a) == multiset(b)
    ensures multiset(Pairs(a)) == multiset(Pairs(b))
  {
    if a == [] {
      assert |multiset(b)| == 0;
    } else {
      assert a[0] in multiset(b);
      var i :| 0 <= i < |b| && b[i] == a[0];
      RemovedAt(a, 0);
      RemovedAt(b, i);
      PairsOfPermutation(Without(a, 0), Without(b, i));
      PairsWithout(a, 0);
      PairsWithout(b, i);
    }
  }

  /** The attribute string, and with it the hash, does not depend on the order of the attributes. */
  lemma AttrsOrderIrrelevant(lib: Lib, a: Attrs, b: Attrs)
    requires multiset(a) == multiset(b)
    ensures SortedAttrsString(a) == SortedAttrsString(b) && HashAttrs(lib, a) == HashAttrs(lib, b)
  {
    PairsOfPermutation(a, b);
    SortSorts(Pairs(a));
    SortSorts(Pairs(b));
    SortedIsUnique(Sort(Pairs(a)), Sort(Pairs(b)));
  }

  // ----- building -------------------------------------------------------------------------

  function ElementTags(nodes: seq<Node>): seq<string> {
    if nodes == [] then []
    else (if nodes[0].Element? then [nodes[0].tag] else []) + ElementTags(nodes[1..])
  }

  function ParentTag(doc: Document, a: Address): string
    requires IsElement(doc, a)
  {
    if |a| == 1 then "" else ParentIsElement(doc, a); ElementAt(doc, Parent(a)).tag
  }

  function HashNeighbors(lib: Lib, doc: Document, a: Address): U64
    requires IsElement(doc, a)
  {
    lib.xxh3(ParentTag(doc, a) + ">" + Join(ElementTags(SiblingsOf(doc, a)), ","))
  }

  function ElementText(doc: Document, a: Address): string
    requires IsElement(doc, a)
  {
    NormalizeText(TextOf(ElementAt(doc, a).children))
  }

  function BuildFingerprint(
    lib: Lib, doc: Document, a: Address, stableId: string, urlFld: string, now: SystemTime): Fingerprint
    requires IsElement(doc, a)
  {
    var e := ElementAt(doc, a);
    Fingerprint(stableId, urlFld, CssPath(Steps(doc, a)), XPath(Steps(doc, a)), ElementText(doc, a), e.tag,
                lib.attrsToJson(e.attrs), HashAttrs(lib, e.attrs), HashNeighbors(lib, doc, a), now)
  }

  function BuildNodeRef(doc: Document, a: Address): NodeRef
    requires IsElement(doc, a)
  {
    NodeRef(CssPath(Steps(doc, a)), ElementText(doc, a), ElementAt(doc, a).attrs)
  }

  // ----- scoring ---------------------------------------------------------------------------

  function BeforeColon(s: string): string {
    s[..IndexOf(s, ':')]
  }

  /** The tag read back from the end of a printed path. */
  function LiveTag(cssPath: string): string {
    BeforeColon(AfterLast(cssPath, " > "))
  }

  function TagSequence(cssPath: string): string {
    var segs := Split(cssPath, " > ");
    Join(seq(|segs|, i requires 0 <= i < |segs| => BeforeColon(segs[i])), ">")
  }

  function AttrsScore(lib: Lib, stored: string, live: string): real {
    if stored == "" && live == "" then 1.0
    else if stored == "" || live == "" then 0.0
    else lib.jaroWinkler(stored, live)
  }

  function Similarity(lib: Lib, fp: Fingerprint, node: NodeRef): real {
    var tagScore := if LiveTag(node.cssPath) == fp.tagName then 1.0 else 0.0;
    0.15 * tagScore
    + 0.30 * lib.jaroWinkler(fp.textNorm, node.text)
    + 0.25 * AttrsScore(lib, SortedAttrsString(lib.attrsFromJson(fp.attrsJson)), SortedAttrsString(node.attrs))
    + 0.15 * lib.jaroWinkler(fp.cssPath, node.cssPath)
    + 0.15 * lib.jaroWinkler(TagSequence(fp.cssPath), TagSequence(node.cssPath))
  }

  lemma AttrTextIsEmpty(attrs: Attrs)
    ensures SortedAttrsString(attrs) == "" <==> attrs == []
  {
    SortSorts(Pairs(attrs));
    var s := Sort(Pairs(attrs));
    assert |multiset(s)| == |s| && |multiset(Pairs(attrs))| == |Pairs(attrs)|;
    if attrs != [] {
      assert s[0] in multiset(Pairs(attrs));
      var i :| 0 <= i < |attrs| && Pairs(attrs)[i] == s[0];
    }
  }

  /** Two elements without attributes are alike, one with and one without are not at all. */
  lemma AttrsScoreExactly(lib: Lib, stored: Attrs, live: Attrs)
    ensures var score := AttrsScore(lib, SortedAttrsString(stored), SortedAttrsString(live));
            if stored == [] && live == [] then score == 1.0
            else if stored == [] || live == [] then score == 0.0
            else score == lib.jaroWinkler(SortedAttrsString(stored), SortedAttrsString(live))
  {
    AttrTextIsEmpty(stored);
    AttrTextIsEmpty(live);
  }

  /** Scores lie in [0, 1]; 1 needs every part to agree fully. */
  lemma SimilarityInUnit(lib: Lib, fp: Fingerprint, node: NodeRef)
    requires Lawful(lib)
    ensures 0.0 <= Similarity(lib, fp, node) <= 1.0
    ensures LiveTag(node.cssPath) != fp.tagName ==> Similarity(lib, fp, node) <= 0.85
  {}

  /**
   * An element that kept its position keeps 0.45 of its score; of the rest, a changed text takes at most
   * 0.30 and changed attributes at most 0.25, in proportion to how unlike they are.
   */
  lemma SamePositionScore(lib: Lib, fp: Fingerprint, node: NodeRef)
    requires Lawful(lib) && node.cssPath == fp.cssPath && LiveTag(node.cssPath) == fp.tagName
    ensures var attrs := AttrsScore(lib, SortedAttrsString(lib.attrsFromJson(fp.attrsJson)),
            SortedAttrsString(node.attrs));
            1.0 - Similarity(lib, fp, node) ==
              0.30 * (1.0 - lib.jaroWinkler(fp.textNorm, node.text)) + 0.25 * (1.0 - attrs)
    ensures Similarity(lib, fp, node) >= 0.45
  {
    assert lib.jaroWinkler(fp.cssPath, node.cssPath) == 1.0;
    assert lib.jaroWinkler(TagSequence(fp.cssPath), TagSequence(node.cssPath)) == 1.0;
    assert 0.0 <= lib.jaroWinkler(fp.textNorm, node.text);
    assert 0.0 <= lib.jaroWinkler(SortedAttrsString(lib.attrsFromJson(fp.attrsJson)), SortedAttrsString(node.attrs));
  }

  /** An element that was moved but kept its tag, its text and its attributes in any order scores 0.7 or more. */
  lemma SameContentScore(lib: Lib, fp: Fingerprint, node: NodeRef)
    requires Lawful(lib) && LiveTag(node.cssPath) == fp.tagName && node.text == fp.textNorm
    requires multiset(node.attrs) == multiset(lib.attrsFromJson(fp.attrsJson))
    ensures 1.0 - Similarity(lib, fp, node) ==
            0.15 * (1.0 - lib.jaroWinkler(fp.cssPath, node.cssPath))
            + 0.15 * (1.0 - lib.jaroWinkler(TagSequence(fp.cssPath), TagSequence(node.cssPath)))
    ensures Similarity(lib, fp, node) >= 0.7
  {
    AttrsOrderIrrelevant(lib, node.attrs, lib.attrsFromJson(fp.attrsJson));
    assert lib.jaroWinkler(fp.textNorm, node.text) == 1.0;
    var s := SortedAttrsString(node.attrs);
    assert lib.jaroWinkler(s, s) == 1.0;
    assert 0.0 <= lib.jaroWinkler(fp.cssPath, node.cssPath);
    assert 0.0 <= lib.jaroWinkler(TagSequence(fp.cssPath), TagSequence(node.cssPath));
  }

  /** The tag sequence of a printed path is the tags on the way down, for tags without separators. */
  lemma TagSequenceIsTags(steps: seq<Step>)
    requires steps != []
    requires forall i :: 0 <= i < |steps| ==> HtmlTag(steps[i].tag) && !Contains(steps[i].tag, ':')
    ensures TagSequence(CssPath(steps)) == Join(seq(|steps|, i requires 0 <= i < |steps| => steps[i].tag), ">")
  {
    var segs := CssSegments(steps);
    forall p | p in segs ensures !Contains(p, ' ') {
      var i :| 0 <= i < |segs| && segs[i] == p;
      assert HtmlTag(steps[i].tag);
      CssSegmentContains(steps[i], ' ');
    }
    SplitJoin(segs, " > ");
    var tags := seq(|steps|, i requires 0 <= i < |steps| => steps[i].tag);
    var read := seq(|segs|, i requires 0 <= i < |segs| => BeforeColon(segs[i]));
    forall i | 0 <= i < |steps| ensures read[i] == tags[i] {
      assert HtmlTag(steps[i].tag);
      TagIsBeforeColon(steps[i]);
    }
    assert read == tags;
  }

  lemma TagIsBeforeColon(s: Step)
    requires !Contains(s.tag, ':')
    ensures BeforeColon(CssSegment(s)) == s.tag
  {
    var seg := CssSegment(s);
    assert forall k :: 0 <= k < |s.tag| ==> seg[k] == s.tag[k];
    assert seg[|s.tag|] == ':';
    IndexOfIs(seg, ':', |s.tag|);
    assert seg[..|s.tag|] == s.tag;
  }

  lemma {:induction false} JoinEndsWith(parts: seq<string>, sep: string)
    requires |parts| > 1
    ensures Join(parts, sep) == Join(parts[..|parts| - 1], sep) + sep + parts[|parts| - 1]
  {
    if |parts| == 2 {
      assert parts[1..] == [parts[1]] && parts[..1] == [parts[0]];
    } else {
      JoinEndsWith(parts[1..], sep);
      assert parts[1..][..|parts| - 2] == parts[..|parts| - 1][1..];
    }
  }

  lemma LastSegmentIsRead(steps: seq<Step>)
    requires steps != [] && HtmlTag(steps[|steps| - 1].tag)
    ensures AfterLast(CssPath(steps), " > ") == CssSegment(steps[|steps| - 1])
  {
    var segs := CssSegments(steps);
    var last := steps[|steps| - 1];
    forall c | c == ' ' || c == '>' ensures c !in CssSegment(last) {
      CssSegmentContains(last, c);
    }
    assert forall c :: c in " > " ==> c == ' ' || c == '>';
    if |steps| == 1 {
      AfterLastNone(CssSegment(last), " > ");
    } else {
      JoinEndsWith(segs, " > ");
      AfterLastSeparator(Join(segs[..|segs| - 1], " > "), " > ", CssSegment(last));
    }
  }

  /** The tag is read back from the printed path exactly when it has no colon. */
  lemma LiveTagIsTag(steps: seq<Step>)
    requires steps != [] && HtmlTag(steps[|steps| - 1].tag)
    ensures LiveTag(CssPath(steps)) == steps[|steps| - 1].tag <==> !Contains(steps[|steps| - 1].tag, ':')
  {
    LastSegmentIsRead(steps);
    var tag := steps[|steps| - 1].tag;
    var seg := CssSegment(steps[|steps| - 1]);
    assert forall k :: 0 <= k < |tag| ==> seg[k] == tag[k];
    assert seg[|tag|] == ':';
    if Contains(tag, ':') {
      var k :| 0 <= k < |tag| && tag[k] == ':';
      assert seg[k] == ':' && IndexOf(seg, ':') <= k;
    } else {
      IndexOfIs(seg, ':', |tag|);
      assert seg[..|tag|] == tag;
    }
  }

  /**
   * An element scores 1 against its own fingerprint if and only if its tag has no colon; a tag such as
   * `svg:rect` is cut at the colon when the path is read back, and the element scores 0.85.
   */
  lemma SelfSimilarity(lib: Lib, doc: Document, a: Address, stableId: string, urlFld: string, now: SystemTime)
    requires Lawful(lib) && IsElement(doc, a) && HtmlTag(ElementAt(doc, a).tag)
    ensures var s := Similarity(lib, BuildFingerprint(lib, doc, a, stableId, urlFld, now), BuildNodeRef(doc, a));
            s == if Contains(ElementAt(doc, a).tag, ':') then 0.85 else 1.0
  {
    var fp, node := BuildFingerprint(lib, doc, a, stableId, urlFld, now), BuildNodeRef(doc, a);
    StepsEndAtElement(doc, a);
    LiveTagIsTag(Steps(doc, a));
    assert lib.attrsFromJson(fp.attrsJson) == node.attrs;
    assert lib.jaroWinkler(fp.textNorm, node.text) == 1.0;
    assert lib.jaroWinkler(fp.cssPath, node.cssPath) == 1.0;
    assert lib.jaroWinkler(TagSequence(fp.cssPath), TagSequence(node.cssPath)) == 1.0;
  }
}
