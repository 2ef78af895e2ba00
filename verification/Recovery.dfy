/**
 * When a search that found candidates is sure of the best one: what the two stored hashes come to, on the
 * recorded and the live element themselves.
 */
module Recovery {
  import opened Text
  import opened Dom
  import opened Selectors
  import opened Fingerprints
  import opened FingerprintStore
  import opened Relocate

  // ----- the text of the attributes -------------------------------------------------------------

  predicate PairsAre(ps: seq<string>, attrs: Attrs) {
    |ps| == |attrs| && forall i :: 0 <= i < |attrs| ==> ps[i] == attrs[i].0 + "=" + attrs[i].1
  }

  /** The text that is hashed: the "k=v" texts of the attributes in sorted order, with bars between them. */
  ghost predicate IsAttrText(attrs: Attrs, text: string) {
    exists ps, sorted ::
      PairsAre(ps, attrs) && Sorted(sorted) && multiset(sorted) == multiset(ps) && text == Join(sorted, "|")
  }

  lemma AttrTextExactly(attrs: Attrs, text: string)
    ensures SortedAttrsString(attrs) == text <==> IsAttrText(attrs, text)
  {
    var ps := Pairs(attrs);
    SortSorts(ps);
    assert PairsAre(ps, attrs);
    if IsAttrText(attrs, text) {
      var qs, sorted :|
        PairsAre(qs, attrs) && Sorted(sorted) && multiset(sorted) == multiset(qs) && text == Join(sorted, "|");
      assert qs == ps;
      SortedIsUnique(sorted, Sort(ps));
    }
  }

  /** Names without '=' and no bars: what attributes can be read back from. */
  predicate Barless(attrs: Attrs) {
    forall i :: 0 <= i < |attrs| ==>
      !Contains(attrs[i].0, '=') && !Contains(attrs[i].0, '|') && !Contains(attrs[i].1, '|')
  }

  lemma PairIsInjective(k: string, v: string, k': string, v': string)
    requires !Contains(k, '=') && !Contains(k', '=')
    requires k + "=" + v == k' + "=" + v'
    ensures k == k' && v == v'
  {
    var s := k + "=" + v;
    assert s[|k|] == '=' && s[|k'|] == '=';
    assert forall i :: 0 <= i < |k| ==> s[i] == k[i];
    assert forall i :: 0 <= i < |k'| ==> s[i] == k'[i];
    assert |k| == |k'|;
    assert s[..|k|] == k && s[..|k'|] == k' && s[|k| + 1..] == v && s[|k'| + 1..] == v';
  }

  lemma RegainsAt(attrs: Attrs, i: nat)
    requires i < |attrs|
    ensures multiset(attrs) == multiset(Without(attrs, i)) + multiset{attrs[i]}
  {
    assert attrs == attrs[..i] + [attrs[i]] + attrs[i + 1..];
  }

  lemma PairsLose(attrs: Attrs, i: nat)
    requires Barless(attrs) && i < |attrs|
    ensures Barless(Without(attrs, i))
    ensures multiset(Pairs(Without(attrs, i))) == multiset(Pairs(attrs)) - multiset{Pairs(attrs)[i]}
  {
    PairsWithout(attrs, i);
    forall j | 0 <= j < |attrs| - 1 ensures Without(attrs, i)[j] == if j < i then attrs[j] else attrs[j + 1] {}
  }

  lemma {:induction false} PairsDetermine(a: Attrs, b: Attrs)
    requires Barless(a) && Barless(b) && multiset(Pairs(a)) == multiset(Pairs(b))
    ensures multiset(a) == multiset(b)
  {
    assert |Pairs(a)| == |multiset(Pairs(a))| && |Pairs(b)| == |multiset(Pairs(b))|;
    if a != [] {
      assert Pairs(a)[0] in multiset(Pairs(b));
      var i :| 0 <= i < |b| && Pairs(b)[i] == Pairs(a)[0];
      PairIsInjective(a[0].0, a[0].1, b[i].0, b[i].1);
      PairsLose(a, 0);
      PairsLose(b, i);
      PairsDetermine(Without(a, 0), Without(b, i));
      assert a[0] == b[i];
      RegainsAt(a, 0);
      RegainsAt(b, i);
    }
  }

  lemma PairHasNoBar(attrs: Attrs)
    requires Barless(attrs)
    ensures forall p :: p in Sort(Pairs(attrs)) ==> !Contains(p, '|') && p != ""
  {
    SortSorts(Pairs(attrs));
    forall p | p in Sort(Pairs(attrs)) ensures !Contains(p, '|') && p != "" {
      assert p in multiset(Pairs(attrs));
      var i :| 0 <= i < |attrs| && Pairs(attrs)[i] == p;
      ConcatContains(attrs[i].0 + "=", attrs[i].1, '|');
      ConcatContains(attrs[i].0, "=", '|');
    }
  }

  lemma JoinedIsEmpty(parts: seq<string>, sep: string)
    requires forall p :: p in parts ==> p != ""
    ensures Join(parts, sep) == "" <==> parts == []
  {
    if parts != [] { assert parts[0] in parts; }
  }

  lemma SameAttrsSameText(a: Attrs, b: Attrs)
    requires multiset(a) == multiset(b)
    ensures SortedAttrsString(a) == SortedAttrsString(b)
  {
    PairsOfPermutation(a, b);
    SortSorts(Pairs(a));
    SortSorts(Pairs(b));
    SortedIsUnique(Sort(Pairs(a)), Sort(Pairs(b)));
  }

  /** Without bars the text determines the attributes up to their order. */
  lemma TextDeterminesAttrs(a: Attrs, b: Attrs)
    requires Barless(a) && Barless(b)
    ensures SortedAttrsString(a) == SortedAttrsString(b) <==> multiset(a) == multiset(b)
  {
    if SortedAttrsString(a) == SortedAttrsString(b) {
      var p, q := Sort(Pairs(a)), Sort(Pairs(b));
      PairHasNoBar(a);
      PairHasNoBar(b);
      JoinedIsEmpty(p, "|");
      JoinedIsEmpty(q, "|");
      if p != [] {
        SplitJoin(p, "|");
        SplitJoin(q, "|");
      }
      SortSorts(Pairs(a));
      SortSorts(Pairs(b));
      PairsDetermine(a, b);
    }
    if multiset(a) == multiset(b) { SameAttrsSameText(a, b); }
  }

  lemma SortedPairsAreText(attrs: Attrs, ps: seq<string>)
    requires PairsAre(ps, attrs) && Sorted(ps)
    ensures IsAttrText(attrs, Join(ps, "|"))
  {}

  /** With a bar in a value it does not. */
  lemma BarHidesAChange()
    ensures var a, b := [("a", "1|b=2")], [("a", "1"), ("b", "2")];
            a[0] !in b && IsAttrText(a, "a=1|b=2") && IsAttrText(b, "a=1|b=2")
  {
    var a, b := [("a", "1|b=2")], [("a", "1"), ("b", "2")];
    assert a[0].1[1] == '|' && |b[0].1| == 1 && |b[1].1| == 1;
    SortedPairsAreText(a, ["a=1|b=2"]);
    assert "a=1"[0] != "b=2"[0] && LexLeq("a=1", "b=2");
    SortedPairsAreText(b, ["a=1", "b=2"]);
    assert ["a=1", "b=2"][1..] == ["b=2"] && "a=1" + "|" + "b=2" == "a=1|b=2";
  }

  // ----- the text of the neighbors ----------------------------------------------------------------

  /** The tags of the elements in a list of nodes, in order. */
  function TagsIn(nodes: seq<Node>): seq<string> {
    if nodes == [] then []
    else
      var last := nodes[|nodes| - 1];
      TagsIn(nodes[..|nodes| - 1]) + if last.Element? then [last.tag] else []
  }

  lemma ConcatAssociates(x: seq<string>, y: seq<string>, z: seq<string>)
    ensures (x + y) + z == x + (y + z)
  {}

  lemma {:induction false} ElementTagsConcat(a: seq<Node>, b: seq<Node>)
    ensures ElementTags(a + b) == ElementTags(a) + ElementTags(b)
  {
    if a == [] {
      assert a + b == b;
    } else {
      var own := if a[0].Element? then [a[0].tag] else [];
      assert (a + b)[0] == a[0] && (a + b)[1..] == a[1..] + b;
      ElementTagsConcat(a[1..], b);
      ConcatAssociates(own, ElementTags(a[1..]), ElementTags(b));
    }
  }

  lemma {:induction false} TagsAreRead(nodes: seq<Node>)
    ensures ElementTags(nodes) == TagsIn(nodes)
  {
    if nodes != [] {
      var init, last := nodes[..|nodes| - 1], nodes[|nodes| - 1];
      assert nodes == init + [last];
      ElementTagsConcat(init, [last]);
      TagsAreRead(init);
    }
  }

  /** The parent's tag, empty at the top. */
  function TagAbove(doc: Document, a: Address): string
    requires IsElement(doc, a)
  {
    if |a| > 1 then ParentIsElement(doc, a); ElementAt(doc, a[..|a| - 1]).tag else ""
  }

  /** The nodes next to an element, itself among them. */
  function Around(doc: Document, a: Address): seq<Node>
    requires IsElement(doc, a)
  {
    if |a| > 1 then ParentIsElement(doc, a); ElementAt(doc, a[..|a| - 1]).children else doc
  }

  /** The parent's tag, then '>', then the tags of all its child elements with commas between. */
  function NeighborText(doc: Document, a: Address): string
    requires IsElement(doc, a)
  {
    TagAbove(doc, a) + ">" + Join(TagsIn(Around(doc, a)), ",")
  }

  lemma HashOfNeighbors(lib: Lib, doc: Document, a: Address)
    requires IsElement(doc, a)
    ensures HashNeighbors(lib, doc, a) == lib.xxh3(NeighborText(doc, a))
  {
    TagsAreRead(SiblingsOf(doc, a));
    if |a| > 1 { ParentIsElement(doc, a); }
  }

  predicate SameNeighbors(doc: Document, a: Address, doc': Document, b: Address)
    requires IsElement(doc, a) && IsElement(doc', b)
  {
    TagAbove(doc, a) == TagAbove(doc', b) && TagsIn(Around(doc, a)) == TagsIn(Around(doc', b))
  }

  lemma SameNeighborsSameText(doc: Document, a: Address, doc': Document, b: Address)
    requires IsElement(doc, a) && IsElement(doc', b) && SameNeighbors(doc, a, doc', b)
    ensures NeighborText(doc, a) == NeighborText(doc', b)
  {}

  /** No tag has a comma, and the parent's no '>': what the neighbors can be read back from. */
  predicate Commaless(doc: Document, a: Address)
    requires IsElement(doc, a)
  {
    !Contains(TagAbove(doc, a), '>') && forall t :: t in TagsIn(Around(doc, a)) ==> !Contains(t, ',')
  }

  lemma {:induction false} TagsHaveOwn(nodes: seq<Node>, i: nat)
    requires i < |nodes| && nodes[i].Element?
    ensures TagsIn(nodes) != []
  {
    if i < |nodes| - 1 { TagsHaveOwn(nodes[..|nodes| - 1], i); }
  }

  lemma HeadIsInjective(p: string, x: string, q: string, y: string)
    requires !Contains(p, '>') && !Contains(q, '>') && p + ">" + x == q + ">" + y
    ensures p == q && x == y
  {
    var s := p + ">" + x;
    assert s[|p|] == '>' && s[|q|] == '>';
    assert forall i :: 0 <= i < |p| ==> s[i] == p[i];
    assert forall i :: 0 <= i < |q| ==> s[i] == q[i];
    assert |p| == |q|;
    assert s[..|p|] == p && s[..|q|] == q && s[|p| + 1..] == x && s[|q| + 1..] == y;
  }

  lemma TextDeterminesNeighbors(doc: Document, a: Address, doc': Document, b: Address)
    requires IsElement(doc, a) && IsElement(doc', b) && Commaless(doc, a) && Commaless(doc', b)
    ensures NeighborText(doc, a) == NeighborText(doc', b) <==> SameNeighbors(doc, a, doc', b)
  {
    if NeighborText(doc, a) == NeighborText(doc', b) {
      var s, t := TagsIn(Around(doc, a)), TagsIn(Around(doc', b));
      HeadIsInjective(TagAbove(doc, a), Join(s, ","), TagAbove(doc', b), Join(t, ","));
      if |a| > 1 { ParentIsElement(doc, a); }
      if |b| > 1 { ParentIsElement(doc', b); }
      assert Around(doc, a) == SiblingsOf(doc, a) && Around(doc', b) == SiblingsOf(doc', b);
      TagsHaveOwn(Around(doc, a), a[|a| - 1]);
      TagsHaveOwn(Around(doc', b), b[|b| - 1]);
      SplitJoin(s, ",");
      SplitJoin(t, ",");
    }
  }

  // ----- what the search answers --------------------------------------------------------------------

  /** The hash tells two texts apart. */
  ghost predicate TellsApart(lib: Lib, s: string, t: string) {
    s != t ==> lib.xxh3(s) != lib.xxh3(t)
  }

  function AttrsOf(doc: Document, a: Address): Attrs
    requires IsElement(doc, a)
  {
    ElementAt(doc, a).attrs
  }

  function AttrText(attrs: Attrs): string {
    SortedAttrsString(attrs)
  }

  /** The hashes of a fingerprint are those of the recorded element's texts. */
  predicate HashesOf(lib: Lib, fp: Fingerprint, rec: Recording)
    requires IsRecording(rec)
  {
    && fp.attrsHash == lib.xxh3(AttrText(AttrsOf(rec.doc, rec.el)))
    && fp.neighborHash == lib.xxh3(NeighborText(rec.doc, rec.el))
  }

  lemma StoredHashes(w: World, rows: Rows, rec: Recording)
    requires IsRecording(rec)
    ensures var fp := Recorded(w, rows, rec).value;
            && fp.tagName == ElementAt(rec.doc, rec.el).tag
            && HashesOf(w.lib, fp, rec)
  {
    StoredThenFound(rows, BuildFingerprint(w.lib, rec.doc, rec.el, rec.stableId, rec.urlFld, rec.at));
    HashOfNeighbors(w.lib, rec.doc, rec.el);
  }

  /** Both texts have changed. */
  ghost predicate BothChanged(rec: Recording, doc: Document, best: Address)
    requires IsRecording(rec) && IsElement(doc, best)
  {
    && AttrText(AttrsOf(rec.doc, rec.el)) != AttrText(AttrsOf(doc, best))
    && NeighborText(rec.doc, rec.el) != NeighborText(doc, best)
  }

  ghost predicate HashesTellApart(lib: Lib, rec: Recording, doc: Document, best: Address)
    requires IsRecording(rec) && IsElement(doc, best)
  {
    && TellsApart(lib, AttrText(AttrsOf(rec.doc, rec.el)), AttrText(AttrsOf(doc, best)))
    && TellsApart(lib, NeighborText(rec.doc, rec.el), NeighborText(doc, best))
  }

  lemma AgreesOnHashes(lib: Lib, fp: Fingerprint, rec: Recording, doc: Document, best: Address)
    requires IsRecording(rec) && IsElement(doc, best) && HashesOf(lib, fp, rec)
    ensures HashAgrees(lib, fp, doc, best) <==>
            || lib.xxh3(AttrText(AttrsOf(rec.doc, rec.el))) == lib.xxh3(AttrText(AttrsOf(doc, best)))
            || lib.xxh3(NeighborText(rec.doc, rec.el)) == lib.xxh3(NeighborText(doc, best))
  {
    HashOfNeighbors(lib, doc, best);
  }

  lemma AgreesIff(lib: Lib, fp: Fingerprint, rec: Recording, doc: Document, best: Address)
    requires IsRecording(rec) && IsElement(doc, best) && HashesOf(lib, fp, rec)
    ensures var agrees := HashAgrees(lib, fp, doc, best);
            && (multiset(AttrsOf(rec.doc, rec.el)) == multiset(AttrsOf(doc, best)) ==> agrees)
            && (SameNeighbors(rec.doc, rec.el, doc, best) ==> agrees)
            && (HashesTellApart(lib, rec, doc, best) ==> (agrees <==> !BothChanged(rec, doc, best)))
  {
    AgreesOnHashes(lib, fp, rec, doc, best);
    if multiset(AttrsOf(rec.doc, rec.el)) == multiset(AttrsOf(doc, best)) {
      SameAttrsSameText(AttrsOf(rec.doc, rec.el), AttrsOf(doc, best));
    }
    if SameNeighbors(rec.doc, rec.el, doc, best) { SameNeighborsSameText(rec.doc, rec.el, doc, best); }
  }

  /**
   * Looking for a recorded element among the ranked candidates: if the attributes of the best are those of the
   * recorded one, in any order, or its parent's and siblings' tags are, the best one is the answer. As far as
   * the hash tells the texts apart, the candidates are listed instead if and only if both texts have changed.
   */
  lemma BestIsTakenIff(w: World, rows: Rows, rec: Recording, doc: Document, threshold: real, s: seq<Scored>)
    requires LawfulEngine(w.css) && IsRecording(rec) && IsTag(ElementAt(rec.doc, rec.el).tag)
    requires Ranking(w.lib, Recorded(w, rows, rec).value, doc, threshold, s) && s != []
    ensures IsElement(doc, s[0].at)
    ensures var answer, best := Search(w, Recorded(w, rows, rec).value, doc, threshold), s[0].at;
            var taken := FuzzyMatch(BuildNodeRef(doc, best), s[0].score);
            && (multiset(AttrsOf(rec.doc, rec.el)) == multiset(AttrsOf(doc, best)) ==> answer == taken)
            && (SameNeighbors(rec.doc, rec.el, doc, best) ==> answer == taken)
            && (HashesTellApart(w.lib, rec, doc, best) ==>
                  answer == if BothChanged(rec, doc, best) then Ambiguous(Listed(s)) else taken)
  {
    var fp := Recorded(w, rows, rec).value;
    assert s[0] in s;
    assert IsCandidate(w.lib, fp, doc, s[0]);
    StoredHashes(w, rows, rec);
    AgreesIff(w.lib, fp, rec, doc, s[0].at);
    SearchIsExact(w, fp, doc, threshold, s);
  }

  /**
   * So where the texts can be read back, if and only if the attributes changed and the parent's or the
   * siblings' tags did.
   */
  lemma ListedIffBothChanged(w: World, rows: Rows, rec: Recording, doc: Document, threshold: real, s: seq<Scored>)
    requires LawfulEngine(w.css) && IsRecording(rec) && IsTag(ElementAt(rec.doc, rec.el).tag)
    requires Ranking(w.lib, Recorded(w, rows, rec).value, doc, threshold, s) && s != [] && IsElement(doc, s[0].at)
    requires HashesTellApart(w.lib, rec, doc, s[0].at)
    requires Barless(AttrsOf(rec.doc, rec.el)) && Barless(AttrsOf(doc, s[0].at))
    requires Commaless(rec.doc, rec.el) && Commaless(doc, s[0].at)
    ensures Search(w, Recorded(w, rows, rec).value, doc, threshold).Ambiguous? <==>
            && multiset(AttrsOf(rec.doc, rec.el)) != multiset(AttrsOf(doc, s[0].at))
            && !SameNeighbors(rec.doc, rec.el, doc, s[0].at)
  {
    BestIsTakenIff(w, rows, rec, doc, threshold, s);
    TextDeterminesAttrs(AttrsOf(rec.doc, rec.el), AttrsOf(doc, s[0].at));
    TextDeterminesNeighbors(rec.doc, rec.el, doc, s[0].at);
  }
}
