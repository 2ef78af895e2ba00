/**
 * The parsed document, positions in it, and the selectors that resolve against it: type selectors,
 * `:nth-of-type()` and the child combinator (sections 6.1, 6.6.5.4 and 8.2 of W3C Selectors Level 3).
 */
module Dom {
  import opened Prelude

  datatype Node =
    | Element(tag: string, attrs: seq<(string, string)>, children: seq<Node>)
    | TextNode(text: string)
    | OtherNode

  /** A document is the list of its top-level nodes; an address is the way down by child index. */
  type Document = seq<Node>
  type Address = seq<nat>

  predicate IsElement(doc: seq<Node>, a: Address)
    decreases |a|
  {
    && a != [] && a[0] < |doc| && doc[a[0]].Element?
    && (|a| == 1 || IsElement(doc[a[0]].children, a[1..]))
  }

  function ElementAt(doc: seq<Node>, a: Address): (e: Node)
    requires IsElement(doc, a)
    ensures e.Element?
    decreases |a|
  {
    if |a| == 1 then doc[a[0]] else ElementAt(doc[a[0]].children, a[1..])
  }

  /** The child list the element is in. */
  function SiblingsOf(doc: seq<Node>, a: Address): (s: seq<Node>)
    requires IsElement(doc, a)
    ensures a[|a| - 1] < |s| && s[a[|a| - 1]] == ElementAt(doc, a)
    decreases |a|
  {
    if |a| == 1 then doc else SiblingsOf(doc[a[0]].children, a[1..])
  }

  function Parent(a: Address): Address
    requires a != []
  {
    a[..|a| - 1]
  }

  lemma {:induction false} ParentIsElement(doc: seq<Node>, a: Address)
    requires IsElement(doc, a) && |a| > 1
    ensures IsElement(doc, Parent(a)) && SiblingsOf(doc, a) == ElementAt(doc, Parent(a)).children
    decreases |a|
  {
    if |a| > 2 {
      ParentIsElement(doc[a[0]].children, a[1..]);
      assert Parent(a[1..]) == Parent(a)[1..];
    }
  }

  /** Elements called `tag` before position `i`. */
  function SameTypeBefore(siblings: seq<Node>, i: nat, tag: string): nat
    requires i <= |siblings|
  {
    if i == 0 then 0
    else SameTypeBefore(siblings, i - 1, tag) +
         if siblings[i - 1].Element? && siblings[i - 1].tag == tag then 1 else 0
  }

  function NthOfType(siblings: seq<Node>, i: nat): nat
    requires i < |siblings| && siblings[i].Element?
  {
    1 + SameTypeBefore(siblings, i, siblings[i].tag)
  }

  /** Where the elements called `tag` before position `i` stand. */
  ghost function PositionsBefore(siblings: seq<Node>, i: nat, tag: string): set<nat>
    requires i <= |siblings|
  {
    set k: nat | k < i && siblings[k].Element? && siblings[k].tag == tag
  }

  lemma {:induction false} SameTypeIsCounted(siblings: seq<Node>, i: nat, tag: string)
    requires i <= |siblings|
    ensures SameTypeBefore(siblings, i, tag) == |PositionsBefore(siblings, i, tag)|
    decreases i
  {
    if i > 0 {
      SameTypeIsCounted(siblings, i - 1, tag);
      var before := PositionsBefore(siblings, i - 1, tag);
      if siblings[i - 1].Element? && siblings[i - 1].tag == tag {
        assert PositionsBefore(siblings, i, tag) == before + {i - 1} && i - 1 !in before;
      } else {
        assert PositionsBefore(siblings, i, tag) == before;
      }
    }
  }

  lemma {:induction false} SameTypeGrows(siblings: seq<Node>, i: nat, j: nat, tag: string)
    requires i <= j <= |siblings|
    ensures SameTypeBefore(siblings, i, tag) <= SameTypeBefore(siblings, j, tag) <=
            SameTypeBefore(siblings, i, tag) + (j - i)
    decreases j
  {
    if i < j {
      SameTypeGrows(siblings, i, j - 1, tag);
    }
  }

  /** Among its siblings, an element is determined by its tag and its number of type. */
  lemma NthDeterminesSibling(siblings: seq<Node>, i: nat, j: nat)
    requires i < |siblings| && j < |siblings| && siblings[i].Element? && siblings[j].Element?
    requires siblings[i].tag == siblings[j].tag && NthOfType(siblings, i) == NthOfType(siblings, j)
    ensures i == j
  {
    if i < j {
      SameTypeGrows(siblings, i + 1, j, siblings[i].tag);
    } else if j < i {
      SameTypeGrows(siblings, j + 1, i, siblings[i].tag);
    }
  }

  /** One compound selector `tag:nth-of-type(index)`. */
  datatype Step = Step(tag: string, index: nat)

  function StepOf(doc: seq<Node>, a: Address): Step
    requires IsElement(doc, a)
  {
    Step(ElementAt(doc, a).tag, NthOfType(SiblingsOf(doc, a), a[|a| - 1]))
  }

  /** The steps from the top of the document down to the element. */
  function Steps(doc: seq<Node>, a: Address): (steps: seq<Step>)
    requires IsElement(doc, a)
    ensures |steps| == |a|
    decreases |a|
  {
    var first := Step(doc[a[0]].tag, NthOfType(doc, a[0]));
    if |a| == 1 then [first] else [first] + Steps(doc[a[0]].children, a[1..])
  }

  lemma {:induction false} StepsEndAtElement(doc: seq<Node>, a: Address)
    requires IsElement(doc, a)
    ensures Steps(doc, a)[|a| - 1] == StepOf(doc, a)
    ensures |a| > 1 ==> IsElement(doc, Parent(a)) && Steps(doc, a) == Steps(doc, Parent(a)) + [StepOf(doc, a)]
    decreases |a|
  {
    if |a| > 1 {
      ParentIsElement(doc, a);
      var kids := doc[a[0]].children;
      StepsEndAtElement(kids, a[1..]);
      assert StepOf(kids, a[1..]) == StepOf(doc, a);
      if |a| > 2 {
        assert Parent(a[1..]) == Parent(a)[1..];
      }
    }
  }

  /** Distinct elements have distinct steps. */
  lemma {:induction false} StepsDetermineElement(doc: seq<Node>, a: Address, b: Address)
    requires IsElement(doc, a) && IsElement(doc, b) && Steps(doc, a) == Steps(doc, b)
    ensures a == b
    decreases |a|
  {
    assert Steps(doc, a)[0] == Steps(doc, b)[0];
    NthDeterminesSibling(doc, a[0], b[0]);
    if |a| > 1 {
      assert Steps(doc, a)[1..] == Steps(doc[a[0]].children, a[1..]);
      assert Steps(doc, b)[1..] == Steps(doc[b[0]].children, b[1..]);
      StepsDetermineElement(doc[a[0]].children, a[1..], b[1..]);
      assert a == [a[0]] + a[1..] && b == [b[0]] + b[1..];
    }
  }

  // ----- selectors ---------------------------------------------------------------------

  /** `s1 > s2 > ... > sn` matches an element: the last step is it, its parent matches the rest. */
  predicate Matches(doc: seq<Node>, a: Address, sel: seq<Step>)
    requires IsElement(doc, a)
    decreases |sel|
  {
    && sel != []
    && StepOf(doc, a) == sel[|sel| - 1]
    && (|sel| == 1 || (|a| > 1 && IsElement(doc, Parent(a)) && Matches(doc, Parent(a), sel[..|sel| - 1])))
  }

  /** The element's way down ends with these steps. */
  predicate ReachedBy(doc: seq<Node>, a: Address, tail: seq<Step>) {
    IsElement(doc, a) && |tail| <= |a| && Steps(doc, a)[|a| - |tail|..] == tail
  }

  /** A selector of steps matches exactly the elements whose own steps end with it. */
  lemma {:induction false} MatchesIffSuffix(doc: seq<Node>, a: Address, sel: seq<Step>)
    requires IsElement(doc, a)
    ensures Matches(doc, a, sel) <==> sel != [] && ReachedBy(doc, a, sel)
    decreases |sel|
  {
    StepsEndAtElement(doc, a);
    if |sel| > 1 && |a| > 1 {
      var init := sel[..|sel| - 1];
      MatchesIffSuffix(doc, Parent(a), init);
      assert sel == init + [sel[|sel| - 1]];
      if |sel| <= |a| {
        SuffixSnoc(Steps(doc, Parent(a)), StepOf(doc, a), init, sel[|sel| - 1]);
      }
    } else if |sel| == 1 {
      LastStep(Steps(doc, a), sel);
    }
  }

  lemma LastStep(steps: seq<Step>, sel: seq<Step>)
    requires steps != [] && |sel| == 1
    ensures steps[|steps| - 1..] == sel <==> steps[|steps| - 1] == sel[0]
  {
    assert steps[|steps| - 1..] == [steps[|steps| - 1]] && sel == [sel[0]];
  }

  lemma SuffixSnoc(steps: seq<Step>, s: Step, init: seq<Step>, last: Step)
    requires |init| <= |steps|
    ensures (steps + [s])[|steps| - |init|..] == init + [last] <==> steps[|steps| - |init|..] == init && s == last
  {
    var tail := steps[|steps| - |init|..];
    assert (steps + [s])[|steps| - |init|..] == tail + [s];
    assert (tail + [s])[..|init|] == tail && (init + [last])[..|init|] == init;
    assert (tail + [s])[|init|] == s && (init + [last])[|init|] == last;
  }

  /** The tag of the element's outermost ancestor is used nowhere below the top level. */
  predicate RootTagUnique(doc: seq<Node>, root: string) {
    forall i :: 0 <= i < |doc| && doc[i].Element? ==> !TagBelow(doc[i].children, root)
  }

  predicate TagBelow(nodes: seq<Node>, tag: string) {
    exists i :: 0 <= i < |nodes| && nodes[i].Element? && (nodes[i].tag == tag || TagBelow(nodes[i].children, tag))
  }

  lemma {:induction false} TagOnPath(nodes: seq<Node>, a: Address, k: nat)
    requires IsElement(nodes, a) && k < |a|
    ensures TagBelow(nodes, Steps(nodes, a)[k].tag)
    decreases |a|
  {
    if k > 0 {
      TagOnPath(nodes[a[0]].children, a[1..], k - 1);
    }
  }

  lemma RootStepIsTopLevel(doc: seq<Node>, root: string, a: Address, k: nat)
    requires IsElement(doc, a) && k < |a| && RootTagUnique(doc, root) && Steps(doc, a)[k].tag == root
    ensures k == 0
  {
    if k > 0 {
      var kids := doc[a[0]].children;
      assert Steps(doc, a)[k] == Steps(kids, a[1..])[k - 1];
      TagOnPath(kids, a[1..], k - 1);
    }
  }

  /**
   * In a document whose root tag occurs only at the root, the steps of an element reach that element and
   * no other.
   */
  lemma StepsIdentifyElement(doc: seq<Node>, el: Address, a: Address)
    requires IsElement(doc, el) && RootTagUnique(doc, doc[el[0]].tag)
    ensures ReachedBy(doc, a, Steps(doc, el)) <==> a == el
  {
    var sel := Steps(doc, el);
    OwnStepsReach(doc, el);
    if ReachedBy(doc, a, sel) {
      var k := |a| - |sel|;
      assert Steps(doc, a)[k..][0] == sel[0];
      RootStepIsTopLevel(doc, doc[el[0]].tag, a, k);
      assert Steps(doc, a)[0..] == Steps(doc, a);
      StepsDetermineElement(doc, a, el);
    }
  }

  lemma OwnStepsReach(doc: seq<Node>, el: Address)
    requires IsElement(doc, el)
    ensures ReachedBy(doc, el, Steps(doc, el))
  {
    assert Steps(doc, el)[0..] == Steps(doc, el);
  }

  // ----- document order -------------------------------------------------------------------

  function Below(i: nat, as_: seq<Address>): seq<Address> {
    seq(|as_|, k requires 0 <= k < |as_| => [i] + as_[k])
  }

  /** The elements of a document, each before its descendants and those before its later siblings. */
  function Elements(doc: seq<Node>): seq<Address>
    decreases doc, |doc| + 1
  {
    ElementsFrom(doc, 0)
  }

  function ElementsFrom(doc: seq<Node>, i: nat): seq<Address>
    requires i <= |doc|
    decreases doc, |doc| - i
  {
    if i == |doc| then []
    else
      (if doc[i].Element? then [[i]] + Below(i, ElementsFrom(doc[i].children, 0)) else []) + ElementsFrom(doc, i + 1)
  }

  lemma {:induction false} ElementsAreAll(doc: seq<Node>, i: nat, a: Address)
    requires i <= |doc|
    ensures a in ElementsFrom(doc, i) <==> IsElement(doc, a) && a[0] >= i
    decreases doc, |doc| - i
  {
    if i < |doc| {
      ElementsAreAll(doc, i + 1, a);
      if doc[i].Element? {
        var kids := doc[i].children;
        var own := [[i]] + Below(i, ElementsFrom(kids, 0));
        if a != [] { ElementsAreAll(kids, 0, a[1..]); }
        if a in own && a != [i] {
          var k :| 0 <= k < |Below(i, ElementsFrom(kids, 0))| && Below(i, ElementsFrom(kids, 0))[k] == a;
          assert a[1..] == ElementsFrom(kids, 0)[k];
        }
        if IsElement(doc, a) && a[0] == i && |a| > 1 {
          var k :| 0 <= k < |ElementsFrom(kids, 0)| && ElementsFrom(kids, 0)[k] == a[1..];
          assert a == [i] + a[1..];
          assert Below(i, ElementsFrom(kids, 0))[k] == a;
        }
        if IsElement(doc, a) && a[0] == i && |a| == 1 { assert a == [i]; }
        assert a in own <==> IsElement(doc, a) && a[0] == i;
      }
    }
  }

  /** Document order: ancestors first, then earlier siblings and all below them. */
  predicate Precedes(a: Address, b: Address)
    decreases |a|
  {
    b != [] && (a == [] || a[0] < b[0] || (a[0] == b[0] && Precedes(a[1..], b[1..])))
  }

  lemma {:induction false} PrecedesIsStrict(a: Address, b: Address)
    ensures !(Precedes(a, b) && Precedes(b, a))
    decreases |a|
  {
    if a != [] && b != [] { PrecedesIsStrict(a[1..], b[1..]); }
  }

  ghost predicate InOrder(as_: seq<Address>) {
    forall p, q :: 0 <= p < q < |as_| ==> Precedes(as_[p], as_[q])
  }

  lemma InOrderConcat(xs: seq<Address>, ys: seq<Address>)
    requires InOrder(xs) && InOrder(ys) && forall x, y :: x in xs && y in ys ==> Precedes(x, y)
    ensures InOrder(xs + ys)
  {}

  lemma InOrderBelow(i: nat, as_: seq<Address>)
    requires InOrder(as_) && [] !in as_
    ensures InOrder([[i]] + Below(i, as_))
  {}

  /** `Elements` lists the document in document order. */
  lemma {:induction false} ElementsInOrder(doc: seq<Node>, i: nat)
    requires i <= |doc|
    ensures InOrder(ElementsFrom(doc, i))
    decreases doc, |doc| - i
  {
    if i < |doc| {
      ElementsInOrder(doc, i + 1);
      if doc[i].Element? {
        var kids := doc[i].children;
        ElementsInOrder(kids, 0);
        ElementsAreAll(kids, 0, []);
        InOrderBelow(i, ElementsFrom(kids, 0));
        var own, rest := [[i]] + Below(i, ElementsFrom(kids, 0)), ElementsFrom(doc, i + 1);
        forall x, y | x in own && y in rest ensures Precedes(x, y) {
          ElementsAreAll(doc, i + 1, y);
        }
        InOrderConcat(own, rest);
      } else {
        assert ElementsFrom(doc, i) == ElementsFrom(doc, i + 1);
      }
    }
  }

  /** The first of `as_` that the selector matches. */
  function FirstMatch(doc: seq<Node>, as_: seq<Address>, sel: seq<Step>): (r: Option<Address>)
    requires InOrder(as_) && forall a :: a in as_ ==> IsElement(doc, a)
    ensures r.Some? ==> r.value in as_ && Matches(doc, r.value, sel)
    ensures r.Some? ==> forall a :: a in as_ && Matches(doc, a, sel) ==> a == r.value || Precedes(r.value, a)
    ensures r.None? ==> forall a :: a in as_ ==> !Matches(doc, a, sel)
  {
    if as_ == [] then None
    else if Matches(doc, as_[0], sel) then Some(as_[0])
    else FirstMatch(doc, as_[1..], sel)
  }

  function AllElements(doc: seq<Node>): (as_: seq<Address>)
    ensures InOrder(as_) && forall a :: a in as_ <==> IsElement(doc, a)
  {
    ElementsInOrder(doc, 0);
    ElementsAreExactly(doc);
    Elements(doc)
  }

  lemma ElementsAreExactly(doc: seq<Node>)
    ensures forall a :: a in Elements(doc) <==> IsElement(doc, a)
  {
    forall a ensures a in Elements(doc) <==> IsElement(doc, a) {
      ElementsAreAll(doc, 0, a);
    }
  }

  /** `doc.select(&sel).next()` */
  function Select(doc: seq<Node>, sel: seq<Step>): (r: Option<Address>)
    ensures r.Some? ==> IsElement(doc, r.value) && Matches(doc, r.value, sel)
    ensures r.Some? ==> forall a :: IsElement(doc, a) && Matches(doc, a, sel) ==> a == r.value || Precedes(r.value, a)
    ensures r.None? ==> forall a :: IsElement(doc, a) ==> !Matches(doc, a, sel)
  {
    FirstMatch(doc, AllElements(doc), sel)
  }

  /** What a selector of steps selects: the first element whose way down ends with them. */
  lemma SelectIsFirstReached(doc: seq<Node>, sel: seq<Step>, a: Address)
    requires sel != []
    ensures Select(doc, sel) == Some(a) <==> ReachedBy(doc, a, sel) && NoneBefore(doc, a, sel)
    ensures Select(doc, sel) == None ==> !ReachedBy(doc, a, sel)
  {
    var r := Select(doc, sel);
    if r.Some? {
      MatchesIffSuffix(doc, r.value, sel);
      forall b | ReachedBy(doc, b, sel) ensures b == r.value || Precedes(r.value, b) {
        MatchesIffSuffix(doc, b, sel);
      }
      forall b ensures !ReachedEarlier(doc, b, r.value, sel) {
        PrecedesIsStrict(b, r.value);
      }
      assert ReachedBy(doc, a, sel) ==> a == r.value || ReachedEarlier(doc, r.value, a, sel);
    }
    if IsElement(doc, a) { MatchesIffSuffix(doc, a, sel); }
  }

  /** No element before `a` in the document is reached by these steps. */
  ghost predicate NoneBefore(doc: seq<Node>, a: Address, sel: seq<Step>) {
    forall b :: !ReachedEarlier(doc, b, a, sel)
  }

  predicate ReachedEarlier(doc: seq<Node>, b: Address, a: Address, sel: seq<Step>) {
    Precedes(b, a) && ReachedBy(doc, b, sel)
  }

  /** Where the root tag occurs only at the root, an element's steps select it. */
  lemma UniqueRootLeavesNoneBefore(doc: seq<Node>, el: Address)
    requires IsElement(doc, el) && RootTagUnique(doc, doc[el[0]].tag)
    ensures NoneBefore(doc, el, Steps(doc, el))
  {
    PrecedesIsStrict(el, el);
    forall b ensures !ReachedEarlier(doc, b, el, Steps(doc, el)) {
      StepsIdentifyElement(doc, el, b);
    }
  }

  /** Before the first child of a first child come its ancestors only. */
  lemma {:induction false} BeforeFirstBorn(a: Address, b: Address)
    requires Precedes(a, b) && forall i :: 0 <= i < |b| ==> b[i] == 0
    ensures a <= b && |a| < |b|
    decreases |a|
  {
    if a != [] {
      BeforeFirstBorn(a[1..], b[1..]);
      assert a == [a[0]] + a[1..] && b == [b[0]] + b[1..];
    }
  }

  /** A root tag used again further down can hide an element behind an earlier one. */
  lemma RepeatedRootMisleads()
    ensures var doc := [Element("h", [],
            [Element("x", [], [Element("h", [], [Element("y", [], [])])]), Element("y", [], [])])];
            IsElement(doc, [0, 1]) && Select(doc, Steps(doc, [0, 1])) == Some([0, 0, 0, 0])
  {
    var y := Element("y", [], []);
    var h := Element("h", [], [y]);
    var x := Element("x", [], [h]);
    var doc := [Element("h", [], [x, y])];
    var el, other := [0, 1], [0, 0, 0, 0];
    assert el[1..] == [1] && IsElement(doc[0].children, [1]);
    assert other[1..] == [0, 0, 0] && [0, 0, 0][1..] == [0, 0] && [0, 0][1..] == [0];
    assert IsElement([y], [0]) && IsElement([h], [0, 0]) && IsElement([x, y], [0, 0, 0]);
    var sel := [Step("h", 1), Step("y", 1)];
    assert "x"[0] != "y"[0] && "x"[0] != "h"[0];
    assert SameTypeBefore([x, y], 1, "y") == SameTypeBefore([x, y], 0, "y");
    assert Steps([x, y], [1]) == [Step("y", 1)];
    assert Steps(doc, el) == sel;
    assert Steps([y], [0]) == [Step("y", 1)] && Steps([h], [0, 0]) == sel;
    assert Steps([x, y], [0, 0, 0]) == [Step("x", 1)] + sel;
    assert Steps(doc, other) == [Step("h", 1), Step("x", 1)] + sel;
    assert ReachedBy(doc, other, sel);
    assert Steps([h], [0]) == [Step("h", 1)];
    assert Steps([x, y], [0]) == [Step("x", 1)] && Steps([x, y], [0, 0]) == [Step("x", 1), Step("h", 1)];
    assert Steps(doc, [0, 0]) == [Step("h", 1), Step("x", 1)];
    assert Steps(doc, [0, 0, 0])[1..] == [Step("x", 1), Step("h", 1)];
    forall b ensures !ReachedEarlier(doc, b, other, sel) {
      if Precedes(b, other) {
        BeforeFirstBorn(b, other);
        assert b == [] || b == [0] || b == [0, 0] || b == [0, 0, 0];
      }
    }
    SelectIsFirstReached(doc, sel, other);
  }
}
