/**
 * The message patchers of the CDP shim. Each one adds the fields the client requires to objects the
 * server sends, and drops an empty `browserContextId`.
 */
module CdpPatches {
  import opened Prelude
  import opened JsonValues

  // ----- the patchers ---------------------------------------------------------------

  const CONTEXT_ID := "browserContextId"

  const TARGET_DEFAULTS: Fields := map["canAccessOpener" := Bool(false)]
  const FRAME_DEFAULTS: Fields := map[
    "secureContextType" := Str("Secure"),
    "crossOriginIsolatedContextType" := Str("NotIsolated"),
    "gatedAPIFeatures" := Arr([])
  ]
  const REQUEST_EVENT_DEFAULTS: Fields := map["redirectHasExtraInfo" := Bool(false)]
  const REQUEST_DEFAULTS: Fields := map[
    "initialPriority" := Str("Medium"),
    "referrerPolicy" := Str("no-referrer-when-downgrade")
  ]
  const RESPONSE_EVENT_DEFAULTS: Fields := map["hasExtraInfo" := Bool(false)]
  const RESPONSE_DEFAULTS: Fields := map[
    "charset" := Str(""),
    "connectionReused" := Bool(false),
    "connectionId" := Num(Float(0.0)),
    "encodedDataLength" := Num(Float(0.0)),
    "securityState" := Str("unknown")
  ]

  /** `entry(key).or_insert(value)` for each default: what the object already has wins. */
  function FillIn(defaults: Fields, f: Fields): Fields {
    defaults + f
  }

  function DropEmptyContext(f: Fields): Fields {
    if CONTEXT_ID in f && f[CONTEXT_ID] == Str("") then f - {CONTEXT_ID} else f
  }

  function PatchTargetInfo(info: Fields): Fields {
    DropEmptyContext(FillIn(TARGET_DEFAULTS, info))
  }

  function PatchFrame(frame: Fields): Fields {
    DropEmptyContext(FillIn(FRAME_DEFAULTS, frame))
  }

  function PatchRequestWillBeSent(params: Fields): Fields {
    FillInside(FillIn(REQUEST_EVENT_DEFAULTS, params), "request", REQUEST_DEFAULTS)
  }

  function PatchResponseReceived(params: Fields): Fields {
    FillInside(FillIn(RESPONSE_EVENT_DEFAULTS, params), "response", RESPONSE_DEFAULTS)
  }

  /** Fill in the object under `key`, if there is one. */
  function FillInside(f: Fields, key: string, defaults: Fields): Fields {
    if key in f && f[key].Obj? then f[key := Obj(FillIn(defaults, f[key].fields))] else f
  }

  function PatchParams(event: string, params: Json): Json {
    if !params.Obj? then params
    else if event == "Target.targetCreated" || event == "Target.attachedToTarget" then
      match GetObj(params, "targetInfo")
      case Some(info) => Put(params, "targetInfo", Obj(PatchTargetInfo(info)))
      case None => params
    else if event == "Page.frameNavigated" then
      match GetObj(params, "frame")
      case Some(frame) => Put(params, "frame", Obj(PatchFrame(frame)))
      case None => params
    else if event == "Network.requestWillBeSent" then Obj(PatchRequestWillBeSent(params.fields))
    else if event == "Network.responseReceived" then Obj(PatchResponseReceived(params.fields))
    else params
  }

  /** `patch_obscura_event`: only `params` of a message with a method is ever touched. */
  function PatchEvent(j: Json): Json {
    match GetStr(j, "method")
    case None => j
    case Some(event) => if Has(j, "params") then Put(j, "params", PatchParams(event, j.fields["params"])) else j
  }

  // Frame trees: a node has perhaps a frame object and perhaps an array of child nodes.

  function OwnFrame(f: Fields): Option<Fields> {
    if "frame" in f && f["frame"].Obj? then Some(f["frame"].fields) else None
  }

  function Children(f: Fields): Option<seq<Json>> {
    if "childFrames" in f && f["childFrames"].Arr? then Some(f["childFrames"].items) else None
  }

  /** A node's fields with its frame and its children replaced where given. */
  function WithParts(f: Fields, frame: Option<Fields>, children: Option<seq<Json>>): Fields {
    var g := if frame.Some? then f["frame" := Obj(frame.value)] else f;
    if children.Some? then g["childFrames" := Arr(children.value)] else g
  }

  function PatchFrameTree(node: Json): Json
    decreases node, 1
  {
    if !node.Obj? then node
    else
      Obj(WithParts(node.fields,
                    match OwnFrame(node.fields) case Some(f) => Some(PatchFrame(f)) case None => None,
                    match Children(node.fields) case Some(items) => Some(PatchFrameTrees(items)) case None => None))
  }

  function PatchFrameTrees(nodes: seq<Json>): seq<Json>
    decreases nodes, 0
  {
    if nodes == [] then [] else [PatchFrameTree(nodes[0])] + PatchFrameTrees(nodes[1..])
  }

  lemma {:induction false} PatchFrameTreesPointwise(nodes: seq<Json>)
    ensures |PatchFrameTrees(nodes)| == |nodes|
    ensures forall i :: 0 <= i < |nodes| ==> PatchFrameTrees(nodes)[i] == PatchFrameTree(nodes[i])
  {
    if nodes != [] {
      PatchFrameTreesPointwise(nodes[1..]);
    }
  }

  /** `patch_frame_tree`, visiting the children in order and replacing each one. */
  method PatchFrameTreeInPlace(node: Json) returns (patched: Json)
    ensures patched == PatchFrameTree(node)
    decreases node
  {
    if !node.Obj? {
      return node;
    }
    var fields := node.fields;
    if "frame" in fields && fields["frame"].Obj? {
      fields := fields["frame" := Obj(PatchFrame(fields["frame"].fields))];
    }
    if "childFrames" in fields && fields["childFrames"].Arr? {
      var children := fields["childFrames"].items;
      assert Children(node.fields) == Some(children);
      ghost var original := children;
      PatchFrameTreesPointwise(original);
      for i := 0 to |children|
        invariant |children| == |original|
        invariant forall k :: 0 <= k < i ==> children[k] == PatchFrameTrees(original)[k]
        invariant forall k :: i <= k < |children| ==> children[k] == original[k]
      {
        var child := PatchFrameTreeInPlace(children[i]);
        children := children[i := child];
      }
      assert children == PatchFrameTrees(original);
      fields := fields["childFrames" := Arr(children)];
    }
    patched := Obj(fields);
  }

  /** `patch_response` on a reply to a tracked command. */
  function PatchResponse(command: string, value: Json): Json {
    if Has(value, "result") then Put(value, "result", PatchResult(command, value.fields["result"])) else value
  }

  function PatchResult(command: string, result: Json): Json {
    if command == "Page.getFrameTree" then
      match Get(result, "frameTree")
      case Some(tree) => Put(result, "frameTree", PatchFrameTree(tree))
      case None => result
    else if command == "Target.getTargetInfo" then
      match GetObj(result, "targetInfo")
      case Some(info) => Put(result, "targetInfo", Obj(PatchTargetInfo(info)))
      case None => result
    else result
  }

  // ----- conservative: nothing is lost ------------------------------------------------

  /** Fields that may be added, each with the value it is added with. */
  type Additions = set<(string, Json)>

  /**
   * `b` is `a` with fields of `defaults` added to some objects and empty browser-context ids dropped
   * from some, and nothing else: every other key, value, element and length is the same.
   */
  ghost predicate Grows(a: Json, b: Json, defaults: Additions)
    decreases a
  {
    if a.Obj? && b.Obj? then
      && (forall k :: k in a.fields ==>
            if k in b.fields then Grows(a.fields[k], b.fields[k], defaults)
            else k == CONTEXT_ID && a.fields[k] == Str(""))
      && (forall k :: k in b.fields && k !in a.fields ==> (k, b.fields[k]) in defaults)
    else if a.Arr? && b.Arr? then
      |a.items| == |b.items| && forall i :: 0 <= i < |a.items| ==> Grows(a.items[i], b.items[i], defaults)
    else
      a == b
  }

  lemma {:induction false} GrowsReflexive(a: Json, d: Additions)
    ensures Grows(a, a, d)
  {
    if a.Obj? {
      forall k | k in a.fields ensures Grows(a.fields[k], a.fields[k], d) { GrowsReflexive(a.fields[k], d); }
    } else if a.Arr? {
      forall i | 0 <= i < |a.items| ensures Grows(a.items[i], a.items[i], d) { GrowsReflexive(a.items[i], d); }
    }
  }

  /** Defaults are scalars or empty arrays, and no default is a browser-context id. */
  predicate Plain(d: Additions) {
    forall p :: p in d ==> p.0 != CONTEXT_ID && IsPlain(p.1)
  }

  predicate IsPlain(v: Json) {
    !v.Obj? && (v.Arr? ==> v.items == [])
  }

  lemma {:induction false} GrowsTransitive(a: Json, b: Json, c: Json, d: Additions)
    requires Plain(d) && Grows(a, b, d) && Grows(b, c, d)
    ensures Grows(a, c, d)
    decreases a
  {
    if a.Obj? && b.Obj? && c.Obj? {
      forall k | k in a.fields
        ensures if k in c.fields then Grows(a.fields[k], c.fields[k], d) else k == CONTEXT_ID && a.fields[k] == Str("")
      {
        if k in b.fields && k in c.fields { GrowsTransitive(a.fields[k], b.fields[k], c.fields[k], d); }
      }
    } else if a.Arr? && b.Arr? && c.Arr? {
      forall i | 0 <= i < |a.items| ensures Grows(a.items[i], c.items[i], d) {
        GrowsTransitive(a.items[i], b.items[i], c.items[i], d);
      }
    }
  }

  predicate Among(some: Fields, all: Additions) {
    forall k :: k in some ==> (k, some[k]) in all
  }

  /** Filling in and dropping grow an object. */
  lemma CompletionGrows(f: Fields, some: Fields, d: Additions)
    requires Among(some, d) && Plain(d)
    ensures Grows(Obj(f), Obj(FillIn(some, f)), d)
    ensures Grows(Obj(f), Obj(DropEmptyContext(FillIn(some, f))), d)
  {
    GrowsReflexive(Obj(f), d);
  }

  /** Growing one field of an object grows the object. */
  lemma GrowsInside(f: Fields, key: string, v: Json, d: Additions)
    requires key in f && Grows(f[key], v, d)
    ensures Grows(Obj(f), Obj(f[key := v]), d)
  {
    GrowsReflexive(Obj(f), d);
  }

  lemma FillBothGrows(f: Fields, outer: Fields, key: string, inner: Fields, d: Additions)
    requires Among(outer, d) && Among(inner, d) && Plain(d)
    ensures Grows(Obj(f), Obj(FillInside(FillIn(outer, f), key, inner)), d)
  {
    var g := FillIn(outer, f);
    CompletionGrows(f, outer, d);
    if key in g && g[key].Obj? {
      CompletionGrows(g[key].fields, inner, d);
      GrowsInside(g, key, Obj(FillIn(inner, g[key].fields)), d);
      GrowsTransitive(Obj(f), Obj(g), Obj(FillInside(g, key, inner)), d);
    }
  }

  /** The defaults of every patcher are among `d`. */
  predicate Covers(d: Additions) {
    && Plain(d)
    && Among(TARGET_DEFAULTS, d) && Among(FRAME_DEFAULTS, d)
    && Among(REQUEST_EVENT_DEFAULTS, d) && Among(REQUEST_DEFAULTS, d)
    && Among(RESPONSE_EVENT_DEFAULTS, d) && Among(RESPONSE_DEFAULTS, d)
  }

  /** Every field the shim may add, with the value it adds. */
  function Defaults(): Additions {
    TARGET_DEFAULTS.Items + FRAME_DEFAULTS.Items + REQUEST_EVENT_DEFAULTS.Items
    + REQUEST_DEFAULTS.Items + RESPONSE_EVENT_DEFAULTS.Items + RESPONSE_DEFAULTS.Items
  }

  lemma DefaultsCover()
    ensures Covers(Defaults())
  {
    TargetDefaultsPlain();
    RequestDefaultsPlain();
    ResponseDefaultsPlain();
    PlainUnion(TARGET_DEFAULTS, FRAME_DEFAULTS, REQUEST_EVENT_DEFAULTS,
               REQUEST_DEFAULTS, RESPONSE_EVENT_DEFAULTS, RESPONSE_DEFAULTS);
  }

  lemma TargetDefaultsPlain()
    ensures PlainFields(TARGET_DEFAULTS) && PlainFields(FRAME_DEFAULTS)
  {}

  lemma RequestDefaultsPlain()
    ensures PlainFields(REQUEST_EVENT_DEFAULTS) && PlainFields(REQUEST_DEFAULTS)
  {}

  lemma ResponseDefaultsPlain()
    ensures PlainFields(RESPONSE_EVENT_DEFAULTS) && PlainFields(RESPONSE_DEFAULTS)
  {}

  predicate PlainFields(f: Fields) {
    CONTEXT_ID !in f && forall k :: k in f ==> IsPlain(f[k])
  }

  lemma PlainUnion(a: Fields, b: Fields, c: Fields, d: Fields, e: Fields, f: Fields)
    requires PlainFields(a) && PlainFields(b) && PlainFields(c) && PlainFields(d) && PlainFields(e) && PlainFields(f)
    ensures var all := a.Items + b.Items + c.Items + d.Items + e.Items + f.Items;
            Plain(all) && Among(a, all) && Among(b, all) && Among(c, all) && Among(d, all) && Among(e, all)
              && Among(f, all)
  {}

  lemma PutGrows(j: Json, key: string, v: Json, d: Additions)
    requires Has(j, key) && Grows(j.fields[key], v, d)
    ensures Grows(j, Put(j, key, v), d)
  {
    GrowsInside(j.fields, key, v, d);
  }

  lemma {:induction false} PatchFrameTreeGrows(node: Json, d: Additions)
    requires Covers(d)
    ensures Grows(node, PatchFrameTree(node), d)
  {
    GrowsReflexive(node, d);
    if node.Obj? {
      var f := node.fields;
      var g := f;
      if OwnFrame(f).Some? {
        CompletionGrows(OwnFrame(f).value, FRAME_DEFAULTS, d);
        g := f["frame" := Obj(PatchFrame(OwnFrame(f).value))];
        GrowsInside(f, "frame", g["frame"], d);
      }
      assert Children(g) == Children(f);
      if Children(f).Some? {
        var items := Children(f).value;
        PatchFrameTreesPointwise(items);
        forall i | 0 <= i < |items| ensures Grows(items[i], PatchFrameTrees(items)[i], d) {
          PatchFrameTreeGrows(items[i], d);
        }
        assert Grows(g["childFrames"], Arr(PatchFrameTrees(items)), d);
        GrowsInside(g, "childFrames", Arr(PatchFrameTrees(items)), d);
        GrowsTransitive(node, Obj(g), PatchFrameTree(node), d);
      }
    }
  }

  lemma PatchParamsGrows(event: string, params: Json, d: Additions)
    requires Covers(d)
    ensures Grows(params, PatchParams(event, params), d)
  {
    GrowsReflexive(params, d);
    if params.Obj? {
      if event == "Target.targetCreated" || event == "Target.attachedToTarget" {
        if GetObj(params, "targetInfo").Some? {
          var info := GetObj(params, "targetInfo").value;
          CompletionGrows(info, TARGET_DEFAULTS, d);
          PutGrows(params, "targetInfo", Obj(PatchTargetInfo(info)), d);
        }
      } else if event == "Page.frameNavigated" {
        if GetObj(params, "frame").Some? {
          var frame := GetObj(params, "frame").value;
          CompletionGrows(frame, FRAME_DEFAULTS, d);
          PutGrows(params, "frame", Obj(PatchFrame(frame)), d);
        }
      } else {
        FillBothGrows(params.fields, REQUEST_EVENT_DEFAULTS, "request", REQUEST_DEFAULTS, d);
        FillBothGrows(params.fields, RESPONSE_EVENT_DEFAULTS, "response", RESPONSE_DEFAULTS, d);
      }
    }
  }

  /** Every event keeps all it carried; only listed defaults appear and only empty context ids go. */
  lemma PatchEventGrows(j: Json, d: Additions)
    requires Covers(d)
    ensures Grows(j, PatchEvent(j), d)
  {
    GrowsReflexive(j, d);
    if GetStr(j, "method").Some? && Has(j, "params") {
      PatchParamsGrows(GetStr(j, "method").value, j.fields["params"], d);
      PutGrows(j, "params", PatchEvent(j).fields["params"], d);
    }
  }

  /** So does every reply. */
  lemma PatchResponseGrows(command: string, value: Json, d: Additions)
    requires Covers(d)
    ensures Grows(value, PatchResponse(command, value), d)
  {
    GrowsReflexive(value, d);
    if Has(value, "result") {
      var result := value.fields["result"];
      GrowsReflexive(result, d);
      if command == "Page.getFrameTree" && Has(result, "frameTree") {
        PatchFrameTreeGrows(result.fields["frameTree"], d);
        PutGrows(result, "frameTree", PatchFrameTree(result.fields["frameTree"]), d);
      } else if command == "Target.getTargetInfo" && GetObj(result, "targetInfo").Some? {
        var info := GetObj(result, "targetInfo").value;
        CompletionGrows(info, TARGET_DEFAULTS, d);
        PutGrows(result, "targetInfo", Obj(PatchTargetInfo(info)), d);
      }
      PutGrows(value, "result", PatchResult(command, result), d);
    }
  }

  // ----- complete: every frame of a tree is patched ---------------------------------------

  function AsSeq<T>(o: Option<T>): seq<T> {
    if o.Some? then [o.value] else []
  }

  /** The frame objects of a tree that the shim can reach, in document order. */
  function Frames(node: Json): seq<Fields>
    decreases node, 1
  {
    if !node.Obj? then []
    else AsSeq(OwnFrame(node.fields)) +
         match Children(node.fields) case Some(items) => FramesOf(items) case None => []
  }

  function FramesOf(nodes: seq<Json>): seq<Fields>
    decreases nodes, 0
  {
    if nodes == [] then [] else Frames(nodes[0]) + FramesOf(nodes[1..])
  }

  /** The tree with every reachable frame object emptied: all that is not frame content. */
  function Skeleton(node: Json): Json
    decreases node, 1
  {
    if !node.Obj? then node
    else
      Obj(WithParts(node.fields,
                    match OwnFrame(node.fields) case Some(_) => Some(map[]) case None => None,
                    match Children(node.fields) case Some(items) => Some(Skeletons(items)) case None => None))
  }

  function Skeletons(nodes: seq<Json>): seq<Json>
    decreases nodes, 0
  {
    if nodes == [] then [] else [Skeleton(nodes[0])] + Skeletons(nodes[1..])
  }

  function PatchedAll(frames: seq<Fields>): seq<Fields> {
    seq(|frames|, i requires 0 <= i < |frames| => PatchFrame(frames[i]))
  }

  /** Parts of a node's own kind can be put in, read back, and put in again. */
  lemma WithPartsLaws(f: Fields, frame: Option<Fields>, children: Option<seq<Json>>,
                      frame': Option<Fields>, children': Option<seq<Json>>)
    requires frame.Some? <==> OwnFrame(f).Some?
    requires children.Some? <==> Children(f).Some?
    requires frame'.Some? <==> OwnFrame(f).Some?
    requires children'.Some? <==> Children(f).Some?
    ensures var g := WithParts(f, frame, children);
            && OwnFrame(g) == frame && Children(g) == children
            && WithParts(g, frame', children') == WithParts(f, frame', children')
    ensures WithParts(f, OwnFrame(f), Children(f)) == f
  {}

  function PatchedFrame(f: Fields): Option<Fields> {
    match OwnFrame(f) case Some(frame) => Some(PatchFrame(frame)) case None => None
  }

  function PatchedChildren(f: Fields): Option<seq<Json>> {
    match Children(f) case Some(items) => Some(PatchFrameTrees(items)) case None => None
  }

  function EmptyFrame(f: Fields): Option<Fields> {
    match OwnFrame(f) case Some(_) => Some(map[]) case None => None
  }

  function SkeletonChildren(f: Fields): Option<seq<Json>> {
    match Children(f) case Some(items) => Some(Skeletons(items)) case None => None
  }

  /**
   * Patching a tree of any depth and width patches every reachable frame, keeps their number and
   * order, and leaves everything outside the frames alone.
   */
  lemma {:induction false} FrameTreeIsPatched(node: Json)
    ensures Frames(PatchFrameTree(node)) == PatchedAll(Frames(node))
    ensures Skeleton(PatchFrameTree(node)) == Skeleton(node)
    decreases node, 1
  {
    if node.Obj? {
      var f := node.fields;
      WithPartsLaws(f, PatchedFrame(f), PatchedChildren(f), EmptyFrame(f), SkeletonChildren(f));
      var g := PatchFrameTree(node).fields;
      assert g == WithParts(f, PatchedFrame(f), PatchedChildren(f));
      if Children(f).Some? {
        FrameTreesArePatched(Children(f).value);
      }
      assert SkeletonChildren(g) == SkeletonChildren(f);
      assert EmptyFrame(g) == EmptyFrame(f);
      assert Skeleton(Obj(g)) == Obj(WithParts(g, EmptyFrame(g), SkeletonChildren(g)));
    }
  }

  lemma {:induction false} FrameTreesArePatched(nodes: seq<Json>)
    ensures FramesOf(PatchFrameTrees(nodes)) == PatchedAll(FramesOf(nodes))
    ensures Skeletons(PatchFrameTrees(nodes)) == Skeletons(nodes)
    decreases nodes, 0
  {
    if nodes != [] {
      FrameTreeIsPatched(nodes[0]);
      FrameTreesArePatched(nodes[1..]);
      var ps := PatchFrameTrees(nodes);
      assert ps[0] == PatchFrameTree(nodes[0]) && ps[1..] == PatchFrameTrees(nodes[1..]);
    }
  }

  /** Emptying the frames of a tree keeps their number. */
  lemma {:induction false} SkeletonKeepsCount(node: Json)
    ensures |Frames(Skeleton(node))| == |Frames(node)|
    decreases node, 1
  {
    if node.Obj? {
      var f := node.fields;
      WithPartsLaws(f, EmptyFrame(f), SkeletonChildren(f), EmptyFrame(f), SkeletonChildren(f));
      assert Skeleton(node) == Obj(WithParts(f, EmptyFrame(f), SkeletonChildren(f)));
      if Children(f).Some? {
        SkeletonsKeepCount(Children(f).value);
      }
    }
  }

  lemma {:induction false} SkeletonsKeepCount(nodes: seq<Json>)
    ensures |FramesOf(Skeletons(nodes))| == |FramesOf(nodes)|
    decreases nodes, 0
  {
    if nodes != [] {
      SkeletonKeepsCount(nodes[0]);
      SkeletonsKeepCount(nodes[1..]);
      assert Skeletons(nodes)[0] == Skeleton(nodes[0]) && Skeletons(nodes)[1..] == Skeletons(nodes[1..]);
    }
  }

  /** Skeleton and frames together are the whole tree, so `FrameTreeIsPatched` leaves nothing open. */
  lemma {:induction false} TreeIsSkeletonAndFrames(a: Json, b: Json)
    requires Skeleton(a) == Skeleton(b) && Frames(a) == Frames(b)
    ensures a == b
    decreases a, 1
  {
    if a.Obj? {
      var f, g := a.fields, b.fields;
      WithPartsLaws(f, EmptyFrame(f), SkeletonChildren(f), OwnFrame(f), Children(f));
      WithPartsLaws(g, EmptyFrame(g), SkeletonChildren(g), OwnFrame(g), Children(g));
      var s := Skeleton(a).fields;
      assert s == WithParts(f, EmptyFrame(f), SkeletonChildren(f));
      assert s == WithParts(g, EmptyFrame(g), SkeletonChildren(g));
      var n := |AsSeq(OwnFrame(f))|;
      assert n == |AsSeq(OwnFrame(g))|;
      assert AsSeq(OwnFrame(f)) == Frames(a)[..n] && AsSeq(OwnFrame(g)) == Frames(b)[..n];
      assert OwnFrame(f) == OwnFrame(g);
      if Children(f).Some? {
        assert FramesOf(Children(f).value) == Frames(a)[n..] && FramesOf(Children(g).value) == Frames(b)[n..];
        TreesAreSkeletonsAndFrames(Children(f).value, Children(g).value);
      }
      assert f == WithParts(s, OwnFrame(f), Children(f));
      assert g == WithParts(s, OwnFrame(g), Children(g));
    }
  }

  lemma {:induction false} TreesAreSkeletonsAndFrames(xs: seq<Json>, ys: seq<Json>)
    requires Skeletons(xs) == Skeletons(ys) && FramesOf(xs) == FramesOf(ys)
    ensures xs == ys
    decreases xs, 0
  {
    if xs == [] {
      assert ys == [];
    } else {
      assert ys != [];
      assert Skeleton(xs[0]) == Skeletons(xs)[0] && Skeleton(ys[0]) == Skeletons(ys)[0];
      assert Skeletons(xs[1..]) == Skeletons(xs)[1..] && Skeletons(ys[1..]) == Skeletons(ys)[1..];
      SkeletonKeepsCount(xs[0]);
      SkeletonKeepsCount(ys[0]);
      var n := |Frames(xs[0])|;
      assert Frames(xs[0]) == FramesOf(xs)[..n] && FramesOf(xs[1..]) == FramesOf(xs)[n..];
      assert Frames(ys[0]) == FramesOf(ys)[..n] && FramesOf(ys[1..]) == FramesOf(ys)[n..];
      TreeIsSkeletonAndFrames(xs[0], ys[0]);
      TreesAreSkeletonsAndFrames(xs[1..], ys[1..]);
      assert xs == [xs[0]] + xs[1..] && ys == [ys[0]] + ys[1..];
    }
  }

  // ----- idempotent ---------------------------------------------------------------------

  lemma CompletionIdempotent(f: Fields, d: Fields)
    requires CONTEXT_ID !in d
    ensures var once := DropEmptyContext(FillIn(d, f)); DropEmptyContext(FillIn(d, once)) == once
    ensures FillIn(d, FillIn(d, f)) == FillIn(d, f)
  {}

  lemma PatchFrameTreeIdempotent(node: Json)
    ensures PatchFrameTree(PatchFrameTree(node)) == PatchFrameTree(node)
  {
    var once := PatchFrameTree(node);
    FrameTreeIsPatched(node);
    FrameTreeIsPatched(once);
    forall i | 0 <= i < |Frames(node)| ensures PatchFrame(Frames(once)[i]) == Frames(once)[i] {
      CompletionIdempotent(Frames(node)[i], FRAME_DEFAULTS);
    }
    assert PatchedAll(Frames(once)) == Frames(once);
    TreeIsSkeletonAndFrames(PatchFrameTree(once), once);
  }

  lemma FillBothIdempotent(f: Fields, outer: Fields, key: string, inner: Fields)
    requires key !in outer
    ensures var once := FillInside(FillIn(outer, f), key, inner);
            FillInside(FillIn(outer, once), key, inner) == once
  {
    var once := FillInside(FillIn(outer, f), key, inner);
    assert FillIn(outer, once) == once;
    if key in once && once[key].Obj? {
      assert FillIn(inner, once[key].fields) == once[key].fields;
      assert FillInside(once, key, inner) == once;
    }
  }

  lemma TargetParamsIdempotent(event: string, params: Json)
    requires event == "Target.targetCreated" || event == "Target.attachedToTarget"
    ensures PatchParams(event, PatchParams(event, params)) == PatchParams(event, params)
  {
    if GetObj(params, "targetInfo").Some? {
      CompletionIdempotent(GetObj(params, "targetInfo").value, TARGET_DEFAULTS);
      var once := PatchParams(event, params);
      assert PatchParams(event, once).fields == once.fields;
    }
  }

  lemma FrameParamsIdempotent(params: Json)
    ensures PatchParams("Page.frameNavigated", PatchParams("Page.frameNavigated", params)) ==
            PatchParams("Page.frameNavigated", params)
  {
    if GetObj(params, "frame").Some? {
      CompletionIdempotent(GetObj(params, "frame").value, FRAME_DEFAULTS);
      var once := PatchParams("Page.frameNavigated", params);
      assert PatchParams("Page.frameNavigated", once).fields == once.fields;
    }
  }

  lemma PatchParamsIdempotent(event: string, params: Json)
    ensures PatchParams(event, PatchParams(event, params)) == PatchParams(event, params)
  {
    if params.Obj? {
      if event == "Target.targetCreated" || event == "Target.attachedToTarget" {
        TargetParamsIdempotent(event, params);
      } else if event == "Page.frameNavigated" {
        FrameParamsIdempotent(params);
      } else {
        FillBothIdempotent(params.fields, REQUEST_EVENT_DEFAULTS, "request", REQUEST_DEFAULTS);
        FillBothIdempotent(params.fields, RESPONSE_EVENT_DEFAULTS, "response", RESPONSE_DEFAULTS);
      }
    }
  }

  /** Patching an event that has been patched changes nothing. */
  lemma PatchEventIdempotent(j: Json)
    ensures PatchEvent(PatchEvent(j)) == PatchEvent(j)
  {
    if GetStr(j, "method").Some? && Has(j, "params") {
      var event := GetStr(j, "method").value;
      PatchParamsIdempotent(event, j.fields["params"]);
      var once := PatchEvent(j);
      assert GetStr(once, "method") == Some(event);
      assert PatchEvent(once).fields == once.fields;
    }
  }

  lemma PatchResultIdempotent(command: string, result: Json)
    ensures PatchResult(command, PatchResult(command, result)) == PatchResult(command, result)
  {
    var once := PatchResult(command, result);
    if command == "Page.getFrameTree" && Has(result, "frameTree") {
      PatchFrameTreeIdempotent(result.fields["frameTree"]);
      assert PatchResult(command, once).fields == once.fields;
    } else if command == "Target.getTargetInfo" && GetObj(result, "targetInfo").Some? {
      CompletionIdempotent(GetObj(result, "targetInfo").value, TARGET_DEFAULTS);
      assert PatchResult(command, once).fields == once.fields;
    }
  }

  lemma PatchResponseIdempotent(command: string, value: Json)
    ensures PatchResponse(command, PatchResponse(command, value)) == PatchResponse(command, value)
  {
    if Has(value, "result") {
      PatchResultIdempotent(command, value.fields["result"]);
      var once := PatchResponse(command, value);
      assert PatchResponse(command, once).fields == once.fields;
    }
  }
}
