/**
 * The shim as its two peers see it: which messages it reacts to, what it sends, and what it adds, key by key
 * and value by value.
 */
module CdpWire {
  import opened Prelude
  import opened JsonValues
  import opened CdpPatches
  import opened CdpShim
  import opened CdpRuns

  function In(j: Option<Json>, key: string): Option<Json> {
    match j case Some(v) => Get(v, key) case None => None
  }

  predicate Reads(j: Option<Json>, text: string) {
    j == Some(Str(text))
  }

  predicate IsId(j: Option<Json>) {
    match j case Some(Num(PosInt(_))) => true case _ => false
  }

  // ----- what is reacted to ------------------------------------------------------------------

  /** The server attaches a session to a target. */
  predicate Attaches(m: Step, session: string, target: string) {
    && m.direction == Inbound
    && Reads(Get(m.value, "method"), "Target.attachedToTarget")
    && Reads(In(Get(m.value, "params"), "sessionId"), session)
    && Reads(In(In(Get(m.value, "params"), "targetInfo"), "targetId"), target)
  }

  /** The client sends a command for a session. */
  predicate Asks(m: Step, name: string, session: string) {
    && m.direction == Outbound
    && IsId(Get(m.value, "id"))
    && Reads(Get(m.value, "method"), name)
    && Reads(Get(m.value, "sessionId"), session)
  }

  predicate AsksForEvents(m: Step, session: string) {
    Asks(m, "Page.enable", session) || Asks(m, "Page.setLifecycleEventsEnabled", session)
  }

  lemma CommandIsRead(v: Json, id: nat, name: string)
    ensures CommandOf(v) == Some(Command(id, name)) <==>
            Get(v, "id") == Some(Num(PosInt(id))) && Reads(Get(v, "method"), name)
  {}

  lemma ReplyIsRead(v: Json, id: nat)
    ensures ReplyTo(v) == Some(id) <==>
            Get(v, "id") == Some(Num(PosInt(id))) && (Get(v, "result").Some? || Get(v, "error").Some?)
  {}

  lemma AttachIsRead(m: Step, session: string, target: string)
    ensures Attaches(m, session, target) <==>
            m.direction == Inbound && AttachmentOf(m.value) == Some(Attachment(session, target))
  {}

  lemma AskIsRead(m: Step, session: string)
    ensures AsksForEvents(m, session) <==> m.direction == Outbound && EnabledSession(m.value) == Some(session)
    ensures Asks(m, "Page.setLifecycleEventsEnabled", session) <==>
            && m.direction == Outbound && EnabledSession(m.value) == Some(session)
            && CommandOf(m.value).value.name == SET_LIFECYCLE
  {
    if CommandOf(m.value).Some? {
      CommandIsRead(m.value, CommandOf(m.value).value.id, CommandOf(m.value).value.name);
    }
  }

  /** Before message `n`, the session was last attached to the target. */
  ghost predicate LastAttached(run: seq<Step>, n: nat, session: string, target: string)
    requires n <= |run|
  {
    exists a :: 0 <= a < n && Attaches(run[a], session, target) && NoneAttached(run, a + 1, n, session)
  }

  ghost predicate NoneAttached(run: seq<Step>, from: nat, to: nat, session: string)
    requires from <= to <= |run|
  {
    forall k, t :: from <= k < to ==> !Attaches(run[k], session, t)
  }

  lemma {:induction false} AttachedToIsRead(run: seq<Step>, n: nat, session: string)
    requires n <= |run|
    ensures match AttachedTo(run, n, session)
            case Some(target) => LastAttached(run, n, session, target)
            case None => NoneAttached(run, 0, n, session)
    decreases n
  {
    if n > 0 {
      var m := run[n - 1];
      AttachedToIsRead(run, n - 1, session);
      forall t ensures Attaches(m, session, t) <==>
                       m.direction == Inbound && AttachmentOf(m.value) == Some(Attachment(session, t))
      {
        AttachIsRead(m, session, t);
      }
      match AttachedTo(run, n, session)
      case Some(target) =>
        if Attaches(m, session, target) {
          assert NoneAttached(run, n, n, session);
        } else {
          var a :| 0 <= a < n - 1 && Attaches(run[a], session, target) && NoneAttached(run, a + 1, n - 1, session);
          assert NoneAttached(run, a + 1, n, session);
        }
      case None =>
    }
  }

  lemma LastAttachedIsUnique(run: seq<Step>, n: nat, session: string, s: string, t: string)
    requires n <= |run| && LastAttached(run, n, session, s) && LastAttached(run, n, session, t)
    ensures s == t
  {
    var a :| 0 <= a < n && Attaches(run[a], session, s) && NoneAttached(run, a + 1, n, session);
    var b :| 0 <= b < n && Attaches(run[b], session, t) && NoneAttached(run, b + 1, n, session);
  }

  lemma AttachedToIff(run: seq<Step>, n: nat, session: string, target: string)
    requires n <= |run|
    ensures AttachedTo(run, n, session) == Some(target) <==> LastAttached(run, n, session, target)
  {
    AttachedToIsRead(run, n, session);
    if LastAttached(run, n, session, target) && AttachedTo(run, n, session).Some? {
      LastAttachedIsUnique(run, n, session, target, AttachedTo(run, n, session).value);
    }
  }

  // ----- what is sent -------------------------------------------------------------------------

  /** The first message that asks for a session's events while it is attached; then, to the target. */
  ghost predicate FirstAsk(run: seq<Step>, i: nat, session: string, target: string)
    requires i < |run|
  {
    && AsksForEvents(run[i], session) && LastAttached(run, i, session, target)
    && forall m, t :: 0 <= m < i && AsksForEvents(run[m], session) ==> !LastAttached(run, m, session, t)
  }

  ghost predicate FirstLifecycleAsk(run: seq<Step>, j: nat, session: string, target: string)
    requires j < |run|
  {
    && Asks(run[j], "Page.setLifecycleEventsEnabled", session) && LastAttached(run, j, session, target)
    && forall m, t :: 0 <= m < j && Asks(run[m], "Page.setLifecycleEventsEnabled", session) ==>
         !LastAttached(run, m, session, t)
  }

  lemma EnablesIsRead(run: seq<Step>, n: nat, session: string)
    requires n < |run|
    ensures Enables(run, n, session) <==> AsksForEvents(run[n], session) && exists t :: LastAttached(run, n, session, t)
    ensures EnablesLifecycle(run, n, session) <==>
            Asks(run[n], "Page.setLifecycleEventsEnabled", session) && exists t :: LastAttached(run, n, session, t)
  {
    AskIsRead(run[n], session);
    if AttachedTo(run, n, session).Some? { AttachedToIff(run, n, session, AttachedTo(run, n, session).value); }
    if t :| LastAttached(run, n, session, t) { AttachedToIff(run, n, session, t); }
  }

  lemma FirstAskIsDue(run: seq<Step>, i: nat, session: string, target: string)
    requires i < |run|
    ensures FirstAsk(run, i, session, target) <==>
            FrameDue(run, i, session) && AttachedTo(run, i, session) == Some(target)
    ensures FirstLifecycleAsk(run, i, session, target) <==>
            LifecycleDue(run, i, session) && AttachedTo(run, i, session) == Some(target)
  {
    AttachedToIff(run, i, session, target);
    forall m | 0 <= m <= i
      ensures Enables(run, m, session) <==>
              AsksForEvents(run[m], session) && exists t :: LastAttached(run, m, session, t)
      ensures EnablesLifecycle(run, m, session) <==>
              Asks(run[m], "Page.setLifecycleEventsEnabled", session) && exists t :: LastAttached(run, m, session, t)
    {
      EnablesIsRead(run, m, session);
    }
  }

  /** A blank page's frame, with every field the client requires. */
  predicate IsBlankFrame(f: Option<Json>, frame: string, loader: string) {
    && Reads(In(f, "id"), frame)
    && Reads(In(f, "loaderId"), loader)
    && Reads(In(f, "url"), "about:blank")
    && Reads(In(f, "name"), "about:blank")
    && Reads(In(f, "domainAndRegistry"), "")
    && Reads(In(f, "securityOrigin"), "://")
    && Reads(In(f, "mimeType"), "text/html")
    && Reads(In(f, "secureContextType"), "Secure")
    && Reads(In(f, "crossOriginIsolatedContextType"), "NotIsolated")
    && Reads(In(In(f, "adFrameStatus"), "adFrameType"), "none")
    && In(f, "gatedAPIFeatures") == Some(Arr([]))
  }

  predicate IsNavigation(e: Json, session: string, frame: string, loader: string) {
    && Reads(Get(e, "method"), "Page.frameNavigated")
    && Reads(Get(e, "sessionId"), session)
    && Reads(In(Get(e, "params"), "type"), "Navigation")
    && IsBlankFrame(In(Get(e, "params"), "frame"), frame, loader)
  }

  predicate IsLifecycle(e: Json, session: string, frame: string, loader: string, name: string, timestamp: real) {
    && Reads(Get(e, "method"), "Page.lifecycleEvent")
    && Reads(Get(e, "sessionId"), session)
    && Reads(In(Get(e, "params"), "frameId"), frame)
    && Reads(In(Get(e, "params"), "loaderId"), loader)
    && Reads(In(Get(e, "params"), "name"), name)
    && In(Get(e, "params"), "timestamp") == Some(Num(Float(timestamp)))
  }

  /** The five lifecycle events of a frame, in order. */
  predicate AreLifecycle(es: seq<Json>, session: string, frame: string, loader: string, timestamp: real) {
    && |es| == 5
    && IsLifecycle(es[0], session, frame, loader, "init", timestamp)
    && IsLifecycle(es[1], session, frame, loader, "commit", timestamp)
    && IsLifecycle(es[2], session, frame, loader, "DOMContentLoaded", timestamp)
    && IsLifecycle(es[3], session, frame, loader, "load", timestamp)
    && IsLifecycle(es[4], session, frame, loader, "networkIdle", timestamp)
  }

  lemma BlankFrameIsBuilt(frame: string, loader: string)
    ensures IsBlankFrame(Some(BlankFrame(frame, loader)), frame, loader)
  {}

  lemma NavigationIsBuilt(session: string, frame: string, loader: string)
    ensures IsNavigation(BuildFrameNavigated(session, frame, loader), session, frame, loader)
  {
    BlankFrameIsBuilt(frame, loader);
    var e := BuildFrameNavigated(session, frame, loader);
    assert In(Get(e, "params"), "frame") == Some(BlankFrame(frame, loader));
  }

  lemma LifecycleIsBuilt(session: string, frame: string, loader: string, name: string, timestamp: real)
    ensures var e := LifecycleEvent(session, frame, loader, name, timestamp);
            IsLifecycle(e, session, frame, loader, name, timestamp)
  {}

  lemma LifecyclesAreBuilt(session: string, frame: string, loader: string, timestamp: real)
    ensures AreLifecycle(BuildLifecycle(session, frame, loader, timestamp), session, frame, loader, timestamp)
  {
    LifecycleIsBuilt(session, frame, loader, "init", timestamp);
    LifecycleIsBuilt(session, frame, loader, "commit", timestamp);
    LifecycleIsBuilt(session, frame, loader, "DOMContentLoaded", timestamp);
    LifecycleIsBuilt(session, frame, loader, "load", timestamp);
    LifecycleIsBuilt(session, frame, loader, "networkIdle", timestamp);
  }

  /** A session that has not asked for its events while attached is sent nothing. */
  lemma NothingUnasked(run: seq<Step>, n: nat, session: string)
    requires n <= |run| && forall i, t :: 0 <= i < n ==> !FirstAsk(run, i, session, t)
    ensures SyntheticStream(run, n, session) == []
  {
    if exists i :: 0 <= i < n && Enables(run, i, session) {
      FirstEnabling(run, n, session);
      var i :| 0 <= i < n && FrameDue(run, i, session);
      FirstAskIsDue(run, i, session, AttachedTo(run, i, session).value);
    } else {
      StreamIsEmpty(run, n, session);
    }
  }

  /**
   * Once it has, the first event is the navigation of the frame it was attached to at that moment, and the
   * only one while it has not asked for lifecycle events.
   */
  lemma NavigationIsSent(run: seq<Step>, n: nat, session: string, i: nat, target: string)
    requires i < n <= |run| && FirstAsk(run, i, session, target)
    ensures var sent := SyntheticStream(run, n, session);
            && sent != [] && IsNavigation(sent[0], session, target, run[i].frameLoader)
            && ((forall j, t :: 0 <= j < n ==> !FirstLifecycleAsk(run, j, session, t)) ==> |sent| == 1)
  {
    FirstAskIsDue(run, i, session, target);
    NavigationIsBuilt(session, target, run[i].frameLoader);
    if exists j :: 0 <= j < n && EnablesLifecycle(run, j, session) {
      FirstLifecycle(run, n, session);
      var j :| 0 <= j < n && LifecycleDue(run, j, session);
      FirstAskIsDue(run, j, session, AttachedTo(run, j, session).value);
      StreamIsNavigationAndLifecycle(run, n, session, i, j);
    } else {
      StreamIsNavigation(run, n, session, i);
    }
  }

  /**
   * From the first time it asks for lifecycle events while attached, the rest of what it is sent is the five of
   * them, once, of the frame it was attached to then.
   */
  lemma LifecycleIsSent(run: seq<Step>, n: nat, session: string, j: nat, target: string)
    requires j < n <= |run| && FirstLifecycleAsk(run, j, session, target)
    ensures var sent := SyntheticStream(run, n, session);
            sent != [] && AreLifecycle(sent[1..], session, target, run[j].lifecycleLoader, run[j].timestamp)
  {
    FirstAskIsDue(run, j, session, target);
    assert Enables(run, j, session);
    FirstEnabling(run, n, session);
    var i :| 0 <= i < n && FrameDue(run, i, session);
    StreamIsNavigationAndLifecycle(run, n, session, i, j);
    LifecyclesAreBuilt(session, target, run[j].lifecycleLoader, run[j].timestamp);
    assert SyntheticStream(run, n, session)[1..]
           == BuildLifecycle(session, target, run[j].lifecycleLoader, run[j].timestamp);
  }

  // ----- what is added --------------------------------------------------------------------------

  /** The value it had, or this one. */
  predicate Defaulted(before: Fields, after: Fields, key: string, value: Json) {
    key in after && after[key] == if key in before then before[key] else value
  }

  predicate SameAt(before: Fields, after: Fields, key: string) {
    (key in before <==> key in after) && (key in before ==> after[key] == before[key])
  }

  ghost predicate SameBut(before: Fields, after: Fields, keys: set<string>) {
    forall k :: k !in keys ==> SameAt(before, after, k)
  }

  /** Dropped if it was the empty string, and else as it was. */
  predicate ContextDropped(before: Fields, after: Fields) {
    if "browserContextId" in before && before["browserContextId"] == Str("") then "browserContextId" !in after
    else SameAt(before, after, "browserContextId")
  }

  ghost predicate TargetCompleted(before: Fields, after: Fields) {
    && Defaulted(before, after, "canAccessOpener", Bool(false))
    && ContextDropped(before, after)
    && SameBut(before, after, {"canAccessOpener", "browserContextId"})
  }

  ghost predicate FrameCompleted(before: Fields, after: Fields) {
    && Defaulted(before, after, "secureContextType", Str("Secure"))
    && Defaulted(before, after, "crossOriginIsolatedContextType", Str("NotIsolated"))
    && Defaulted(before, after, "gatedAPIFeatures", Arr([]))
    && ContextDropped(before, after)
    && SameBut(before, after,
         {"secureContextType", "crossOriginIsolatedContextType", "gatedAPIFeatures", "browserContextId"})
  }

  ghost predicate RequestCompleted(before: Fields, after: Fields) {
    && Defaulted(before, after, "initialPriority", Str("Medium"))
    && Defaulted(before, after, "referrerPolicy", Str("no-referrer-when-downgrade"))
    && SameBut(before, after, {"initialPriority", "referrerPolicy"})
  }

  ghost predicate ResponseCompleted(before: Fields, after: Fields) {
    && Defaulted(before, after, "charset", Str(""))
    && Defaulted(before, after, "connectionReused", Bool(false))
    && Defaulted(before, after, "connectionId", Num(Float(0.0)))
    && Defaulted(before, after, "encodedDataLength", Num(Float(0.0)))
    && Defaulted(before, after, "securityState", Str("unknown"))
    && SameBut(before, after, {"charset", "connectionReused", "connectionId", "encodedDataLength", "securityState"})
  }

  /** An object under the key becomes another, so related; anything else is left. */
  ghost predicate ObjectAt(before: Fields, after: Fields, key: string, related: (Fields, Fields) -> bool) {
    if key in before && before[key].Obj?
    then key in after && after[key].Obj? && related(before[key].fields, after[key].fields)
    else SameAt(before, after, key)
  }

  ghost predicate TargetParams(p: Fields, q: Fields) {
    SameBut(p, q, {"targetInfo"}) && ObjectAt(p, q, "targetInfo", TargetCompleted)
  }

  ghost predicate FrameParams(p: Fields, q: Fields) {
    SameBut(p, q, {"frame"}) && ObjectAt(p, q, "frame", FrameCompleted)
  }

  ghost predicate RequestParams(p: Fields, q: Fields) {
    && Defaulted(p, q, "redirectHasExtraInfo", Bool(false))
    && SameBut(p, q, {"redirectHasExtraInfo", "request"}) && ObjectAt(p, q, "request", RequestCompleted)
  }

  ghost predicate ResponseParams(p: Fields, q: Fields) {
    && Defaulted(p, q, "hasExtraInfo", Bool(false))
    && SameBut(p, q, {"hasExtraInfo", "response"}) && ObjectAt(p, q, "response", ResponseCompleted)
  }

  /** Only the object under one key of the message changes. */
  ghost predicate MessageAt(v: Json, w: Json, key: string, related: (Fields, Fields) -> bool) {
    v.Obj? && w.Obj? && SameBut(v.fields, w.fields, {key}) && ObjectAt(v.fields, w.fields, key, related)
  }

  lemma TargetIsCompleted(f: Fields)
    ensures TargetCompleted(f, PatchTargetInfo(f))
  {}

  lemma FrameIsCompleted(f: Fields)
    ensures FrameCompleted(f, PatchFrame(f))
  {}

  lemma RequestIsCompleted(f: Fields)
    ensures RequestParams(f, PatchRequestWillBeSent(f))
  {}

  lemma ResponseIsCompleted(f: Fields)
    ensures ResponseParams(f, PatchResponseReceived(f))
  {}

  /** Only `params` is touched, and as its patcher does. */
  lemma ParamsAreReplaced(v: Json, event: string, related: (Fields, Fields) -> bool)
    requires Reads(Get(v, "method"), event)
    requires GetObj(v, "params").Some? ==>
               var q := PatchParams(event, v.fields["params"]); q.Obj? && related(v.fields["params"].fields, q.fields)
    ensures MessageAt(v, PatchEvent(v), "params", related)
  {}

  /** What the client gets of each kind of event, key by key. */
  lemma TargetEventIsPatched(v: Json, event: string)
    requires Reads(Get(v, "method"), event) && event in {"Target.targetCreated", "Target.attachedToTarget"}
    ensures MessageAt(v, PatchEvent(v), "params", TargetParams)
  {
    if GetObj(v, "params").Some? {
      var p := v.fields["params"];
      if GetObj(p, "targetInfo").Some? { TargetIsCompleted(p.fields["targetInfo"].fields); }
      assert TargetParams(p.fields, PatchParams(event, p).fields);
    }
    ParamsAreReplaced(v, event, TargetParams);
  }

  lemma FrameEventIsPatched(v: Json)
    requires Reads(Get(v, "method"), "Page.frameNavigated")
    ensures MessageAt(v, PatchEvent(v), "params", FrameParams)
  {
    if GetObj(v, "params").Some? {
      var p := v.fields["params"];
      if GetObj(p, "frame").Some? { FrameIsCompleted(p.fields["frame"].fields); }
      assert FrameParams(p.fields, PatchParams("Page.frameNavigated", p).fields);
    }
    ParamsAreReplaced(v, "Page.frameNavigated", FrameParams);
  }

  lemma RequestEventIsPatched(v: Json)
    requires Reads(Get(v, "method"), "Network.requestWillBeSent")
    ensures MessageAt(v, PatchEvent(v), "params", RequestParams)
  {
    if GetObj(v, "params").Some? { RequestIsCompleted(v.fields["params"].fields); }
    ParamsAreReplaced(v, "Network.requestWillBeSent", RequestParams);
  }

  lemma ResponseEventIsPatched(v: Json)
    requires Reads(Get(v, "method"), "Network.responseReceived")
    ensures MessageAt(v, PatchEvent(v), "params", ResponseParams)
  {
    if GetObj(v, "params").Some? { ResponseIsCompleted(v.fields["params"].fields); }
    ParamsAreReplaced(v, "Network.responseReceived", ResponseParams);
  }

  /** One of the events that are patched. */
  predicate IsPatchedEvent(v: Json) {
    var name := Get(v, "method");
    || Reads(name, "Target.targetCreated") || Reads(name, "Target.attachedToTarget")
    || Reads(name, "Page.frameNavigated")
    || Reads(name, "Network.requestWillBeSent") || Reads(name, "Network.responseReceived")
  }

  lemma OtherMessagesAreUntouched(v: Json)
    requires !IsPatchedEvent(v)
    ensures PatchEvent(v) == v
  {
    if GetStr(v, "method").Some? && Has(v, "params") {
      assert Put(v, "params", v.fields["params"]).fields == v.fields;
    }
  }

  /** A reply to any other command is passed on as it is. */
  lemma OtherRepliesAreUntouched(command: string, v: Json)
    requires command != "Page.getFrameTree" && command != "Target.getTargetInfo"
    ensures PatchResponse(command, v) == v
  {
    if Has(v, "result") { assert Put(v, "result", v.fields["result"]).fields == v.fields; }
  }

  function ResultAt(v: Json, key: string): Option<Json> {
    In(Get(v, "result"), key)
  }

  lemma TargetInfoReplyIsPatched(v: Json)
    ensures PatchResponse("Target.getTargetInfo", v) == v
            || MessageAt(v, PatchResponse("Target.getTargetInfo", v), "result", TargetParams)
    ensures ResultAt(v, "targetInfo").Some? && ResultAt(v, "targetInfo").value.Obj? ==>
              MessageAt(v, PatchResponse("Target.getTargetInfo", v), "result", TargetParams)
  {
    if Has(v, "result") {
      var r := v.fields["result"];
      if GetObj(r, "targetInfo").Some? {
        TargetIsCompleted(r.fields["targetInfo"].fields);
        assert TargetParams(r.fields, PatchResult("Target.getTargetInfo", r).fields);
      } else {
        assert Put(v, "result", r).fields == v.fields;
      }
    }
  }

  /** The frames of a tree: the one of its root, then those of its children in order. */
  function FramesIn(node: Json): seq<Fields>
    decreases node, 1
  {
    (match Get(node, "frame") case Some(Obj(f)) => [f] case _ => []) +
    match Get(node, "childFrames") case Some(Arr(items)) => FramesInAll(items) case _ => []
  }

  function FramesInAll(nodes: seq<Json>): seq<Fields>
    decreases nodes, 0
  {
    if nodes == [] then [] else FramesIn(nodes[0]) + FramesInAll(nodes[1..])
  }

  lemma {:induction false} FramesAreRead(node: Json)
    ensures Frames(node) == FramesIn(node)
    decreases node, 1
  {
    if node.Obj? && Children(node.fields).Some? { AllFramesAreRead(Children(node.fields).value); }
  }

  lemma {:induction false} AllFramesAreRead(nodes: seq<Json>)
    ensures FramesOf(nodes) == FramesInAll(nodes)
    decreases nodes, 0
  {
    if nodes != [] {
      FramesAreRead(nodes[0]);
      AllFramesAreRead(nodes[1..]);
    }
  }

  /** Of a frame-tree reply only the tree changes, and in it every frame as a frame event's. */
  lemma FrameTreeReplyIsPatched(v: Json)
    requires ResultAt(v, "frameTree").Some?
    ensures var w := PatchResponse("Page.getFrameTree", v);
            && w.Obj? && SameBut(v.fields, w.fields, {"result"})
            && Get(w, "result").Some? && w.fields["result"].Obj?
            && SameBut(v.fields["result"].fields, w.fields["result"].fields, {"frameTree"})
            && ResultAt(w, "frameTree").Some?
            && var t, u := ResultAt(v, "frameTree").value, ResultAt(w, "frameTree").value;
               && Skeleton(u) == Skeleton(t) && |FramesIn(u)| == |FramesIn(t)|
               && forall i :: 0 <= i < |FramesIn(t)| ==> FrameCompleted(FramesIn(t)[i], FramesIn(u)[i])
  {
    var t := ResultAt(v, "frameTree").value;
    FrameTreeIsPatched(t);
    FramesAreRead(t);
    FramesAreRead(PatchFrameTree(t));
    forall i | 0 <= i < |Frames(t)| ensures FrameCompleted(Frames(t)[i], PatchFrame(Frames(t)[i])) {
      FrameIsCompleted(Frames(t)[i]);
    }
  }
}
