/**
 * What the shim does over whole message sequences: which commands are outstanding, which reply is
 * shaped by which command, and which synthetic events a session is sent.
 */
module CdpRuns {
  import opened Prelude
  import opened JsonValues
  import opened CdpPatches
  import opened CdpShim

  /** The state after the first `n` messages of a run on a fresh connection. */
  function StateAt(run: seq<Step>, n: nat): Shim
    requires n <= |run|
  {
    if n == 0 then FRESH else Handle(StateAt(run, n - 1), run[n - 1]).0
  }

  /** What message `n` is turned into. */
  function ValueAt(run: seq<Step>, n: nat): Json
    requires n < |run|
  {
    Handle(StateAt(run, n), run[n]).1
  }

  /** The synthetic events message `n` gives rise to. */
  function ExtrasAt(run: seq<Step>, n: nat): seq<Json>
    requires n < |run|
  {
    Handle(StateAt(run, n), run[n]).2
  }

  // ----- outstanding commands -----------------------------------------------------------

  predicate Sends(m: Step, id: nat, name: string) {
    m.direction == Outbound && CommandOf(m.value) == Some(Command(id, name))
  }

  /** A command under the same id, or a result or error for it. */
  predicate Supersedes(m: Step, id: nat) {
    || (m.direction == Outbound && CommandOf(m.value).Some? && CommandOf(m.value).value.id == id)
    || (m.direction == Inbound && ReplyTo(m.value) == Some(id))
  }

  /** Command `i` of the run is the latest one under its id and has not been answered before `n`. */
  ghost predicate Outstanding(run: seq<Step>, i: nat, n: nat, id: nat, name: string)
    requires n <= |run|
  {
    i < n && Sends(run[i], id, name) && forall j :: i < j < n ==> !Supersedes(run[j], id)
  }

  /** How one message changes the entry of `id`. */
  ghost predicate PendingStep(pending: map<nat, string>, m: Step, id: nat, pending': map<nat, string>) {
    && (!Supersedes(m, id) ==>
          && (id in pending' <==> id in pending)
          && (id in pending ==> pending'[id] == pending[id]))
    && (m.direction == Inbound && ReplyTo(m.value) == Some(id) ==> id !in pending')
    && (m.direction == Outbound && CommandOf(m.value).Some? && CommandOf(m.value).value.id == id ==>
          id in pending' && pending'[id] == CommandOf(m.value).value.name)
  }

  lemma OutboundStepsPending(st: Shim, m: Step, id: nat)
    requires m.direction == Outbound
    ensures PendingStep(st.pending, m, id, HandleOutbound(st, m).0.pending)
  {}

  lemma InboundStepsPending(st: Shim, m: Step, id: nat)
    requires m.direction == Inbound
    ensures PendingStep(st.pending, m, id, HandleInbound(st, m).0.pending)
  {}

  lemma HandleStepsPending(st: Shim, m: Step, id: nat)
    ensures PendingStep(st.pending, m, id, Handle(st, m).0.pending)
  {
    match m.direction
    case Inbound => InboundStepsPending(st, m, id);
    case Outbound => OutboundStepsPending(st, m, id);
  }

  ghost predicate Waiting(run: seq<Step>, n: nat, id: nat, name: string)
    requires n <= |run|
  {
    exists i: nat :: Outstanding(run, i, n, id, name)
  }

  predicate Holds(pending: map<nat, string>, id: nat, name: string) {
    id in pending && pending[id] == name
  }

  lemma WaitingStep(
    run: seq<Step>, n: nat, id: nat, name: string, pending: map<nat, string>, pending': map<nat, string>)
    requires 0 < n <= |run| && PendingStep(pending, run[n - 1], id, pending')
    requires Holds(pending, id, name) <==> Waiting(run, n - 1, id, name)
    ensures Holds(pending', id, name) <==> Waiting(run, n, id, name)
  {
    var m := run[n - 1];
    if Supersedes(m, id) {
      if Sends(m, id, name) {
        assert Outstanding(run, n - 1, n, id, name);
      }
    } else {
      if Waiting(run, n - 1, id, name) {
        var i: nat :| Outstanding(run, i, n - 1, id, name);
        assert Outstanding(run, i, n, id, name);
      }
      if Waiting(run, n, id, name) {
        var i: nat :| Outstanding(run, i, n, id, name);
        assert Outstanding(run, i, n - 1, id, name);
      }
    }
  }

  /** The map holds exactly the commands still waiting for a result or an error. */
  lemma {:induction false} PendingIsExact(run: seq<Step>, n: nat, id: nat, name: string)
    requires n <= |run|
    ensures Holds(StateAt(run, n).pending, id, name) <==> exists i: nat :: Outstanding(run, i, n, id, name)
    decreases n
  {
    if n > 0 {
      PendingIsExact(run, n - 1, id, name);
      HandleStepsPending(StateAt(run, n - 1), run[n - 1], id);
      WaitingStep(run, n, id, name, StateAt(run, n - 1).pending, StateAt(run, n).pending);
    }
  }

  /**
   * A server message is turned into its event-patched form, shaped by a command exactly when it is a
   * result for an outstanding one; a reply under an untracked id gets no response patch.
   */
  lemma ReplyIsShapedByItsCommand(run: seq<Step>, n: nat, i: nat, name: string)
    requires n < |run| && run[n].direction == Inbound
    ensures var v := PatchEvent(run[n].value);
            match ReplyTo(v)
            case None => ValueAt(run, n) == v
            case Some(id) =>
              && (Outstanding(run, i, n, id, name) && Has(v, "result") ==> ValueAt(run, n) == PatchResponse(name, v))
              && (!Has(v, "result") || (forall c :: !Waiting(run, n, id, c)) ==> ValueAt(run, n) == v)
  {
    var v := PatchEvent(run[n].value);
    if ReplyTo(v).Some? {
      var id, pending := ReplyTo(v).value, StateAt(run, n).pending;
      PendingIsExact(run, n, id, name);
      assert Outstanding(run, i, n, id, name) ==> Waiting(run, n, id, name);
      if id in pending {
        PendingIsExact(run, n, id, pending[id]);
        assert Holds(pending, id, pending[id]);
        assert Waiting(run, n, id, pending[id]);
      }
    }
  }

  /** A message that sends some command under this id. */
  predicate SendsUnder(m: Step, id: nat) {
    m.direction == Outbound && CommandOf(m.value).Some? && CommandOf(m.value).value.id == id
  }

  /** A command shapes one reply only: a second one under its id gets no response patch. */
  lemma CommandShapesOneReply(run: seq<Step>, n1: nat, n2: nat, id: nat)
    requires n1 < n2 < |run| && run[n1].direction == Inbound && run[n2].direction == Inbound
    requires ReplyTo(run[n1].value) == Some(id) && ReplyTo(run[n2].value) == Some(id)
    requires forall k :: n1 < k < n2 ==> !SendsUnder(run[k], id)
    ensures ValueAt(run, n2) == PatchEvent(run[n2].value)
  {
    PatchEventKeepsReply(run[n2].value);
    assert Supersedes(run[n1], id);
    forall c ensures !Waiting(run, n2, id, c) {
      forall i: nat ensures !Outstanding(run, i, n2, id, c) {
        if n1 < i < n2 { assert !SendsUnder(run[i], id); }
      }
    }
    ReplyIsShapedByItsCommand(run, n2, 0, "");
  }

  // ----- synthetic events -------------------------------------------------------------------

  /** The target most recently attached to `session` before message `n`. */
  function AttachedTo(run: seq<Step>, n: nat, session: string): Option<string>
    requires n <= |run|
  {
    if n == 0 then None
    else
      var m := run[n - 1];
      var a := AttachmentOf(m.value);
      if m.direction == Inbound && a.Some? && a.value.session == session then Some(a.value.target)
      else AttachedTo(run, n - 1, session)
  }

  /** Message `n` enables page events for a session that is attached by then. */
  predicate Enables(run: seq<Step>, n: nat, session: string)
    requires n < |run|
  {
    run[n].direction == Outbound && EnabledSession(run[n].value) == Some(session) && AttachedTo(run, n, session).Some?
  }

  predicate EnablesLifecycle(run: seq<Step>, n: nat, session: string)
    requires n < |run|
  {
    Enables(run, n, session) && CommandOf(run[n].value).value.name == SET_LIFECYCLE
  }

  /** Message `n` is the first to enable page events after an attach. */
  ghost predicate FrameDue(run: seq<Step>, n: nat, session: string)
    requires n < |run|
  {
    Enables(run, n, session) && forall m :: 0 <= m < n ==> !Enables(run, m, session)
  }

  ghost predicate LifecycleDue(run: seq<Step>, n: nat, session: string)
    requires n < |run|
  {
    EnablesLifecycle(run, n, session) && forall m :: 0 <= m < n ==> !EnablesLifecycle(run, m, session)
  }

  /** The session tables say what the run says. */
  ghost predicate Tracks(run: seq<Step>, n: nat, session: string, st: Shim)
    requires n <= |run|
  {
    && (session in st.sessionFrames <==> AttachedTo(run, n, session).Some?)
    && (session in st.sessionFrames ==> AttachedTo(run, n, session) == Some(st.sessionFrames[session]))
    && (Flag(st.frameEmitted, session) <==> exists m :: 0 <= m < n && Enables(run, m, session))
    && (Flag(st.lifecycleEmitted, session) <==> exists m :: 0 <= m < n && EnablesLifecycle(run, m, session))
  }

  /** How one message changes the tables of `session`. */
  ghost predicate SessionStep(st: Shim, m: Step, session: string, st': Shim) {
    match m.direction
    case Inbound =>
      var a := AttachmentOf(m.value);
      && st'.frameEmitted == st.frameEmitted && st'.lifecycleEmitted == st.lifecycleEmitted
      && (a.Some? && a.value.session == session ==>
          session in st'.sessionFrames && st'.sessionFrames[session] == a.value.target)
      && (!(a.Some? && a.value.session == session) ==>
            && (session in st'.sessionFrames <==> session in st.sessionFrames)
            && (session in st.sessionFrames ==> st'.sessionFrames[session] == st.sessionFrames[session]))
    case Outbound =>
      var enabled := EnabledSession(m.value) == Some(session) && session in st.sessionFrames;
      && st'.sessionFrames == st.sessionFrames
      && (Flag(st'.frameEmitted, session) <==> Flag(st.frameEmitted, session) || enabled)
      && (Flag(st'.lifecycleEmitted, session) <==>
            Flag(st.lifecycleEmitted, session) || (enabled && CommandOf(m.value).value.name == SET_LIFECYCLE))
  }

  lemma OutboundStepsSession(st: Shim, m: Step, session: string)
    requires m.direction == Outbound
    ensures SessionStep(st, m, session, HandleOutbound(st, m).0)
  {}

  lemma InboundStepsSession(st: Shim, m: Step, session: string)
    requires m.direction == Inbound
    ensures SessionStep(st, m, session, HandleInbound(st, m).0)
  {
    PatchEventKeepsAttachment(m.value);
  }

  lemma HandleStepsSession(st: Shim, m: Step, session: string)
    ensures SessionStep(st, m, session, Handle(st, m).0)
  {
    match m.direction
    case Inbound => InboundStepsSession(st, m, session);
    case Outbound => OutboundStepsSession(st, m, session);
  }

  lemma TracksStep(run: seq<Step>, n: nat, session: string, st: Shim, st': Shim)
    requires 0 < n <= |run| && Tracks(run, n - 1, session, st) && SessionStep(st, run[n - 1], session, st')
    ensures Tracks(run, n, session, st')
  {
    assert (exists m :: 0 <= m < n && Enables(run, m, session))
           <==> (exists m :: 0 <= m < n - 1 && Enables(run, m, session)) || Enables(run, n - 1, session);
    assert (exists m :: 0 <= m < n && EnablesLifecycle(run, m, session))
           <==>
           || (exists m :: 0 <= m < n - 1 && EnablesLifecycle(run, m, session))
           || EnablesLifecycle(run, n - 1, session);
  }

  lemma {:induction false} SessionTablesTrack(run: seq<Step>, n: nat, session: string)
    requires n <= |run|
    ensures Tracks(run, n, session, StateAt(run, n))
    decreases n
  {
    if n > 0 {
      SessionTablesTrack(run, n - 1, session);
      HandleStepsSession(StateAt(run, n - 1), run[n - 1], session);
      TracksStep(run, n, session, StateAt(run, n - 1), StateAt(run, n));
    }
  }

  /**
   * Exactly what message `n` causes to be sent to the client: the initial navigation if it is the
   * first enabling command after an attach, the five lifecycle events if it is the first to enable
   * them, both carrying the target attached most recently, and nothing else ever.
   */
  lemma ExtrasAreExact(run: seq<Step>, n: nat, session: string)
    requires n < |run|
    ensures run[n].direction == Inbound ==> ExtrasAt(run, n) == []
    ensures run[n].direction == Outbound && EnabledSession(run[n].value).None? ==> ExtrasAt(run, n) == []
    ensures run[n].direction == Outbound && EnabledSession(run[n].value) == Some(session) ==>
              ExtrasAt(run, n) == DueAt(run, n, session)
  {
    SessionTablesTrack(run, n, session);
  }

  ghost function DueAt(run: seq<Step>, n: nat, session: string): seq<Json>
    requires n < |run|
  {
    (if FrameDue(run, n, session)
     then [BuildFrameNavigated(session, AttachedTo(run, n, session).value, run[n].frameLoader)] else []) +
    if LifecycleDue(run, n, session)
    then BuildLifecycle(session, AttachedTo(run, n, session).value, run[n].lifecycleLoader, run[n].timestamp) else []
  }

  /** The elements that satisfy a predicate, in order. */
  function Keep<T>(items: seq<T>, wanted: T -> bool): seq<T> {
    if items == [] then [] else (if wanted(items[0]) then [items[0]] else []) + Keep(items[1..], wanted)
  }

  function IsFor(session: string): Json -> bool {
    event => GetStr(event, "sessionId") == Some(session)
  }

  function ForSession(events: seq<Json>, session: string): seq<Json> {
    Keep(events, IsFor(session))
  }

  function Concat(parts: seq<seq<Json>>): seq<Json> {
    if parts == [] then [] else Concat(parts[..|parts| - 1]) + parts[|parts| - 1]
  }

  /** All the synthetic events sent for `session` by the first `n` messages, in order. */
  function SyntheticStream(run: seq<Step>, n: nat, session: string): seq<Json>
    requires n <= |run|
  {
    Concat(seq(n, i requires 0 <= i < n => ForSession(ExtrasAt(run, i), session)))
  }

  lemma {:induction false} KeepAllOrNone<T>(items: seq<T>, wanted: T -> bool)
    ensures (forall x :: x in items ==> wanted(x)) ==> Keep(items, wanted) == items
    ensures (forall x :: x in items ==> !wanted(x)) ==> Keep(items, wanted) == []
  {
    if items != [] {
      KeepAllOrNone(items[1..], wanted);
      assert items == [items[0]] + items[1..];
    }
  }

  lemma ForSessionAll(events: seq<Json>, owner: string, session: string)
    requires forall e :: e in events ==> GetStr(e, "sessionId") == Some(owner)
    ensures ForSession(events, session) == if owner == session then events else []
  {
    KeepAllOrNone(events, IsFor(session));
  }

  lemma BuiltForSession(session: string, frame: string, loader: string, timestamp: real)
    ensures GetStr(BuildFrameNavigated(session, frame, loader), "sessionId") == Some(session)
    ensures forall e :: e in BuildLifecycle(session, frame, loader, timestamp) ==>
            GetStr(e, "sessionId") == Some(session)
  {}

  lemma StreamStep(run: seq<Step>, n: nat, session: string)
    requires n < |run|
    ensures ForSession(ExtrasAt(run, n), session) == DueAt(run, n, session)
  {
    ExtrasAreExact(run, n, session);
    var owner := EnabledSession(run[n].value);
    if run[n].direction == Outbound && owner.Some? {
      ExtrasAreExact(run, n, owner.value);
      if FrameDue(run, n, owner.value) || LifecycleDue(run, n, owner.value) {
        BuiltForSession(owner.value, AttachedTo(run, n, owner.value).value, run[n].frameLoader, run[n].timestamp);
        BuiltForSession(owner.value, AttachedTo(run, n, owner.value).value, run[n].lifecycleLoader, run[n].timestamp);
      }
      ForSessionAll(ExtrasAt(run, n), owner.value, session);
    }
  }

  /** What falls due for `session` at each message. */
  ghost function Dues(run: seq<Step>, n: nat, session: string): seq<seq<Json>>
    requires n <= |run|
  {
    seq(n, i requires 0 <= i < n => DueAt(run, i, session))
  }

  lemma StreamIsDues(run: seq<Step>, n: nat, session: string)
    requires n <= |run|
    ensures SyntheticStream(run, n, session) == Concat(Dues(run, n, session))
  {
    var parts := seq(n, i requires 0 <= i < n => ForSession(ExtrasAt(run, i), session));
    forall i | 0 <= i < n ensures parts[i] == Dues(run, n, session)[i] {
      StreamStep(run, i, session);
    }
    assert parts == Dues(run, n, session);
  }

  /** Only the parts at `i` and `j` can be non-empty. */
  lemma {:induction false} ConcatTwo(parts: seq<seq<Json>>, i: nat, j: nat)
    requires i <= j
    requires forall k :: 0 <= k < |parts| && k != i && k != j ==> parts[k] == []
    ensures Concat(parts) == (if i < |parts| then parts[i] else []) + if i < j < |parts| then parts[j] else []
  {
    if parts != [] {
      ConcatTwo(parts[..|parts| - 1], i, j);
    }
  }

  /** Before a session is enabled after an attach, it is sent nothing. */
  lemma StreamIsEmpty(run: seq<Step>, n: nat, session: string)
    requires n <= |run| && forall m :: 0 <= m < n ==> !Enables(run, m, session)
    ensures SyntheticStream(run, n, session) == []
  {
    StreamIsDues(run, n, session);
    ConcatTwo(Dues(run, n, session), n, n);
  }

  /** Enabled but never for lifecycle events: the one navigation, at the first enabling command. */
  lemma StreamIsNavigation(run: seq<Step>, n: nat, session: string, i: nat)
    requires i < n <= |run| && FrameDue(run, i, session)
    requires forall m :: 0 <= m < n ==> !EnablesLifecycle(run, m, session)
    ensures SyntheticStream(run, n, session)
            == [BuildFrameNavigated(session, AttachedTo(run, i, session).value, run[i].frameLoader)]
  {
    StreamIsDues(run, n, session);
    ConcatTwo(Dues(run, n, session), i, i);
  }

  /** Enabled for lifecycle events: the navigation, then the five lifecycle events, each once. */
  lemma StreamIsNavigationAndLifecycle(run: seq<Step>, n: nat, session: string, i: nat, j: nat)
    requires i < n <= |run| && j < n && FrameDue(run, i, session) && LifecycleDue(run, j, session)
    ensures i <= j
    ensures SyntheticStream(run, n, session)
            == [BuildFrameNavigated(session, AttachedTo(run, i, session).value, run[i].frameLoader)]
               + BuildLifecycle(session, AttachedTo(run, j, session).value, run[j].lifecycleLoader, run[j].timestamp)
  {
    assert Enables(run, j, session);
    StreamIsDues(run, n, session);
    var dues := Dues(run, n, session);
    forall k | 0 <= k < |dues| && k != i && k != j ensures dues[k] == [] {
      assert !FrameDue(run, k, session) && !LifecycleDue(run, k, session);
    }
    ConcatTwo(dues, i, j);
    DueParts(run, i, j, session);
    assert dues[i] == DueAt(run, i, session) && dues[j] == DueAt(run, j, session);
  }

  lemma DueParts(run: seq<Step>, i: nat, j: nat, session: string)
    requires i <= j < |run| && FrameDue(run, i, session) && LifecycleDue(run, j, session)
    ensures DueAt(run, i, session) + (if i < j then DueAt(run, j, session) else [])
            == [BuildFrameNavigated(session, AttachedTo(run, i, session).value, run[i].frameLoader)]
               + BuildLifecycle(session, AttachedTo(run, j, session).value, run[j].lifecycleLoader, run[j].timestamp)
  {}

  /** First message of the run with the given property, if any. */
  lemma {:induction false} FirstEnabling(run: seq<Step>, n: nat, session: string)
    requires n <= |run| && exists m :: 0 <= m < n && Enables(run, m, session)
    ensures exists i :: 0 <= i < n && FrameDue(run, i, session)
    decreases n
  {
    if exists m :: 0 <= m < n - 1 && Enables(run, m, session) {
      FirstEnabling(run, n - 1, session);
    } else {
      assert FrameDue(run, n - 1, session);
    }
  }

  lemma {:induction false} FirstLifecycle(run: seq<Step>, n: nat, session: string)
    requires n <= |run| && exists m :: 0 <= m < n && EnablesLifecycle(run, m, session)
    ensures exists j :: 0 <= j < n && LifecycleDue(run, j, session)
    decreases n
  {
    if exists m :: 0 <= m < n - 1 && EnablesLifecycle(run, m, session) {
      FirstLifecycle(run, n - 1, session);
    } else {
      assert LifecycleDue(run, n - 1, session);
    }
  }

  /** The shape of a session's synthetic events: each by its method, lifecycle events by their name. */
  function EventNames(events: seq<Json>): seq<string> {
    if events == [] then [] else [EventName(events[0])] + EventNames(events[1..])
  }

  function EventName(event: Json): string {
    match GetStr(event, "method")
    case Some(m) =>
      if m != "Page.lifecycleEvent" then m
      else (match Get(event, "params")
            case Some(p) => (match GetStr(p, "name") case Some(s) => s case None => "")
            case None => "")
    case None => ""
  }

  lemma NameOfLifecycle(session: string, frame: string, loader: string, name: string, timestamp: real)
    ensures EventName(LifecycleEvent(session, frame, loader, name, timestamp)) == name
  {
    var e := LifecycleEvent(session, frame, loader, name, timestamp);
    assert GetStr(e, "method") == Some("Page.lifecycleEvent");
    assert Get(e, "params").Some? && GetStr(Get(e, "params").value, "name") == Some(name);
  }

  lemma NameOfNavigation(session: string, frame: string, loader: string)
    ensures EventName(BuildFrameNavigated(session, frame, loader)) == "Page.frameNavigated"
  {
    assert GetStr(BuildFrameNavigated(session, frame, loader), "method") == Some("Page.frameNavigated");
    assert "Page.frameNavigated"[5] != "Page.lifecycleEvent"[5];
  }

  lemma NamesOfLifecycle(session: string, frame: string, loader: string, timestamp: real)
    ensures EventNames(BuildLifecycle(session, frame, loader, timestamp)) == LIFECYCLE_NAMES
  {
    var e := BuildLifecycle(session, frame, loader, timestamp);
    forall i | 0 <= i < 5 ensures EventName(e[i]) == LIFECYCLE_NAMES[i] {
      NameOfLifecycle(session, frame, loader, LIFECYCLE_NAMES[i], timestamp);
    }
    assert EventNames(e[5..]) == [];
    assert e[4..][1..] == e[5..] && e[3..][1..] == e[4..] && e[2..][1..] == e[3..] && e[1..][1..] == e[2..];
    assert EventNames(e[4..]) == [LIFECYCLE_NAMES[4]];
    assert EventNames(e[3..]) == [LIFECYCLE_NAMES[3], LIFECYCLE_NAMES[4]];
    assert EventNames(e[2..]) == [LIFECYCLE_NAMES[2], LIFECYCLE_NAMES[3], LIFECYCLE_NAMES[4]];
    assert EventNames(e[1..]) == LIFECYCLE_NAMES[1..];
  }

  /**
   * In every message sequence, what a session is sent is nothing, the navigation alone, or the
   * navigation followed by init, commit, DOMContentLoaded, load and networkIdle; which of the three
   * is decided by whether an enabling command, and one for lifecycle events, followed an attach.
   */
  lemma SyntheticExactlyOnce(run: seq<Step>, n: nat, session: string)
    requires n <= |run|
    ensures var enabled := exists m :: 0 <= m < n && Enables(run, m, session);
            var lifecycle := exists m :: 0 <= m < n && EnablesLifecycle(run, m, session);
            EventNames(SyntheticStream(run, n, session)) ==
              if lifecycle then ["Page.frameNavigated"] + LIFECYCLE_NAMES
              else if enabled then ["Page.frameNavigated"] else []
  {
    if exists m :: 0 <= m < n && Enables(run, m, session) {
      FirstEnabling(run, n, session);
      var i :| 0 <= i < n && FrameDue(run, i, session);
      var nav := BuildFrameNavigated(session, AttachedTo(run, i, session).value, run[i].frameLoader);
      NameOfNavigation(session, AttachedTo(run, i, session).value, run[i].frameLoader);
      if exists m :: 0 <= m < n && EnablesLifecycle(run, m, session) {
        FirstLifecycle(run, n, session);
        var j :| 0 <= j < n && LifecycleDue(run, j, session);
        StreamIsNavigationAndLifecycle(run, n, session, i, j);
        var frame := AttachedTo(run, j, session).value;
        NamesOfLifecycle(session, frame, run[j].lifecycleLoader, run[j].timestamp);
        var s := SyntheticStream(run, n, session);
        assert s[0] == nav && s[1..] == BuildLifecycle(session, frame, run[j].lifecycleLoader, run[j].timestamp);
      } else {
        StreamIsNavigation(run, n, session, i);
      }
    } else {
      StreamIsEmpty(run, n, session);
    }
  }
}
