/**
 * The per-connection state of the CDP shim and what `patch_message` does to it: tracking commands,
 * learning which frame a session shows, shaping replies and emitting synthetic events.
 */
module CdpShim {
  import opened Prelude
  import opened JsonValues
  import opened CdpPatches

  const PAGE_ENABLE := "Page.enable"
  const SET_LIFECYCLE := "Page.setLifecycleEventsEnabled"
  const ATTACHED := "Target.attachedToTarget"

  datatype Direction = Outbound | Inbound

  /** One message, with the random loader ids and the clock reading its handling may draw. */
  datatype Step = Step(direction: Direction, value: Json, frameLoader: string, lifecycleLoader: string, timestamp: real)

  datatype Shim = Shim(pending: map<nat, string>, sessionFrames: map<string, string>,
                       lifecycleEmitted: map<string, bool>, frameEmitted: map<string, bool>)

  const FRESH := Shim(map[], map[], map[], map[])

  // ----- synthetic events ------------------------------------------------------------

  const LIFECYCLE_NAMES := ["init", "commit", "DOMContentLoaded", "load", "networkIdle"]

  function LifecycleEvent(session: string, frame: string, loader: string, name: string, timestamp: real): Json {
    Obj(map["method" := Str("Page.lifecycleEvent"),
            "sessionId" := Str(session),
            "params" := Obj(map["frameId" := Str(frame), "loaderId" := Str(loader),
                                "name" := Str(name), "timestamp" := Num(Float(timestamp))])])
  }

  function BuildLifecycle(session: string, frame: string, loader: string, timestamp: real): (events: seq<Json>)
    ensures |events| == 5
  {
    seq(|LIFECYCLE_NAMES|, i requires 0 <= i < |LIFECYCLE_NAMES| =>
      LifecycleEvent(session, frame, loader, LIFECYCLE_NAMES[i], timestamp))
  }

  function BuildFrameNavigated(session: string, frame: string, loader: string): Json {
    Obj(map["method" := Str("Page.frameNavigated"),
            "sessionId" := Str(session),
            "params" := Obj(map["frame" := BlankFrame(frame, loader), "type" := Str("Navigation")])])
  }

  function BlankFrame(frame: string, loader: string): Json {
    Obj(map["id" := Str(frame), "loaderId" := Str(loader), "url" := Str("about:blank"),
            "domainAndRegistry" := Str(""), "securityOrigin" := Str("://"), "mimeType" := Str("text/html"),
            "secureContextType" := Str("Secure"), "crossOriginIsolatedContextType" := Str("NotIsolated"),
            "adFrameStatus" := Obj(map["adFrameType" := Str("none")]),
            "name" := Str("about:blank"), "gatedAPIFeatures" := Arr([])])
  }

  // ----- reading messages ---------------------------------------------------------------

  datatype Command = Command(id: nat, name: string)

  /** A message with a numeric id and a method is a command. */
  function CommandOf(v: Json): Option<Command> {
    if GetU64(v, "id").Some? && GetStr(v, "method").Some?
    then Some(Command(GetU64(v, "id").value, GetStr(v, "method").value))
    else None
  }

  /** A message with a numeric id and a result or an error is a reply. */
  function ReplyTo(v: Json): Option<nat> {
    if GetU64(v, "id").Some? && (Has(v, "result") || Has(v, "error")) then GetU64(v, "id") else None
  }

  datatype Attachment = Attachment(session: string, target: string)

  function AttachmentOf(v: Json): Option<Attachment> {
    if GetStr(v, "method") != Some(ATTACHED) then None
    else match Get(v, "params") case Some(params) => AttachmentIn(params) case None => None
  }

  function AttachmentIn(params: Json): Option<Attachment> {
    match Get(params, "targetInfo")
    case None => None
    case Some(info) =>
      if GetStr(params, "sessionId").Some? && GetStr(info, "targetId").Some?
      then Some(Attachment(GetStr(params, "sessionId").value, GetStr(info, "targetId").value))
      else None
  }

  function Flag(m: map<string, bool>, session: string): bool {
    if session in m then m[session] else false
  }

  // ----- one message ------------------------------------------------------------------

  /** The session an enabling command is for. */
  function EnabledSession(v: Json): Option<string> {
    match CommandOf(v)
    case Some(Command(_, name)) => if name == SET_LIFECYCLE || name == PAGE_ENABLE then GetStr(v, "sessionId") else None
    case None => None
  }

  function HandleOutbound(st: Shim, m: Step): (Shim, seq<Json>) {
    match CommandOf(m.value)
    case None => (st, [])
    case Some(Command(id, name)) =>
      var tracked := st.(pending := st.pending[id := name]);
      match EnabledSession(m.value)
      case None => (tracked, [])
      case Some(session) =>
        var known := session in st.sessionFrames;
        var navigate := known && !Flag(st.frameEmitted, session);
        var lifecycle := known && name == SET_LIFECYCLE && !Flag(st.lifecycleEmitted, session);
        (tracked.(frameEmitted := if navigate then st.frameEmitted[session := true] else st.frameEmitted,
                  lifecycleEmitted := if lifecycle then st.lifecycleEmitted[session := true] else st.lifecycleEmitted),
         (if navigate then [BuildFrameNavigated(session, st.sessionFrames[session], m.frameLoader)] else []) +
         if lifecycle then BuildLifecycle(session, st.sessionFrames[session], m.lifecycleLoader, m.timestamp) else [])
  }

  function HandleInbound(st: Shim, m: Step): (Shim, Json) {
    var v := PatchEvent(m.value);
    var learned := match AttachmentOf(v)
                   case Some(a) => st.(sessionFrames := st.sessionFrames[a.session := a.target])
                   case None => st;
    match ReplyTo(v)
    case None => (learned, v)
    case Some(id) =>
      if id in st.pending then
        (learned.(pending := st.pending - {id}), if Has(v, "result") then PatchResponse(st.pending[id], v) else v)
      else (learned, v)
  }

  function Handle(st: Shim, m: Step): (Shim, Json, seq<Json>) {
    match m.direction
    case Outbound => var (st', extras) := HandleOutbound(st, m); (st', m.value, extras)
    case Inbound => var (st', v) := HandleInbound(st, m); (st', v, [])
  }

  class ShimState {
    var pendingCommands: map<nat, string>
    var sessionFrames: map<string, string>
    var syntheticEmitted: map<string, bool>
    var initialFrameEmitted: map<string, bool>

    ghost function View(): Shim
      reads this
    {
      Shim(pendingCommands, sessionFrames, syntheticEmitted, initialFrameEmitted)
    }

    constructor ()
      ensures View() == FRESH
    {
      pendingCommands := map[];
      sessionFrames := map[];
      syntheticEmitted := map[];
      initialFrameEmitted := map[];
    }

    /** `patch_message`; the loader ids and the timestamp are the draws of `m`. */
    method PatchMessage(m: Step) returns (value: Json, extras: seq<Json>)
      modifies this
      ensures (View(), value, extras) == Handle(old(View()), m)
    {
      match m.direction
      case Outbound =>
        value := m.value;
        extras := SnoopOutbound(m);
      case Inbound =>
        value := PatchInbound(m);
        extras := [];
    }

    /** The outbound arm: record the command, and emit what its session is still owed. */
    method SnoopOutbound(m: Step) returns (extras: seq<Json>)
      modifies this
      ensures (View(), extras) == HandleOutbound(old(View()), m)
    {
      extras := [];
      var id, name := GetU64(m.value, "id"), GetStr(m.value, "method");
      if id.Some? && name.Some? {
        pendingCommands := pendingCommands[id.value := name.value];
        var session := GetStr(m.value, "sessionId");
        if (name.value == SET_LIFECYCLE || name.value == PAGE_ENABLE) && session.Some? {
          var sid := session.value;
          if !Flag(initialFrameEmitted, sid) {
            if sid in sessionFrames {
              extras := extras + [BuildFrameNavigated(sid, sessionFrames[sid], m.frameLoader)];
              initialFrameEmitted := initialFrameEmitted[sid := true];
            }
          }
          if name.value == SET_LIFECYCLE && !Flag(syntheticEmitted, sid) {
            if sid in sessionFrames {
              extras := extras + BuildLifecycle(sid, sessionFrames[sid], m.lifecycleLoader, m.timestamp);
              syntheticEmitted := syntheticEmitted[sid := true];
            }
          }
          assert EnabledSession(m.value) == Some(sid);
          assert extras == HandleOutbound(old(View()), m).1;
        } else {
          assert EnabledSession(m.value).None?;
        }
      }
    }

    /** The inbound arm: patch the event, learn the frame, shape the reply to a tracked command. */
    method PatchInbound(m: Step) returns (value: Json)
      modifies this
      ensures (View(), value) == HandleInbound(old(View()), m)
    {
      value := PatchEvent(m.value);
      ghost var v := value;
      var attachment := AttachmentOf(value);
      if attachment.Some? {
        sessionFrames := sessionFrames[attachment.value.session := attachment.value.target];
      }
      var id := GetU64(value, "id");
      if id.Some? {
        if Has(value, "result") || Has(value, "error") {
          assert ReplyTo(v) == id;
          if id.value in pendingCommands {
            var name := pendingCommands[id.value];
            pendingCommands := pendingCommands - {id.value};
            if Has(value, "result") {
              value := PatchResponse(name, value);
            }
          }
        }
      }
    }
  }

  // ----- patching does not disturb what the shim reads -------------------------------------

  lemma PatchEventKeepsReply(v: Json)
    ensures ReplyTo(PatchEvent(v)) == ReplyTo(v)
    ensures Has(PatchEvent(v), "result") == Has(v, "result")
    ensures GetStr(PatchEvent(v), "method") == GetStr(v, "method")
  {}

  lemma PatchParamsKeepsAttachment(params: Json)
    ensures AttachmentIn(PatchParams(ATTACHED, params)) == AttachmentIn(params)
  {}

  lemma PatchEventKeepsAttachment(v: Json)
    ensures AttachmentOf(PatchEvent(v)) == AttachmentOf(v)
  {
    PatchEventKeepsReply(v);
    if GetStr(v, "method") == Some(ATTACHED) && Has(v, "params") {
      PatchParamsKeepsAttachment(v.fields["params"]);
    }
  }

  /** Whatever the server sends reaches the client grown only by the listed defaults. */
  lemma InboundIsConservative(st: Shim, m: Step)
    requires m.direction == Inbound
    ensures Grows(m.value, Handle(st, m).1, Defaults())
  {
    var d := Defaults();
    DefaultsCover();
    PatchEventGrows(m.value, d);
    var v := PatchEvent(m.value);
    if ReplyTo(v).Some? && ReplyTo(v).value in st.pending {
      var name := st.pending[ReplyTo(v).value];
      PatchResponseGrows(name, v, d);
      GrowsTransitive(m.value, v, PatchResponse(name, v), d);
    }
  }
}
