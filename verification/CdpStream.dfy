/**
 * The two forwarding loops of a shim connection, interleaved at their awaits. Both write to the
 * client under one lock; each also writes to, or reads from, the server.
 */
module CdpStream {
  import opened Prelude
  import opened JsonValues
  import opened CdpPatches
  import opened CdpShim
  import opened CdpRuns

  /** A websocket message: text that parses as JSON, anything else that is passed on, or a close. */
  datatype Frame = Message(value: Json) | Opaque(raw: string) | Close

  /** A message together with what its handling may draw. */
  datatype Received = Received(frame: Frame, frameLoader: string, lifecycleLoader: string, timestamp: real)

  /** What is written to the client: server message `index`, or event `position` owed to command `command`. */
  datatype Sent = Forwarded(index: nat, frame: Frame) | Synthetic(command: nat, position: nat, event: Json)

  datatype Party = ClientLoop | ServerLoop

  /** Where the client-to-server loop stands. */
  datatype CPc = CReady | CForward(frame: Frame) | CWait | CEmit(position: nat) | CDone

  /** Where the server-to-client loop stands. */
  datatype UPc = UReady | UWait | USend | UClosing | UDone

  datatype State = State(
    log: seq<Step>,              // messages handed to patch_message, in order
    fromClient: seq<Frame>,      // what the client has sent, in order
    batches: seq<seq<Json>>,     // the events owed to each of them
    sent: seq<nat>,              // how many of those have been written to the client
    raw: seq<Frame>,             // what the server has sent, in order
    entry: seq<nat>,             // how long the log was when each of them came
    fromServer: seq<Frame>,      // the same, patched
    toServer: seq<Frame>,
    toClient: seq<Sent>,
    lock: Option<Party>,
    cpc: CPc,
    upc: UPc,
    cut: set<nat>,               // commands whose batch was not sent to the end
    clientClosed: bool)

  const START := State([], [], [], [], [], [], [], [], [], None, CReady, UReady, {}, false)

  /** The awaits of the two loops other than receiving. */
  datatype Io =
    | ClientStop | ForwardOk | ForwardFail
    | ClientLock | EmitOk | EmitFail
    | ServerStop | ServerLock | SendOk | SendFail
    | CloseClient

  datatype Action = ClientReceive(r: Received) | ServerReceive(r: Received) | Await(io: Io)

  function AsStep(d: Direction, r: Received): Step
    requires r.frame.Message?
  {
    Step(d, r.frame.value, r.frameLoader, r.lifecycleLoader, r.timestamp)
  }

  /** The events owed to a message the client sends now. */
  function Owed(s: State, r: Received): seq<Json> {
    if r.frame.Message? then ExtrasAt(s.log + [AsStep(Outbound, r)], |s.log|) else []
  }

  /** What a message the server sends now is turned into. */
  function Patched(s: State, r: Received): Frame {
    if r.frame.Message? then Message(ValueAt(s.log + [AsStep(Inbound, r)], |s.log|)) else r.frame
  }

  function Logged(s: State, d: Direction, r: Received): seq<Step> {
    if r.frame.Message? then s.log + [AsStep(d, r)] else s.log
  }

  /** The batch the client loop is working on. */
  function Current(s: State): nat
    requires s.batches != []
  {
    |s.batches| - 1
  }

  predicate CanIo(s: State, io: Io) {
    match io
    case ClientStop => s.cpc.CReady?
    case ForwardOk | ForwardFail => s.cpc.CForward? && s.batches != []
    case ClientLock => s.cpc.CWait? && s.lock.None?
    case EmitOk =>
      && s.cpc.CEmit? && s.batches != [] && |s.sent| == |s.batches|
      && s.cpc.position < |s.batches[Current(s)]| && !s.clientClosed
    case EmitFail => s.cpc.CEmit? && s.batches != []
    case ServerStop => s.upc.UReady?
    case ServerLock => s.upc.UWait? && s.lock.None?
    case SendOk => s.upc.USend? && s.fromServer != []
    case SendFail => s.upc.USend?
    case CloseClient => s.upc.UClosing? && s.lock.None?
  }

  predicate Enabled(s: State, a: Action) {
    match a
    case ClientReceive(_) => s.cpc.CReady?
    case ServerReceive(_) => s.upc.UReady?
    case Await(io) => CanIo(s, io)
  }

  function AfterEmit(s: State, c: nat, p: nat): State
    requires c < |s.batches| && c <= |s.sent| && p < |s.batches[c]|
  {
    var last := p + 1 == |s.batches[c]|;
    s.(toClient := s.toClient + [Synthetic(c, p, s.batches[c][p])],
       sent := s.sent[..c] + [p + 1],
       cpc := if last then CReady else CEmit(p + 1),
       lock := if last then None else s.lock)
  }

  function AfterIo(s: State, io: Io): State
    requires CanIo(s, io)
  {
    match io
    case ClientStop => s.(cpc := CDone)
    case ForwardOk =>
      s.(toServer := s.toServer + [s.cpc.frame],
         cpc := if s.cpc.frame.Close? then CDone else if s.batches[Current(s)] == [] then CReady else CWait)
    case ForwardFail => s.(cpc := CDone, cut := s.cut + {Current(s)})
    case ClientLock => s.(lock := Some(ClientLoop), cpc := CEmit(0))
    case EmitOk =>
      AfterEmit(s, Current(s), s.cpc.position)
    case EmitFail => s.(cut := s.cut + {Current(s)}, cpc := CReady, lock := None)
    case ServerStop => s.(upc := UClosing)
    case ServerLock => s.(lock := Some(ServerLoop), upc := USend)
    case SendOk =>
      var frame := s.fromServer[|s.fromServer| - 1];
      s.(toClient := s.toClient + [Forwarded(|s.fromServer| - 1, frame)],
         upc := if frame.Close? then UClosing else UReady, lock := None)
    case SendFail => s.(upc := UClosing, lock := None)
    case CloseClient => s.(clientClosed := true, upc := UDone)
  }

  function AfterClientReceive(s: State, log: seq<Step>, frame: Frame, batch: seq<Json>): State {
    s.(log := log, fromClient := s.fromClient + [frame], batches := s.batches + [batch],
       sent := s.sent + [0], cpc := CForward(frame))
  }

  function AfterServerReceive(s: State, log: seq<Step>, raw: Frame, frame: Frame): State {
    s.(log := log, raw := s.raw + [raw], entry := s.entry + [|s.log|],
       fromServer := s.fromServer + [frame], upc := UWait)
  }

  function Next(s: State, a: Action): State
    requires Enabled(s, a)
  {
    match a
    case ClientReceive(r) => AfterClientReceive(s, Logged(s, Outbound, r), r.frame, Owed(s, r))
    case ServerReceive(r) => AfterServerReceive(s, Logged(s, Inbound, r), r.frame, Patched(s, r))
    case Await(io) => AfterIo(s, io)
  }

  predicate Legal(actions: seq<Action>)
    decreases |actions|, 0
  {
    actions == [] ||
    (Legal(actions[..|actions| - 1]) && Enabled(Exec(actions[..|actions| - 1]), actions[|actions| - 1]))
  }

  function Exec(actions: seq<Action>): State
    requires Legal(actions)
    decreases |actions|, 1
  {
    if actions == [] then START else Next(Exec(actions[..|actions| - 1]), actions[|actions| - 1])
  }

  /** JSON messages of either side are handed on with their own direction, value and draws; others are not. */
  lemma MessagesAreLogged(s: State, r: Received, fromClient: bool)
    requires Enabled(s, if fromClient then ClientReceive(r) else ServerReceive(r))
    ensures var log := Next(s, if fromClient then ClientReceive(r) else ServerReceive(r)).log;
            if r.frame.Message? then
              && |log| == |s.log| + 1 && s.log <= log
              && var m := log[|s.log|];
                 && m.direction == (if fromClient then Outbound else Inbound) && m.value == r.frame.value
                 && m.frameLoader == r.frameLoader && m.lifecycleLoader == r.lifecycleLoader
                 && m.timestamp == r.timestamp
            else log == s.log
  {}

  // ----- the shape of the client stream -----------------------------------------------

  function ForwardedCount(out: seq<Sent>): nat {
    if out == [] then 0
    else ForwardedCount(out[..|out| - 1]) + if out[|out| - 1].Forwarded? then 1 else 0
  }

  /** Server messages appear once each, in order, without gaps, as patched. */
  ghost predicate ServerInOrder(out: seq<Sent>, fromServer: seq<Frame>) {
    forall i :: 0 <= i < |out| && out[i].Forwarded? ==>
      && out[i].index == ForwardedCount(out[..i]) && out[i].index < |fromServer|
      && out[i].frame == fromServer[out[i].index]
  }

  /** An event is one of those owed, and directly follows the event before it in its batch. */
  ghost predicate BatchesContiguous(out: seq<Sent>, batches: seq<seq<Json>>) {
    forall i :: 0 <= i < |out| && out[i].Synthetic? ==> InPlace(out, i, batches)
  }

  predicate InPlace(out: seq<Sent>, i: int, batches: seq<seq<Json>>)
    requires 0 <= i < |out| && out[i].Synthetic?
  {
    var e := out[i];
    && e.command < |batches| && e.position < |batches[e.command]|
    && e.event == batches[e.command][e.position]
    && (e.position > 0 ==>
          i > 0 && out[i - 1] == Synthetic(e.command, e.position - 1, batches[e.command][e.position - 1]))
  }

  /** The events written to the client, in order. */
  function Synthetics(out: seq<Sent>): seq<Json> {
    if out == [] then []
    else
      var last := out[|out| - 1];
      Synthetics(out[..|out| - 1]) + if last.Synthetic? then [last.event] else []
  }

  /** Each batch, as far as it was sent, in the order of the commands. */
  function SentParts(batches: seq<seq<Json>>, sent: seq<nat>): seq<Json>
    requires |sent| == |batches| && forall c :: 0 <= c < |sent| ==> sent[c] <= |batches[c]|
  {
    if batches == [] then []
    else
      var n := |batches| - 1;
      SentParts(batches[..n], sent[..n]) + batches[n][..sent[n]]
  }

  ghost predicate SyntheticsAreSentParts(out: seq<Sent>, batches: seq<seq<Json>>, sent: seq<nat>) {
    && |sent| == |batches|
    && (forall c :: 0 <= c < |sent| ==> sent[c] <= |batches[c]|)
    && Synthetics(out) == SentParts(batches, sent)
  }

  /** Command `c` has been sent to the server and its whole batch to the client. */
  predicate Delivered(s: State, c: nat)
    requires c < |s.batches| == |s.sent|
  {
    c < |s.toServer| && s.sent[c] == |s.batches[c]|
  }

  /** Commands the client loop is done with. */
  function Settled(s: State): nat {
    if s.cpc.CReady? || s.cpc.CDone? || s.batches == [] then |s.batches| else |s.batches| - 1
  }

  /** How the client loop's position agrees with what it has written. */
  ghost predicate ClientLoopInv(s: State)
    requires |s.sent| == |s.batches| == |s.fromClient|
  {
    match s.cpc
    case CReady => |s.toServer| == |s.fromClient|
    case CDone => true
    case CForward(frame) =>
      && s.fromClient != [] && |s.toServer| == |s.fromClient| - 1
      && frame == s.fromClient[|s.fromClient| - 1] && s.sent[Current(s)] == 0
      && (frame.Close? ==> s.batches[Current(s)] == [])
    case CWait =>
      s.fromClient != [] && |s.toServer| == |s.fromClient| && s.batches[Current(s)] != [] && s.sent[Current(s)] == 0
    case CEmit(p) =>
      && s.fromClient != [] && |s.toServer| == |s.fromClient|
      && p < |s.batches[Current(s)]| && s.sent[Current(s)] == p
      && (p > 0 ==>
            && s.toClient != []
            && s.toClient[|s.toClient| - 1] == Synthetic(Current(s), p - 1, s.batches[Current(s)][p - 1]))
  }

  ghost predicate ServerLoopInv(s: State) {
    && ForwardedCount(s.toClient) <= |s.fromServer|
    && (s.upc.UReady? ==> ForwardedCount(s.toClient) == |s.fromServer|)
    && (s.upc.UWait? || s.upc.USend? ==> ForwardedCount(s.toClient) + 1 == |s.fromServer|)
  }

  ghost predicate LockInv(s: State) {
    (s.lock == Some(ClientLoop) <==> s.cpc.CEmit?) && (s.lock == Some(ServerLoop) <==> s.upc.USend?)
  }

  ghost predicate DeliveryInv(s: State)
    requires |s.sent| == |s.batches|
  {
    forall c :: 0 <= c < Settled(s) && c !in s.cut ==> Delivered(s, c)
  }

  ghost predicate Inv(s: State) {
    && ServerInOrder(s.toClient, s.fromServer) && BatchesContiguous(s.toClient, s.batches)
    && SyntheticsAreSentParts(s.toClient, s.batches, s.sent)
    && |s.batches| == |s.fromClient|
    && s.toServer <= s.fromClient
    && ClientLoopInv(s) && ServerLoopInv(s) && LockInv(s) && DeliveryInv(s)
  }

  lemma AppendedSent(out: seq<Sent>, x: Sent)
    ensures Synthetics(out + [x]) == Synthetics(out) + (if x.Synthetic? then [x.event] else [])
    ensures ForwardedCount(out + [x]) == ForwardedCount(out) + if x.Forwarded? then 1 else 0
  {}

  /** Appending to the client stream keeps what was said about the items before. */
  lemma PrefixesKept(out: seq<Sent>, x: Sent)
    ensures forall i :: 0 <= i <= |out| ==> (out + [x])[..i] == out[..i]
  {}

  lemma DeliveryKept(s: State, s': State)
    requires |s.sent| == |s.batches| <= |s'.sent| == |s'.batches| && DeliveryInv(s)
    requires forall c :: 0 <= c < |s.batches| && Delivered(s, c) ==> Delivered(s', c)
    requires s.cut <= s'.cut
    requires forall c :: Settled(s) <= c < Settled(s') && c !in s'.cut ==> Delivered(s', c)
    ensures DeliveryInv(s')
  {}

  lemma ServerOrderKept(out: seq<Sent>, fromServer: seq<Frame>, x: Sent)
    requires ServerInOrder(out, fromServer)
    requires x.Forwarded? ==> x.index == ForwardedCount(out) && x.index < |fromServer| && x.frame == fromServer[x.index]
    ensures ServerInOrder(out + [x], fromServer)
  {
    PrefixesKept(out, x);
  }

  lemma ContiguityKept(out: seq<Sent>, batches: seq<seq<Json>>, x: Sent)
    requires BatchesContiguous(out, batches)
    requires x.Synthetic? ==> InPlace(out + [x], |out|, batches)
    ensures BatchesContiguous(out + [x], batches)
  {}

  lemma ClientReceiveKeepsInv(s: State, log: seq<Step>, frame: Frame, batch: seq<Json>)
    requires Inv(s) && s.cpc.CReady? && (frame.Close? ==> batch == [])
    ensures Inv(AfterClientReceive(s, log, frame, batch))
  {}

  lemma ServerReceiveKeepsInv(s: State, log: seq<Step>, raw: Frame, frame: Frame)
    requires Inv(s) && s.upc.UReady?
    ensures Inv(AfterServerReceive(s, log, raw, frame))
  {}

  lemma EmitGrowsParts(s: State)
    requires Inv(s) && s.cpc.CEmit? && s.batches != []
    ensures var s' := AfterEmit(s, Current(s), s.cpc.position);
            && SyntheticsAreSentParts(s'.toClient, s'.batches, s'.sent)
            && ForwardedCount(s'.toClient) == ForwardedCount(s.toClient)
            && forall k :: 0 <= k < Current(s) ==> s'.sent[k] == s.sent[k]
  {}

  lemma EmitKeepsLoops(s: State)
    requires Inv(s) && s.cpc.CEmit? && s.batches != []
    ensures var s' := AfterEmit(s, Current(s), s.cpc.position);
            ClientLoopInv(s') && ServerLoopInv(s') && LockInv(s')
  {}

  lemma EmitKeepsDelivery(s: State)
    requires Inv(s) && s.cpc.CEmit? && s.batches != []
    ensures DeliveryInv(AfterEmit(s, Current(s), s.cpc.position))
  {}

  lemma EmitKeepsInv(s: State)
    requires Inv(s) && s.cpc.CEmit? && s.batches != []
    ensures Inv(AfterEmit(s, Current(s), s.cpc.position))
  {
    var x := Synthetic(Current(s), s.cpc.position, s.batches[Current(s)][s.cpc.position]);
    ServerOrderKept(s.toClient, s.fromServer, x);
    ContiguityKept(s.toClient, s.batches, x);
    EmitGrowsParts(s);
    EmitKeepsLoops(s);
    EmitKeepsDelivery(s);
  }

  lemma SendKeepsInv(s: State)
    requires Inv(s) && CanIo(s, SendOk)
    ensures Inv(AfterIo(s, SendOk))
  {
    var k := |s.fromServer| - 1;
    var x := Forwarded(k, s.fromServer[k]);
    SendKeepsLoops(s);
    ServerOrderKept(s.toClient, s.fromServer, x);
    ContiguityKept(s.toClient, s.batches, x);
  }

  lemma SendKeepsLoops(s: State)
    requires Inv(s) && CanIo(s, SendOk)
    ensures var s' := AfterIo(s, SendOk);
            && SyntheticsAreSentParts(s'.toClient, s'.batches, s'.sent)
            && ClientLoopInv(s') && ServerLoopInv(s') && LockInv(s') && DeliveryInv(s')
  {
    var k := |s.fromServer| - 1;
    AppendedSent(s.toClient, Forwarded(k, s.fromServer[k]));
    DeliveryKept(s, AfterIo(s, SendOk));
  }

  lemma ForwardKeepsInv(s: State)
    requires Inv(s) && CanIo(s, ForwardOk)
    ensures Inv(AfterIo(s, ForwardOk))
  {}

  /** The client loop ends, before a message or by failing to forward one. */
  lemma ClientEndKeepsInv(s: State, cut: set<nat>)
    requires Inv(s) && (s.cpc.CReady? || s.cpc.CForward?)
    requires s.cut <= cut && (s.cpc.CForward? ==> Current(s) in cut)
    ensures Inv(s.(cpc := CDone, cut := cut))
  {}

  lemma ClientLockKeepsInv(s: State)
    requires Inv(s) && s.cpc.CWait? && s.lock.None?
    ensures Inv(s.(lock := Some(ClientLoop), cpc := CEmit(0)))
  {}

  lemma EmitFailKeepsInv(s: State)
    requires Inv(s) && s.cpc.CEmit? && s.batches != []
    ensures Inv(s.(cut := s.cut + {Current(s)}, cpc := CReady, lock := None))
  {}

  lemma ServerIoKeepsInv(s: State, io: Io)
    requires Inv(s) && CanIo(s, io) && (io.ServerStop? || io.ServerLock? || io.SendFail? || io.CloseClient?)
    ensures Inv(AfterIo(s, io))
  {
    DeliveryKept(s, AfterIo(s, io));
  }

  lemma StepKeepsInv(s: State, a: Action)
    requires Inv(s) && Enabled(s, a)
    ensures Inv(Next(s, a))
  {
    match a
    case ClientReceive(r) => ClientReceiveKeepsInv(s, Logged(s, Outbound, r), r.frame, Owed(s, r));
    case ServerReceive(r) => ServerReceiveKeepsInv(s, Logged(s, Inbound, r), r.frame, Patched(s, r));
    case Await(io) =>
      match io
      case EmitOk => EmitKeepsInv(s);
      case SendOk => SendKeepsInv(s);
      case ForwardOk => ForwardKeepsInv(s);
      case ClientStop => ClientEndKeepsInv(s, s.cut);
      case ForwardFail => ClientEndKeepsInv(s, s.cut + {Current(s)});
      case ClientLock => ClientLockKeepsInv(s);
      case EmitFail => EmitFailKeepsInv(s);
      case ServerStop | ServerLock | SendFail | CloseClient => ServerIoKeepsInv(s, io);
  }

  lemma {:induction false} RunKeepsInv(actions: seq<Action>)
    requires Legal(actions)
    ensures Inv(Exec(actions))
  {
    if actions != [] {
      RunKeepsInv(actions[..|actions| - 1]);
      StepKeepsInv(Exec(actions[..|actions| - 1]), actions[|actions| - 1]);
    }
  }

  /**
   * Under every interleaving of the two loops, and every send failure or close: the client receives
   * the patched server messages in order and without gaps, with each command's synthetic events as one
   * uninterrupted block between them, in command order; the server receives the client's messages
   * unchanged; and a block is left short only by a failed send or while it is being written.
   */
  lemma ClientStreamShape(actions: seq<Action>)
    requires Legal(actions)
    ensures var s := Exec(actions);
            && ServerInOrder(s.toClient, s.fromServer)
            && BatchesContiguous(s.toClient, s.batches)
            && SyntheticsAreSentParts(s.toClient, s.batches, s.sent)
            && s.toServer <= s.fromClient && |s.batches| == |s.fromClient|
            && (forall c :: 0 <= c < Settled(s) && c !in s.cut ==> Delivered(s, c))
            && ForwardedCount(s.toClient) <= |s.fromServer|
            && (s.upc.UReady? ==> ForwardedCount(s.toClient) == |s.fromServer|)
  {
    RunKeepsInv(actions);
  }

  // ----- the stream and the message log agree ---------------------------------------------

  lemma {:induction false} StateOfPrefix(run: seq<Step>, m: Step, n: nat)
    requires n <= |run|
    ensures StateAt(run + [m], n) == StateAt(run, n)
    decreases n
  {
    if n > 0 {
      StateOfPrefix(run, m, n - 1);
      assert (run + [m])[n - 1] == run[n - 1];
    }
  }

  /** The events each logged message gave rise to. */
  function LogExtras(log: seq<Step>): seq<seq<Json>> {
    seq(|log|, i requires 0 <= i < |log| => ExtrasAt(log, i))
  }

  lemma ConcatAppend(parts: seq<seq<Json>>, part: seq<Json>)
    ensures Concat(parts + [part]) == Concat(parts) + part
  {}

  lemma LogExtrasAppend(log: seq<Step>, m: Step)
    ensures LogExtras(log + [m]) == LogExtras(log) + [ExtrasAt(log + [m], |log|)]
  {
    forall i | 0 <= i < |log| ensures LogExtras(log + [m])[i] == LogExtras(log)[i] {
      StateOfPrefix(log, m, i);
      assert (log + [m])[i] == log[i];
    }
  }

  /** All the events owed are those of the log, whatever else the client sent. */
  ghost predicate LogInv(s: State) {
    Concat(s.batches) == Concat(LogExtras(s.log))
  }

  lemma LogGrows(batches: seq<seq<Json>>, log: seq<Step>, m: Step, batch: seq<Json>)
    requires Concat(batches) == Concat(LogExtras(log)) && batch == ExtrasAt(log + [m], |log|)
    ensures Concat(batches + [batch]) == Concat(LogExtras(log + [m]))
    ensures batch == [] ==> Concat(batches) == Concat(LogExtras(log + [m]))
  {
    LogExtrasAppend(log, m);
    ConcatAppend(batches, batch);
    ConcatAppend(LogExtras(log), batch);
  }

  lemma ServerMessageOwesNothing(log: seq<Step>, m: Step)
    requires m.direction == Inbound
    ensures ExtrasAt(log + [m], |log|) == []
  {}

  lemma ClientReceiveKeepsLog(s: State, r: Received)
    requires LogInv(s)
    ensures LogInv(AfterClientReceive(s, Logged(s, Outbound, r), r.frame, Owed(s, r)))
  {
    if r.frame.Message? {
      LogGrows(s.batches, s.log, AsStep(Outbound, r), Owed(s, r));
    } else {
      ConcatAppend(s.batches, []);
    }
  }

  lemma ServerReceiveKeepsLog(s: State, r: Received)
    requires LogInv(s)
    ensures LogInv(AfterServerReceive(s, Logged(s, Inbound, r), r.frame, Patched(s, r)))
  {
    if r.frame.Message? {
      ServerMessageOwesNothing(s.log, AsStep(Inbound, r));
      LogGrows(s.batches, s.log, AsStep(Inbound, r), []);
    }
  }

  lemma StepKeepsLog(s: State, a: Action)
    requires LogInv(s) && Enabled(s, a)
    ensures LogInv(Next(s, a))
  {
    match a
    case ClientReceive(r) => ClientReceiveKeepsLog(s, r);
    case ServerReceive(r) => ServerReceiveKeepsLog(s, r);
    case Await(io) => assert AfterIo(s, io).log == s.log && AfterIo(s, io).batches == s.batches;
  }

  lemma {:induction false} RunKeepsLog(actions: seq<Action>)
    requires Legal(actions)
    ensures LogInv(Exec(actions))
  {
    if actions == [] {
      assert LogExtras([]) == [];
    } else {
      RunKeepsLog(actions[..|actions| - 1]);
      StepKeepsLog(Exec(actions[..|actions| - 1]), actions[|actions| - 1]);
    }
  }

  lemma {:induction false} WholeParts(batches: seq<seq<Json>>, sent: seq<nat>)
    requires |sent| == |batches| && forall c :: 0 <= c < |sent| ==> sent[c] == |batches[c]|
    ensures SentParts(batches, sent) == Concat(batches)
  {
    if batches != [] {
      var n := |batches| - 1;
      WholeParts(batches[..n], sent[..n]);
      assert batches[n][..sent[n]] == batches[n];
    }
  }

  lemma {:induction false} KeepAppend<T>(a: seq<T>, b: seq<T>, wanted: T -> bool)
    ensures Keep(a + b, wanted) == Keep(a, wanted) + Keep(b, wanted)
  {
    if a == [] {
      assert a + b == b;
    } else {
      var own, rest := if wanted(a[0]) then [a[0]] else [], Keep(a[1..], wanted);
      KeepAppend(a[1..], b, wanted);
      assert (a + b)[1..] == a[1..] + b;
      assert own + (rest + Keep(b, wanted)) == (own + rest) + Keep(b, wanted);
    }
  }

  lemma {:induction false} ForSessionOfConcat(parts: seq<seq<Json>>, own: seq<seq<Json>>, session: string)
    requires |own| == |parts| && forall i :: 0 <= i < |parts| ==> own[i] == ForSession(parts[i], session)
    ensures ForSession(Concat(parts), session) == Concat(own)
  {
    if parts != [] {
      var n := |parts| - 1;
      ForSessionOfConcat(parts[..n], own[..n], session);
      KeepAppend(Concat(parts[..n]), parts[n], IsFor(session));
    }
  }

  lemma LogStream(log: seq<Step>, session: string)
    ensures ForSession(Concat(LogExtras(log)), session) == SyntheticStream(log, |log|, session)
  {
    var own := seq(|log|, i requires 0 <= i < |log| => ForSession(ExtrasAt(log, i), session));
    ForSessionOfConcat(LogExtras(log), own, session);
  }

  lemma AllSent(s: State)
    requires Inv(s) && s.cpc.CReady? && s.cut == {}
    ensures Synthetics(s.toClient) == Concat(s.batches)
  {
    forall c | 0 <= c < |s.sent| ensures s.sent[c] == |s.batches[c]| {
      assert Delivered(s, c);
    }
    WholeParts(s.batches, s.sent);
  }

  /**
   * When no send has failed and the client loop is idle, what the client has been sent for a session
   * is exactly the session's synthetic stream: nothing, the navigation, or the navigation and the five
   * lifecycle events, once each, however the two loops were interleaved.
   */
  lemma ClientSeesSyntheticStream(actions: seq<Action>, session: string)
    requires Legal(actions) && Exec(actions).cpc.CReady? && Exec(actions).cut == {}
    ensures var s := Exec(actions);
            ForSession(Synthetics(s.toClient), session) == SyntheticStream(s.log, |s.log|, session)
  {
    var s := Exec(actions);
    RunKeepsInv(actions);
    RunKeepsLog(actions);
    AllSent(s);
    LogStream(s.log, session);
  }

  // ----- what the server sent is what the client gets ---------------------------------------

  /**
   * A server frame and its patched form: JSON is message `k` of the log and became what the shim made of it
   * there, anything else is as it was.
   */
  predicate PatchedFrom(log: seq<Step>, k: nat, raw: Frame, frame: Frame) {
    if raw.Message? then
      && k < |log| && log[k].direction == Inbound && log[k].value == raw.value
      && frame == Message(ValueAt(log, k))
    else frame == raw
  }

  ghost predicate RawInv(s: State) {
    && |s.raw| == |s.entry| == |s.fromServer|
    && (forall i :: 0 <= i < |s.raw| ==>
        s.entry[i] <= |s.log| && PatchedFrom(s.log, s.entry[i], s.raw[i], s.fromServer[i]))
    && (forall i, j :: 0 <= i < j < |s.raw| && s.raw[i].Message? ==> s.entry[i] < s.entry[j])
  }

  lemma PatchedFromGrows(log: seq<Step>, m: Step, k: nat, raw: Frame, frame: Frame)
    requires PatchedFrom(log, k, raw, frame)
    ensures PatchedFrom(log + [m], k, raw, frame)
  {
    if raw.Message? {
      StateOfPrefix(log, m, k);
      assert (log + [m])[k] == log[k];
    }
  }

  lemma LongerLogKeepsRaw(s: State, d: Direction, r: Received)
    requires RawInv(s)
    ensures |s.log| <= |Logged(s, d, r)|
    ensures forall i :: 0 <= i < |s.raw| ==> PatchedFrom(Logged(s, d, r), s.entry[i], s.raw[i], s.fromServer[i])
  {
    if r.frame.Message? {
      var m := AsStep(d, r);
      forall i | 0 <= i < |s.raw| ensures PatchedFrom(s.log + [m], s.entry[i], s.raw[i], s.fromServer[i]) {
        PatchedFromGrows(s.log, m, s.entry[i], s.raw[i], s.fromServer[i]);
      }
    }
  }

  lemma NewFrameIsPatched(s: State, r: Received)
    ensures PatchedFrom(Logged(s, Inbound, r), |s.log|, r.frame, Patched(s, r))
  {}

  lemma ServerReceiveKeepsRaw(s: State, log: seq<Step>, raw: Frame, frame: Frame)
    requires RawInv(s) && |s.log| <= |log| && PatchedFrom(log, |s.log|, raw, frame)
    requires forall i :: 0 <= i < |s.raw| ==> PatchedFrom(log, s.entry[i], s.raw[i], s.fromServer[i])
    ensures RawInv(AfterServerReceive(s, log, raw, frame))
  {}

  lemma StepKeepsRaw(s: State, a: Action)
    requires RawInv(s) && Enabled(s, a)
    ensures RawInv(Next(s, a))
  {
    match a
    case ClientReceive(r) => LongerLogKeepsRaw(s, Outbound, r);
    case ServerReceive(r) =>
      LongerLogKeepsRaw(s, Inbound, r);
      NewFrameIsPatched(s, r);
      ServerReceiveKeepsRaw(s, Logged(s, Inbound, r), r.frame, Patched(s, r));
    case Await(io) =>
      var s' := AfterIo(s, io);
      assert s'.log == s.log && s'.raw == s.raw && s'.entry == s.entry && s'.fromServer == s.fromServer;
  }

  lemma {:induction false} RunKeepsRaw(actions: seq<Action>)
    requires Legal(actions)
    ensures RawInv(Exec(actions))
  {
    if actions != [] {
      RunKeepsRaw(actions[..|actions| - 1]);
      StepKeepsRaw(Exec(actions[..|actions| - 1]), actions[|actions| - 1]);
    }
  }

  /**
   * Under every interleaving, each server frame that reaches the client is the server's own: frames that
   * are not JSON unchanged, JSON turned into what the shim makes of it at its place in the message log,
   * with nothing lost and only listed defaults added.
   */
  lemma ClientSeesWhatServerSent(actions: seq<Action>, i: nat)
    requires Legal(actions) && i < |Exec(actions).toClient| && Exec(actions).toClient[i].Forwarded?
    ensures var s := Exec(actions);
            var sent := s.toClient[i];
            && sent.index < |s.raw| == |s.entry|
            && PatchedFrom(s.log, s.entry[sent.index], s.raw[sent.index], sent.frame)
            && (s.raw[sent.index].Message? ==> Grows(s.raw[sent.index].value, sent.frame.value, Defaults()))
  {
    RunKeepsInv(actions);
    RunKeepsRaw(actions);
    var s := Exec(actions);
    var j := s.toClient[i].index;
    if s.raw[j].Message? {
      InboundIsConservative(StateAt(s.log, s.entry[j]), s.log[s.entry[j]]);
    }
  }

  // ----- events, the command they belong to, and its reply ------------------------------------

  /** Every event written belongs to a command that has been forwarded. */
  ghost predicate EventsFollow(s: State) {
    forall i :: 0 <= i < |s.toClient| && s.toClient[i].Synthetic? ==> s.toClient[i].command < |s.toServer|
  }

  lemma StepKeepsEventsFollow(s: State, a: Action)
    requires Inv(s) && EventsFollow(s) && Enabled(s, a)
    ensures EventsFollow(Next(s, a))
  {
    match a
    case ClientReceive(r) =>
    case ServerReceive(r) =>
    case Await(io) => assert |s.toServer| <= |AfterIo(s, io).toServer|;
  }

  /** Under every interleaving a command's events are written only after it has been forwarded. */
  lemma {:induction false} EventsFollowForwarding(actions: seq<Action>)
    requires Legal(actions)
    ensures EventsFollow(Exec(actions))
  {
    if actions != [] {
      var before := actions[..|actions| - 1];
      EventsFollowForwarding(before);
      RunKeepsInv(before);
      StepKeepsEventsFollow(Exec(before), actions[|actions| - 1]);
    }
  }

  ghost predicate Reachable(s: State) {
    exists actions :: Legal(actions) && Exec(actions) == s
  }

  lemma StartIsReachable()
    ensures Reachable(START)
  {
    assert Legal([]) && Exec([]) == START;
  }

  lemma StepIsReachable(s: State, a: Action)
    requires Reachable(s) && Enabled(s, a)
    ensures Reachable(Next(s, a))
  {
    var actions :| Legal(actions) && Exec(actions) == s;
    var more := actions + [a];
    assert more[..|actions|] == actions && more[|actions|] == a;
    assert Legal(more) && Exec(more) == Next(s, a);
  }

  /** A command with events owed is about to be forwarded, and the server loop is free. */
  predicate AboutToForward(s: State) {
    && s.cpc.CForward? && !s.cpc.frame.Close? && s.batches != [] && s.batches[Current(s)] != []
    && s.upc.UReady? && s.lock.None? && !s.clientClosed && |s.sent| == |s.batches|
  }

  lemma AnswerComes(s: State, r: Received) returns (s': State)
    requires Reachable(s) && AboutToForward(s)
    ensures Reachable(s') && s'.cpc.CWait? && s'.upc.UWait? && s'.lock.None? && s'.toClient == s.toClient
    ensures s'.toServer == s.toServer + [s.cpc.frame] && s'.raw == s.raw + [r.frame]
    ensures |s'.fromServer| == |s.fromServer| + 1 && SameClientSide(s, s')
  {
    StepIsReachable(s, Await(ForwardOk));
    s' := Next(s, Await(ForwardOk));
    StepIsReachable(s', ServerReceive(r));
    s' := Next(s', ServerReceive(r));
  }

  /** What passing on an answer does not change. */
  predicate SameClientSide(s: State, s': State) {
    && s'.fromClient == s.fromClient && s'.batches == s.batches && s'.sent == s.sent
    && s'.clientClosed == s.clientClosed
  }

  lemma AnswerIsPassedOn(s: State) returns (s': State)
    requires Reachable(s) && s.upc.UWait? && s.lock.None? && s.fromServer != []
    ensures Reachable(s') && s'.lock.None? && s'.cpc == s.cpc && s'.log == s.log && SameClientSide(s, s')
    ensures s'.toServer == s.toServer && s'.raw == s.raw && s'.fromServer == s.fromServer
    ensures !s.fromServer[|s.fromServer| - 1].Close? ==> s'.upc.UReady?
    ensures var n := |s.fromServer| - 1; s'.toClient == s.toClient + [Forwarded(n, s.fromServer[n])]
  {
    StepIsReachable(s, Await(ServerLock));
    s' := Next(s, Await(ServerLock));
    StepIsReachable(s', Await(SendOk));
    s' := Next(s', Await(SendOk));
  }

  lemma FirstEventIsWritten(s: State) returns (s': State)
    requires Reachable(s) && s.cpc.CWait? && s.lock.None? && !s.clientClosed
    requires s.batches != [] && s.batches[Current(s)] != [] && |s.sent| == |s.batches|
    ensures Reachable(s') && s'.fromClient == s.fromClient
    ensures s'.toServer == s.toServer && s'.raw == s.raw && s'.fromServer == s.fromServer
    ensures s'.toClient == s.toClient + [Synthetic(Current(s), 0, s.batches[Current(s)][0])]
  {
    StepIsReachable(s, Await(ClientLock));
    s' := Next(s, Await(ClientLock));
    StepIsReachable(s', Await(EmitOk));
    s' := Next(s', Await(EmitOk));
  }

  /**
   * Whenever a command with events owed is about to be forwarded, the server can answer before they are
   * written: the answer then reaches the client ahead of all of them.
   */
  lemma ReplyMayOvertakeEvents(s: State, r: Received) returns (s': State)
    requires Reachable(s) && AboutToForward(s)
    ensures Reachable(s') && s'.fromClient == s.fromClient
    ensures s'.raw == s.raw + [r.frame] && s'.toServer == s.toServer + [s.cpc.frame]
    ensures var n := |s.fromServer|;
            && n < |s'.fromServer|
            && s'.toClient ==
               s.toClient + [Forwarded(n, s'.fromServer[n])] + [Synthetic(Current(s), 0, s.batches[Current(s)][0])]
  {
    var answered := AnswerReachesClient(s, r);
    s' := FirstEventIsWritten(answered);
  }

  lemma AnswerReachesClient(s: State, r: Received) returns (s': State)
    requires Reachable(s) && AboutToForward(s)
    ensures Reachable(s') && s'.cpc.CWait? && s'.lock.None? && SameClientSide(s, s')
    ensures s'.raw == s.raw + [r.frame] && s'.toServer == s.toServer + [s.cpc.frame]
    ensures var n := |s.fromServer|; n < |s'.fromServer| && s'.toClient == s.toClient + [Forwarded(n, s'.fromServer[n])]
  {
    var coming := AnswerComes(s, r);
    s' := AnswerIsPassedOn(coming);
  }

  function Plain(value: Json): Received {
    Received(Message(value), "frame loader", "lifecycle loader", 0.0)
  }

  function AttachEvent(): Json {
    Obj(map["method" := Str(ATTACHED),
            "params" := Obj(map["sessionId" := Str("s"), "targetInfo" := Obj(map["targetId" := Str("t")])])])
  }

  function EnableCommand(): Json {
    Obj(map["id" := Num(PosInt(1)), "method" := Str(PAGE_ENABLE), "sessionId" := Str("s")])
  }

  function EnableReply(): Json {
    Obj(map["id" := Num(PosInt(1)), "result" := Obj(map[])])
  }

  lemma AttachIsSeen()
    ensures AttachmentOf(AttachEvent()) == Some(Attachment("s", "t"))
  {}

  lemma EnableIsSeen()
    ensures CommandOf(EnableCommand()) == Some(Command(1, PAGE_ENABLE)) && EnabledSession(EnableCommand()) == Some("s")
    ensures ReplyTo(EnableReply()) == Some(1)
  {}

  lemma EnableOwesNavigation(run: seq<Step>)
    requires |run| == 2 && run[0].direction == Inbound && AttachmentOf(run[0].value) == Some(Attachment("s", "t"))
    requires run[1].direction == Outbound && EnabledSession(run[1].value) == Some("s")
    ensures ExtrasAt(run, 1) != []
  {
    assert AttachedTo(run, 1, "s") == Some("t");
    assert Enables(run, 1, "s") && !Enables(run, 0, "s");
    assert FrameDue(run, 1, "s");
    ExtrasAreExact(run, 1, "s");
  }

  lemma SessionIsAttached() returns (s: State)
    ensures Reachable(s) && s.log == [AsStep(Inbound, Plain(AttachEvent()))]
    ensures s.cpc.CReady? && s.upc.UReady? && s.lock.None? && !s.clientClosed
    ensures s.fromClient == [] && s.batches == [] && s.sent == [] && |s.raw| == |s.fromServer| == |s.toClient| == 1
  {
    var attach := ServerReceive(Plain(AttachEvent()));
    StartIsReachable();
    StepIsReachable(START, attach);
    s := AnswerIsPassedOn(Next(START, attach));
  }

  lemma SessionIsEnabled() returns (s: State)
    ensures Reachable(s) && AboutToForward(s) && Current(s) == 0
    ensures s.fromClient == [Message(EnableCommand())] && |s.raw| == |s.fromServer| == |s.toClient| == 1
  {
    var before := SessionIsAttached();
    var enable := Plain(EnableCommand());
    AttachIsSeen();
    EnableIsSeen();
    EnableOwesNavigation(before.log + [AsStep(Outbound, enable)]);
    StepIsReachable(before, ClientReceive(enable));
    s := Next(before, ClientReceive(enable));
  }

  /**
   * So a reply can come first: a session is attached, the client enables its page events, and the reply to
   * that command reaches it before the navigation that the command gives rise to.
   */
  lemma ReplyOvertakesEvents() returns (s: State)
    ensures Reachable(s)
    ensures CommandOf(EnableCommand()) == Some(Command(1, PAGE_ENABLE)) && ReplyTo(EnableReply()) == Some(1)
    ensures s.fromClient == [Message(EnableCommand())] && |s.raw| == 2 && s.raw[1] == Message(EnableReply())
    ensures |s.toClient| == 3 && s.toClient[1].Forwarded? && s.toClient[1].index == 1
    ensures s.toClient[2].Synthetic? && s.toClient[2].command == 0
  {
    EnableIsSeen();
    var before := SessionIsEnabled();
    s := ReplyMayOvertakeEvents(before, Plain(EnableReply()));
  }
}
