/** One scan over a session: the engine's scan loop and the client's settlement loop, as a system of steps over two
    message pipes and the runner's progress channel. Every interleaving of steps is a run. */
module Session {
  import opened Words
  import opened Observation

  /** What the engine writes to the client. */
  datatype Message =
    | Pulse(operationId: string, sequenceNumber: nat)
    | ScanResponse(requestId: string, operationId: string, outcome: RunOutcome)
    | Failure(requestId: string)
    | CancelResponse(requestId: string)

  /** What the client writes to the engine. */
  datatype Command = Scan(requestId: string, operationId: string) | Cancel(requestId: string, targetRequestId: string)

  /** Where the engine stands in its loop. */
  datatype EnginePhase = Idle | Draining | Sending | Polling | Checking | FinalDrain | FinalSend | Responding | Settled

  datatype ClientPhase = Waiting | Finished(outcome: RunOutcome) | Cancelled(outcome: RunOutcome) | CommandError | TimedOut | ProtocolError

  /** The runner thread: at work, or joined with a graph of some outcome, or failed. */
  datatype Runner = Running | Graph(outcome: RunOutcome) | Broken

  datatype State = State(
    op: string,
    cancelId: string,
    runner: Runner,
    produced: nat,
    channel: seq<nat>,
    pending: Option<nat>,
    engine: EnginePhase,
    cancelSignalled: bool,
    toEngine: seq<Command>,
    toClient: seq<Message>,
    client: ClientPhase,
    lastSeq: nat,
    cancelSent: bool,
    seen: seq<nat>)

  /** The client has sent its scan request over empty pipes. */
  function Start(op: string, cancelId: string): State {
    State(op, cancelId, Running, 0, [], None, Idle, false, [Scan(op, op)], [], Waiting, 0, false, [])
  }

  datatype Step =
    | RunnerEmit
    | RunnerFinish(result: Runner)
    | EngineAccept
    | EngineReject
    | EngineReceiveProgress
    | EngineDrained
    | EngineSend
    | EngineHold
    | EngineReceiveCommand
    | EngineNoCommand
    | EngineCheck
    | EngineFinalReceive
    | EngineFinalDrained
    | EngineFinalSend
    | EngineRespond
    | EngineLateCommand
    | ClientCancel
    | ClientDeadline
    | ClientReceive

  // ---- The steps

  predicate IsScan(s: State) {
    s.engine == Idle && s.toEngine != [] && s.toEngine[0].Scan?
  }

  predicate RunnerActive(s: State) {
    s.runner == Running && s.engine != Idle && s.engine != Settled
  }

  /** Which steps a state allows. Timers may go either way. */
  predicate Enabled(s: State, step: Step) {
    match step
    case RunnerEmit => RunnerActive(s)
    case RunnerFinish(result) => RunnerActive(s) && result != Running
    case EngineAccept => IsScan(s)
    case EngineReject => IsScan(s)
    case EngineReceiveProgress => s.engine == Draining && s.channel != []
    case EngineDrained => s.engine == Draining && s.channel == []
    case EngineSend => s.engine == Sending && s.pending.Some?
    case EngineHold => s.engine == Sending
    case EngineReceiveCommand => s.engine == Polling && s.toEngine != []
    case EngineNoCommand => s.engine == Polling && s.toEngine == []
    case EngineCheck => s.engine == Checking
    case EngineFinalReceive => s.engine == FinalDrain && s.channel != []
    case EngineFinalDrained => s.engine == FinalDrain && s.channel == []
    case EngineFinalSend => s.engine == FinalSend
    case EngineRespond => s.engine == Responding
    case EngineLateCommand => s.engine == Settled && s.toEngine != []
    case ClientCancel => s.client == Waiting && !s.cancelSent
    case ClientDeadline => s.client == Waiting && s.cancelSent
    case ClientReceive => s.client == Waiting && s.toClient != []
  }

  /** A cancel that names the operation, its request, or "scan", or nothing. */
  predicate CancelApplies(s: State, target: string) {
    target == "" || target == s.op || target == "scan"
  }

  function ReceiveCommand(s: State): State
    requires s.toEngine != []
  {
    var rest := s.(toEngine := s.toEngine[1..], engine := Checking);
    match s.toEngine[0]
    case Cancel(_, target) => if CancelApplies(s, target) then rest.(cancelSignalled := true) else rest
    case Scan(id, _) => rest.(toClient := s.toClient + [Failure(id)])
  }

  /** The run outcome reported for the runner's result. */
  function ReportedOutcome(s: State): RunOutcome {
    match s.runner
    case Graph(outcome) => outcome
    case _ => if s.cancelSignalled then RunOutcome.Cancelled else RunOutcome.Failed
  }

  function LateCommand(s: State): State
    requires s.toEngine != []
  {
    var rest := s.(toEngine := s.toEngine[1..]);
    match s.toEngine[0]
    case Cancel(id, _) => rest.(toClient := s.toClient + [CancelResponse(id)])
    case Scan(id, _) => rest
  }

  /** What the client does with the next message. */
  function Receive(s: State): State
    requires s.toClient != []
  {
    var rest := s.(toClient := s.toClient[1..]);
    match s.toClient[0]
    case Pulse(operationId, n) =>
      if operationId != s.op || n <= s.lastSeq then rest.(client := ProtocolError)
      else rest.(lastSeq := n, seen := s.seen + [n])
    case ScanResponse(requestId, operationId, outcome) =>
      if requestId != s.op && requestId != "" then rest.(client := ProtocolError)
      else if operationId != s.op then rest.(client := ProtocolError)
      else if s.cancelSent || outcome == RunOutcome.Cancelled then rest.(client := ClientPhase.Cancelled(outcome))
      else rest.(client := ClientPhase.Finished(outcome))
    case Failure(requestId) =>
      if requestId != s.op && requestId != "" then rest.(client := ProtocolError) else rest.(client := CommandError)
    case CancelResponse(requestId) => rest.(client := ProtocolError)
  }

  function Apply(s: State, step: Step): State
    requires Enabled(s, step)
  {
    match step
    case RunnerEmit => s.(produced := s.produced + 1, channel := s.channel + [s.produced + 1])
    case RunnerFinish(result) => s.(runner := result)
    case EngineAccept => s.(toEngine := s.toEngine[1..], engine := Draining)
    case EngineReject => s.(toEngine := s.toEngine[1..], engine := Settled, toClient := s.toClient + [Failure(s.toEngine[0].requestId)])
    case EngineReceiveProgress => s.(pending := Some(s.channel[0]), channel := s.channel[1..])
    case EngineDrained => s.(engine := Sending)
    case EngineSend => s.(toClient := s.toClient + [Pulse(s.op, s.pending.value)], pending := None, engine := Polling)
    case EngineHold => s.(engine := Polling)
    case EngineReceiveCommand => ReceiveCommand(s)
    case EngineNoCommand => s.(engine := Checking)
    case EngineCheck => s.(engine := if s.runner == Running then Draining else FinalDrain)
    case EngineFinalReceive => s.(pending := Some(s.channel[0]), channel := s.channel[1..])
    case EngineFinalDrained => s.(engine := FinalSend)
    case EngineFinalSend =>
      s.(toClient := s.toClient + (if s.pending.Some? then [Pulse(s.op, s.pending.value)] else []), pending := None, engine := Responding)
    case EngineRespond => s.(toClient := s.toClient + [ScanResponse(s.op, s.op, ReportedOutcome(s))], engine := Settled)
    case EngineLateCommand => LateCommand(s)
    case ClientCancel => s.(cancelSent := true, toEngine := s.toEngine + [Cancel(s.cancelId, s.op)])
    case ClientDeadline => s.(client := TimedOut)
    case ClientReceive => Receive(s)
  }

  /** The state after a run. */
  ghost predicate Reaches(s0: State, steps: seq<Step>, s: State) {
    if steps == [] then s == s0
    else
      var n := |steps| - 1;
      exists before :: Reaches(s0, steps[..n], before) && Enabled(before, steps[n]) && s == Apply(before, steps[n])
  }

  // ---- What every run keeps

  /** The sequence numbers of the pulses among messages, up to the first other message. */
  function LeadingPulses(messages: seq<Message>): seq<nat> {
    if messages == [] || !messages[0].Pulse? then [] else [messages[0].sequenceNumber] + LeadingPulses(messages[1..])
  }

  /** The messages from the first non-pulse on. */
  function AfterPulses(messages: seq<Message>): seq<Message> {
    if messages == [] || !messages[0].Pulse? then messages else AfterPulses(messages[1..])
  }

  predicate Increasing(s: seq<nat>) {
    forall i, j :: 0 <= i < j < |s| ==> s[i] < s[j]
  }

  function LastOf(s: seq<nat>): nat {
    if s == [] then 0 else s[|s| - 1]
  }

  /** All pulses written so far, read or not. */
  function Written(s: State): seq<nat> {
    s.seen + LeadingPulses(s.toClient)
  }

  /** The events drained from the channel. */
  function Drained(s: State): int {
    s.produced - |s.channel|
  }

  /** The channel holds the newest events in order; the pending event is the newest one drained; everything older was
      sent or overtaken. */
  ghost predicate ChannelOk(s: State) {
    && |s.channel| <= s.produced
    && (forall i :: 0 <= i < |s.channel| ==> s.channel[i] == Drained(s) + i + 1)
    && (s.pending.Some? ==> s.pending.value == Drained(s) && LastOf(Written(s)) < Drained(s))
    && (s.pending.None? ==> LastOf(Written(s)) == Drained(s))
  }

  ghost predicate PulsesOk(s: State) {
    && Increasing(Written(s)) && (forall i :: 0 <= i < |Written(s)| ==> 1 <= Written(s)[i] <= s.produced)
    && s.lastSeq == LastOf(s.seen)
    && forall i :: 0 <= i < |s.toClient| && s.toClient[i].Pulse? ==> s.toClient[i].operationId == s.op
  }

  predicate IsTerminal(m: Message, op: string) {
    (m.ScanResponse? && m.requestId == op && m.operationId == op) || (m.Failure? && m.requestId == op)
  }

  /** Everything after the first message is the late answer to the client's own cancel. */
  predicate OnlyLateAnswers(messages: seq<Message>) {
    forall i :: 0 <= i < |messages| ==> messages[i].CancelResponse?
  }

  predicate ClientSettled(c: ClientPhase) {
    c.Finished? || c.Cancelled? || c.CommandError?
  }

  /** The one message that settles the scan is written when the engine settles, and read when the client does. */
  ghost predicate SettlementOk(s: State) {
    var tail := AfterPulses(s.toClient);
    if s.engine != Settled then tail == [] && !ClientSettled(s.client)
    else if ClientSettled(s.client) then LeadingPulses(s.toClient) == [] && OnlyLateAnswers(tail)
    else tail != [] && IsTerminal(tail[0], s.op) && OnlyLateAnswers(tail[1..])
  }

  ghost predicate EngineOk(s: State) {
    && (s.engine == Idle ==> s.produced == 0 && s.channel == [] && s.pending == None && s.runner == Running)
    && (s.engine == FinalDrain || s.engine == FinalSend || s.engine == Responding ==> s.runner != Running)
    && (s.engine == FinalSend ==> s.channel == [])
    && (s.engine == Responding || s.engine == Settled ==> s.channel == [] && s.pending == None)
  }

  /** Only the scan request, and after it at most one cancel, ever travel to the engine. */
  ghost predicate CommandsOk(s: State) {
    && (forall i :: 0 <= i < |s.toEngine| && s.toEngine[i].Scan? ==> i == 0 && s.engine == Idle && s.toEngine[i].requestId == s.op)
    && (forall i :: 0 <= i < |s.toEngine| && s.toEngine[i].Cancel? ==> s.cancelSent && s.toEngine[i].targetRequestId == s.op)
    && (s.engine == Idle ==> s.toEngine != [] && s.toEngine[0].Scan?)
    && (s.cancelSignalled ==> s.cancelSent)
  }

  ghost predicate Inv(s: State) {
    && ChannelOk(s) && PulsesOk(s) && SettlementOk(s) && EngineOk(s) && CommandsOk(s)
    && s.client != ProtocolError
  }

  lemma {:induction false} AppendMessage(messages: seq<Message>, m: Message)
    ensures AfterPulses(messages) != [] ==>
      LeadingPulses(messages + [m]) == LeadingPulses(messages) && AfterPulses(messages + [m]) == AfterPulses(messages) + [m]
    ensures AfterPulses(messages) == [] && m.Pulse? ==>
      LeadingPulses(messages + [m]) == LeadingPulses(messages) + [m.sequenceNumber] && AfterPulses(messages + [m]) == []
    ensures AfterPulses(messages) == [] && !m.Pulse? ==>
      LeadingPulses(messages + [m]) == LeadingPulses(messages) && AfterPulses(messages + [m]) == [m]
    decreases |messages|
  {
    if messages != [] && messages[0].Pulse? {
      assert (messages + [m])[1..] == messages[1..] + [m];
      AppendMessage(messages[1..], m);
    } else if messages == [] {
      assert (messages + [m])[1..] == [];
    }
  }

  lemma StartOk(op: string, cancelId: string)
    ensures Inv(Start(op, cancelId))
  {
  }

  /** A pulse newer than everything written keeps the pulse stream in order. */
  lemma SendKeeps(s: State, s': State, n: nat)
    requires Inv(s) && AfterPulses(s.toClient) == [] && LastOf(Written(s)) < n <= s.produced
    requires s' == s.(toClient := s.toClient + [Pulse(s.op, n)], pending := None, engine := s'.engine)
    ensures PulsesOk(s') && Written(s') == Written(s) + [n] && AfterPulses(s'.toClient) == []
  {
    AppendMessage(s.toClient, Pulse(s.op, n));
    assert Written(s') == Written(s) + [n];
  }

  lemma RunnerKeeps(s: State, step: Step)
    requires Inv(s) && Enabled(s, step) && (step.RunnerEmit? || step.RunnerFinish?)
    ensures Inv(Apply(s, step))
  {
    assert Written(Apply(s, step)) == Written(s);
  }

  lemma DrainKeeps(s: State, step: Step)
    requires Inv(s) && Enabled(s, step) && (step.EngineReceiveProgress? || step.EngineFinalReceive?)
    ensures Inv(Apply(s, step))
  {
    assert Written(Apply(s, step)) == Written(s);
  }

  lemma PhaseKeeps(s: State, step: Step)
    requires Inv(s) && Enabled(s, step)
    requires step.EngineAccept? || step.EngineDrained? || step.EngineHold? || step.EngineNoCommand? || step.EngineCheck? || step.EngineFinalDrained?
    ensures Inv(Apply(s, step))
  {
    assert Written(Apply(s, step)) == Written(s);
  }

  lemma SendingKeeps(s: State, step: Step)
    requires Inv(s) && Enabled(s, step) && (step.EngineSend? || step.EngineFinalSend?)
    ensures Inv(Apply(s, step))
  {
    var s' := Apply(s, step);
    if s.pending.Some? {
      SendKeeps(s, s', s.pending.value);
    } else {
      assert s.toClient + [] == s.toClient;
      assert Written(s') == Written(s);
    }
  }

  lemma SettlingKeeps(s: State, step: Step)
    requires Inv(s) && Enabled(s, step) && (step.EngineReject? || step.EngineRespond?)
    ensures Inv(Apply(s, step))
  {
    var s' := Apply(s, step);
    AppendMessage(s.toClient, s'.toClient[|s.toClient|]);
    hide LeadingPulses, AfterPulses;
    assert Written(s') == Written(s);
    assert ChannelOk(s') && CommandsOk(s');
    assert PulsesOk(s');
    assert SettlementOk(s') && EngineOk(s');
    hide ChannelOk, PulsesOk, SettlementOk, EngineOk, CommandsOk;
  }

  lemma ReceiveCommandKeeps(s: State)
    requires Inv(s) && Enabled(s, EngineReceiveCommand)
    ensures Inv(Apply(s, EngineReceiveCommand))
  {
    assert s.toEngine[0].Cancel?;
    assert Written(ReceiveCommand(s)) == Written(s);
  }

  lemma LateCommandKeeps(s: State)
    requires Inv(s) && Enabled(s, EngineLateCommand)
    ensures Inv(Apply(s, EngineLateCommand))
  {
    var m := CancelResponse(s.toEngine[0].requestId);
    assert s.toEngine[0].Cancel?;
    AppendMessage(s.toClient, m);
    LateAnswer(s, m);
    assert Written(LateCommand(s)) == Written(s);
  }

  lemma LateAnswer(s: State, m: Message)
    requires SettlementOk(s) && s.engine == Settled && m.CancelResponse? && (s.toClient == [] ==> ClientSettled(s.client))
    ensures SettlementOk(s.(toClient := s.toClient + [m], toEngine := []))
  {
    AppendMessage(s.toClient, m);
  }

  lemma CancelKeeps(s: State)
    requires Inv(s) && Enabled(s, ClientCancel)
    ensures Inv(Apply(s, ClientCancel))
  {
    assert Written(Apply(s, ClientCancel)) == Written(s);
  }

  lemma DeadlineKeeps(s: State)
    requires Inv(s) && Enabled(s, ClientDeadline)
    ensures Inv(Apply(s, ClientDeadline))
  {
    assert Written(Apply(s, ClientDeadline)) == Written(s);
  }

  /** The next pulse is the next number written. */
  lemma NextPulse(s: State)
    requires s.toClient != [] && s.toClient[0].Pulse?
    ensures var s' := s.(toClient := s.toClient[1..], lastSeq := s.toClient[0].sequenceNumber, seen := s.seen + [s.toClient[0].sequenceNumber]);
      Written(s') == Written(s) && AfterPulses(s'.toClient) == AfterPulses(s.toClient)
    ensures |Written(s)| > |s.seen| && Written(s)[|s.seen|] == s.toClient[0].sequenceNumber
    ensures s.seen != [] ==> Written(s)[|s.seen| - 1] == LastOf(s.seen)
  {
    var n := s.toClient[0].sequenceNumber;
    assert s.seen + ([n] + LeadingPulses(s.toClient[1..])) == (s.seen + [n]) + LeadingPulses(s.toClient[1..]);
  }

  lemma PulseReceived(s: State)
    requires Inv(s) && Enabled(s, ClientReceive) && s.toClient[0].Pulse?
    ensures Inv(Apply(s, ClientReceive))
  {
    hide LeadingPulses, AfterPulses, Written, Increasing;
    NextPulse(s);
    NewerThanSeen(Written(s), |s.seen|);
    PulseSettlement(s);
    MessagesTail(s.toClient);
  }

  lemma MessagesTail(messages: seq<Message>)
    requires messages != []
    ensures forall i :: 0 <= i < |messages[1..]| ==> messages[1..][i] == messages[i + 1]
  {
  }

  lemma NewerThanSeen(w: seq<nat>, k: nat)
    requires Increasing(w) && k < |w|
    ensures k > 0 ==> w[k - 1] < w[k]
  {
  }

  lemma PulseSettlement(s: State)
    requires SettlementOk(s) && s.client == Waiting && s.toClient != [] && s.toClient[0].Pulse?
    ensures SettlementOk(s.(toClient := s.toClient[1..], lastSeq := s.toClient[0].sequenceNumber, seen := s.seen + [s.toClient[0].sequenceNumber]))
  {
  }

  lemma TerminalReceived(s: State)
    requires Inv(s) && Enabled(s, ClientReceive) && !s.toClient[0].Pulse?
    ensures Inv(Apply(s, ClientReceive))
  {
    hide LeadingPulses, AfterPulses, Written, Increasing;
    TerminalAhead(s);
    TerminalSettles(s, Receive(s).client);
    MessagesTail(s.toClient);
  }

  /** The next message, no pulse, is the one that settles the scan. */
  lemma TerminalAhead(s: State)
    requires SettlementOk(s) && s.client == Waiting && s.toClient != [] && !s.toClient[0].Pulse?
    ensures s.engine == Settled && IsTerminal(s.toClient[0], s.op) && OnlyLateAnswers(s.toClient[1..])
    ensures LeadingPulses(s.toClient) == [] && LeadingPulses(s.toClient[1..]) == []
  {
    LateAnswersOnly(s.toClient[1..]);
  }

  lemma TerminalSettles(s: State, c: ClientPhase)
    requires s.engine == Settled && s.toClient != [] && OnlyLateAnswers(s.toClient[1..]) && ClientSettled(c)
    requires LeadingPulses(s.toClient) == [] == LeadingPulses(s.toClient[1..])
    ensures var s' := s.(toClient := s.toClient[1..], client := c); SettlementOk(s') && Written(s') == Written(s)
  {
    LateAnswersOnly(s.toClient[1..]);
  }

  lemma LateAnswersOnly(messages: seq<Message>)
    requires OnlyLateAnswers(messages)
    ensures LeadingPulses(messages) == [] && AfterPulses(messages) == messages
  {
  }

  lemma StepKeeps(s: State, step: Step)
    requires Inv(s) && Enabled(s, step)
    ensures Inv(Apply(s, step))
  {
    hide Inv, Apply;
    match step {
      case RunnerEmit => RunnerKeeps(s, step);
      case RunnerFinish(_) => RunnerKeeps(s, step);
      case EngineReceiveProgress => DrainKeeps(s, step);
      case EngineFinalReceive => DrainKeeps(s, step);
      case EngineSend => SendingKeeps(s, step);
      case EngineFinalSend => SendingKeeps(s, step);
      case EngineReject => SettlingKeeps(s, step);
      case EngineRespond => SettlingKeeps(s, step);
      case EngineReceiveCommand => ReceiveCommandKeeps(s);
      case EngineLateCommand => LateCommandKeeps(s);
      case ClientCancel => CancelKeeps(s);
      case ClientDeadline => DeadlineKeeps(s);
      case ClientReceive => if s.toClient[0].Pulse? { PulseReceived(s); } else { TerminalReceived(s); }
      case _ => PhaseKeeps(s, step);
    }
  }

  lemma {:induction false} ReachedOk(op: string, cancelId: string, steps: seq<Step>, s: State)
    requires Reaches(Start(op, cancelId), steps, s)
    ensures Inv(s)
    decreases |steps|
  {
    hide Inv, Apply, Enabled, Start;
    if steps == [] {
      StartOk(op, cancelId);
    } else {
      var n := |steps| - 1;
      var before :| Reaches(Start(op, cancelId), steps[..n], before) && Enabled(before, steps[n]) && s == Apply(before, steps[n]);
      ReachedOk(op, cancelId, steps[..n], before);
      StepKeeps(before, steps[n]);
    }
  }

  // ---- What a client may rely on

  /** In every interleaving: the client's checks never fail, the pulses it sees are strictly increasing events of the
      run, and once settled it has seen the last event. */
  lemma ClientSafety(op: string, cancelId: string, steps: seq<Step>, s: State)
    requires Reaches(Start(op, cancelId), steps, s)
    ensures s.client != ProtocolError
    ensures Increasing(s.seen) && forall i :: 0 <= i < |s.seen| ==> 1 <= s.seen[i] <= s.produced
    ensures ClientSettled(s.client) ==> LastOf(s.seen) == s.produced
    ensures ClientSettled(s.client) ==> forall i :: 0 <= i < |s.toClient| ==> s.toClient[i].CancelResponse?
  {
    ReachedOk(op, cancelId, steps, s);
    assert forall i :: 0 <= i < |s.seen| ==> Written(s)[i] == s.seen[i];
    if ClientSettled(s.client) {
      NoPulsesLeft(s.toClient);
      assert Written(s) == s.seen;
    }
  }

  lemma NoPulsesLeft(messages: seq<Message>)
    requires LeadingPulses(messages) == []
    ensures AfterPulses(messages) == messages
  {
  }

  /** No settlement is lost: when the engine has settled and the client has read everything, the client has settled. */
  lemma SettlementArrives(op: string, cancelId: string, steps: seq<Step>, s: State)
    requires Reaches(Start(op, cancelId), steps, s) && s.engine == Settled && s.toClient == []
    ensures ClientSettled(s.client)
  {
    ReachedOk(op, cancelId, steps, s);
  }

  // ---- Which outcome settles a scan

  /** `o` is the outcome of the run that has ended. */
  ghost predicate OutcomeOfRun(s: State, o: RunOutcome) {
    && s.runner != Running
    && (s.runner.Graph? ==> o == s.runner.outcome)
    && (s.runner.Broken? ==> o == if s.cancelSignalled then RunOutcome.Cancelled else RunOutcome.Failed)
  }

  /** A response on its way carries the outcome of the run; an error is on its way only if there was no run. */
  ghost predicate MessagesTell(s: State) {
    forall i :: 0 <= i < |s.toClient| ==>
      && (s.toClient[i].ScanResponse? ==> s.engine == Settled && OutcomeOfRun(s, s.toClient[i].outcome))
      && (s.toClient[i].Failure? ==> s.engine == Settled && s.runner == Running)
  }

  ghost predicate ClientKnows(s: State) {
    && (s.client.Finished? || s.client.Cancelled? ==> s.engine == Settled && OutcomeOfRun(s, s.client.outcome))
    && (s.client.CommandError? ==> s.engine == Settled && s.runner == Running)
    && (s.client.Finished? ==> !s.cancelSent && s.client.outcome != RunOutcome.Cancelled)
    && (s.client.Cancelled? ==> s.cancelSent || s.client.outcome == RunOutcome.Cancelled)
  }

  /** A cancel that was sent is on its way, signalled to the runner, or answered late. */
  ghost predicate CancelAccounted(s: State) {
    s.cancelSent ==>
      || s.cancelSignalled
      || (exists i :: 0 <= i < |s.toEngine| && s.toEngine[i].Cancel?)
      || (exists i :: 0 <= i < |s.toClient| && s.toClient[i].CancelResponse?)
  }

  predicate WritesMessage(step: Step) {
    step.EngineSend? || step.EngineFinalSend? || step.EngineReject? || step.EngineRespond? || step.EngineLateCommand?
  }

  lemma TellingKept(s: State, step: Step)
    requires Inv(s) && Enabled(s, step) && MessagesTell(s)
    ensures MessagesTell(Apply(s, step))
  {
    hide Inv, Apply, Enabled, MessagesTell;
    if WritesMessage(step) {
      TellingWritten(s, step);
    } else if step.ClientReceive? {
      TellingRead(s);
    } else {
      TellingUnchanged(s, step);
    }
  }

  lemma TellingWritten(s: State, step: Step)
    requires Inv(s) && Enabled(s, step) && MessagesTell(s) && WritesMessage(step)
    ensures MessagesTell(Apply(s, step))
  {
    hide LeadingPulses, AfterPulses, ChannelOk, PulsesOk, SettlementOk;
  }

  lemma TellingRead(s: State)
    requires Enabled(s, ClientReceive) && MessagesTell(s)
    ensures MessagesTell(Apply(s, ClientReceive))
  {
    MessagesTail(s.toClient);
  }

  lemma TellingUnchanged(s: State, step: Step)
    requires Inv(s) && Enabled(s, step) && MessagesTell(s) && !WritesMessage(step) && !step.ClientReceive?
    ensures MessagesTell(Apply(s, step))
  {
    hide LeadingPulses, AfterPulses, ChannelOk, PulsesOk, SettlementOk;
    if step.EngineReceiveCommand? {
      assert s.toEngine[0].Cancel?;
    }
  }

  lemma KnowledgeKept(s: State, step: Step)
    requires Inv(s) && Enabled(s, step) && MessagesTell(s) && ClientKnows(s)
    ensures ClientKnows(Apply(s, step))
  {
    hide LeadingPulses, AfterPulses, ChannelOk, PulsesOk, SettlementOk, MessagesTell;
    if step.ClientReceive? {
      assert s.client == Waiting;
      FirstTells(s);
    }
  }

  lemma FirstTells(s: State)
    requires MessagesTell(s) && s.toClient != []
    ensures s.toClient[0].ScanResponse? ==> s.engine == Settled && OutcomeOfRun(s, s.toClient[0].outcome)
    ensures s.toClient[0].Failure? ==> s.engine == Settled && s.runner == Running
  {
  }

  lemma CancelKept(s: State, step: Step)
    requires Enabled(s, step) && Inv(s) && Inv(Apply(s, step)) && CancelAccounted(s)
    ensures CancelAccounted(Apply(s, step))
  {
    hide LeadingPulses, AfterPulses, ChannelOk, PulsesOk, SettlementOk;
    var s' := Apply(s, step);
    if s.cancelSent && !s'.cancelSignalled {
      if i :| 0 <= i < |s.toEngine| && s.toEngine[i].Cancel? {
        CommandKept(s, step, i);
      } else {
        var i :| 0 <= i < |s.toClient| && s.toClient[i].CancelResponse?;
        AnswerKept(s, step, i);
      }
    } else if step.ClientCancel? {
      assert s'.toEngine[|s.toEngine|].Cancel?;
    }
  }

  lemma CommandKept(s: State, step: Step, i: nat)
    requires Inv(s) && Enabled(s, step) && i < |s.toEngine| && s.toEngine[i].Cancel? && !Apply(s, step).cancelSignalled
    ensures CancelAccounted(Apply(s, step))
  {
    hide LeadingPulses, AfterPulses, ChannelOk, PulsesOk, SettlementOk;
    var s' := Apply(s, step);
    if step.EngineReceiveCommand? || step.EngineLateCommand? || step.EngineAccept? || step.EngineReject? {
      if i == 0 {
        assert step.EngineLateCommand?;
        assert s'.toClient[|s.toClient|].CancelResponse?;
      } else {
        assert s'.toEngine[i - 1] == s.toEngine[i];
      }
    } else {
      assert s'.toEngine[i] == s.toEngine[i];
    }
  }

  lemma AnswerKept(s: State, step: Step, i: nat)
    requires Enabled(s, step) && Inv(s) && Inv(Apply(s, step)) && i < |s.toClient| && s.toClient[i].CancelResponse?
    ensures CancelAccounted(Apply(s, step))
  {
    hide LeadingPulses, AfterPulses, ChannelOk, PulsesOk, SettlementOk;
    var s' := Apply(s, step);
    if step.ClientReceive? {
      assert i != 0;
      assert s'.toClient[i - 1] == s.toClient[i];
    } else {
      assert s'.toClient[i] == s.toClient[i];
    }
  }

  lemma {:induction false} OutcomesReached(op: string, cancelId: string, steps: seq<Step>, s: State)
    requires Reaches(Start(op, cancelId), steps, s)
    ensures MessagesTell(s) && ClientKnows(s) && CancelAccounted(s)
    decreases |steps|
  {
    if steps != [] {
      hide Inv, Apply, Enabled, Start, MessagesTell, ClientKnows, CancelAccounted;
      var n := |steps| - 1;
      var before :| Reaches(Start(op, cancelId), steps[..n], before) && Enabled(before, steps[n]) && s == Apply(before, steps[n]);
      OutcomesReached(op, cancelId, steps[..n], before);
      ReachedOk(op, cancelId, steps[..n], before);
      ReachedOk(op, cancelId, steps, s);
      TellingKept(before, steps[n]);
      KnowledgeKept(before, steps[n]);
      CancelKept(before, steps[n]);
    }
  }

  /** A settled client reports the outcome of the graph that was built. Without a graph it reports a cancellation exactly if
      the cancel reached the runner, and a failure otherwise; and it reports an error exactly if the scan was refused. */
  lemma SettledOutcome(op: string, cancelId: string, steps: seq<Step>, s: State)
    requires Reaches(Start(op, cancelId), steps, s) && ClientSettled(s.client)
    ensures s.runner.Graph? ==> (s.client.Finished? || s.client.Cancelled?) && s.client.outcome == s.runner.outcome
    ensures s.runner.Broken? ==>
      (s.client.Finished? || s.client.Cancelled?) && s.client.outcome == if s.cancelSignalled then RunOutcome.Cancelled else RunOutcome.Failed
    ensures s.runner.Running? ==> s.client.CommandError?
    ensures s.client == ClientPhase.Finished(RunOutcome.Finished) ==> s.runner == Graph(RunOutcome.Finished)
    ensures s.client.Cancelled? <==> !s.client.CommandError? && (s.cancelSent || s.client.outcome == RunOutcome.Cancelled)
  {
    OutcomesReached(op, cancelId, steps, s);
  }

  /** A cancel is never lost: it waits to be read, or was signalled to the runner, or has its late answer on the way. */
  lemma CancelIsAnswered(op: string, cancelId: string, steps: seq<Step>, s: State)
    requires Reaches(Start(op, cancelId), steps, s) && s.cancelSent && s.toEngine == []
    ensures s.cancelSignalled || exists i :: 0 <= i < |s.toClient| && s.toClient[i].CancelResponse?
  {
    OutcomesReached(op, cancelId, steps, s);
  }

  /** A cancel is signalled only if the client sent it, so a scan it did not cancel is reported cancelled only if the worker's run
      was itself cancelled. */
  lemma CancelledForAReason(op: string, cancelId: string, steps: seq<Step>, s: State)
    requires Reaches(Start(op, cancelId), steps, s)
    ensures s.cancelSignalled ==> s.cancelSent
    ensures (s.client.Finished? || s.client.Cancelled?) && s.client.outcome == RunOutcome.Cancelled ==>
      s.cancelSent || s.runner == Graph(RunOutcome.Cancelled)
  {
    ReachedOk(op, cancelId, steps, s);
    OutcomesReached(op, cancelId, steps, s);
  }

  // ---- After the run has ended

  predicate IsEngineStep(step: Step) {
    !step.RunnerEmit? && !step.RunnerFinish? && !step.ClientCancel? && !step.ClientDeadline? && !step.ClientReceive?
  }

  /** The phases still ahead of the engine once the runner has finished. */
  function PhasesLeft(phase: EnginePhase): nat {
    match phase
    case Idle => 8
    case Draining => 7
    case Sending => 6
    case Polling => 5
    case Checking => 4
    case FinalDrain => 3
    case FinalSend => 2
    case Responding => 1
    case Settled => 0
  }

  predicate Closer(a: State, b: State) {
    PhasesLeft(b.engine) < PhasesLeft(a.engine) || (b.engine == a.engine && |b.channel| < |a.channel|)
  }

  /** A finished run settles: the engine always has a step to take, every one of its steps brings it closer to the
      settlement, and nothing the client does sets it back. */
  lemma FinishedRunSettles(s: State, step: Step)
    requires s.engine != Idle && s.engine != Settled && s.runner != Running && Enabled(s, step)
    ensures Apply(s, step).runner == s.runner
    ensures if IsEngineStep(step) then Closer(s, Apply(s, step)) else Apply(s, step).engine == s.engine && Apply(s, step).channel == s.channel
    ensures exists next :: IsEngineStep(next) && Enabled(s, next)
  {
    var next := match s.engine
      case Draining => if s.channel != [] then EngineReceiveProgress else EngineDrained
      case Sending => EngineHold
      case Polling => if s.toEngine != [] then EngineReceiveCommand else EngineNoCommand
      case Checking => EngineCheck
      case FinalDrain => if s.channel != [] then EngineFinalReceive else EngineFinalDrained
      case FinalSend => EngineFinalSend
      case _ => EngineRespond;
    assert IsEngineStep(next) && Enabled(s, next);
  }
}
