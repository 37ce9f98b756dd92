/**
 The per-prompt supervisor (cmd/harness-supervisor/per_prompt.go): a data-socket reader
 goroutine and a control loop that share a mutex, a condition variable, a read deadline and an
 ack channel. The model is a transition system. Each step is one critical section, one socket
 call, one pipe write or one channel operation of the source, so every interleaving of the two
 goroutines and of the peer is a sequence of steps.

 Assumptions on the environment: the data socket stays open, stdin writes succeed, and the
 5 ms read of the drain loop times out only when the kernel buffer is empty. A read whose
 deadline has already passed may time out while bytes are still buffered.
 */
module PromptDrain {
  import opened Wrappers

  datatype CtlAction = BeginPrompt | EndPrompt | Interrupt | End | Unknown

  datatype Pipe = Pipe(content: Bytes, closed: bool)

  datatype Deadline = NoDeadline | Tripped | Short

  /** Program counter of copyFromDataUDS, with the locals that are live there. */
  datatype Reader =
    | Reading                                        // in the blocking Read
    | Holding(chunk: Bytes)                          // entering writeToStdin
    | Parked(chunk: Bytes)                           // in cond.Wait
    | Writing(chunk: Bytes, w: nat)                  // stdin captured, lock released
    | TimedOut                                       // Read timed out, entering runDrain
    | DrainReading(ack: nat, dst: Option<nat>)       // in the drain loop
    | DrainWriting(ack: nat, dst: Option<nat>, chunk: Bytes)
    | DrainClearing(ack: nat)                        // about to clear the deadline
    | DrainClosing(ack: nat)                         // about to close the ack
    | Exited

  /** Program counter of the dispatch loop. */
  datatype Main =
    | Dispatching
    | Draining(ack: nat, stop: bool)                 // <-drainAck
    | Closing(w: Option<nat>, stop: bool)            // stdin detached, not yet closed
    | Reaping(stop: bool)                            // waiting for the process to exit
    | Stopped

  datatype State = State(
    kernel: Bytes,              // kernel buffer of the data socket
    deadline: Deadline,
    reader: Reader,
    main: Main,
    stdin: Option<nat>,         // index into pipes
    cmd: Option<nat>,
    drainAck: Option<nat>,
    pipes: seq<Pipe>,           // one stdin pipe per spawned CLI
    acksMade: nat,
    acksClosed: seq<nat>,       // every close(ack) in order
    ctl: seq<CtlAction>,        // control messages not yet dispatched
    sent: seq<Bytes>,           // body bytes the peer has sent, per prompt
    peerOpen: bool,             // the peer is between begin and end of the last prompt
    peerDone: bool)             // the peer has sent "end"

  const INIT := State([], NoDeadline, Reading, Dispatching, None, None, None, [], 0, [], [], [], false, false)

  datatype Step =
    | PeerBegin | PeerBody(bytes: Bytes) | PeerEnd | PeerOther(action: CtlAction) | PeerShutdown
    | ReadData(n: nat) | ReadTimeout | LockStdin | WriteStdin
    | DrainEnter | DrainRead(n: nat) | DrainQuiet | DrainWrite | DrainClear | DrainClose
    | Dispatch | AckSeen | CloseStdin | Reap

  /** Prompts whose stdin has been detached by endPrompt. */
  function Detached(s: State): int {
    |s.pipes| - if s.stdin.Some? then 1 else 0
  }

  /**
   The peer's side of the contract: it opens prompts one at a time, and it sends the body of a
   prompt only while no earlier prompt still owns stdin.
   */
  predicate Disciplined(s: State, step: Step) {
    match step
    case PeerBegin => !s.peerOpen && !s.peerDone
    case PeerBody(_) => s.peerOpen && Detached(s) == |s.sent| - 1
    case PeerEnd => !s.peerDone
    case PeerOther(a) => !s.peerDone && (a.Interrupt? || a.Unknown?)
    case PeerShutdown => !s.peerDone
    case _ => true
  }

  predicate Enabled(s: State, step: Step) {
    match step
    case PeerBegin => true
    case PeerBody(_) => |s.sent| > 0
    case PeerEnd => true
    case PeerOther(_) => true
    case PeerShutdown => true
    case ReadData(n) => s.reader.Reading? && 0 < n <= |s.kernel| && n <= 4096
    case ReadTimeout => s.reader.Reading? && s.deadline.Tripped?
    case LockStdin => s.reader.Holding?
    case WriteStdin => s.reader.Writing? && s.reader.w < |s.pipes|
    case DrainEnter => s.reader.TimedOut?
    case DrainRead(n) => s.reader.DrainReading? && 0 < n <= |s.kernel| && n <= 4096
    case DrainQuiet => s.reader.DrainReading? && s.kernel == []
    case DrainWrite => s.reader.DrainWriting? && (s.reader.dst.Some? ==> s.reader.dst.value < |s.pipes|)
    case DrainClear => s.reader.DrainClearing?
    case DrainClose => s.reader.DrainClosing?
    case Dispatch => s.main.Dispatching? && s.ctl != []
    case AckSeen => s.main.Draining? && s.main.ack in s.acksClosed
    case CloseStdin => s.main.Closing? && (s.main.w.Some? ==> s.main.w.value < |s.pipes|)
    case Reap => s.main.Reaping?
  }

  /** A pipe write: appended while the pipe is open, dropped once it is closed. */
  function WritePipe(pipes: seq<Pipe>, w: nat, chunk: Bytes): seq<Pipe>
    requires w < |pipes|
  {
    if pipes[w].closed then pipes else pipes[w := Pipe(pipes[w].content + chunk, false)]
  }

  /** beginPrompt: refuses a second active prompt, else installs a fresh stdin and broadcasts. */
  function BeginStep(s: State): State {
    if s.cmd.Some? then s.(main := Stopped)
    else
      var k := |s.pipes|;
      s.(pipes := s.pipes + [Pipe([], false)], cmd := Some(k), stdin := Some(k),
         reader := if s.reader.Parked? then Holding(s.reader.chunk) else s.reader)
  }

  /** The first critical section of endPrompt; `stop` is set for the "end" action. */
  function EndStep(s: State, stop: bool): State {
    if s.cmd.None? then (if stop then s.(main := Stopped) else s)
    else s.(drainAck := Some(s.acksMade), acksMade := s.acksMade + 1, deadline := Tripped,
            main := Draining(s.acksMade, stop))
  }

  function Do(s: State, step: Step): State
    requires Enabled(s, step)
  {
    match step
    case PeerBegin => s.(ctl := s.ctl + [BeginPrompt], sent := s.sent + [[]], peerOpen := true)
    case PeerBody(b) =>
      var j := |s.sent| - 1;
      s.(kernel := s.kernel + b, sent := s.sent[j := s.sent[j] + b])
    case PeerEnd => s.(ctl := s.ctl + [EndPrompt], peerOpen := false)
    case PeerOther(a) => s.(ctl := s.ctl + [a])
    case PeerShutdown => s.(ctl := s.ctl + [End], peerOpen := false, peerDone := true)
    case ReadData(n) => s.(kernel := s.kernel[n..], reader := Holding(s.kernel[..n]))
    case ReadTimeout => s.(reader := TimedOut)
    case LockStdin =>
      if s.stdin.Some? then s.(reader := Writing(s.reader.chunk, s.stdin.value))
      else if s.drainAck.None? then s.(reader := Parked(s.reader.chunk))
      else s.(reader := Reading)
    case WriteStdin => s.(pipes := WritePipe(s.pipes, s.reader.w, s.reader.chunk), reader := Reading)
    case DrainEnter =>
      if s.drainAck.Some? then s.(reader := DrainReading(s.drainAck.value, s.stdin), deadline := Short)
      else s.(reader := Exited)
    case DrainRead(n) =>
      s.(kernel := s.kernel[n..], reader := DrainWriting(s.reader.ack, s.reader.dst, s.kernel[..n]))
    case DrainQuiet => s.(reader := DrainClearing(s.reader.ack))
    case DrainWrite =>
      s.(pipes := if s.reader.dst.Some? then WritePipe(s.pipes, s.reader.dst.value, s.reader.chunk) else s.pipes,
         reader := DrainReading(s.reader.ack, s.reader.dst))
    case DrainClear => s.(reader := DrainClosing(s.reader.ack), deadline := NoDeadline)
    case DrainClose => s.(acksClosed := s.acksClosed + [s.reader.ack], reader := Reading)
    case Dispatch =>
      var s1 := s.(ctl := s.ctl[1..]);
      (match s.ctl[0]
       case BeginPrompt => BeginStep(s1)
       case EndPrompt => EndStep(s1, false)
       case End => EndStep(s1, true)
       case _ => s1)
    case AckSeen => s.(stdin := None, drainAck := None, main := Closing(s.stdin, s.main.stop))
    case CloseStdin =>
      s.(pipes := if s.main.w.Some?
                  then s.pipes[s.main.w.value := s.pipes[s.main.w.value].(closed := true)] else s.pipes,
         main := Reaping(s.main.stop))
    case Reap => s.(cmd := None, main := if s.main.stop then Stopped else Dispatching)
  }

  /** A run of the system from `s`: every step enabled, every peer step disciplined. */
  predicate ValidRun(s: State, steps: seq<Step>)
    decreases |steps|
  {
    steps == [] ||
    (Enabled(s, steps[0]) && Disciplined(s, steps[0]) && ValidRun(Do(s, steps[0]), steps[1..]))
  }

  function Run(s: State, steps: seq<Step>): State
    requires ValidRun(s, steps)
    decreases |steps|
  {
    if steps == [] then s else Run(Do(s, steps[0]), steps[1..])
  }

  // ------------------------------------------------------------- the invariant

  /** The undispatched control messages keep prompts one at a time; "end" comes last. */
  predicate Orderly(open: bool, q: seq<CtlAction>)
    decreases |q|
  {
    q == [] ||
    match q[0]
    case BeginPrompt => !open && Orderly(true, q[1..])
    case EndPrompt => Orderly(false, q[1..])
    case End => q[1..] == []
    case _ => Orderly(open, q[1..])
  }

  function OpenAfter(open: bool, q: seq<CtlAction>): bool
    decreases |q|
  {
    if q == [] then open
    else OpenAfter(match q[0] case BeginPrompt => true case EndPrompt => false case End => false case _ => open, q[1..])
  }

  function Begins(q: seq<CtlAction>): nat
    decreases |q|
  {
    if q == [] then 0 else (if q[0].BeginPrompt? then 1 else 0) + Begins(q[1..])
  }

  lemma {:induction false} QueueAppend(open: bool, q: seq<CtlAction>, a: CtlAction)
    requires Orderly(open, q) && End !in q
    requires a.BeginPrompt? ==> !OpenAfter(open, q)
    ensures Orderly(open, q + [a])
    ensures OpenAfter(open, q + [a]) ==
            match a case BeginPrompt => true case EndPrompt => false case End => false case _ => OpenAfter(open, q)
    ensures Begins(q + [a]) == Begins(q) + if a.BeginPrompt? then 1 else 0
    decreases |q|
  {
    if q == [] {
      assert q + [a] == [a];
    } else {
      assert (q + [a])[1..] == q[1..] + [a];
      var o := match q[0] case BeginPrompt => true case EndPrompt => false case End => false case _ => open;
      QueueAppend(o, q[1..], a);
    }
  }

  /** An open queue that starts closed holds a begin-prompt. */
  lemma {:induction false} OpenNeedsBegin(q: seq<CtlAction>)
    ensures OpenAfter(false, q) ==> Begins(q) > 0
    decreases |q|
  {
    if q != [] && !q[0].BeginPrompt? {
      OpenNeedsBegin(q[1..]);
    }
  }

  /** Is the prompt that the dispatch loop would see next still open? */
  predicate MainOpen(main: Main, cmd: Option<nat>) {
    main.Dispatching? && cmd.Some?
  }

  /** The dispatch loop has taken the "end" action. */
  predicate Stopping(main: Main) {
    match main
    case Dispatching => false
    case Draining(_, stop) => stop
    case Closing(_, stop) => stop
    case Reaping(stop) => stop
    case Stopped => true
  }

  predicate CtlOk(open: bool, stopping: bool, ctl: seq<CtlAction>, ahead: int, peerOpen: bool, peerDone: bool) {
    && Orderly(open, ctl)
    && OpenAfter(open, ctl) == peerOpen
    && (!peerDone ==> End !in ctl)
    && ahead == Begins(ctl)
    && (peerDone ==> !peerOpen)
    && (stopping ==> ctl == [] && peerDone)
  }

  predicate CtlInv(s: State) {
    CtlOk(MainOpen(s.main, s.cmd), Stopping(s.main), s.ctl, |s.sent| - |s.pipes|, s.peerOpen, s.peerDone)
  }

  /** An end-prompt handshake is in flight and its ack is not yet closed. */
  predicate AckPending(main: Main, acks: nat) {
    main.Draining? && main.ack == acks
  }

  predicate Pending(s: State) {
    AckPending(s.main, |s.acksClosed|)
  }

  /** Each ack but a pending one has been closed, once and in order. */
  predicate AcksOk(main: Main, made: nat, closed: seq<nat>) {
    && made == |closed| + (if AckPending(main, |closed|) then 1 else 0)
    && (main.Draining? ==> made == main.ack + 1)
    && (forall i :: 0 <= i < |closed| ==> closed[i] == i)
  }

  /** The fields guarded by the mutex, for `n` spawned prompts. */
  predicate FieldsOk(main: Main, stdin: Option<nat>, cmd: Option<nat>, drainAck: Option<nat>, n: nat) {
    match main
    case Dispatching => drainAck.None? && stdin == cmd && (cmd.Some? ==> n > 0 && cmd == Some(n - 1))
    case Draining(a, _) => drainAck == Some(a) && n > 0 && stdin == cmd == Some(n - 1)
    case Closing(w, _) => drainAck.None? && stdin.None? && n > 0 && cmd == w == Some(n - 1)
    case Reaping(_) => drainAck.None? && stdin.None? && cmd.Some?
    case Stopped => drainAck.None? && stdin.None? && cmd.None?
  }

  /** The first `n` pipes are closed and the others open. */
  predicate ClosedUpTo(pipes: seq<Pipe>, n: int) {
    forall j :: 0 <= j < |pipes| ==> (pipes[j].closed <==> j < n)
  }

  function ClosedCount(s: State): int {
    if s.main.Closing? then |s.pipes| - 1 else Detached(s)
  }

  predicate MainInv(s: State) {
    && AcksOk(s.main, s.acksMade, s.acksClosed)
    && FieldsOk(s.main, s.stdin, s.cmd, s.drainAck, |s.pipes|)
    && ClosedUpTo(s.pipes, ClosedCount(s))
  }

  function Held(r: Reader): Bytes {
    match r
    case Holding(c) => c
    case Parked(c) => c
    case Writing(c, _) => c
    case DrainWriting(_, _, c) => c
    case _ => []
  }

  /** `pending` and `waiting`: the ack is pending; endPrompt waits for an ack. */
  predicate ReaderOk(r: Reader, pending: bool, waiting: bool, deadline: Deadline, empty: bool,
                     stdin: Option<nat>, drainAck: Option<nat>) {
    match r
    case Reading => (deadline == if pending then Tripped else NoDeadline) && (waiting && !pending ==> empty)
    case Holding(_) => (deadline == if pending then Tripped else NoDeadline) && (waiting ==> pending)
    case Parked(_) => deadline.NoDeadline? && stdin.None? && drainAck.None? && !pending && !waiting
    case Writing(_, w) => (deadline == if pending then Tripped else NoDeadline)
                        && stdin == Some(w) && (waiting ==> pending)
    case TimedOut => pending && drainAck.Some?
    case DrainReading(a, d) => pending && drainAck == Some(a) && d == stdin
    case DrainWriting(a, d, _) => pending && drainAck == Some(a) && d == stdin
    case DrainClearing(a) => pending && drainAck == Some(a) && empty
    case DrainClosing(a) => pending && drainAck == Some(a) && empty && deadline.NoDeadline?
    case Exited => false
  }

  predicate ReaderInv(s: State) {
    ReaderOk(s.reader, Pending(s), s.main.Draining?, s.deadline, s.kernel == [], s.stdin, s.drainAck)
  }

  /** Bytes already in the stdin pipe of the prompt being served. */
  function Delivered(stdin: Option<nat>, pipes: seq<Pipe>): Bytes {
    if stdin.Some? && |pipes| > 0 then pipes[|pipes| - 1].content else []
  }

  /** Detached prompts got their body; the body in progress is delivered plus `rest`. */
  predicate BytesOk(stdin: Option<nat>, pipes: seq<Pipe>, sent: seq<Bytes>, rest: Bytes) {
    var d := |pipes| - if stdin.Some? then 1 else 0;
    && |pipes| <= |sent|
    && (forall j :: 0 <= j < d ==> pipes[j].content == sent[j])
    && (forall j :: d < j < |sent| && 0 <= j ==> sent[j] == [])
    && Delivered(stdin, pipes) + rest == (if 0 <= d < |sent| then sent[d] else [])
  }

  predicate BytesInv(s: State) {
    BytesOk(s.stdin, s.pipes, s.sent, Held(s.reader) + s.kernel)
  }

  predicate Inv(s: State) {
    CtlInv(s) && MainInv(s) && ReaderInv(s) && BytesInv(s)
  }

  // ------------------------------------------------------------ preservation: the peer

  predicate IsPeerStep(step: Step) {
    step.PeerBegin? || step.PeerBody? || step.PeerEnd? || step.PeerOther? || step.PeerShutdown?
  }

  /** While endPrompt waits, the disciplined peer has no body bytes to send. */
  lemma PeerSilentWhileDraining(s: State, b: Bytes)
    requires CtlInv(s) && MainInv(s) && s.main.Draining?
    ensures !Disciplined(s, PeerBody(b))
  {
    OpenNeedsBegin(s.ctl);
  }

  lemma PeerKeepsCtl(s: State, step: Step)
    requires CtlInv(s) && IsPeerStep(step) && Enabled(s, step) && Disciplined(s, step)
    ensures CtlInv(Do(s, step))
  {
    var open := MainOpen(s.main, s.cmd);
    match step
    case PeerBegin => QueueAppend(open, s.ctl, BeginPrompt);
    case PeerEnd => QueueAppend(open, s.ctl, EndPrompt);
    case PeerOther(a) => QueueAppend(open, s.ctl, a);
    case PeerShutdown => QueueAppend(open, s.ctl, End);
    case PeerBody(_) =>
  }

  lemma BeginKeepsSent(stdin: Option<nat>, pipes: seq<Pipe>, sent: seq<Bytes>, rest: Bytes)
    requires BytesOk(stdin, pipes, sent, rest)
    ensures BytesOk(stdin, pipes, sent + [[]], rest)
  {
    var sent' := sent + [[]];
    assert forall j :: 0 <= j < |sent| ==> sent'[j] == sent[j];
  }

  lemma BodyKeepsSent(stdin: Option<nat>, pipes: seq<Pipe>, sent: seq<Bytes>, rest: Bytes, b: Bytes)
    requires BytesOk(stdin, pipes, sent, rest)
    requires |pipes| - (if stdin.Some? then 1 else 0) == |sent| - 1
    requires |sent| > 0
    ensures BytesOk(stdin, pipes, sent[|sent| - 1 := sent[|sent| - 1] + b], rest + b)
  {
    assert Delivered(stdin, pipes) + (rest + b) == Delivered(stdin, pipes) + rest + b;
  }

  lemma BodyKeepsInv(s: State, step: Step)
    requires Inv(s) && step.PeerBody? && Enabled(s, step) && Disciplined(s, step)
    ensures BytesInv(Do(s, step)) && ReaderInv(Do(s, step)) && MainInv(Do(s, step))
  {
    BodyKeepsSent(s.stdin, s.pipes, s.sent, Held(s.reader) + s.kernel, step.bytes);
    ConcatAssociative(Held(s.reader), s.kernel, step.bytes);
    BodyKeepsReader(s, step);
  }

  lemma ConcatAssociative(a: Bytes, b: Bytes, c: Bytes)
    ensures (a + b) + c == a + (b + c)
  {
  }

  lemma BodyKeepsReader(s: State, step: Step)
    requires CtlInv(s) && MainInv(s) && ReaderInv(s)
    requires step.PeerBody? && Enabled(s, step) && Disciplined(s, step)
    ensures ReaderInv(Do(s, step)) && MainInv(Do(s, step))
  {
    if s.main.Draining? {
      PeerSilentWhileDraining(s, step.bytes);
    }
  }

  lemma PeerKeepsInv(s: State, step: Step)
    requires Inv(s) && IsPeerStep(step) && Enabled(s, step) && Disciplined(s, step)
    ensures Inv(Do(s, step))
  {
    PeerKeepsCtl(s, step);
    if step.PeerBegin? {
      BeginKeepsSent(s.stdin, s.pipes, s.sent, Held(s.reader) + s.kernel);
    } else if step.PeerBody? {
      BodyKeepsInv(s, step);
    }
  }

  // ------------------------------------------------------------ preservation: the reader

  predicate IsReaderStep(step: Step) {
    step.ReadData? || step.ReadTimeout? || step.LockStdin? || step.WriteStdin? || step.DrainEnter?
    || step.DrainRead? || step.DrainQuiet? || step.DrainWrite? || step.DrainClear? || step.DrainClose?
  }

  lemma ReadKeepsReader(s: State, step: Step)
    requires ReaderInv(s) && Enabled(s, step) && (step.ReadData? || step.DrainRead?)
    ensures ReaderInv(Do(s, step))
  {
  }

  lemma ReadKeepsInv(s: State, step: Step)
    requires Inv(s) && Enabled(s, step) && (step.ReadData? || step.DrainRead?)
    ensures Inv(Do(s, step))
  {
    ReadKeepsReader(s, step);
    ReadKeepsMain(s, step);
    ReadKeepsRest(s, step);
  }

  lemma ReadKeepsMain(s: State, step: Step)
    requires CtlInv(s) && MainInv(s) && Enabled(s, step) && (step.ReadData? || step.DrainRead?)
    ensures CtlInv(Do(s, step)) && MainInv(Do(s, step))
  {
  }

  /** A read moves bytes from the kernel buffer to the reader's chunk. */
  lemma ReadKeepsRest(s: State, step: Step)
    requires Enabled(s, step) && (step.ReadData? || step.DrainRead?)
    ensures var t := Do(s, step);
            && t.stdin == s.stdin && t.pipes == s.pipes && t.sent == s.sent
            && Held(t.reader) + t.kernel == Held(s.reader) + s.kernel
  {
    assert s.kernel[..step.n] + s.kernel[step.n..] == s.kernel == [] + s.kernel;
  }

  lemma WriteKeepsBytes(pipes: seq<Pipe>, w: nat, sent: seq<Bytes>, chunk: Bytes, rest: Bytes, held: Bytes)
    requires BytesOk(Some(w), pipes, sent, chunk + rest) && w == |pipes| - 1 && !pipes[w].closed && held == []
    ensures BytesOk(Some(w), WritePipe(pipes, w, chunk), sent, held + rest)
  {
    ConcatAssociative(pipes[w].content, chunk, rest);
    assert held + rest == rest;
  }

  lemma WriteKeepsInv(s: State, step: Step)
    requires Inv(s) && Enabled(s, step) && (step.WriteStdin? || step.DrainWrite?)
    ensures Inv(Do(s, step))
  {
    WriteKeepsMain(s, step);
    WriteKeepsRest(s, step);
  }

  lemma WriteKeepsMain(s: State, step: Step)
    requires CtlInv(s) && MainInv(s) && ReaderInv(s) && Enabled(s, step) && (step.WriteStdin? || step.DrainWrite?)
    ensures CtlInv(Do(s, step)) && MainInv(Do(s, step)) && ReaderInv(Do(s, step))
    ensures |s.pipes| > 0 && s.stdin == Some(|s.pipes| - 1) && !s.pipes[|s.pipes| - 1].closed
    ensures step.WriteStdin? ==> s.reader.w == |s.pipes| - 1
    ensures step.DrainWrite? ==> s.reader.dst == s.stdin
  {
    assert !s.pipes[|s.pipes| - 1].closed;
  }

  /** A write moves the reader's chunk into the pipe. */
  lemma WriteKeepsRest(s: State, step: Step)
    requires BytesInv(s) && Enabled(s, step) && (step.WriteStdin? || step.DrainWrite?)
    requires |s.pipes| > 0 && s.stdin == Some(|s.pipes| - 1) && !s.pipes[|s.pipes| - 1].closed
    requires step.WriteStdin? ==> s.reader.w == |s.pipes| - 1
    requires step.DrainWrite? ==> s.reader.dst == s.stdin
    ensures BytesInv(Do(s, step))
  {
    var t, w := Do(s, step), |s.pipes| - 1;
    assert t.pipes == WritePipe(s.pipes, w, s.reader.chunk) && t.stdin == Some(w);
    WriteKeepsBytes(s.pipes, w, s.sent, Held(s.reader), s.kernel, Held(t.reader));
  }

  lemma CloseAckKeepsAcks(main: Main, made: nat, closed: seq<nat>)
    requires AcksOk(main, made, closed) && AckPending(main, |closed|)
    ensures AcksOk(main, made, closed + [|closed|]) && !AckPending(main, |closed| + 1)
  {
  }

  /** Moving only the reader's program counter and the deadline keeps all but ReaderInv. */
  lemma ReaderFrame(s: State, t: State)
    requires CtlInv(s) && MainInv(s) && BytesInv(s)
    requires t == s.(reader := t.reader, deadline := t.deadline) && Held(t.reader) == Held(s.reader)
    ensures CtlInv(t) && MainInv(t) && BytesInv(t)
  {
  }

  /** The reader steps that move no bytes and close no ack. */
  lemma SignalKeepsReader(s: State, step: Step)
    requires MainInv(s) && ReaderInv(s) && Enabled(s, step)
    requires step.ReadTimeout? || step.LockStdin? || step.DrainEnter? || step.DrainQuiet? || step.DrainClear?
    ensures var t := Do(s, step);
            ReaderInv(t) && t == s.(reader := t.reader, deadline := t.deadline) && Held(t.reader) == Held(s.reader)
  {
  }

  lemma DrainCloseKeepsInv(s: State)
    requires Inv(s) && Enabled(s, DrainClose)
    ensures Inv(Do(s, DrainClose))
  {
    CloseAckKeepsAcks(s.main, s.acksMade, s.acksClosed);
    var t := Do(s, DrainClose);
    assert t.acksClosed == s.acksClosed + [|s.acksClosed|];
    assert t == s.(acksClosed := t.acksClosed, reader := Reading);
  }

  lemma SignalKeepsInv(s: State, step: Step)
    requires Inv(s) && Enabled(s, step)
    requires step.ReadTimeout? || step.LockStdin? || step.DrainEnter? || step.DrainQuiet? || step.DrainClear?
    ensures Inv(Do(s, step))
  {
    SignalKeepsReader(s, step);
    ReaderFrame(s, Do(s, step));
  }

  // ------------------------------------------------------------ preservation: the control loop

  lemma DispatchKeepsCtl(s: State)
    requires CtlInv(s) && MainInv(s) && Enabled(s, Dispatch)
    ensures CtlInv(Do(s, Dispatch))
    ensures s.ctl[0].BeginPrompt? ==> s.cmd.None? && |s.pipes| < |s.sent|
  {
    var a, q := s.ctl[0], s.ctl[1..];
    assert s.ctl == [a] + q;
    assert a.End? ==> End in s.ctl;
  }

  lemma SpawnKeepsBytes(pipes: seq<Pipe>, sent: seq<Bytes>, rest: Bytes)
    requires BytesOk(None, pipes, sent, rest) && |pipes| < |sent|
    ensures BytesOk(Some(|pipes|), pipes + [Pipe([], false)], sent, rest)
  {
    assert [] + rest == rest;
  }

  lemma SpawnKeepsClosed(pipes: seq<Pipe>)
    requires ClosedUpTo(pipes, |pipes|)
    ensures ClosedUpTo(pipes + [Pipe([], false)], |pipes|)
  {
  }

  lemma BeginKeepsInv(s: State)
    requires MainInv(s) && ReaderInv(s) && BytesInv(s)
    requires s.main.Dispatching? && s.cmd.None? && |s.pipes| < |s.sent|
    ensures var t := BeginStep(s); MainInv(t) && ReaderInv(t) && BytesInv(t)
  {
    BeginKeepsMain(s);
    SpawnKeepsBytes(s.pipes, s.sent, Held(s.reader) + s.kernel);
  }

  lemma BeginKeepsMain(s: State)
    requires MainInv(s) && ReaderInv(s) && s.main.Dispatching? && s.cmd.None?
    ensures var t := BeginStep(s);
            && MainInv(t) && ReaderInv(t)
            && t.stdin == Some(|s.pipes|) && t.pipes == s.pipes + [Pipe([], false)] && t.sent == s.sent
            && Held(t.reader) == Held(s.reader) && t.kernel == s.kernel
  {
    SpawnKeepsClosed(s.pipes);
    assert ClosedCount(BeginStep(s)) == |s.pipes|;
  }

  lemma EndKeepsInv(s: State, stop: bool)
    requires MainInv(s) && ReaderInv(s) && BytesInv(s) && s.main.Dispatching?
    ensures var t := EndStep(s, stop); MainInv(t) && ReaderInv(t) && BytesInv(t)
  {
  }

  lemma DispatchKeepsInv(s: State)
    requires Inv(s) && Enabled(s, Dispatch)
    ensures Inv(Do(s, Dispatch))
  {
    DispatchKeepsCtl(s);
    var s1 := s.(ctl := s.ctl[1..]);
    assert MainInv(s1) && ReaderInv(s1) && BytesInv(s1);
    match s.ctl[0]
    case BeginPrompt => BeginKeepsInv(s1);
    case EndPrompt => EndKeepsInv(s1, false);
    case End => EndKeepsInv(s1, true);
    case _ =>
  }

  /** When endPrompt sees its ack closed, nothing of the body is left behind. */
  lemma AckMeansDrained(s: State)
    requires Inv(s) && Enabled(s, AckSeen)
    ensures s.kernel == [] && s.reader.Reading? && s.deadline.NoDeadline?
    ensures Delivered(s.stdin, s.pipes) == s.sent[|s.pipes| - 1]
  {
    assert !Pending(s);
    assert Delivered(s.stdin, s.pipes) + ([] + []) == Delivered(s.stdin, s.pipes);
  }

  lemma AckSeenKeepsInv(s: State)
    requires Inv(s) && Enabled(s, AckSeen)
    ensures Inv(Do(s, AckSeen))
  {
    AckSeenKeepsMain(s);
    AckSeenKeepsReader(s);
    DetachKeepsBytes(s.stdin, s.pipes, s.sent, Held(s.reader) + s.kernel);
  }

  lemma AckSeenKeepsMain(s: State)
    requires CtlInv(s) && MainInv(s) && Enabled(s, AckSeen)
    ensures CtlInv(Do(s, AckSeen)) && MainInv(Do(s, AckSeen))
    ensures s.stdin.Some? && |s.pipes| > 0
  {
  }

  lemma AckSeenKeepsReader(s: State)
    requires MainInv(s) && ReaderInv(s) && Enabled(s, AckSeen)
    ensures ReaderInv(Do(s, AckSeen)) && Held(s.reader) + s.kernel == []
  {
    assert !Pending(s);
  }

  lemma DetachKeepsBytes(stdin: Option<nat>, pipes: seq<Pipe>, sent: seq<Bytes>, rest: Bytes)
    requires BytesOk(stdin, pipes, sent, rest) && stdin.Some? && |pipes| > 0 && rest == []
    ensures BytesOk(None, pipes, sent, rest)
  {
    var last := |pipes| - 1;
    assert Delivered(stdin, pipes) == pipes[last].content;
    EmptyRest(pipes[last].content, rest);
    forall j | 0 <= j < |pipes| ensures pipes[j].content == sent[j] {
      if j == last {
        assert pipes[last].content + rest == sent[last];
      }
    }
    assert Delivered(None, pipes) == [];
    EmptyRest([], rest);
    assert |pipes| < |sent| ==> sent[|pipes|] == [];
  }

  lemma EmptyRest(a: Bytes, rest: Bytes)
    requires rest == []
    ensures a + rest == a
  {
  }

  lemma CloseKeepsBytes(pipes: seq<Pipe>, w: nat, sent: seq<Bytes>, rest: Bytes)
    requires BytesOk(None, pipes, sent, rest) && w < |pipes|
    ensures BytesOk(None, pipes[w := pipes[w].(closed := true)], sent, rest)
  {
  }

  lemma CloseKeepsMain(s: State, step: Step)
    requires MainInv(s) && ReaderInv(s) && Enabled(s, step) && (step.CloseStdin? || step.Reap?)
    ensures MainInv(Do(s, step)) && ReaderInv(Do(s, step))
  {
  }

  lemma CloseKeepsInv(s: State, step: Step)
    requires Inv(s) && Enabled(s, step) && (step.CloseStdin? || step.Reap?)
    ensures Inv(Do(s, step))
  {
    CloseKeepsMain(s, step);
    var t := Do(s, step);
    if step.CloseStdin? {
      CloseKeepsBytes(s.pipes, s.main.w.value, s.sent, Held(s.reader) + s.kernel);
    }
    assert t.stdin == s.stdin == None && t.reader == s.reader && t.kernel == s.kernel && t.sent == s.sent;
  }

  lemma StepKeepsInv(s: State, step: Step)
    requires Inv(s) && Enabled(s, step) && Disciplined(s, step)
    ensures Inv(Do(s, step))
  {
    match step
    case PeerBegin => PeerKeepsInv(s, step);
    case PeerBody(_) => PeerKeepsInv(s, step);
    case PeerEnd => PeerKeepsInv(s, step);
    case PeerOther(_) => PeerKeepsInv(s, step);
    case PeerShutdown => PeerKeepsInv(s, step);
    case ReadData(_) => ReadKeepsInv(s, step);
    case DrainRead(_) => ReadKeepsInv(s, step);
    case WriteStdin => WriteKeepsInv(s, step);
    case DrainWrite => WriteKeepsInv(s, step);
    case Dispatch => DispatchKeepsInv(s);
    case AckSeen => AckSeenKeepsInv(s);
    case CloseStdin => CloseKeepsInv(s, step);
    case Reap => CloseKeepsInv(s, step);
    case DrainClose => DrainCloseKeepsInv(s);
    case _ => SignalKeepsInv(s, step);
  }

  lemma {:induction false} RunKeepsInv(s: State, steps: seq<Step>)
    requires Inv(s) && ValidRun(s, steps)
    ensures Inv(Run(s, steps))
    decreases |steps|
  {
    if steps != [] {
      StepKeepsInv(s, steps[0]);
      RunKeepsInv(Do(s, steps[0]), steps[1..]);
    }
  }

  // ------------------------------------------------------------ main results

  /**
   Safety over every run: the k-th CLI's stdin holds a prefix of body k at all times and exactly
   body k once it is closed, whatever the interleaving. The reader never exits, and the pending
   ack never finds it parked.
   */
  lemma PromptsDeliveredWhole(steps: seq<Step>)
    requires ValidRun(INIT, steps)
    ensures DeliversWhole(Run(INIT, steps))
  {
    RunKeepsInv(INIT, steps);
    InvDeliversWhole(Run(INIT, steps));
  }

  predicate DeliversWhole(s: State) {
    && |s.pipes| <= |s.sent|
    && (forall k :: 0 <= k < |s.pipes| ==> s.pipes[k].content <= s.sent[k])
    && (forall k :: 0 <= k < |s.pipes| && s.pipes[k].closed ==> s.pipes[k].content == s.sent[k])
    && !s.reader.Exited?
    && (Pending(s) ==> s.stdin.Some? && !s.reader.Parked?)
  }

  lemma InvDeliversWhole(s: State)
    requires Inv(s)
    ensures DeliversWhole(s)
  {
    PipesHoldPrefixes(s.stdin, s.pipes, s.sent, Held(s.reader) + s.kernel);
  }

  lemma PipesHoldPrefixes(stdin: Option<nat>, pipes: seq<Pipe>, sent: seq<Bytes>, rest: Bytes)
    requires BytesOk(stdin, pipes, sent, rest)
    ensures |pipes| <= |sent|
    ensures forall k :: 0 <= k < |pipes| ==> pipes[k].content <= sent[k]
    ensures forall k :: 0 <= k < |pipes| - (if stdin.Some? then 1 else 0) ==> pipes[k].content == sent[k]
  {
  }

  /** A step leaves a closed pipe alone when the reader and endPrompt only touch the last, open one. */
  lemma ClosedPipeStays(s: State, step: Step, k: nat)
    requires MainInv(s) && ReaderInv(s) && Enabled(s, step)
    requires k < |s.pipes| && s.pipes[k].closed
    ensures k < |Do(s, step).pipes| && Do(s, step).pipes[k] == s.pipes[k]
  {
    assert k < ClosedCount(s);
    match step
    case WriteStdin => assert s.reader.w == |s.pipes| - 1;
    case DrainWrite => assert s.reader.dst == Some(|s.pipes| - 1);
    case CloseStdin => assert s.main.w == Some(|s.pipes| - 1);
    case _ =>
  }

  /** The body of a detached prompt is no longer extended. */
  lemma DetachedBodyStays(s: State, step: Step, k: nat)
    requires Enabled(s, step) && Disciplined(s, step) && k < Detached(s) && k < |s.sent|
    ensures k < |Do(s, step).sent| && Do(s, step).sent[k] == s.sent[k]
  {
  }

  /** Once a stdin is closed, neither its content nor the body it is compared with can change. */
  lemma ClosedStdinIsFinal(s: State, step: Step, k: nat)
    requires Inv(s) && Enabled(s, step) && Disciplined(s, step)
    requires k < |s.pipes| && s.pipes[k].closed
    ensures var t := Do(s, step);
            k < |t.pipes| && t.pipes[k] == s.pipes[k] && k < |t.sent| && t.sent[k] == s.sent[k]
  {
    ClosedPipeStays(s, step, k);
    assert k < ClosedCount(s) <= Detached(s);
    DetachedBodyStays(s, step, k);
  }

  /** Every handshake closes its ack exactly once, in the order the handshakes were opened. */
  lemma AcksClosedOnce(steps: seq<Step>)
    requires ValidRun(INIT, steps)
    ensures AcksInOrder(Run(INIT, steps))
  {
    RunKeepsInv(INIT, steps);
    InvOrdersAcks(Run(INIT, steps));
  }

  /** Ack i was closed as number i, and all but a pending one are closed. */
  predicate AcksInOrder(s: State) {
    && (forall i :: 0 <= i < |s.acksClosed| ==> s.acksClosed[i] == i)
    && s.acksMade == |s.acksClosed| + (if Pending(s) then 1 else 0)
  }

  lemma InvOrdersAcks(s: State)
    requires MainInv(s)
    ensures AcksInOrder(s)
  {
  }

  /** Work left for the reader before it closes the pending ack. */
  function Rank(s: State): nat {
    8 * |s.kernel| +
    match s.reader
    case Holding(_) => 7
    case Parked(_) => 7
    case Writing(_, _) => 6
    case Reading => 5
    case TimedOut => 4
    case DrainWriting(_, _, _) => 4
    case DrainReading(_, _) => 3
    case DrainClearing(_) => 2
    case DrainClosing(_) => 1
    case Exited => 0
  }

  /** The reader step that is always available while endPrompt waits. */
  function ReaderMove(s: State): (step: Step)
    requires Inv(s) && Pending(s)
    ensures IsReaderStep(step) && Enabled(s, step) && Disciplined(s, step)
  {
    match s.reader
    case Reading => ReadTimeout
    case Holding(_) => LockStdin
    case Writing(_, _) => WriteStdin
    case TimedOut => DrainEnter
    case DrainReading(_, _) => if s.kernel == [] then DrainQuiet else DrainRead(1)
    case DrainWriting(_, _, _) => DrainWrite
    case DrainClearing(_) => DrainClear
    case DrainClosing(_) => DrainClose
  }

  /** Every reader step closes the ack or gets closer to it, and no other step undoes progress. */
  lemma DrainProgress(s: State, step: Step)
    requires Inv(s) && Pending(s) && Enabled(s, step) && Disciplined(s, step)
    ensures IsReaderStep(step) && Pending(Do(s, step)) ==> Rank(Do(s, step)) < Rank(s)
    ensures !IsReaderStep(step) ==> Rank(Do(s, step)) == Rank(s) && Pending(Do(s, step))
  {
    if step.PeerBody? {
      PeerSilentWhileDraining(s, step.bytes);
    }
  }

  function ReaderSteps(steps: seq<Step>): nat {
    if steps == [] then 0 else (if IsReaderStep(steps[0]) then 1 else 0) + ReaderSteps(steps[1..])
  }

  /** The handshake of `s` is still open at every state of the run before its last step. */
  predicate StaysPending(s: State, steps: seq<Step>)
    requires ValidRun(s, steps)
    decreases |steps|
  {
    Pending(s) && (steps == [] || StaysPending(Do(s, steps[0]), steps[1..]))
  }

  /**
   endPrompt is released: a run that keeps the ack pending contains fewer reader steps than the
   rank of the state it starts from, and in each of its states the reader has a move.
   */
  lemma {:induction false} DrainTerminates(s: State, steps: seq<Step>)
    requires Inv(s) && ValidRun(s, steps) && StaysPending(s, steps)
    ensures ReaderSteps(steps) <= Rank(s)
    ensures Enabled(Run(s, steps), ReaderMove(RunInv(s, steps)))
    decreases |steps|
  {
    if steps != [] {
      StepKeepsInv(s, steps[0]);
      DrainProgress(s, steps[0]);
      DrainTerminates(Do(s, steps[0]), steps[1..]);
    }
  }

  /** The last state of a run that keeps the handshake open, with what is known about it. */
  ghost function RunInv(s: State, steps: seq<Step>): (t: State)
    requires Inv(s) && ValidRun(s, steps) && StaysPending(s, steps)
    ensures t == Run(s, steps) && Inv(t) && Pending(t)
    decreases |steps|
  {
    if steps == [] then s else
      StepKeepsInv(s, steps[0]);
      RunInv(Do(s, steps[0]), steps[1..])
  }

  // ------------------------------------------------------------ the end of a prompt and of the loop

  /** Reader moves alone bring the pending ack to its close. */
  lemma {:induction false} DrainCompletes(s: State) returns (steps: seq<Step>, t: State)
    requires Inv(s) && Pending(s)
    ensures ValidRun(s, steps) && Run(s, steps) == t && Inv(t) && !Pending(t) && t.main == s.main
    decreases Rank(s)
  {
    var step := ReaderMove(s);
    var s1 := Do(s, step);
    StepKeepsInv(s, step);
    DrainProgress(s, step);
    ReaderKeepsMain(s, step);
    var rest;
    if Pending(s1) {
      rest, t := DrainCompletes(s1);
    } else {
      rest, t := [], s1;
    }
    steps := [step] + rest;
    RunFirst(s, step, rest);
  }

  lemma ReaderKeepsMain(s: State, step: Step)
    requires Enabled(s, step) && IsReaderStep(step)
    ensures Do(s, step).main == s.main
  {
  }

  lemma RunFirst(s: State, step: Step, rest: seq<Step>)
    requires Enabled(s, step) && Disciplined(s, step) && ValidRun(Do(s, step), rest)
    ensures ValidRun(s, [step] + rest) && Run(s, [step] + rest) == Run(Do(s, step), rest)
  {
    assert ([step] + rest)[1..] == rest;
  }

  lemma {:induction false} RunAppend(s: State, a: seq<Step>, b: seq<Step>)
    requires ValidRun(s, a) && ValidRun(Run(s, a), b)
    ensures ValidRun(s, a + b) && Run(s, a + b) == Run(Run(s, a), b)
    decreases |a|
  {
    if a == [] {
      assert a + b == b;
    } else {
      assert (a + b)[1..] == a[1..] + b;
      RunAppend(Do(s, a[0]), a[1..], b);
    }
  }

  /** Where endPrompt leaves the dispatch loop. */
  predicate LoopGoesOn(t: State, stop: bool) {
    t.cmd == None && t.main == if stop then Stopped else Dispatching
  }

  /** Once drained: detach, close, reap. */
  lemma DrainedCompletes(s: State) returns (steps: seq<Step>, t: State)
    requires Inv(s) && s.main.Draining? && !Pending(s)
    ensures ValidRun(s, steps) && Run(s, steps) == t && Inv(t) && LoopGoesOn(t, s.main.stop)
  {
    assert s.acksClosed[s.main.ack] == s.main.ack;
    StepKeepsInv(s, AckSeen);
    var s1 := Do(s, AckSeen);
    StepKeepsInv(s1, CloseStdin);
    var s2 := Do(s1, CloseStdin);
    StepKeepsInv(s2, Reap);
    t := Do(s2, Reap);
    RunFirst(s2, Reap, []);
    RunFirst(s1, CloseStdin, [Reap] + []);
    RunFirst(s, AckSeen, [CloseStdin] + ([Reap] + []));
    steps := [AckSeen] + ([CloseStdin] + ([Reap] + []));
  }

  /** From every state of endPrompt's wait the prompt can be ended, and then the loop goes on or stops. */
  lemma EndPromptCompletes(s: State) returns (steps: seq<Step>, t: State)
    requires Inv(s) && s.main.Draining?
    ensures ValidRun(s, steps) && Run(s, steps) == t && LoopGoesOn(t, s.main.stop)
  {
    var a, s1 := [], s;
    if Pending(s) {
      a, s1 := DrainCompletes(s);
    }
    var b;
    b, t := DrainedCompletes(s1);
    RunAppend(s, a, b);
    steps := a + b;
  }

  /**
   "end" stops the loop: at once if no prompt is active, else it starts endPrompt with the stop
   flag set, which can always be completed to Stopped. "end-prompt" of an active prompt can always
   be completed to an idle dispatch loop.
   */
  lemma EndLeadsToStopped(s: State) returns (steps: seq<Step>, t: State)
    requires Inv(s) && Enabled(s, Dispatch) && (s.ctl[0].End? || (s.ctl[0].EndPrompt? && s.cmd.Some?))
    ensures ValidRun(s, steps) && Run(s, steps) == t && LoopGoesOn(t, s.ctl[0].End?)
    ensures s.cmd == None ==> steps == [Dispatch]
  {
    StepKeepsInv(s, Dispatch);
    var s1 := Do(s, Dispatch);
    var rest;
    if s.cmd == None {
      rest, t := [], s1;
      assert [Dispatch] + rest == [Dispatch];
    } else {
      rest, t := EndPromptCompletes(s1);
    }
    RunFirst(s, Dispatch, rest);
    steps := [Dispatch] + rest;
  }

  /** Only "end" stops the loop, and nothing starts it again. */
  lemma OnlyEndStops(s: State, step: Step)
    requires Inv(s) && Enabled(s, step) && Disciplined(s, step)
    ensures Stopping(Do(s, step).main) <==> Stopping(s.main) || (step.Dispatch? && s.ctl[0].End?)
  {
    if step.Dispatch? {
      DispatchKeepsCtl(s);
    }
  }

  /** Steps taken without regard to the peer's discipline. */
  ghost predicate UndisciplinedRun(s: State, steps: seq<Step>, t: State)
    decreases |steps|
  {
    if steps == [] then s == t
    else Enabled(s, steps[0]) && UndisciplinedRun(Do(s, steps[0]), steps[1..], t)
  }

  /**
   The peer's discipline is needed: if body 1 is sent after the drain of prompt 0 but before its
   stdin is detached, the bytes land in prompt 0's stdin.
   */
  lemma EarlyBodyLandsInWrongStdin(b: bv8) returns (steps: seq<Step>, t: State)
    ensures UndisciplinedRun(INIT, steps, t)
    ensures |t.pipes| == 1 && t.pipes[0].closed && t.sent == [[], [b]] && t.pipes[0].content == [b]
  {
    var p, drained := DrainReached();
    var q;
    q, t := EarlyBodyCanAlwaysGoWrong(drained, b);
    Chain(INIT, p, drained, q, t);
    steps := p + q;
    assert [[]] + [[b]] == [[], [b]] && [] + [b] == [b];
  }

  /** The first prompt, with an empty body, drained and not yet detached. */
  lemma DrainReached() returns (steps: seq<Step>, drained: State)
    ensures UndisciplinedRun(INIT, steps, drained) && Inv(drained) && !Pending(drained) && drained.main.Draining?
    ensures |drained.pipes| == 1 && drained.sent == [[]]
  {
    var draining := INIT.(main := Draining(0, false), cmd := Some(0), stdin := Some(0), drainAck := Some(0),
                          pipes := [Pipe([], false)], acksMade := 1, deadline := Tripped, sent := [[]]);
    drained := draining.(acksClosed := [0], deadline := NoDeadline);
    EarlyBegin(draining);
    EarlyDrain(draining, drained);
    DrainedInv(drained);
    var p1 := [PeerBegin, Dispatch, PeerEnd, Dispatch];
    var p2 := [ReadTimeout, DrainEnter, DrainQuiet, DrainClear, DrainClose];
    Chain(INIT, p1, draining, p2, drained);
    steps := p1 + p2;
  }

  lemma DrainedInv(s: State)
    requires s == State([], NoDeadline, Reading, Draining(0, false), Some(0), Some(0), Some(0), [Pipe([], false)],
                        1, [0], [], [[]], false, false)
    ensures Inv(s) && !Pending(s)
  {
  }

  lemma EarlyBegin(s: State)
    requires s == State([], Tripped, Reading, Draining(0, false), Some(0), Some(0), Some(0), [Pipe([], false)],
                        1, [], [], [[]], false, false)
    ensures UndisciplinedRun(INIT, [PeerBegin, Dispatch, PeerEnd, Dispatch], s)
  {
    var s1 := INIT.(ctl := [BeginPrompt], sent := [[]], peerOpen := true);
    var s2 := s1.(ctl := [], pipes := [Pipe([], false)], cmd := Some(0), stdin := Some(0));
    var s3 := s2.(ctl := [EndPrompt], peerOpen := false);
    assert Do(INIT, PeerBegin) == s1 && Do(s1, Dispatch) == s2 && Do(s2, PeerEnd) == s3 && Do(s3, Dispatch) == s;
    assert UndisciplinedRun(s2, [PeerEnd, Dispatch], s);
    assert UndisciplinedRun(INIT, [PeerBegin, Dispatch], s2);
    Chain(INIT, [PeerBegin, Dispatch], s2, [PeerEnd, Dispatch], s);
  }

  lemma EarlyTimeout(s: State, t: State)
    requires s.reader.Reading? && s.deadline.Tripped? && s.drainAck == Some(0)
    requires t == s.(reader := DrainReading(0, s.stdin), deadline := Short)
    ensures UndisciplinedRun(s, [ReadTimeout, DrainEnter], t)
  {
  }

  lemma EarlyQuiet(s: State, t: State)
    requires s.reader == DrainReading(0, s.stdin) && s.kernel == []
    requires t == s.(reader := DrainClosing(0), deadline := NoDeadline)
    ensures UndisciplinedRun(s, [DrainQuiet, DrainClear], t)
  {
  }

  lemma EarlyDrain(s: State, t: State)
    requires s.reader.Reading? && s.deadline.Tripped? && s.kernel == [] && s.drainAck == Some(0)
    requires t == s.(acksClosed := s.acksClosed + [0], deadline := NoDeadline)
    ensures UndisciplinedRun(s, [ReadTimeout, DrainEnter, DrainQuiet, DrainClear, DrainClose], t)
  {
    var s2 := s.(reader := DrainReading(0, s.stdin), deadline := Short);
    var s3 := s.(reader := DrainClosing(0), deadline := NoDeadline);
    EarlyTimeout(s, s2);
    EarlyQuiet(s2, s3);
    assert UndisciplinedRun(s3, [DrainClose], t);
    Chain(s2, [DrainQuiet, DrainClear], s3, [DrainClose], t);
    Chain(s, [ReadTimeout, DrainEnter], s2, [DrainQuiet, DrainClear] + [DrainClose], t);
  }

  /** The first byte of the next body, sent while stdin `k` is still attached, is written to stdin `k`. */
  lemma EarlyBody(b: bv8, s: State, k: nat, t: State)
    requires s.reader.Reading? && s.kernel == [] && s.stdin == Some(k) && k < |s.pipes| && !s.pipes[k].closed
    requires t == s.(pipes := s.pipes[k := Pipe(s.pipes[k].content + [b], false)], sent := s.sent + [[b]],
                     ctl := s.ctl + [BeginPrompt], peerOpen := true)
    ensures UndisciplinedRun(s, [PeerBegin, PeerBody([b]), ReadData(1), LockStdin, WriteStdin], t)
  {
    var s2 := s.(ctl := s.ctl + [BeginPrompt], peerOpen := true, kernel := [b], sent := s.sent + [[b]]);
    var s3 := s2.(kernel := [], reader := Holding([b]));
    EarlySend(b, s, s2);
    assert s2.kernel[..1] == [b] && s2.kernel[1..] == [];
    assert UndisciplinedRun(s2, [ReadData(1)], s3);
    assert UndisciplinedRun(s3, [LockStdin, WriteStdin], t);
    Chain(s2, [ReadData(1)], s3, [LockStdin, WriteStdin], t);
    Chain(s, [PeerBegin, PeerBody([b])], s2, [ReadData(1)] + [LockStdin, WriteStdin], t);
    assert [PeerBegin, PeerBody([b])] + ([ReadData(1)] + [LockStdin, WriteStdin])
        == [PeerBegin, PeerBody([b]), ReadData(1), LockStdin, WriteStdin];
  }

  lemma EarlySend(b: bv8, s: State, t: State)
    requires s.kernel == []
    requires t == s.(ctl := s.ctl + [BeginPrompt], peerOpen := true, kernel := [b], sent := s.sent + [[b]])
    ensures UndisciplinedRun(s, [PeerBegin, PeerBody([b])], t)
  {
    var s1 := Do(s, PeerBegin);
    assert s1.kernel + [b] == [b] && s1.sent[|s.sent|] + [b] == [b];
    assert s1.sent[|s.sent| := [b]] == s.sent + [[b]];
    assert Do(s1, PeerBody([b])) == t;
  }

  lemma EarlyClose(s: State, k: nat, t: State)
    requires s.main.Draining? && s.main.ack in s.acksClosed && s.stdin == Some(k) && k < |s.pipes|
    requires t == s.(pipes := s.pipes[k := s.pipes[k].(closed := true)], stdin := None, drainAck := None,
                     main := Reaping(s.main.stop))
    ensures UndisciplinedRun(s, [AckSeen, CloseStdin], t)
  {
    var s1 := s.(stdin := None, drainAck := None, main := Closing(Some(k), s.main.stop));
    assert Do(s, AckSeen) == s1 && Do(s1, CloseStdin) == t;
    assert [AckSeen, CloseStdin][1..] == [CloseStdin] && [CloseStdin][1..] == [];
  }

  /**
   From every state in which the drain of prompt k is over and its stdin not yet detached, an early
   body byte has a schedule that puts it into stdin k after all of body k, and closes it there.
   */
  lemma EarlyBodyCanAlwaysGoWrong(s: State, b: bv8) returns (steps: seq<Step>, t: State)
    requires Inv(s) && s.main.Draining? && !Pending(s)
    ensures UndisciplinedRun(s, steps, t)
    ensures var k := |s.pipes| - 1;
            && 0 <= k < |s.sent| && |t.pipes| == |s.pipes| && t.sent == s.sent + [[b]]
            && t.pipes[k] == Pipe(s.sent[k] + [b], true)
  {
    var k := |s.pipes| - 1;
    assert s.acksClosed[s.main.ack] == s.main.ack;
    AckMeansDrained(s);
    assert !s.pipes[k].closed;
    var mixed := s.(pipes := s.pipes[k := Pipe(s.pipes[k].content + [b], false)], sent := s.sent + [[b]],
                    ctl := s.ctl + [BeginPrompt], peerOpen := true);
    t := mixed.(pipes := mixed.pipes[k := mixed.pipes[k].(closed := true)], stdin := None, drainAck := None,
                main := Reaping(s.main.stop));
    EarlyBody(b, s, k, mixed);
    EarlyClose(mixed, k, t);
    steps := [PeerBegin, PeerBody([b]), ReadData(1), LockStdin, WriteStdin] + [AckSeen, CloseStdin];
    Chain(s, [PeerBegin, PeerBody([b]), ReadData(1), LockStdin, WriteStdin], mixed, [AckSeen, CloseStdin], t);
  }

  lemma {:induction false} Chain(s: State, p: seq<Step>, m: State, q: seq<Step>, t: State)
    requires UndisciplinedRun(s, p, m) && UndisciplinedRun(m, q, t)
    ensures UndisciplinedRun(s, p + q, t)
    decreases |p|
  {
    if p == [] {
      assert p + q == q;
    } else {
      assert (p + q)[1..] == p[1..] + q;
      Chain(Do(s, p[0]), p[1..], m, q, t);
    }
  }
}
