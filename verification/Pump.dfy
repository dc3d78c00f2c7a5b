/** `execute_command`: a child process, three bounded pipes, one writer thread, two reader threads and a
    waiter with a deadline, as a system of steps that interleave in any order. */
module Pump {

  import opened Base

  // ---------- states ----------

  /** The six ends of the three pipes, named for the parent's descriptor. */
  datatype End = StdinRead | StdinWrite | StdoutRead | StdoutWrite | StderrRead | StderrWrite

  datatype Stream = Stdout | Stderr

  /** How a process ends, as `waitpid` reports it. */
  datatype Status = Exited(code: nat) | Signaled(signal: nat)

  /** The system call that the child will make next. What it does after that is its own choice. */
  datatype Want =
    | WantRead(atMost: nat)
    | WantWrite(to: Stream, data: Text)
    | WantCloseStdin
    | WantCloseOutput(stream: Stream)
    | WantCompute
    | WantHang                    // never comes back
    | WantEnd(status: Status)     // exits, or dies of its own

  /** How many more calls the child makes before it ends, unless it is killed. */
  datatype Budget = Finite(calls: nat) | Endless

  datatype Child = Alive(want: Want, budget: Budget) | Dead(status: Status) | Gone

  datatype WriterPhase = Writing | WriteLoopLeft | WriterClosed

  datatype ReaderPhase = Reading | SawEof | SawError | ReaderClosed(atEof: bool)

  /** One output pipe with the thread that reads it. `produced` is all that the child wrote to it. */
  datatype Channel = Channel(produced: Text, buffer: Text, collected: Text, reader: ReaderPhase, childHolds: bool)

  datatype WaiterPhase = Polling | Checking | Killing | Reaping | Reaped(status: Status)

  datatype State = State(
    child: Child,
    // standard input: bytes taken by the child, bytes in the pipe, bytes the writer has handed over
    consumed: Text, stdinBuffer: Text, sent: nat, writer: WriterPhase, childHoldsStdin: bool,
    out: Channel, err: Channel,
    waiter: WaiterPhase, deadlinePassed: bool, timedOut: bool,
    // how often the parent has closed each end and reaped the child, and whether its kill found it alive
    closes: multiset<End>, reaps: nat, killed: bool)

  /** What stays fixed: the text for standard input and the capacity of the pipes. */
  datatype Config = Config(stdin: Text, capacity: nat)

  const READ_CHUNK: nat := 4096
  const SIGKILL: nat := 9

  function ChannelOf(s: State, stream: Stream): Channel {
    if stream.Stdout? then s.out else s.err
  }

  function WithChannel(s: State, stream: Stream, c: Channel): State {
    if stream.Stdout? then s.(out := c) else s.(err := c)
  }

  function ReaderEnd(stream: Stream): End {
    if stream.Stdout? then StdoutRead else StderrRead
  }

  /** A child out of calls can only end. */
  predicate Possible(want: Want, budget: Budget) {
    && (want.WantRead? ==> want.atMost > 0)
    && (want.WantWrite? ==> |want.data| > 0)
    && (budget == Finite(0) ==> want.WantEnd?)
  }

  function Spend(budget: Budget): Budget
    requires budget != Finite(0)
  {
    match budget
    case Finite(n) => Finite(n - 1)
    case Endless => Endless
  }

  /** After the fork the parent has closed the far ends, and the threads start. */
  function Start(want: Want, budget: Budget): State {
    var untouched := Channel([], [], [], Reading, true);
    State(Alive(want, budget), [], [], 0, Writing, true, untouched, untouched, Polling, false, false,
          multiset{StdinRead, StdoutWrite, StderrWrite}, 0, false)
  }

  /** All three joins have returned, and so has the wait. */
  predicate Final(s: State) {
    s.writer.WriterClosed? && s.out.reader.ReaderClosed? && s.err.reader.ReaderClosed? && s.waiter.Reaped?
  }

  // ---------- steps of the writer thread ----------

  /** A partial write, an error return, the close, an interrupted call. */
  datatype WriterAct = WriteSome(n: nat) | WriteFails | CloseStdin | RetryWrite

  predicate WriterEnabled(cfg: Config, s: State, a: WriterAct) {
    match a
    case WriteSome(n) =>
      s.writer.Writing? && s.childHoldsStdin && 0 < n <= Min(|cfg.stdin| - s.sent, cfg.capacity - |s.stdinBuffer|)
    case WriteFails => s.writer.Writing? && s.sent < |cfg.stdin| && !s.childHoldsStdin
    case CloseStdin => (s.writer.Writing? && s.sent >= |cfg.stdin|) || s.writer.WriteLoopLeft?
    case RetryWrite => s.writer.Writing? && s.sent < |cfg.stdin|
  }

  function WriterApply(cfg: Config, s: State, a: WriterAct): State
    requires WriterEnabled(cfg, s, a)
  {
    match a
    case WriteSome(n) =>
      s.(stdinBuffer := s.stdinBuffer + cfg.stdin[s.sent..s.sent + n], sent := s.sent + n)
    case WriteFails => s.(writer := WriteLoopLeft)
    case CloseStdin => s.(writer := WriterClosed, closes := s.closes + multiset{StdinWrite})
    case RetryWrite => s
  }

  // ---------- steps of a reader thread ----------

  /** A chunk, end of file, an error return, the close, an interrupted call. */
  datatype ReaderAct = ReadSome(n: nat) | ReadEof | ReadFails | CloseOutput | RetryRead

  predicate ReaderEnabled(c: Channel, a: ReaderAct) {
    match a
    case ReadSome(n) => c.reader.Reading? && 0 < n <= Min(READ_CHUNK, |c.buffer|)
    case ReadEof => c.reader.Reading? && |c.buffer| == 0 && !c.childHolds
    case ReadFails => c.reader.Reading?
    case CloseOutput => c.reader.SawEof? || c.reader.SawError?
    case RetryRead => c.reader.Reading?
  }

  function ReaderApply(c: Channel, a: ReaderAct): Channel
    requires ReaderEnabled(c, a)
  {
    match a
    case ReadSome(n) => c.(collected := c.collected + c.buffer[..n], buffer := c.buffer[n..])
    case ReadEof => c.(reader := SawEof)
    case ReadFails => c.(reader := SawError)
    case CloseOutput => c.(reader := ReaderClosed(c.reader.SawEof?))
    case RetryRead => c
  }

  // ---------- steps of the waiting loop ----------

  datatype WaiterAct = PollRunning | PollEnded | CheckEarly | CheckLate | Kill | ReapBlocking

  predicate WaiterEnabled(s: State, a: WaiterAct) {
    match a
    case PollRunning => s.waiter.Polling? && s.child.Alive?
    case PollEnded => s.waiter.Polling? && s.child.Dead?
    case CheckEarly => s.waiter.Checking? && !s.deadlinePassed
    case CheckLate => s.waiter.Checking? && s.deadlinePassed
    case Kill => s.waiter.Killing?
    case ReapBlocking => s.waiter.Reaping? && s.child.Dead?
  }

  /** The kernel closes the ends of a process that ends. */
  function Ended(s: State, status: Status): State {
    s.(child := Dead(status), childHoldsStdin := false,
       out := s.out.(childHolds := false), err := s.err.(childHolds := false))
  }

  function WaiterApply(s: State, a: WaiterAct): State
    requires WaiterEnabled(s, a)
  {
    match a
    case PollRunning => s.(waiter := Checking)
    case PollEnded => s.(waiter := Reaped(s.child.status), child := Gone, reaps := s.reaps + 1)
    case CheckEarly => s.(waiter := Polling)
    case CheckLate => s.(waiter := Killing, timedOut := true)
    case Kill =>
      if s.child.Alive? then Ended(s, Signaled(SIGKILL)).(waiter := Reaping, killed := true) else s.(waiter := Reaping)
    case ReapBlocking => s.(waiter := Reaped(s.child.status), child := Gone, reaps := s.reaps + 1)
  }

  // ---------- steps of the child ----------

  /** Its next call returns and it chooses another one, or it ends. */
  datatype ChildAct = Calls(n: nat, next: Want) | Ends

  /** The call can return now, having moved `n` bytes; a call on a closed end returns an error at once. */
  predicate CallReturns(cfg: Config, s: State, want: Want, n: nat) {
    match want
    case WantRead(atMost) =>
      if !s.childHoldsStdin then n == 0
      else if |s.stdinBuffer| > 0 then 0 < n <= Min(atMost, |s.stdinBuffer|)
      else n == 0 && s.writer.WriterClosed?
    case WantWrite(to, data) =>
      var c := ChannelOf(s, to);
      if !c.childHolds || c.reader.ReaderClosed? then n == 0
      else 0 < n <= Min(|data|, cfg.capacity - |c.buffer|)
    case WantCloseStdin => n == 0
    case WantCloseOutput(_) => n == 0
    case WantCompute => n == 0
    case WantHang => false
    case WantEnd(_) => false
  }

  function Produce(c: Channel, data: Text): Channel {
    c.(produced := c.produced + data, buffer := c.buffer + data)
  }

  function Called(s: State, want: Want, n: nat): State
    requires want.WantRead? ==> n <= |s.stdinBuffer|
    requires want.WantWrite? ==> n <= |want.data|
  {
    match want
    case WantRead(_) => s.(consumed := s.consumed + s.stdinBuffer[..n], stdinBuffer := s.stdinBuffer[n..])
    case WantWrite(to, data) => WithChannel(s, to, Produce(ChannelOf(s, to), data[..n]))
    case WantCloseStdin => s.(childHoldsStdin := false)
    case WantCloseOutput(stream) => WithChannel(s, stream, ChannelOf(s, stream).(childHolds := false))
    case _ => s
  }

  predicate ChildEnabled(cfg: Config, s: State, a: ChildAct) {
    s.child.Alive? &&
    match a
    case Calls(n, next) =>
      && s.child.budget != Finite(0) && Possible(next, Spend(s.child.budget))
      && CallReturns(cfg, s, s.child.want, n)
    case Ends => s.child.want.WantEnd?
  }

  function ChildApply(cfg: Config, s: State, a: ChildAct): State
    requires ChildEnabled(cfg, s, a)
  {
    match a
    case Calls(n, next) => Called(s, s.child.want, n).(child := Alive(next, Spend(s.child.budget)))
    case Ends => Ended(s, s.child.want.status)
  }

  // ---------- all steps ----------

  datatype Act =
    | Writer(writerAct: WriterAct)
    | Reader(stream: Stream, readerAct: ReaderAct)
    | Waiter(waiterAct: WaiterAct)
    | Tick
    | ChildDoes(childAct: ChildAct)

  predicate Enabled(cfg: Config, s: State, a: Act) {
    match a
    case Writer(w) => WriterEnabled(cfg, s, w)
    case Reader(stream, r) => ReaderEnabled(ChannelOf(s, stream), r)
    case Waiter(w) => WaiterEnabled(s, w)
    case Tick => !s.deadlinePassed
    case ChildDoes(c) => ChildEnabled(cfg, s, c)
  }

  function ReaderTurn(s: State, stream: Stream, r: ReaderAct): State
    requires ReaderEnabled(ChannelOf(s, stream), r)
  {
    var closes := if r.CloseOutput? then s.closes + multiset{ReaderEnd(stream)} else s.closes;
    WithChannel(s, stream, ReaderApply(ChannelOf(s, stream), r)).(closes := closes)
  }

  function Apply(cfg: Config, s: State, a: Act): State
    requires Enabled(cfg, s, a)
  {
    match a
    case Writer(w) => WriterApply(cfg, s, w)
    case Reader(stream, r) => ReaderTurn(s, stream, r)
    case Waiter(w) => WaiterApply(s, w)
    case Tick => s.(deadlinePassed := true)
    case ChildDoes(c) => ChildApply(cfg, s, c)
  }

  // ---------- the invariant ----------

  predicate ChannelInv(cfg: Config, c: Channel) {
    && c.collected + c.buffer == c.produced
    && |c.buffer| <= cfg.capacity
    && (c.reader.SawEof? || c.reader == ReaderClosed(true) ==> |c.buffer| == 0 && !c.childHolds)
  }

  predicate StdinInv(cfg: Config, s: State) {
    && s.sent <= |cfg.stdin| && s.consumed + s.stdinBuffer == cfg.stdin[..s.sent]
    && |s.stdinBuffer| <= cfg.capacity
    && (!s.writer.Writing? && s.sent < |cfg.stdin| ==> !s.childHoldsStdin)
  }

  predicate ChildInv(s: State) {
    && (s.child.Alive? ==> Possible(s.child.want, s.child.budget))
    && (!s.child.Alive? ==> !s.childHoldsStdin && !s.out.childHolds && !s.err.childHolds)
    && (s.child.Gone? <==> s.waiter.Reaped?)
    && (s.waiter.Reaping? ==> s.child.Dead?)
    && s.reaps == (if s.child.Gone? then 1 else 0)
  }

  predicate WaiterInv(s: State) {
    && (s.timedOut ==> s.deadlinePassed && !s.waiter.Polling? && !s.waiter.Checking?)
    && (!s.timedOut ==> !s.waiter.Killing? && !s.waiter.Reaping? && !s.killed)
    && (s.killed ==> s.child == Dead(Signaled(SIGKILL)) || s.waiter == Reaped(Signaled(SIGKILL)))
  }

  /** Every end is closed by the parent at most once, and by the time its thread is done, once. */
  predicate ClosesInv(s: State) {
    && s.closes[StdinRead] == 1 && s.closes[StdoutWrite] == 1 && s.closes[StderrWrite] == 1
    && s.closes[StdinWrite] == (if s.writer.WriterClosed? then 1 else 0)
    && s.closes[StdoutRead] == (if s.out.reader.ReaderClosed? then 1 else 0)
    && s.closes[StderrRead] == (if s.err.reader.ReaderClosed? then 1 else 0)
  }

  predicate Inv(cfg: Config, s: State) {
    && StdinInv(cfg, s) && ChannelInv(cfg, s.out) && ChannelInv(cfg, s.err)
    && ChildInv(s) && WaiterInv(s) && ClosesInv(s)
  }

  lemma {:induction false} MovePrefix(a: Text, b: Text, n: nat)
    requires n <= |b|
    ensures a + b[..n] + b[n..] == a + b
  {
  }

  lemma {:induction false} StartInv(cfg: Config, want: Want, budget: Budget)
    requires Possible(want, budget)
    ensures Inv(cfg, Start(want, budget))
  {
  }

  lemma {:induction false} WriterKeepsInv(cfg: Config, s: State, a: WriterAct)
    requires Inv(cfg, s) && WriterEnabled(cfg, s, a)
    ensures Inv(cfg, WriterApply(cfg, s, a))
  {
    hide ChannelInv;
    if a.WriteSome? {
      Associative(s.consumed, s.stdinBuffer, cfg.stdin[s.sent..s.sent + a.n]);
      assert cfg.stdin[..s.sent] + cfg.stdin[s.sent..s.sent + a.n] == cfg.stdin[..s.sent + a.n];
    }
  }

  lemma {:induction false} ReaderKeepsChannelInv(cfg: Config, c: Channel, a: ReaderAct)
    requires ChannelInv(cfg, c) && ReaderEnabled(c, a)
    ensures ChannelInv(cfg, ReaderApply(c, a))
  {
    if a.ReadSome? {
      MovePrefix(c.collected, c.buffer, a.n);
    }
  }

  lemma {:induction false} ReaderKeepsInv(cfg: Config, s: State, stream: Stream, a: ReaderAct)
    requires Inv(cfg, s) && ReaderEnabled(ChannelOf(s, stream), a)
    ensures Inv(cfg, ReaderTurn(s, stream, a))
  {
    ReaderKeepsChannelInv(cfg, ChannelOf(s, stream), a);
    hide ChannelInv, StdinInv;
  }

  lemma {:induction false} WaiterKeepsInv(cfg: Config, s: State, a: WaiterAct)
    requires Inv(cfg, s) && WaiterEnabled(s, a)
    ensures Inv(cfg, WaiterApply(s, a))
  {
  }

  lemma {:induction false} ProduceKeepsChannelInv(cfg: Config, c: Channel, data: Text)
    requires ChannelInv(cfg, c) && |c.buffer| + |data| <= cfg.capacity
    requires |data| > 0 ==> c.childHolds && !c.reader.ReaderClosed?
    ensures ChannelInv(cfg, Produce(c, data))
  {
    Associative(c.collected, c.buffer, data);
  }

  lemma {:induction false} CloseKeepsInv(cfg: Config, s: State, stream: Stream)
    requires Inv(cfg, s) && s.child.Alive?
    ensures Inv(cfg, s.(childHoldsStdin := false))
    ensures Inv(cfg, WithChannel(s, stream, ChannelOf(s, stream).(childHolds := false)))
  {
  }

  lemma {:induction false} CallKeepsInv(cfg: Config, s: State, n: nat)
    requires Inv(cfg, s) && s.child.Alive? && CallReturns(cfg, s, s.child.want, n)
    ensures Inv(cfg, Called(s, s.child.want, n))
  {
    hide ChannelInv, StdinInv;
    match s.child.want
    case WantRead(_) => ReadKeepsInv(cfg, s, n);
    case WantWrite(to, data) => WriteKeepsInv(cfg, s, to, data[..n]);
    case WantCloseStdin => CloseKeepsInv(cfg, s, Stdout);
    case WantCloseOutput(stream) => CloseKeepsInv(cfg, s, stream);
    case _ =>
  }

  lemma {:induction false} ReadKeepsInv(cfg: Config, s: State, n: nat)
    requires Inv(cfg, s) && n <= |s.stdinBuffer|
    ensures Inv(cfg, s.(consumed := s.consumed + s.stdinBuffer[..n], stdinBuffer := s.stdinBuffer[n..]))
  {
    hide ChannelInv;
    MovePrefix(s.consumed, s.stdinBuffer, n);
  }

  lemma {:induction false} WriteKeepsInv(cfg: Config, s: State, to: Stream, data: Text)
    requires Inv(cfg, s) && (|data| > 0 ==> |ChannelOf(s, to).buffer| + |data| <= cfg.capacity)
    requires |data| > 0 ==> ChannelOf(s, to).childHolds && !ChannelOf(s, to).reader.ReaderClosed?
    ensures Inv(cfg, WithChannel(s, to, Produce(ChannelOf(s, to), data)))
  {
    ProduceKeepsChannelInv(cfg, ChannelOf(s, to), data);
    hide ChannelInv;
  }

  lemma {:induction false} ChildKeepsInv(cfg: Config, s: State, a: ChildAct)
    requires Inv(cfg, s) && ChildEnabled(cfg, s, a)
    ensures Inv(cfg, ChildApply(cfg, s, a))
  {
    hide ChannelInv, StdinInv, ClosesInv, WaiterInv, Inv;
    match a
    case Calls(n, next) =>
      CallKeepsInv(cfg, s, n);
      NextCallKeepsInv(cfg, Called(s, s.child.want, n), next, Spend(s.child.budget));
    case Ends => EndKeepsInv(cfg, s, s.child.want.status);
  }

  lemma {:induction false} NextCallKeepsInv(cfg: Config, s: State, next: Want, budget: Budget)
    requires Inv(cfg, s) && s.child.Alive? && Possible(next, budget)
    ensures Inv(cfg, s.(child := Alive(next, budget)))
  {
    hide ChannelInv;
  }

  lemma {:induction false} EndKeepsInv(cfg: Config, s: State, status: Status)
    requires Inv(cfg, s) && s.child.Alive?
    ensures Inv(cfg, Ended(s, status))
  {
  }

  lemma {:induction false} TickKeepsInv(cfg: Config, s: State)
    requires Inv(cfg, s)
    ensures Inv(cfg, s.(deadlinePassed := true))
  {
  }

  /** Every step of every actor keeps the invariant. */
  lemma {:induction false} StepKeepsInv(cfg: Config, s: State, a: Act)
    requires Inv(cfg, s) && Enabled(cfg, s, a)
    ensures Inv(cfg, Apply(cfg, s, a))
  {
    hide StdinInv, ChannelInv, ChildInv, ClosesInv, WriterApply, WaiterApply, ReaderTurn, ChildApply;
    match a
    case Writer(w) => WriterKeepsInv(cfg, s, w);
    case Reader(stream, r) => ReaderKeepsInv(cfg, s, stream, r);
    case Waiter(w) => WaiterKeepsInv(cfg, s, w);
    case Tick => TickKeepsInv(cfg, s);
    case ChildDoes(c) => ChildKeepsInv(cfg, s, c);
  }

  // ---------- runs ----------

  /** `acts` can be performed one after the other from `s`, and lead to `t`. */
  ghost predicate Runs(cfg: Config, s: State, acts: seq<Act>, t: State)
    decreases |acts|
  {
    if |acts| == 0 then s == t
    else Enabled(cfg, s, acts[0]) && Runs(cfg, Apply(cfg, s, acts[0]), acts[1..], t)
  }

  /** The states that some interleaving reaches. */
  ghost predicate Reachable(cfg: Config, s: State) {
    exists want, budget, acts :: Possible(want, budget) && Runs(cfg, Start(want, budget), acts, s)
  }

  lemma {:induction false} RunKeepsInv(cfg: Config, s: State, acts: seq<Act>, t: State)
    requires Inv(cfg, s) && Runs(cfg, s, acts, t)
    ensures Inv(cfg, t)
    decreases |acts|
  {
    hide Inv, Enabled, Apply;
    if |acts| > 0 {
      StepKeepsInv(cfg, s, acts[0]);
      RunKeepsInv(cfg, Apply(cfg, s, acts[0]), acts[1..], t);
    }
  }

  lemma {:induction false} ReachableInv(cfg: Config, s: State)
    requires Reachable(cfg, s)
    ensures Inv(cfg, s)
  {
    hide Inv, Enabled, Apply, Start;
    var want, budget, acts :| Possible(want, budget) && Runs(cfg, Start(want, budget), acts, s);
    StartInv(cfg, want, budget);
    RunKeepsInv(cfg, Start(want, budget), acts, s);
  }

  /** Over every interleaving: what the child has read and what is in its pipe is a prefix of the
      standard input text, and what a reader has collected and what is in its pipe is all that the
      child has written there. */
  lemma {:induction false} Conservation(cfg: Config, s: State, stream: Stream)
    requires Reachable(cfg, s)
    ensures s.consumed + s.stdinBuffer <= cfg.stdin
    ensures var c := ChannelOf(s, stream); c.collected + c.buffer == c.produced
    ensures |s.stdinBuffer| <= cfg.capacity && |ChannelOf(s, stream).buffer| <= cfg.capacity
  {
    ReachableInv(cfg, s);
  }

  function ExitCode(status: Status): nat {
    match status
    case Exited(code) => code
    case Signaled(signal) => 128 + signal
  }

  /** When all joins have returned: a reader that ended at end of file has the whole output; every
      pipe end has been closed exactly once in the parent and the child reaped exactly once; only a
      call that reports a timeout has killed, and it may also report a child that ended by itself. */
  lemma {:induction false} FinalMeaning(cfg: Config, s: State, stream: Stream)
    requires Reachable(cfg, s) && Final(s)
    ensures var c := ChannelOf(s, stream);
            c.collected <= c.produced && (c.reader.atEof ==> c.collected == c.produced)
    ensures forall e: End :: s.closes[e] == 1
    ensures s.reaps == 1 && s.child.Gone?
    ensures s.killed ==> s.timedOut && ExitCode(s.waiter.status) == 137
    ensures s.timedOut ==> s.deadlinePassed
  {
    ReachableInv(cfg, s);
    var c := ChannelOf(s, stream);
    if c.reader.atEof {
      assert c.collected + [] == c.collected;
    }
    forall e: End ensures s.closes[e] == 1 {
      match e
      case StdinRead =>
      case StdinWrite =>
      case StdoutRead =>
      case StdoutWrite =>
      case StderrRead =>
      case StderrWrite =>
    }
  }

  /** The end on which a step of the parent writes, reads or is interrupted, or which it closes. */
  function Uses(a: Act): set<End> {
    match a
    case Writer(_) => {StdinWrite}
    case Reader(stream, _) => {ReaderEnd(stream)}
    case _ => {}
  }

  lemma {:induction false} EnabledUsesOpenEnds(cfg: Config, s: State, a: Act, e: End)
    requires Inv(cfg, s) && Enabled(cfg, s, a) && e in Uses(a)
    ensures s.closes[e] == 0
  {
    hide StdinInv, ChannelInv, ChildInv, WaiterInv;
  }

  lemma {:induction false} ClosedStaysClosed(cfg: Config, s: State, a: Act, e: End)
    requires Enabled(cfg, s, a)
    ensures Apply(cfg, s, a).closes[e] >= s.closes[e]
  {
    hide CallReturns, Called;
    if a.ChildDoes? && a.childAct.Calls? {
      CallMovesWithinBounds(cfg, s, a.childAct.n);
      CallClosesNothing(s, s.child.want, a.childAct.n);
    }
  }

  lemma {:induction false} CallClosesNothing(s: State, want: Want, n: nat)
    requires want.WantRead? ==> n <= |s.stdinBuffer|
    requires want.WantWrite? ==> n <= |want.data|
    ensures Called(s, want, n).closes == s.closes
  {
  }

  /** No end is used after its close: once the parent has closed an end, no step of any later
      interleaving writes to it, reads from it or closes it. */
  lemma {:induction false} NoUseAfterClose(cfg: Config, s: State, acts: seq<Act>, t: State, e: End)
    requires Reachable(cfg, s) && s.closes[e] > 0 && Runs(cfg, s, acts, t)
    ensures forall a :: a in acts ==> e !in Uses(a)
  {
    ReachableInv(cfg, s);
    NoUseFrom(cfg, s, acts, t, e);
  }

  lemma {:induction false} NoUseFrom(cfg: Config, s: State, acts: seq<Act>, t: State, e: End)
    requires Inv(cfg, s) && s.closes[e] > 0 && Runs(cfg, s, acts, t)
    ensures forall a :: a in acts ==> e !in Uses(a)
    decreases |acts|
  {
    hide Inv, Enabled, Apply, Uses;
    if |acts| > 0 {
      if e in Uses(acts[0]) {
        EnabledUsesOpenEnds(cfg, s, acts[0], e);
      }
      StepKeepsInv(cfg, s, acts[0]);
      ClosedStaysClosed(cfg, s, acts[0], e);
      NoUseFrom(cfg, Apply(cfg, s, acts[0]), acts[1..], t, e);
      assert forall a :: a in acts ==> a == acts[0] || a in acts[1..];
    }
  }

  // ---------- termination ----------

  function WriterRank(cfg: Config, s: State): nat {
    match s.writer
    case Writing => 2 + 2 * (if s.sent <= |cfg.stdin| then |cfg.stdin| - s.sent else 0)
    case WriteLoopLeft => 1
    case WriterClosed => 0
  }

  function ChannelRank(c: Channel): nat {
    |c.buffer| + match c.reader
    case Reading => 2
    case SawEof => 1
    case SawError => 1
    case ReaderClosed(_) => 0
  }

  function WaiterRank(s: State): nat {
    match s.waiter
    case Polling => if !s.child.Alive? then 1 else if s.deadlinePassed then 4 else 5
    case Checking => if s.deadlinePassed then 3 else if s.child.Alive? then 5 else 4
    case Killing => 2
    case Reaping => 1
    case Reaped(_) => 0
  }

  /** The child will make finitely many calls: it ends or hangs after them, or has ended. */
  predicate FiniteChild(s: State) {
    s.child.Alive? ==> s.child.budget.Finite?
  }

  function ChildRank(s: State): nat {
    if s.child.Alive? && s.child.budget.Finite? then s.child.budget.calls + 1 else 0
  }

  /** Remaining child calls, each worth more than a full pipe; unsent and buffered bytes; unfinished threads. */
  function Measure(cfg: Config, s: State): nat {
    ChildRank(s) * (cfg.capacity + 1) + Rest(cfg, s)
  }

  function Rest(cfg: Config, s: State): nat {
    WriterRank(cfg, s) + |s.stdinBuffer| + ChannelRank(s.out) + ChannelRank(s.err)
      + WaiterRank(s) + (if s.deadlinePassed then 0 else 1)
  }

  /** A step that only passes the time: a retry after an interrupt, or a poll before the deadline. */
  predicate Idle(s: State, a: Act) {
    || a == Writer(RetryWrite)
    || (a.Reader? && a.readerAct.RetryRead?)
    || (a == Waiter(PollRunning) && !s.deadlinePassed)
    || (a == Waiter(CheckEarly) && s.child.Alive?)
  }

  lemma {:induction false} WriterDecreases(cfg: Config, s: State, a: WriterAct)
    requires Inv(cfg, s) && WriterEnabled(cfg, s, a)
    ensures var t := WriterApply(cfg, s, a);
            && t.child == s.child
            && (if a.RetryWrite? then t == s else Rest(cfg, t) < Rest(cfg, s))
  {
    hide ChannelInv, ClosesInv, ChildInv, WaiterInv, WriterApply, WriterRank, ChannelRank;
    WriterDecreasesRank(cfg, s, a);
  }

  lemma {:induction false} WriterDecreasesRank(cfg: Config, s: State, a: WriterAct)
    requires s.sent <= |cfg.stdin| && WriterEnabled(cfg, s, a)
    ensures var t := WriterApply(cfg, s, a);
            && t.child == s.child && t.out == s.out && t.err == s.err && t.waiter == s.waiter
            && t.deadlinePassed == s.deadlinePassed
            && (if a.RetryWrite? then t == s
                else WriterRank(cfg, t) + |t.stdinBuffer| < WriterRank(cfg, s) + |s.stdinBuffer|)
  {
  }

  lemma {:induction false} ReaderDecreasesChannel(c: Channel, a: ReaderAct)
    requires ReaderEnabled(c, a)
    ensures if a.RetryRead? then ReaderApply(c, a) == c else ChannelRank(ReaderApply(c, a)) < ChannelRank(c)
  {
  }

  lemma {:induction false} ReaderDecreases(cfg: Config, s: State, stream: Stream, a: ReaderAct)
    requires ReaderEnabled(ChannelOf(s, stream), a)
    ensures var t := ReaderTurn(s, stream, a);
            && t.child == s.child
            && (if a.RetryRead? then t == s else Rest(cfg, t) < Rest(cfg, s))
  {
    hide ReaderApply, ChannelRank, ReaderEnabled, Rest;
    var c := ChannelOf(s, stream);
    ReaderDecreasesChannel(c, a);
    ChannelTurnRank(cfg, s, stream, ReaderApply(c, a), ReaderTurn(s, stream, a).closes);
  }

  lemma {:induction false} ChannelTurnRank(cfg: Config, s: State, stream: Stream, c: Channel, closes: multiset<End>)
    ensures Rest(cfg, WithChannel(s, stream, c).(closes := closes))
         == Rest(cfg, s) - ChannelRank(ChannelOf(s, stream)) + ChannelRank(c)
  {
    hide ChannelRank;
  }

  lemma {:induction false} WaiterDecreases(cfg: Config, s: State, a: WaiterAct)
    requires Inv(cfg, s) && WaiterEnabled(s, a)
    ensures var t := WaiterApply(s, a);
            && (t.child == s.child || !t.child.Alive?)
            && (if Idle(s, Waiter(a)) then Rest(cfg, t) == Rest(cfg, s) && t.child == s.child
                else Rest(cfg, t) < Rest(cfg, s))
  {
    hide ChannelInv, ClosesInv, StdinInv;
  }

  lemma {:induction false} CallAddsAtMostCapacity(cfg: Config, s: State, n: nat)
    requires Inv(cfg, s) && s.child.Alive? && CallReturns(cfg, s, s.child.want, n)
    ensures Rest(cfg, Called(s, s.child.want, n)) <= Rest(cfg, s) + cfg.capacity
  {
    hide Rest, ChannelRank, StdinInv, ChannelInv, ClosesInv, ChildInv, WaiterInv;
    match s.child.want
    case WantRead(_) => ConsumeRank(cfg, s, n);
    case WantWrite(to, data) =>
      var c := ChannelOf(s, to);
      ProduceRank(c, data[..n]);
      ChannelTurnRank(cfg, s, to, Produce(c, data[..n]), s.closes);
    case WantCloseStdin => ConsumeRank(cfg, s, 0);
    case WantCloseOutput(stream) =>
      var c := ChannelOf(s, stream);
      CloseRank(c);
      ChannelTurnRank(cfg, s, stream, c.(childHolds := false), s.closes);
    case _ =>
  }

  lemma {:induction false} ConsumeRank(cfg: Config, s: State, n: nat)
    requires n <= |s.stdinBuffer|
    ensures var t := s.(consumed := s.consumed + s.stdinBuffer[..n], stdinBuffer := s.stdinBuffer[n..]);
            Rest(cfg, t) == Rest(cfg, s) - n
    ensures Rest(cfg, s.(childHoldsStdin := false)) == Rest(cfg, s)
  {
    hide ChannelRank;
  }

  lemma {:induction false} CloseRank(c: Channel)
    ensures ChannelRank(c.(childHolds := false)) == ChannelRank(c)
  {
  }

  lemma {:induction false} ProduceRank(c: Channel, data: Text)
    ensures ChannelRank(Produce(c, data)) == ChannelRank(c) + |data|
  {
  }

  lemma {:induction false} EndingRank(cfg: Config, s: State, status: Status)
    requires s.child.Alive? && ChildInv(s)
    ensures Rest(cfg, Ended(s, status)) <= Rest(cfg, s)
  {
  }

  lemma {:induction false} ChildDecreases(cfg: Config, s: State, a: ChildAct)
    requires Inv(cfg, s) && ChildEnabled(cfg, s, a)
    ensures var t := ChildApply(cfg, s, a);
            && Rest(cfg, t) <= Rest(cfg, s) + cfg.capacity
            && (FiniteChild(s) ==> FiniteChild(t) && ChildRank(t) < ChildRank(s))
  {
    hide ClosesInv, StdinInv, ChannelInv, WaiterInv, ChildInv, Called, ChannelRank, WriterRank;
    match a
    case Calls(n, next) =>
      CallAddsAtMostCapacity(cfg, s, n);
      CallKeepsChild(s, s.child.want, n);
      NextCallRank(cfg, Called(s, s.child.want, n), next, Spend(s.child.budget));
    case Ends => EndingRank(cfg, s, s.child.want.status);
  }

  lemma {:induction false} NextCallRank(cfg: Config, s: State, next: Want, budget: Budget)
    requires s.child.Alive?
    ensures Rest(cfg, s.(child := Alive(next, budget))) == Rest(cfg, s)
  {
    hide ChannelRank;
  }

  lemma {:induction false} CallKeepsChild(s: State, want: Want, n: nat)
    requires want.WantRead? ==> n <= |s.stdinBuffer|
    requires want.WantWrite? ==> n <= |want.data|
    ensures var t := Called(s, want, n);
            t.child == s.child && t.waiter == s.waiter && t.deadlinePassed == s.deadlinePassed
  {
  }

  /** With a finite child, every step that is not idle decreases the measure, and idle steps keep it. */
  lemma {:induction false} StepDecreases(cfg: Config, s: State, a: Act)
    requires Inv(cfg, s) && Enabled(cfg, s, a) && FiniteChild(s)
    ensures var t := Apply(cfg, s, a);
            && FiniteChild(t)
            && (if Idle(s, a) then Measure(cfg, t) == Measure(cfg, s) else Measure(cfg, t) < Measure(cfg, s))
  {
    hide Inv, Rest, WriterApply, WaiterApply, ReaderTurn, ChildApply;
    var t := Apply(cfg, s, a);
    var unit := cfg.capacity + 1;
    match a
    case Writer(w) => WriterDecreases(cfg, s, w);
    case Reader(stream, r) => ReaderDecreases(cfg, s, stream, r);
    case Waiter(w) =>
      WaiterDecreases(cfg, s, w);
      Multiples(ChildRank(t), ChildRank(s), unit);
    case Tick => TickDecreases(cfg, s);
    case ChildDoes(c) =>
      ChildDecreases(cfg, s, c);
      Multiples(ChildRank(t), ChildRank(s), unit);
  }

  lemma {:induction false} TickDecreases(cfg: Config, s: State)
    requires !s.deadlinePassed
    ensures Rest(cfg, s.(deadlinePassed := true)) < Rest(cfg, s)
  {
  }

  lemma {:induction false} Multiples(x: nat, y: nat, unit: nat)
    requires x <= y
    ensures x * unit <= y * unit
    ensures x < y ==> x * unit + unit <= y * unit
  {
    if x < y {
      Multiples(x, y - 1, unit);
      assert y * unit == (y - 1) * unit + unit;
    }
  }

  /** The number of steps in a run that are not idle. */
  function Work(cfg: Config, s: State, acts: seq<Act>): nat
    decreases |acts|
  {
    if |acts| == 0 || !Enabled(cfg, s, acts[0]) then 0 else
    (if Idle(s, acts[0]) then 0 else 1) + Work(cfg, Apply(cfg, s, acts[0]), acts[1..])
  }

  /** Termination over every interleaving: no run does more work than the measure of its first state. */
  lemma {:induction false} RunsAreBounded(cfg: Config, s: State, acts: seq<Act>, t: State)
    requires Inv(cfg, s) && FiniteChild(s) && Runs(cfg, s, acts, t)
    ensures Work(cfg, s, acts) + Measure(cfg, t) <= Measure(cfg, s)
    decreases |acts|
  {
    hide Inv, Measure, Enabled, Apply, FiniteChild, Idle;
    if |acts| > 0 {
      StepKeepsInv(cfg, s, acts[0]);
      StepDecreases(cfg, s, acts[0]);
      RunsAreBounded(cfg, Apply(cfg, s, acts[0]), acts[1..], t);
    }
  }

  // ---------- no stuck state ----------

  /** An actor can move; error returns of a read do not count, and the clock counts only for a child that hangs. */
  ghost predicate CanMove(cfg: Config, s: State, a: Act) {
    && Enabled(cfg, s, a) && !Idle(s, a)
    && !(a.Reader? && a.readerAct.ReadFails?)
    && (a.Tick? ==> s.child.Alive? && s.child.want.WantHang?)
  }

  lemma {:induction false} WriterMoves(cfg: Config, s: State) returns (a: Act)
    requires Inv(cfg, s) && cfg.capacity > 0 && !s.writer.WriterClosed?
    requires s.writer.Writing? && s.childHoldsStdin ==> |s.stdinBuffer| == 0
    ensures CanMove(cfg, s, a)
  {
    hide ChannelInv, ClosesInv, ChildInv, WaiterInv;
    if s.writer.WriteLoopLeft? || s.sent >= |cfg.stdin| {
      a := Writer(CloseStdin);
    } else if s.childHoldsStdin {
      a := Writer(WriteSome(1));
    } else {
      a := Writer(WriteFails);
    }
  }

  /** A reader can move unless it has finished or waits on an empty pipe that the child still holds. */
  predicate ReaderWaits(c: Channel) {
    c.reader.Reading? && |c.buffer| == 0 && c.childHolds
  }

  lemma {:induction false} ReaderMoves(cfg: Config, s: State, stream: Stream) returns (a: Act)
    requires var c := ChannelOf(s, stream); !c.reader.ReaderClosed? && !ReaderWaits(c)
    ensures CanMove(cfg, s, a)
  {
    var c := ChannelOf(s, stream);
    a := Reader(stream, if !c.reader.Reading? then CloseOutput else if |c.buffer| > 0 then ReadSome(1) else ReadEof);
  }

  /** The child's call returns when the pipe it waits on is ready. */
  lemma {:induction false} ChildMoves(cfg: Config, s: State) returns (a: Act)
    requires Inv(cfg, s) && cfg.capacity > 0 && s.child.Alive? && !s.child.want.WantHang?
    requires s.child.want.WantRead? && s.childHoldsStdin ==> |s.stdinBuffer| > 0 || s.writer.WriterClosed?
    requires s.child.want.WantWrite? ==>
      var c := ChannelOf(s, s.child.want.to);
      !c.childHolds || c.reader.ReaderClosed? || |c.buffer| == 0
    ensures CanMove(cfg, s, a)
  {
    hide ChannelInv, ClosesInv, StdinInv, WaiterInv;
    var last := WantEnd(Exited(0));
    a := Tick;
    match s.child.want
    case WantEnd(_) => a := ChildDoes(Ends);
    case WantRead(_) =>
      a := ChildDoes(Calls(if s.childHoldsStdin && |s.stdinBuffer| > 0 then 1 else 0, last));
    case WantWrite(to, _) =>
      var c := ChannelOf(s, to);
      a := ChildDoes(Calls(if c.childHolds && !c.reader.ReaderClosed? then 1 else 0, last));
    case WantCloseStdin => a := ChildDoes(Calls(0, last));
    case WantCloseOutput(_) => a := ChildDoes(Calls(0, last));
    case WantCompute => a := ChildDoes(Calls(0, last));
    case WantHang =>
  }

  /** The waiter can move unless it has finished or polls a living child before the deadline. */
  lemma {:induction false} WaiterMoves(cfg: Config, s: State) returns (a: Act)
    requires Inv(cfg, s) && !s.waiter.Reaped?
    requires s.child.Alive? ==> s.deadlinePassed
    ensures CanMove(cfg, s, a)
  {
    hide ChannelInv, ClosesInv, StdinInv;
    a := Waiter(match s.waiter
                case Polling => if s.child.Alive? then PollRunning else PollEnded
                case Checking => if s.deadlinePassed then CheckLate else CheckEarly
                case Killing => Kill
                case _ => ReapBlocking);
  }

  /** No stuck state: in every reachable state that is not final, for every pipe capacity and whatever
      the child wants to do next, some actor can move. */
  lemma {:induction false} NeverStuck(cfg: Config, s: State) returns (a: Act)
    requires Reachable(cfg, s) && cfg.capacity > 0 && !Final(s)
    ensures CanMove(cfg, s, a)
  {
    hide CanMove;
    ReachableInv(cfg, s);
    if !s.out.reader.ReaderClosed? && !ReaderWaits(s.out) {
      a := ReaderMoves(cfg, s, Stdout);
    } else if !s.err.reader.ReaderClosed? && !ReaderWaits(s.err) {
      a := ReaderMoves(cfg, s, Stderr);
    } else if !s.child.Alive? {
      if s.writer.WriterClosed? {
        a := WaiterMoves(cfg, s);
      } else {
        a := WriterMoves(cfg, s);
      }
    } else if s.deadlinePassed {
      a := WaiterMoves(cfg, s);
    } else if s.child.want.WantHang? {
      a := Tick;
      TickMoves(cfg, s);
    } else if s.child.want.WantRead? && s.childHoldsStdin && |s.stdinBuffer| == 0 && !s.writer.WriterClosed? {
      a := WriterMoves(cfg, s);
    } else {
      a := ChildMoves(cfg, s);
    }
  }

  lemma {:induction false} TickMoves(cfg: Config, s: State)
    requires !s.deadlinePassed && s.child.Alive? && s.child.want.WantHang?
    ensures CanMove(cfg, s, Tick)
  {
  }

  // ---------- the timeout ----------

  function WaiterTurns(acts: seq<Act>): nat {
    if |acts| == 0 then 0 else (if acts[0].Waiter? then 1 else 0) + WaiterTurns(acts[1..])
  }

  /** Turns that the waiter still needs until its kill, once the deadline has passed. */
  function TurnsToKill(s: State): nat {
    match s.waiter
    case Polling => 3
    case Checking => 2
    case Killing => 1
    case _ => 0
  }

  lemma {:induction false} TurnBringsKill(cfg: Config, s: State, a: Act)
    requires Inv(cfg, s) && s.deadlinePassed && Enabled(cfg, s, a)
    ensures var t := Apply(cfg, s, a);
            && t.deadlinePassed && (t.child.Alive? ==> s.child.Alive?)
            && (t.child.Alive? ==> TurnsToKill(t) == TurnsToKill(s) - (if a.Waiter? then 1 else 0))
  {
    hide ChannelInv, ClosesInv, StdinInv, Called, CallReturns;
    if a.ChildDoes? && a.childAct.Calls? {
      CallMovesWithinBounds(cfg, s, a.childAct.n);
      CallKeepsChild(s, s.child.want, a.childAct.n);
    }
  }

  lemma {:induction false} CallMovesWithinBounds(cfg: Config, s: State, n: nat)
    requires s.child.Alive? && CallReturns(cfg, s, s.child.want, n)
    ensures s.child.want.WantRead? ==> n <= |s.stdinBuffer|
    ensures s.child.want.WantWrite? ==> n <= |s.child.want.data|
  {
  }

  /** After the deadline no child, not even one that never stops, survives three turns of the waiter. */
  lemma {:induction false} TimeoutEndsChild(cfg: Config, s: State, acts: seq<Act>, t: State)
    requires Inv(cfg, s) && s.deadlinePassed && Runs(cfg, s, acts, t)
    ensures t.child.Alive? ==> WaiterTurns(acts) < 3
    ensures t.child.Alive? ==> WaiterTurns(acts) + TurnsToKill(t) <= TurnsToKill(s) && s.child.Alive?
    decreases |acts|
  {
    hide Inv, Enabled, Apply;
    if |acts| > 0 {
      TurnBringsKill(cfg, s, acts[0]);
      StepKeepsInv(cfg, s, acts[0]);
      TimeoutEndsChild(cfg, Apply(cfg, s, acts[0]), acts[1..], t);
    }
    RunKeepsInv(cfg, s, acts, t);
    AliveBeforeKill(cfg, t);
    AliveBeforeKill(cfg, s);
  }

  lemma {:induction false} AliveBeforeKill(cfg: Config, s: State)
    requires Inv(cfg, s)
    ensures s.child.Alive? ==> TurnsToKill(s) >= 1
    ensures TurnsToKill(s) <= 3
  {
  }

  lemma {:induction false} RunsFurther(cfg: Config, s: State, a: Act, acts: seq<Act>, t: State)
    requires Enabled(cfg, s, a) && Runs(cfg, Apply(cfg, s, a), acts, t)
    ensures Runs(cfg, s, [a] + acts, t)
  {
    hide Enabled, Apply;
    assert ([a] + acts)[1..] == acts;
  }

  // ---------- all joins return ----------

  lemma {:induction false} RunsAppend(cfg: Config, s: State, a: seq<Act>, t: State, b: seq<Act>, u: State)
    requires Runs(cfg, s, a, t) && Runs(cfg, t, b, u)
    ensures Runs(cfg, s, a + b, u)
    decreases |a|
  {
    hide Enabled, Apply;
    if |a| == 0 {
      assert a + b == b;
    } else {
      assert (a + b)[1..] == a[1..] + b;
      RunsAppend(cfg, Apply(cfg, s, a[0]), a[1..], t, b, u);
    }
  }

  lemma {:induction false} RunStaysReachable(cfg: Config, s: State, acts: seq<Act>, t: State)
    requires Reachable(cfg, s) && Runs(cfg, s, acts, t)
    ensures Reachable(cfg, t)
  {
    hide Runs, Start, Possible;
    var want, budget, before :| Possible(want, budget) && Runs(cfg, Start(want, budget), before, s);
    RunsAppend(cfg, Start(want, budget), before, s, acts, t);
  }

  lemma {:induction false} StepStaysReachable(cfg: Config, s: State, a: Act)
    requires Reachable(cfg, s) && Enabled(cfg, s, a)
    ensures Reachable(cfg, Apply(cfg, s, a))
  {
    hide Reachable, Enabled, Apply;
    RunsFurther(cfg, s, a, [], Apply(cfg, s, a));
    RunStaysReachable(cfg, s, [a] + [], Apply(cfg, s, a));
  }

  lemma {:induction false} FinalIsStill(cfg: Config, s: State, a: Act)
    requires Inv(cfg, s) && Final(s)
    ensures !CanMove(cfg, s, a)
  {
    hide ChannelInv, ClosesInv, StdinInv, WaiterInv;
  }

  /** However the steps interleave, all joins have returned exactly when no actor can move; and with a
      finite child there are no more working steps on the way than the measure of the first state. */
  lemma {:induction false} MaximalRunsAreFinal(cfg: Config, s: State, acts: seq<Act>, t: State)
    requires Reachable(cfg, s) && cfg.capacity > 0 && Runs(cfg, s, acts, t)
    ensures Final(t) <==> !exists a :: CanMove(cfg, t, a)
    ensures FiniteChild(s) ==> Work(cfg, s, acts) <= Measure(cfg, s)
  {
    hide Reachable, CanMove, Runs, Final, Measure, Work, FiniteChild, Inv;
    RunStaysReachable(cfg, s, acts, t);
    ReachableInv(cfg, t);
    if Final(t) {
      forall a ensures !CanMove(cfg, t, a) {
        FinalIsStill(cfg, t, a);
      }
    } else {
      var a := NeverStuck(cfg, t);
    }
    ReachableInv(cfg, s);
    if FiniteChild(s) {
      RunsAreBounded(cfg, s, acts, t);
    }
  }

  /** From every reachable state with a finite child, actors that can move bring all joins to return. */
  lemma {:induction false} FiniteChildFinishes(cfg: Config, s: State) returns (acts: seq<Act>, t: State)
    requires Reachable(cfg, s) && cfg.capacity > 0 && FiniteChild(s)
    ensures Runs(cfg, s, acts, t) && Final(t)
    ensures forall a :: a in acts ==> !(a.Reader? && a.readerAct.ReadFails?)
    decreases Measure(cfg, s)
  {
    hide Reachable, FiniteChild, Measure, Enabled, Apply, Final;
    if Final(s) {
      acts, t := [], s;
    } else {
      var a := NeverStuck(cfg, s);
      MovesAreSteps(cfg, s, a);
      ReachableInv(cfg, s);
      StepDecreases(cfg, s, a);
      StepStaysReachable(cfg, s, a);
      acts, t := FiniteChildFinishes(cfg, Apply(cfg, s, a));
      RunsFurther(cfg, s, a, acts, t);
      acts := [a] + acts;
    }
  }

  lemma {:induction false} MovesAreSteps(cfg: Config, s: State, a: Act)
    requires CanMove(cfg, s, a)
    ensures Enabled(cfg, s, a) && !Idle(s, a) && !(a.Reader? && a.readerAct.ReadFails?)
  {
  }

  /** After the deadline the waiter alone can end a child that is still alive. */
  lemma {:induction false} WaiterEndsChild(cfg: Config, s: State) returns (acts: seq<Act>, t: State)
    requires Reachable(cfg, s) && s.deadlinePassed
    ensures Runs(cfg, s, acts, t) && !t.child.Alive?
    decreases TurnsToKill(s)
  {
    hide Reachable, Enabled, Apply, Inv;
    acts, t := [], s;
    if s.child.Alive? {
      ReachableInv(cfg, s);
      var a := WaiterTurn(cfg, s);
      TurnBringsKill(cfg, s, a);
      StepStaysReachable(cfg, s, a);
      acts, t := [], Apply(cfg, s, a);
      if t.child.Alive? {
        acts, t := WaiterEndsChild(cfg, Apply(cfg, s, a));
      }
      RunsFurther(cfg, s, a, acts, t);
      acts := [a] + acts;
    }
  }

  lemma {:induction false} WaiterTurn(cfg: Config, s: State) returns (a: Act)
    requires Inv(cfg, s) && s.deadlinePassed && s.child.Alive?
    ensures a.Waiter? && Enabled(cfg, s, a)
  {
    hide ChannelInv, ClosesInv, StdinInv;
    a := Waiter(match s.waiter
                case Polling => PollRunning
                case Checking => CheckLate
                case _ => Kill);
  }

  /** From every reachable state, whatever the child is and wants, all joins can return: a finite child
      runs to its end, any other is ended by the waiter once the deadline has passed. */
  lemma {:induction false} AllJoinsReturn(cfg: Config, s: State) returns (acts: seq<Act>, t: State)
    requires Reachable(cfg, s) && cfg.capacity > 0
    ensures Runs(cfg, s, acts, t) && Final(t)
  {
    hide Reachable, Final, Runs;
    acts := [];
    t := s;
    RunsNothing(cfg, s);
    if !FiniteChild(s) {
      if !s.deadlinePassed {
        StepStaysReachable(cfg, s, Tick);
        RunsFurther(cfg, s, Tick, acts, t.(deadlinePassed := true)) by {
          RunsNothing(cfg, t.(deadlinePassed := true));
        }
        acts, t := [Tick] + acts, t.(deadlinePassed := true);
      }
      var kill, u := WaiterEndsChild(cfg, t);
      RunsAppend(cfg, s, acts, t, kill, u);
      acts, t := acts + kill, u;
      RunStaysReachable(cfg, s, acts, t);
    }
    var rest, u := FiniteChildFinishes(cfg, t);
    RunsAppend(cfg, s, acts, t, rest, u);
    acts, t := acts + rest, u;
  }

  lemma {:induction false} RunsNothing(cfg: Config, s: State)
    ensures Runs(cfg, s, [], s)
  {
  }

  /** After the deadline, any interleaving that gives the waiter three turns has bounded work left, even
      with a child that would never have ended, and ends with all joins returned. */
  lemma {:induction false} TimeoutBoundsEveryRun(cfg: Config, s: State, acts: seq<Act>, t: State, more: seq<Act>,
                                                 u: State)
    requires Reachable(cfg, s) && cfg.capacity > 0 && s.deadlinePassed
    requires Runs(cfg, s, acts, t) && WaiterTurns(acts) >= 3 && Runs(cfg, t, more, u)
    ensures Work(cfg, t, more) <= Measure(cfg, t)
    ensures Final(u) <==> !exists a :: CanMove(cfg, u, a)
  {
    hide Reachable, Runs, Final, CanMove, Work, Measure, WaiterTurns, Inv;
    ReachableInv(cfg, s);
    TimeoutEndsChild(cfg, s, acts, t);
    RunStaysReachable(cfg, s, acts, t);
    ReachableInv(cfg, t);
    RunsAreBounded(cfg, t, more, u);
    MaximalRunsAreFinal(cfg, t, more, u);
  }

  // ---------- who ended the child ----------

  lemma {:induction false} StepOutcome(cfg: Config, s: State, a: Act)
    requires Inv(cfg, s) && Enabled(cfg, s, a)
    ensures var t := Apply(cfg, s, a);
            && (a == ChildDoes(Ends) ==> s.child.Alive? && !t.child.Alive? && !t.killed)
            && (s.child.Alive? && !t.child.Alive? && a != ChildDoes(Ends) ==> t.killed)
            && (t.child.Alive? ==> s.child.Alive?)
            && (!s.child.Alive? ==> t.killed == s.killed)
  {
    hide ChannelInv, ClosesInv, StdinInv, Called, CallReturns;
    if a.ChildDoes? && a.childAct.Calls? {
      CallMovesWithinBounds(cfg, s, a.childAct.n);
      CallKeepsChild(s, s.child.want, a.childAct.n);
    }
  }

  lemma {:induction false} RunOutcome(cfg: Config, s: State, acts: seq<Act>, t: State)
    requires Inv(cfg, s) && Runs(cfg, s, acts, t)
    ensures !s.child.Alive? ==> !t.child.Alive? && t.killed == s.killed && ChildDoes(Ends) !in acts
    ensures s.child.Alive? && !t.child.Alive? ==> (t.killed <==> ChildDoes(Ends) !in acts)
    decreases |acts|
  {
    hide Inv, Enabled, Apply;
    if |acts| > 0 {
      StepOutcome(cfg, s, acts[0]);
      StepKeepsInv(cfg, s, acts[0]);
      RunOutcome(cfg, Apply(cfg, s, acts[0]), acts[1..], t);
      assert ChildDoes(Ends) in acts <==> acts[0] == ChildDoes(Ends) || ChildDoes(Ends) in acts[1..];
    }
  }

  /** When a timeout does mean a kill: a call that has returned has killed its child exactly when the
      child did not end by itself on the way; then it reports a timeout and the exit code of the kill. */
  lemma {:induction false} KilledExactly(cfg: Config, want: Want, budget: Budget, acts: seq<Act>, t: State)
    requires Possible(want, budget) && Runs(cfg, Start(want, budget), acts, t) && Final(t)
    ensures t.killed <==> ChildDoes(Ends) !in acts
    ensures ChildDoes(Ends) !in acts ==> t.timedOut && t.waiter == Reaped(Signaled(SIGKILL))
  {
    hide Runs, ChannelInv, StdinInv, ClosesInv;
    var s := Start(want, budget);
    StartInv(cfg, want, budget);
    RunKeepsInv(cfg, s, acts, t);
    RunOutcome(cfg, s, acts, t);
  }

  /** What the wait has returned stays. */
  lemma {:induction false} ReapedStays(cfg: Config, s: State, acts: seq<Act>, t: State)
    requires s.waiter.Reaped? && Runs(cfg, s, acts, t)
    ensures t.waiter == s.waiter && t.timedOut == s.timedOut && t.killed == s.killed
    decreases |acts|
  {
    hide Enabled, Apply;
    if |acts| > 0 {
      ReapedStaysStep(cfg, s, acts[0]);
      ReapedStays(cfg, Apply(cfg, s, acts[0]), acts[1..], t);
    }
  }

  lemma {:induction false} ReapedStaysStep(cfg: Config, s: State, a: Act)
    requires s.waiter.Reaped? && Enabled(cfg, s, a)
    ensures var t := Apply(cfg, s, a);
            t.waiter == s.waiter && t.timedOut == s.timedOut && t.killed == s.killed
  {
    hide Called, CallReturns;
    if a.ChildDoes? && a.childAct.Calls? {
      CallMovesWithinBounds(cfg, s, a.childAct.n);
      CallKeepsWaiter(s, s.child.want, a.childAct.n);
    }
  }

  lemma {:induction false} CallKeepsWaiter(s: State, want: Want, n: nat)
    requires want.WantRead? ==> n <= |s.stdinBuffer|
    requires want.WantWrite? ==> n <= |want.data|
    ensures var t := Called(s, want, n);
            t.waiter == s.waiter && t.timedOut == s.timedOut && t.killed == s.killed
  {
  }

  /** A timeout does not imply a killed child: it may exit between the last poll and the kill. */
  lemma {:induction false} TimeoutMayReportExit(cfg: Config, code: nat) returns (acts: seq<Act>, t: State)
    requires cfg.capacity > 0
    ensures Runs(cfg, Start(WantEnd(Exited(code)), Finite(0)), acts, t)
    ensures Final(t) && t.timedOut && !t.killed && t.waiter == Reaped(Exited(code))
  {
    hide Runs, Final;
    var want := WantEnd(Exited(code));
    var u;
    acts, u := LateExit(cfg, code);
    assert Possible(want, Finite(0));
    assert Reachable(cfg, u);
    var rest;
    rest, t := FiniteChildFinishes(cfg, u);
    ReapedStays(cfg, u, rest, t);
    RunsAppend(cfg, Start(want, Finite(0)), acts, u, rest, t);
    acts := acts + rest;
  }

  lemma {:induction false} LateExit(cfg: Config, code: nat) returns (acts: seq<Act>, t: State)
    ensures Runs(cfg, Start(WantEnd(Exited(code)), Finite(0)), acts, t)
    ensures t.timedOut && !t.killed && t.waiter == Reaped(Exited(code)) && t.child.Gone?
  {
    var s0 := Start(WantEnd(Exited(code)), Finite(0));
    var s1 := Apply(cfg, s0, Tick);
    var s2 := Apply(cfg, s1, Waiter(PollRunning));
    var s3 := Apply(cfg, s2, Waiter(CheckLate));
    var s4 := Apply(cfg, s3, ChildDoes(Ends));
    var s5 := Apply(cfg, s4, Waiter(Kill));
    t := Apply(cfg, s5, Waiter(ReapBlocking));
    acts := [];
    RunsFurther(cfg, s5, Waiter(ReapBlocking), acts, t);
    acts := [Waiter(ReapBlocking)] + acts;
    RunsFurther(cfg, s4, Waiter(Kill), acts, t);
    acts := [Waiter(Kill)] + acts;
    RunsFurther(cfg, s3, ChildDoes(Ends), acts, t);
    acts := [ChildDoes(Ends)] + acts;
    RunsFurther(cfg, s2, Waiter(CheckLate), acts, t);
    acts := [Waiter(CheckLate)] + acts;
    RunsFurther(cfg, s1, Waiter(PollRunning), acts, t);
    acts := [Waiter(PollRunning)] + acts;
    RunsFurther(cfg, s0, Tick, acts, t);
    acts := [Tick] + acts;
  }

  // ---------- what a call reports ----------

  /** The child's call that was pending when it ended, read off the steps: the last one it chose, or
      its first. */
  function LastWant(want: Want, acts: seq<Act>): Want
    decreases |acts|
  {
    if |acts| == 0 then want
    else LastWant(if acts[0].ChildDoes? && acts[0].childAct.Calls? then acts[0].childAct.next else want, acts[1..])
  }

  /** What the child wrote to a stream, read off the steps: the bytes that its writes moved. */
  function Written(stream: Stream, want: Want, acts: seq<Act>): Text
    decreases |acts|
  {
    if |acts| == 0 then []
    else if acts[0].ChildDoes? && acts[0].childAct.Calls? then
      (if want.WantWrite? && want.to == stream && acts[0].childAct.n <= |want.data|
       then want.data[..acts[0].childAct.n] else [])
      + Written(stream, acts[0].childAct.next, acts[1..])
    else Written(stream, want, acts[1..])
  }

  /** How many bytes of standard input the child took, read off the steps. */
  function Taken(want: Want, acts: seq<Act>): nat
    decreases |acts|
  {
    if |acts| == 0 then 0
    else if acts[0].ChildDoes? && acts[0].childAct.Calls? then
      (if want.WantRead? then acts[0].childAct.n else 0) + Taken(acts[0].childAct.next, acts[1..])
    else Taken(want, acts[1..])
  }

  predicate IsCall(a: Act) {
    a.ChildDoes? && a.childAct.Calls?
  }

  lemma {:induction false} CallTrace(cfg: Config, s: State, n: nat, next: Want, stream: Stream)
    requires ChildEnabled(cfg, s, Calls(n, next))
    ensures var t, want := ChildApply(cfg, s, Calls(n, next)), s.child.want;
            && t.child.Alive? && t.child.want == next
            && ChannelOf(t, stream).produced
               == ChannelOf(s, stream).produced
                  + (if want.WantWrite? && want.to == stream && n <= |want.data| then want.data[..n] else [])
            && |t.consumed| == |s.consumed| + (if want.WantRead? then n else 0)
  {
    CallMovesWithinBounds(cfg, s, n);
    assert ChannelOf(s, stream).produced + [] == ChannelOf(s, stream).produced;
  }

  /** Steps that are not calls of the child produce and consume nothing, and keep its pending call. */
  lemma {:induction false} OtherTrace(cfg: Config, s: State, a: Act, stream: Stream)
    requires Inv(cfg, s) && Enabled(cfg, s, a) && !IsCall(a)
    ensures var t := Apply(cfg, s, a);
            && ChannelOf(t, stream).produced == ChannelOf(s, stream).produced && t.consumed == s.consumed
            && (t.child.Alive? ==> t.child == s.child)
            && (a == ChildDoes(Ends) ==> s.child.want.WantEnd? && t.child == Dead(s.child.want.status))
            && (s.child.Dead? ==> t.child == s.child || (t.child.Gone? && t.waiter == Reaped(s.child.status)))
  {
    hide StdinInv, ChannelInv, ClosesInv, ChildInv, WaiterInv;
    hide WriterApply, WaiterApply, ReaderTurn, Called, CallReturns;
    match a
    case Writer(w) => WriterTrace(cfg, s, w);
    case Reader(of, r) => ReaderTurnTrace(s, of, r, stream);
    case Waiter(w) => WaiterTrace(s, w);
    case Tick =>
    case ChildDoes(_) =>
  }

  lemma {:induction false} WriterTrace(cfg: Config, s: State, a: WriterAct)
    requires WriterEnabled(cfg, s, a)
    ensures var t := WriterApply(cfg, s, a);
            t.child == s.child && t.consumed == s.consumed && t.out == s.out && t.err == s.err
  {
  }

  lemma {:induction false} ReaderTurnTrace(s: State, of: Stream, a: ReaderAct, stream: Stream)
    requires ReaderEnabled(ChannelOf(s, of), a)
    ensures var t := ReaderTurn(s, of, a);
            && t.child == s.child && t.consumed == s.consumed
            && ChannelOf(t, stream).produced == ChannelOf(s, stream).produced
  {
  }

  lemma {:induction false} WaiterTrace(s: State, a: WaiterAct)
    requires WaiterEnabled(s, a)
    ensures var t := WaiterApply(s, a);
            && t.consumed == s.consumed && t.out.produced == s.out.produced && t.err.produced == s.err.produced
            && (t.child.Alive? ==> t.child == s.child)
            && (s.child.Dead? ==> t.child == s.child || (t.child.Gone? && t.waiter == Reaped(s.child.status)))
  {
  }

  /** What a run leaves in the pipes' records is what the child's own steps say. */
  lemma {:induction false} RunTrace(cfg: Config, s: State, acts: seq<Act>, t: State, want: Want, stream: Stream)
    requires Inv(cfg, s) && Runs(cfg, s, acts, t) && (s.child.Alive? ==> s.child.want == want)
    ensures ChannelOf(t, stream).produced == ChannelOf(s, stream).produced + Written(stream, want, acts)
    ensures |t.consumed| == |s.consumed| + Taken(want, acts)
    decreases |acts|
  {
    hide Inv, Enabled, Apply, ChannelOf;
    if |acts| == 0 {
      assert ChannelOf(s, stream).produced + [] == ChannelOf(s, stream).produced;
    } else {
      var a, u := acts[0], Apply(cfg, s, acts[0]);
      StepKeepsInv(cfg, s, a);
      if IsCall(a) {
        CallIsCall(cfg, s, a);
        CallTrace(cfg, s, a.childAct.n, a.childAct.next, stream);
        RunTrace(cfg, u, acts[1..], t, a.childAct.next, stream);
      } else {
        OtherTrace(cfg, s, a, stream);
        RunTrace(cfg, u, acts[1..], t, want, stream);
      }
    }
  }

  lemma {:induction false} CallIsCall(cfg: Config, s: State, a: Act)
    requires Enabled(cfg, s, a) && IsCall(a)
    ensures s.child.Alive? && ChildEnabled(cfg, s, a.childAct) && Apply(cfg, s, a) == ChildApply(cfg, s, a.childAct)
  {
    hide ChildEnabled;
    assert ChildEnabled(cfg, s, a.childAct) by {
      assert Enabled(cfg, s, a);
    }
    AliveIfEnabled(cfg, s, a.childAct);
  }

  lemma {:induction false} AliveIfEnabled(cfg: Config, s: State, a: ChildAct)
    requires ChildEnabled(cfg, s, a)
    ensures s.child.Alive?
  {
  }

  /** A child that has ended keeps its status until the wait returns it. */
  lemma {:induction false} DeadTrace(cfg: Config, s: State, acts: seq<Act>, t: State, status: Status)
    requires Inv(cfg, s) && Runs(cfg, s, acts, t)
    requires s.child == Dead(status) || (s.child.Gone? && s.waiter == Reaped(status))
    ensures t.child == Dead(status) || (t.child.Gone? && t.waiter == Reaped(status))
    decreases |acts|
  {
    hide Inv, Enabled, Apply;
    if s.child.Gone? {
      GoneIsReaped(cfg, s);
      ReapedStays(cfg, s, acts, t);
      RunOutcome(cfg, s, acts, t);
      RunKeepsInv(cfg, s, acts, t);
      GoneIsReaped(cfg, t);
    } else if |acts| > 0 {
      if IsCall(acts[0]) {
        CallIsCall(cfg, s, acts[0]);
      }
      OtherTrace(cfg, s, acts[0], Stdout);
      StepKeepsInv(cfg, s, acts[0]);
      DeadTrace(cfg, Apply(cfg, s, acts[0]), acts[1..], t, status);
    }
  }

  lemma {:induction false} GoneIsReaped(cfg: Config, s: State)
    requires Inv(cfg, s)
    ensures s.child.Gone? <==> s.waiter.Reaped?
  {
  }

  /** The status that is reported for a child that ended by itself is the one it chose. */
  lemma {:induction false} EndTrace(cfg: Config, s: State, acts: seq<Act>, t: State)
    requires Inv(cfg, s) && Runs(cfg, s, acts, t) && s.child.Alive? && ChildDoes(Ends) in acts
    ensures var last := LastWant(s.child.want, acts);
            last.WantEnd?
            && (t.child == Dead(last.status) || (t.child.Gone? && t.waiter == Reaped(last.status)))
    decreases |acts|
  {
    hide Inv, Enabled, Apply;
    var a, u := acts[0], Apply(cfg, s, acts[0]);
    StepKeepsInv(cfg, s, a);
    StepOutcome(cfg, s, a);
    if IsCall(a) {
      CallIsCall(cfg, s, a);
      CallTrace(cfg, s, a.childAct.n, a.childAct.next, Stdout);
      EndTrace(cfg, u, acts[1..], t);
    } else {
      OtherTrace(cfg, s, a, Stdout);
      RunOutcome(cfg, u, acts[1..], t);
      if a == ChildDoes(Ends) {
        NothingAfterEnd(cfg, u, acts[1..], t, s.child.want);
        DeadTrace(cfg, u, acts[1..], t, s.child.want.status);
      } else {
        EndTrace(cfg, u, acts[1..], t);
      }
    }
  }

  datatype ExecResult = ExecResult(exitCode: nat, timedOut: bool, stdoutText: Text, stderrText: Text)

  /** What `execute_command` returns once everything has been joined. */
  function ResultOf(s: State): ExecResult
    requires Final(s)
  {
    ExecResult(ExitCode(s.waiter.status), s.timedOut, s.out.collected, s.err.collected)
  }

  lemma {:induction false} ReaderTrace(cfg: Config, s: State, acts: seq<Act>, t: State, stream: Stream)
    requires Runs(cfg, s, acts, t) && Reader(stream, ReadFails) !in acts
    requires var r := ChannelOf(s, stream).reader; r != SawError && r != ReaderClosed(false)
    ensures var r := ChannelOf(t, stream).reader; r != SawError && r != ReaderClosed(false)
    decreases |acts|
  {
    hide Enabled, Apply;
    if |acts| > 0 {
      ReaderTraceStep(cfg, s, acts[0], stream);
      ReaderTrace(cfg, Apply(cfg, s, acts[0]), acts[1..], t, stream);
    }
  }

  lemma {:induction false} ReaderTraceStep(cfg: Config, s: State, a: Act, stream: Stream)
    requires Enabled(cfg, s, a) && a != Reader(stream, ReadFails)
    requires var r := ChannelOf(s, stream).reader; r != SawError && r != ReaderClosed(false)
    ensures var r := ChannelOf(Apply(cfg, s, a), stream).reader; r != SawError && r != ReaderClosed(false)
  {
    hide CallReturns, Called, WriterApply, WaiterApply, Produce, ReaderApply;
    match a
    case Writer(w) => WriterKeepsReaders(cfg, s, w);
    case Reader(of, r) =>
      if of == stream { ReaderGoesOn(ChannelOf(s, stream), r); }
    case Waiter(w) => WaiterKeepsReaders(s, w);
    case Tick =>
    case ChildDoes(c) =>
      if IsCall(a) {
        CallMovesWithinBounds(cfg, s, a.childAct.n);
        CallKeepsReaders(s, s.child.want, a.childAct.n);
      }
  }

  lemma {:induction false} WriterKeepsReaders(cfg: Config, s: State, a: WriterAct)
    requires WriterEnabled(cfg, s, a)
    ensures var t := WriterApply(cfg, s, a); t.out.reader == s.out.reader && t.err.reader == s.err.reader
  {
  }

  lemma {:induction false} WaiterKeepsReaders(s: State, a: WaiterAct)
    requires WaiterEnabled(s, a)
    ensures var t := WaiterApply(s, a); t.out.reader == s.out.reader && t.err.reader == s.err.reader
  {
  }

  lemma {:induction false} CallKeepsReaders(s: State, want: Want, n: nat)
    requires want.WantRead? ==> n <= |s.stdinBuffer|
    requires want.WantWrite? ==> n <= |want.data|
    ensures var t := Called(s, want, n); t.out.reader == s.out.reader && t.err.reader == s.err.reader
  {
  }

  lemma {:induction false} ReaderGoesOn(c: Channel, a: ReaderAct)
    requires ReaderEnabled(c, a) && c.reader != SawError && c.reader != ReaderClosed(false)
    ensures var r := ReaderApply(c, a).reader; a == ReadFails || (r != SawError && r != ReaderClosed(false))
  {
  }

  /** The reported status: the one that the child chose, if it came to end by itself, and otherwise
      that of the kill. The number is the exit code, or 128 and the signal. */
  lemma {:induction false} StatusIsReported(cfg: Config, want: Want, budget: Budget, acts: seq<Act>, t: State)
    requires Possible(want, budget) && Runs(cfg, Start(want, budget), acts, t) && Final(t)
    ensures if ChildDoes(Ends) in acts then
              var last := LastWant(want, acts);
              && last.WantEnd?
              && (last.status.Exited? ==> ResultOf(t).exitCode == last.status.code)
              && (last.status.Signaled? ==> ResultOf(t).exitCode == 128 + last.status.signal)
            else ResultOf(t).exitCode == 137 && ResultOf(t).timedOut
  {
    hide Runs, Inv;
    var s := Start(want, budget);
    StartInv(cfg, want, budget);
    KilledExactly(cfg, want, budget, acts, t);
    if ChildDoes(Ends) in acts {
      EndTrace(cfg, s, acts, t);
      RunKeepsInv(cfg, s, acts, t);
      GoneIsReaped(cfg, t);
    }
  }

  /** The reported texts: all that the child wrote to the stream, in order, unless a read has failed,
      and a prefix of that then. What the child took are the first bytes of the input text. */
  lemma {:induction false} TextsAreReported(cfg: Config, want: Want, budget: Budget, acts: seq<Act>, t: State)
    requires Possible(want, budget) && Runs(cfg, Start(want, budget), acts, t)
    ensures Taken(want, acts) <= |cfg.stdin| && t.consumed == cfg.stdin[..Taken(want, acts)]
    ensures Final(t) ==>
      && ResultOf(t).stdoutText <= Written(Stdout, want, acts)
      && ResultOf(t).stderrText <= Written(Stderr, want, acts)
      && (Reader(Stdout, ReadFails) !in acts ==> ResultOf(t).stdoutText == Written(Stdout, want, acts))
      && (Reader(Stderr, ReadFails) !in acts ==> ResultOf(t).stderrText == Written(Stderr, want, acts))
  {
    hide Inv, Runs;
    var s := Start(want, budget);
    StartInv(cfg, want, budget);
    RunKeepsInv(cfg, s, acts, t);
    ConsumedIsPrefix(cfg, t);
    RunTrace(cfg, s, acts, t, want, Stdout);
    RunTrace(cfg, s, acts, t, want, Stderr);
    assert Reachable(cfg, t);
    if Final(t) {
      ReportedIsPrefix(cfg, t, Stdout, Written(Stdout, want, acts));
      ReportedIsPrefix(cfg, t, Stderr, Written(Stderr, want, acts));
      if Reader(Stdout, ReadFails) !in acts {
        ReaderTrace(cfg, s, acts, t, Stdout);
      }
      if Reader(Stderr, ReadFails) !in acts {
        ReaderTrace(cfg, s, acts, t, Stderr);
      }
    }
  }

  lemma {:induction false} ConsumedIsPrefix(cfg: Config, s: State)
    requires Inv(cfg, s)
    ensures |s.consumed| <= |cfg.stdin| && s.consumed == cfg.stdin[..|s.consumed|]
  {
    hide ChannelInv, ChildInv, WaiterInv, ClosesInv;
  }

  lemma {:induction false} ReportedIsPrefix(cfg: Config, s: State, stream: Stream, all: Text)
    requires Reachable(cfg, s) && Final(s) && ChannelOf(s, stream).produced == [] + all
    ensures var c := ChannelOf(s, stream); c.collected <= all && (c.reader.atEof ==> c.collected == all)
  {
    hide Reachable;
    FinalMeaning(cfg, s, stream);
    assert [] + all == all;
  }

  /** What a call can bring about, for every text that fits the pipes: the child reads all its input,
      writes it to its output and exits with `code`, and the call reports just that. */
  lemma {:induction false} CatEchoes(cfg: Config, code: nat) returns (acts: seq<Act>, t: State)
    requires 0 < |cfg.stdin| <= cfg.capacity
    ensures Runs(cfg, Start(WantRead(|cfg.stdin|), Finite(2)), acts, t) && Final(t)
    ensures t.consumed == cfg.stdin && ResultOf(t).stdoutText == cfg.stdin && ResultOf(t).stderrText == []
    ensures ResultOf(t).exitCode == code
  {
    hide Runs, Final;
    var want, u := WantRead(|cfg.stdin|), Start(WantRead(|cfg.stdin|), Finite(2));
    var head;
    head, u := CatRuns(cfg, code);
    assert Possible(want, Finite(2));
    assert Reachable(cfg, u);
    var rest;
    rest, t := FiniteChildFinishes(cfg, u);
    RunsAppend(cfg, Start(want, Finite(2)), head, u, rest, t);
    acts := head + rest;
    assert Reader(Stdout, ReadFails) !in acts && Reader(Stderr, ReadFails) !in acts;
    TextsAreReported(cfg, want, Finite(2), acts, t);
    StatusIsReported(cfg, want, Finite(2), acts, t);
    ReachableInv(cfg, u);
    CatTrace(cfg, code, u, rest, t);
  }

  function CatActs(cfg: Config, code: nat): seq<Act> {
    var n := |cfg.stdin|;
    [Writer(WriteSome(n)), ChildDoes(Calls(n, WantWrite(Stdout, cfg.stdin))),
     ChildDoes(Calls(n, WantEnd(Exited(code)))), ChildDoes(Ends)]
  }

  lemma {:induction false} CatRuns(cfg: Config, code: nat) returns (acts: seq<Act>, t: State)
    requires 0 < |cfg.stdin| <= cfg.capacity
    ensures acts == CatActs(cfg, code) && Runs(cfg, Start(WantRead(|cfg.stdin|), Finite(2)), acts, t)
    ensures !t.child.Alive?
  {
    var n := |cfg.stdin|;
    var s0 := Start(WantRead(n), Finite(2));
    var s1 := Apply(cfg, s0, Writer(WriteSome(n)));
    assert s1.stdinBuffer == cfg.stdin;
    var s2 := Apply(cfg, s1, ChildDoes(Calls(n, WantWrite(Stdout, cfg.stdin))));
    var s3 := Apply(cfg, s2, ChildDoes(Calls(n, WantEnd(Exited(code)))));
    t := Apply(cfg, s3, ChildDoes(Ends));
    acts := [];
    RunsFurther(cfg, s3, ChildDoes(Ends), acts, t);
    acts := [ChildDoes(Ends)] + acts;
    RunsFurther(cfg, s2, ChildDoes(Calls(n, WantEnd(Exited(code)))), acts, t);
    acts := [ChildDoes(Calls(n, WantEnd(Exited(code))))] + acts;
    RunsFurther(cfg, s1, ChildDoes(Calls(n, WantWrite(Stdout, cfg.stdin))), acts, t);
    acts := [ChildDoes(Calls(n, WantWrite(Stdout, cfg.stdin)))] + acts;
    RunsFurther(cfg, s0, Writer(WriteSome(n)), acts, t);
    acts := [Writer(WriteSome(n))] + acts;
  }

  lemma {:induction false} CatTrace(cfg: Config, code: nat, u: State, rest: seq<Act>, t: State)
    requires Inv(cfg, u) && !u.child.Alive? && Runs(cfg, u, rest, t)
    ensures var acts, want := CatActs(cfg, code) + rest, WantRead(|cfg.stdin|);
            && ChildDoes(Ends) in acts && LastWant(want, acts) == WantEnd(Exited(code))
            && Written(Stdout, want, acts) == cfg.stdin && Written(Stderr, want, acts) == []
            && Taken(want, acts) == |cfg.stdin|
  {
    hide Runs, LastWant, Written, Taken;
    var n, want := |cfg.stdin|, WantRead(|cfg.stdin|);
    var end, write := WantEnd(Exited(code)), WantWrite(Stdout, cfg.stdin);
    NothingAfterEnd(cfg, u, rest, t, end);
    var a4 := [ChildDoes(Ends)] + rest;
    var a3 := [ChildDoes(Calls(n, end))] + a4;
    var a2 := [ChildDoes(Calls(n, write))] + a3;
    var a1 := [Writer(WriteSome(n))] + a2;
    assert CatActs(cfg, code) + rest == a1 && a1[3] == ChildDoes(Ends);
    FirstStep(end, ChildDoes(Ends), rest);
    FirstStep(write, ChildDoes(Calls(n, end)), a4);
    FirstStep(want, ChildDoes(Calls(n, write)), a3);
    FirstStep(want, Writer(WriteSome(n)), a2);
    assert cfg.stdin[..n] + [] == cfg.stdin;
  }

  lemma {:induction false} FirstStep(want: Want, a: Act, acts: seq<Act>)
    ensures var next := if IsCall(a) then a.childAct.next else want;
            var n := if IsCall(a) then a.childAct.n else 0;
            && LastWant(want, [a] + acts) == LastWant(next, acts)
            && Taken(want, [a] + acts) == (if want.WantRead? then n else 0) + Taken(next, acts)
            && forall stream :: Written(stream, want, [a] + acts)
                 == (if want.WantWrite? && want.to == stream && n <= |want.data| then want.data[..n] else [])
                    + Written(stream, next, acts)
  {
    assert ([a] + acts)[1..] == acts;
  }

  lemma {:induction false} NothingAfterEnd(cfg: Config, s: State, acts: seq<Act>, t: State, want: Want)
    requires Inv(cfg, s) && Runs(cfg, s, acts, t) && !s.child.Alive?
    ensures LastWant(want, acts) == want && Taken(want, acts) == 0
    ensures Written(Stdout, want, acts) == [] && Written(Stderr, want, acts) == []
    decreases |acts|
  {
    hide Inv, Enabled, Apply;
    if |acts| > 0 {
      if IsCall(acts[0]) {
        CallIsCall(cfg, s, acts[0]);
      }
      StepKeepsInv(cfg, s, acts[0]);
      StepOutcome(cfg, s, acts[0]);
      NothingAfterEnd(cfg, Apply(cfg, s, acts[0]), acts[1..], t, want);
    }
  }
}
