/** The command/acknowledge balance between the mouse driver and a device that answers every byte
    (src/drivers/mouse/mouse_driver.c:65-136, 198-212). */
module MouseLedger {
  import opened RtTypes
  import opened IoPort
  import opened Mouse
  import opened MouseStream

  /** A device with a first-in first-out answer queue; parameter says that the next byte is a command's argument. */
  datatype Fifo = Fifo(queue: seq<bv8>, parameter: bool)

  /** It answers each byte sent to it with 0xFA, and a reset (0xFF) with its self-test result 0xAA besides; setting the
      sample rate (0xF3) or the resolution (0xE8) takes an argument. */
  function Answer(q: Fifo, t: Transaction): Fifo {
    match t
    case OutB(port, v) =>
      if port != 0x60 then q
      else if q.parameter then Fifo(q.queue + [0xFA], false)
      else if v == 0xFF then Fifo(q.queue + [0xFA, 0xAA], false)
      else Fifo(q.queue + [0xFA], v == 0xF3 || v == 0xE8)
    case InB(port, _) => if port == 0x60 && q.queue != [] then q.(queue := q.queue[1..]) else q
    case _ => q
  }

  function FifoAfter(h: History): Fifo {
    if h == [] then Fifo([], false) else Answer(FifoAfter(h[..|h| - 1]), h[|h| - 1])
  }

  /** The device reports output-full exactly while an answer is unread, and hands out the oldest one. */
  ghost predicate IsFifo(sys: System) {
    forall h: History ::
      var q := FifoAfter(h).queue;
      && (sys.device.readB(h, 0x64) & sys.outputFull != 0 <==> q != [])
      && (q != [] ==> sys.device.readB(h, 0x60) == q[0])
  }

  /** Such a device, for a given mask. */
  function FifoSystem(outputFull: bv8): System {
    System(Device(
             (h: History, port: nat) =>
               var q := FifoAfter(h).queue;
               if q == [] then 0 else if port == 0x64 then outputFull else q[0],
             (h: History, port: nat) => 0,
             (h: History, port: nat) => 0),
           outputFull)
  }

  /** It is one exactly when the output-full mask has some bit set. */
  lemma FifoNeedsMask(outputFull: bv8)
    ensures IsFifo(FifoSystem(outputFull)) <==> outputFull != 0
  {
    assert outputFull & outputFull == outputFull;
    var h := [OutB(0x60, 0xFF)];
    OneMore([], OutB(0x60, 0xFF));
    assert [] + h == h && FifoAfter(h).queue != [];
  }

  function Acks(n: nat): (r: seq<bv8>)
    ensures |r| == n && forall i :: 0 <= i < n ==> r[i] == 0xFA
  {
    seq(n, _ => 0xFA)
  }

  /** Both mouse ports are free and the device owes n acknowledgements. */
  ghost predicate Owes(io: Bus, n: nat) {
    io.Valid() && io.Open(0x64) && io.Open(0x60) && FifoAfter(io.history) == Fifo(Acks(n), false)
  }

  // ---------------------------------------------------------------- one exchange

  lemma OneMore(h: History, t: Transaction)
    ensures FifoAfter(h + [t]) == Answer(FifoAfter(h), t)
  {
    assert (h + [t])[..|h|] == h;
  }

  /** Sending a byte queues its answer. */
  lemma SendQueues(sys: System, io: Bus, v: bv8)
    requires io.Open(0x60)
    ensures FifoAfter(Out(sys, io, 0x60, v).history) == Answer(FifoAfter(io.history), OutB(0x60, v))
  {
    OneMore(io.history, OutB(0x60, v));
  }

  /** With an answer waiting, a wait ends at the first poll and takes the oldest answer. */
  lemma WaitTakesOldest(sys: System, io: Bus, expected: bv8)
    requires IsFifo(sys) && io.Open(0x64) && io.Open(0x60) && FifoAfter(io.history).queue != []
    ensures var (io', ok) := WaitByte(sys, io, expected);
            var q := FifoAfter(io.history);
            && io'.locks == io.locks
            && (ok <==> q.queue[0] == expected)
            && FifoAfter(io'.history) == q.(queue := q.queue[1..])
  {
    var h := io.history;
    assert Polled(sys, h, 0) == h;
    assert FullAt(sys, h, 0);
    assert FirstFull(sys, h, TIMEOUT) == 0;
    var status := InB(0x64, sys.device.readB(h, 0x64));
    assert Polled(sys, h, 1) == h + [status];
    OneMore(h, status);
    OneMore(h + [status], InB(0x60, sys.device.readB(h + [status], 0x60)));
  }

  lemma AckPopped(n: nat)
    ensures (Acks(n) + [0xFA])[1..] == Acks(n) && (Acks(n) + [0xFA])[0] == 0xFA && Acks(n) + [0xFA] == Acks(n + 1)
  {
  }

  // ---------------------------------------------------------------- the account of all runs

  /** The lifecycle state, and the answers that the device has queued and nobody has read. */
  datatype Account = Account(state: DriverState, queue: seq<bv8>)

  function SettleInit(q: Account): (Account, ErrorCode) {
    var reset := q.queue + [0xFA, 0xAA];
    if reset[0] != 0xFA then (q.(queue := reset[1..]), HardwareFault) else
    var acked := reset[1..];
    if acked[0] != 0xAA then (q.(queue := acked[1..]), HardwareFault) else
    SettleSetup(q, acked[1..] + [0xFA])
  }

  /** The rest of Init, once its enable command has been answered. */
  function SettleSetup(q: Account, enabled: seq<bv8>): (Account, ErrorCode)
    requires enabled != []
  {
    if enabled[0] != 0xFA then (q.(queue := enabled[1..]), HardwareFault)
    else (Account(Ready, (enabled[1..] + [0xFA]) + [0xFA]), Success)
  }

  /** A command whose bytes are answered by the given acknowledgements, of which the driver awaits one. */
  function SettleCommand(q: Account, answers: seq<bv8>, guard: DriverState, next: DriverState): (Account, ErrorCode)
    requires answers != []
  {
    var queue := q.queue + answers;
    if q.state != guard then (q, InvalidParameter)
    else if queue[0] == 0xFA then (Account(next, queue[1..]), Success)
    else (Account(q.state, queue[1..]), HardwareFault)
  }

  /** What an action does to the account. An interrupt takes the oldest answer, if the driver is RUNNING. */
  function Settle(q: Account, a: Action): (Account, ErrorCode)
    requires !a.PortCall?
  {
    match a
    case Init => SettleInit(q)
    case Enable => SettleCommand(q, [0xFA], Ready, Running)
    case Disable => SettleCommand(q, [0xFA], Running, Ready)
    case SetSampleRate(_) => SettleCommand(q, [0xFA, 0xFA], Ready, Ready)
    case Interrupt => (if q.state == Running && q.queue != [] then q.(queue := q.queue[1..]) else q, Success)
  }

  function Settled(q: Account, run: seq<Action>): Account
    requires forall a :: a in run ==> !a.PortCall?
  {
    if run == [] then q else Settle(Settled(q, run[..|run| - 1]), run[|run| - 1]).0
  }

  predicate IsCommand(a: Action) {
    a.Enable? || a.Disable? || a.SetSampleRate?
  }

  /** The lifecycle guard of a command. */
  predicate Allowed(state: DriverState, a: Action) {
    if a.Disable? then state == Running else state == Ready
  }

  ghost predicate Tracks(w: World, q: Account) {
    && w.io.Valid() && w.io.Open(0x64) && w.io.Open(0x60)
    && FifoAfter(w.io.history) == Fifo(q.queue, false) && w.mouse.state == q.state
  }

  /** The state of the conversation after the reset command has been sent. */
  function ResetSent(sys: System, io: Bus): Bus {
    Out(sys, Out(sys, io, 0x64, 0xA7), 0x60, 0xFF)
  }

  /** Sending a reset to a device with any answers queued. */
  lemma ResetAnswers(sys: System, io: Bus, queue: seq<bv8>)
    requires io.Open(0x64) && io.Open(0x60) && FifoAfter(io.history) == Fifo(queue, false)
    ensures ResetSent(sys, io).locks == io.locks
    ensures FifoAfter(ResetSent(sys, io).history) == Fifo(queue + [0xFA, 0xAA], false)
  {
    OneMore(io.history, OutB(0x64, 0xA7));
    SendQueues(sys, Out(sys, io, 0x64, 0xA7), 0xFF);
  }

  /** The ports are free and these answers are queued. */
  ghost predicate Queued(io: Bus, queue: seq<bv8>) {
    io.Open(0x64) && io.Open(0x60) && FifoAfter(io.history) == Fifo(queue, false)
  }

  lemma WaitSettles(sys: System, io: Bus, queue: seq<bv8>, expected: bv8)
    requires IsFifo(sys) && Queued(io, queue) && queue != []
    ensures var (io', ok) := WaitByte(sys, io, expected);
            io'.locks == io.locks && Queued(io', queue[1..]) && (ok <==> queue[0] == expected)
  {
    WaitTakesOldest(sys, io, expected);
  }

  lemma SetupSettles(sys: System, io: Bus, queue: seq<bv8>)
    requires IsFifo(sys) && Queued(io, queue)
    ensures var enabled := queue + [0xFA];
            var (io1, ok) := WaitByte(sys, Out(sys, io, 0x60, 0xF4), 0xFA);
            var io2 := Out(sys, Out(sys, io1, 0x60, 0xF3), 0x60, 100);
            && (ok <==> enabled[0] == 0xFA) && Queued(io1, enabled[1..])
            && Queued(io2, (enabled[1..] + [0xFA]) + [0xFA])
            && io1.locks == io.locks && io2.locks == io.locks
  {
    SendQueues(sys, io, 0xF4);
    WaitSettles(sys, Out(sys, io, 0x60, 0xF4), queue + [0xFA], 0xFA);
    var io1 := WaitByte(sys, Out(sys, io, 0x60, 0xF4), 0xFA).0;
    SendQueues(sys, io1, 0xF3);
    SendQueues(sys, Out(sys, io1, 0x60, 0xF3), 100);
  }

  lemma InitIoSettles(sys: System, io: Bus, q: Account)
    requires IsFifo(sys) && Queued(io, q.queue)
    ensures var (io', ok) := InitIo(sys, io);
            && io'.locks == io.locks && Queued(io', SettleInit(q).0.queue)
            && SettleInit(q).1 == (if ok then Success else HardwareFault)
            && SettleInit(q).0.state == (if ok then Ready else q.state)
  {
    var reset := q.queue + [0xFA, 0xAA];
    ResetAnswers(sys, io, q.queue);
    WaitSettles(sys, ResetSent(sys, io), reset, 0xFA);
    var (io1, ok1) := WaitByte(sys, ResetSent(sys, io), 0xFA);
    if ok1 {
      WaitSettles(sys, io1, reset[1..], 0xAA);
      SetupSettles(sys, WaitByte(sys, io1, 0xAA).0, reset[1..][1..]);
    }
  }

  lemma InitSettles(sys: System, w: World, q: Account)
    requires IsFifo(sys) && w.Valid() && Tracks(w, q)
    ensures var (w', outcome) := Perform(sys, w, Init);
            Tracks(w', SettleInit(q).0) && outcome == Returned(SettleInit(q).1)
  {
    InitIoSettles(sys, w.io, q);
  }

  lemma ByteSettles(sys: System, io: Bus, queue: seq<bv8>, v: bv8)
    requires IsFifo(sys) && Queued(io, queue) && (v == 0xF4 || v == 0xF5)
    ensures var (io', ok) := WaitByte(sys, Out(sys, io, 0x60, v), 0xFA);
            io'.locks == io.locks && Queued(io', (queue + [0xFA])[1..]) && (ok <==> (queue + [0xFA])[0] == 0xFA)
  {
    SendQueues(sys, io, v);
    WaitSettles(sys, Out(sys, io, 0x60, v), queue + [0xFA], 0xFA);
  }

  lemma RateSettles(sys: System, io: Bus, queue: seq<bv8>, rate: bv8)
    requires IsFifo(sys) && Queued(io, queue)
    ensures var answers := queue + [0xFA, 0xFA];
            var (io', ok) := WaitByte(sys, Out(sys, Out(sys, io, 0x60, 0xF3), 0x60, rate), 0xFA);
            io'.locks == io.locks && Queued(io', answers[1..]) && (ok <==> answers[0] == 0xFA)
  {
    var one := Out(sys, io, 0x60, 0xF3);
    SendQueues(sys, io, 0xF3);
    SendQueues(sys, one, rate);
    assert (queue + [0xFA]) + [0xFA] == queue + [0xFA, 0xFA];
    WaitSettles(sys, Out(sys, one, 0x60, rate), queue + [0xFA, 0xFA], 0xFA);
  }

  lemma CommandSettles(sys: System, w: World, q: Account, a: Action)
    requires IsFifo(sys) && w.Valid() && Tracks(w, q) && IsCommand(a)
    ensures var (w', outcome) := Perform(sys, w, a);
            Tracks(w', Settle(q, a).0) && outcome == Returned(Settle(q, a).1)
  {
    match a
    case Enable => ByteSettles(sys, w.io, q.queue, 0xF4);
    case Disable => ByteSettles(sys, w.io, q.queue, 0xF5);
    case SetSampleRate(rate) => RateSettles(sys, w.io, q.queue, rate);
    case _ =>
  }

  lemma InterruptSettles(sys: System, w: World, q: Account)
    requires IsFifo(sys) && w.Valid() && Tracks(w, q)
    ensures Tracks(Perform(sys, w, Interrupt).0, Settle(q, Interrupt).0)
    ensures q.state == Running && q.queue != [] ==> Perform(sys, w, Interrupt).1 == Handled(q.queue[0])
  {
    if w.mouse.state == Running {
      OneMore(w.io.history, InB(0x60, sys.device.readB(w.io.history, 0x60)));
    }
  }

  /** What the driver gets for an action: a call the account's code, an interrupt the account's oldest answer. */
  ghost predicate Gets(q: Account, a: Action, outcome: Outcome)
    requires !a.PortCall?
  {
    if a.Interrupt? then q.state == Running && q.queue != [] ==> outcome == Handled(q.queue[0])
    else outcome == Returned(Settle(q, a).1)
  }

  lemma StepSettles(sys: System, w: World, q: Account, a: Action)
    requires IsFifo(sys) && w.Valid() && Tracks(w, q) && !a.PortCall?
    ensures var (w', outcome) := Perform(sys, w, a); Tracks(w', Settle(q, a).0) && Gets(q, a, outcome)
  {
    if a.Init? {
      InitSettles(sys, w, q);
    } else if a.Interrupt? {
      InterruptSettles(sys, w, q);
    } else {
      CommandSettles(sys, w, q, a);
    }
  }

  /** Against such a device every run of driver calls and interrupts, failing calls included, is the run of the account:
      same lifecycle, same unread answers, and what the driver gets at every step. */
  lemma {:induction false} AccountIsExact(sys: System, w: World, q: Account, run: seq<Action>)
    requires IsFifo(sys) && w.Valid() && Tracks(w, q)
    requires forall a :: a in run ==> !a.PortCall?
    ensures Tracks(After(sys, w, run), Settled(q, run))
    ensures run != [] ==> Gets(Settled(q, run[..|run| - 1]), run[|run| - 1], LastOutcome(sys, w, run))
  {
    if run != [] {
      var front := run[..|run| - 1];
      AccountIsExact(sys, w, q, front);
      StepSettles(sys, After(sys, w, front), Settled(q, front), run[|run| - 1]);
    }
  }

  /** No answers, or what looks like the answers to a reset that somebody else sent. */
  predicate LooksReset(queue: seq<bv8>) {
    || queue == []
    || (|queue| >= 2 && queue[0] == 0xFA && queue[1] == 0xAA && (|queue| == 2 || queue[2] == 0xFA))
  }

  lemma AccountInitIff(q: Account)
    ensures SettleInit(q).1 == Success <==> LooksReset(q.queue)
  {
    var n := |q.queue|;
    var reset := q.queue + [0xFA, 0xAA];
    assert forall i :: 0 <= i < n ==> reset[i] == q.queue[i];
    assert reset[n] == 0xFA && reset[n + 1] == 0xAA;
  }

  /** Whatever answers are queued, Init succeeds exactly if there are none or they begin like those to a reset. */
  lemma InitSucceedsOnQueueIff(sys: System, w: World, q: Account)
    requires IsFifo(sys) && w.Valid() && Tracks(w, q)
    ensures Perform(sys, w, Init).1 == Returned(Success) <==> LooksReset(q.queue)
  {
    InitSettles(sys, w, q);
    AccountInitIff(q);
  }

  lemma CallsNeverRepay(q: Account, a: Action)
    requires !a.PortCall? && !a.Interrupt?
    ensures |q.queue| <= |Settle(q, a).0.queue|
  {
  }

  lemma {:induction false} AccountNeverShrinks(q: Account, run: seq<Action>)
    requires forall a :: a in run ==> !a.PortCall? && !a.Interrupt?
    ensures |q.queue| <= |Settled(q, run).queue|
  {
    if run != [] {
      AccountNeverShrinks(q, run[..|run| - 1]);
      CallsNeverRepay(Settled(q, run[..|run| - 1]), run[|run| - 1]);
    }
  }

  /** Only interrupts take answers out: without them no run of driver calls, whatever fails in it, leaves fewer unread than
      before, so a device that once owes an answer never is idle again. */
  lemma OnlyInterruptsRepay(sys: System, w: World, q: Account, run: seq<Action>)
    requires IsFifo(sys) && w.Valid() && Tracks(w, q)
    requires forall a :: a in run ==> !a.PortCall? && !a.Interrupt?
    ensures |FifoAfter(w.io.history).queue| <= |FifoAfter(After(sys, w, run).io.history).queue|
  {
    AccountIsExact(sys, w, q, run);
    AccountNeverShrinks(q, run);
  }

  ghost predicate Becomes(r: (Account, ErrorCode), state: DriverState, queue: seq<bv8>, code: ErrorCode) {
    r.1 == code && r.0.state == state && r.0.queue == queue
  }

  lemma InitSettlesTo(sys: System, w: World, q: Account, q': Account, code: ErrorCode)
    requires IsFifo(sys) && w.Valid() && Tracks(w, q) && Becomes(SettleInit(q), q'.state, q'.queue, code)
    ensures Tracks(Perform(sys, w, Init).0, q') && Perform(sys, w, Init).1 == Returned(code)
  {
    InitSettles(sys, w, q);
  }

  /** An Init that fails on owed acknowledgements leaves all but one of them and the self-test answer. */
  lemma FailedInitLeaves(sys: System, w: World, n: nat)
    requires IsFifo(sys) && w.Valid() && Owes(w.io, n) && n > 0
    ensures Perform(sys, w, Init).1 == Returned(HardwareFault)
    ensures FifoAfter(Perform(sys, w, Init).0.io.history) == Fifo(Acks(n - 1) + [0xAA], false)
  {
    var reset := Acks(n) + [0xFA, 0xAA];
    assert reset[0] == 0xFA && reset[1] == 0xFA;
    assert reset[1..][1..] == Acks(n - 1) + [0xAA];
    InitSettles(sys, w, Account(w.mouse.state, Acks(n)));
  }

  /** Init against a device that owes n acknowledgements succeeds if and only if n is 0, and then leaves a debt of 2. */
  lemma InitNeedsEmptyQueue(sys: System, w: World, n: nat)
    requires IsFifo(sys) && w.Valid() && Owes(w.io, n)
    ensures var (w', outcome) := Perform(sys, w, Init);
            && outcome == Returned(if n == 0 then Success else HardwareFault)
            && (n == 0 ==> Owes(w'.io, 2) && w'.mouse == w.mouse.(state := Ready, index := 0))
            && (n > 0 ==> w'.mouse == w.mouse)
  {
    if n == 0 {
      FirstInit(w.mouse.state);
      InitSettlesTo(sys, w, Account(w.mouse.state, []), Account(Ready, Acks(2)), Success);
    } else {
      FailedInitLeaves(sys, w, n);
    }
  }

  lemma FirstInit(state: DriverState)
    ensures Becomes(SettleInit(Account(state, [])), Ready, Acks(2), Success)
  {
  }

  lemma AccountRetries(state: DriverState)
    ensures Becomes(SettleInit(Account(state, [])), Ready, [0xFA, 0xFA], Success)
    ensures Becomes(SettleInit(Account(Ready, [0xFA, 0xFA])), Ready, [0xFA, 0xAA], HardwareFault)
    ensures Becomes(SettleInit(Account(Ready, [0xFA, 0xAA])), Ready, [0xAA] + Acks(3), Success)
    ensures Becomes(Settle(Account(Ready, [0xAA] + Acks(3)), Enable), Ready, Acks(4), HardwareFault)
  {
  }

  /** So on an idle device the second Init fails, the third one succeeds on the answers to the second one's reset, and the
      Enable after it takes a stale self-test answer for its own and fails. */
  lemma RetriesFromIdle(sys: System, w: World)
    requires IsFifo(sys) && w.Valid() && Owes(w.io, 0)
    ensures var (w1, r1) := Perform(sys, w, Init);
            var (w2, r2) := Perform(sys, w1, Init);
            var (w3, r3) := Perform(sys, w2, Init);
            var (w4, r4) := Perform(sys, w3, Enable);
            && r1 == Returned(Success) && r2 == Returned(HardwareFault) && r3 == Returned(Success)
            && r4 == Returned(HardwareFault) && w4.mouse.state == Ready && Owes(w4.io, 4)
  {
    var q, q1 := Account(w.mouse.state, []), Account(Ready, [0xFA, 0xFA]);
    var q2, q3 := Account(Ready, [0xFA, 0xAA]), Account(Ready, [0xAA] + Acks(3));
    AccountRetries(q.state);
    InitSettlesTo(sys, w, q, q1, Success);
    var w1 := Perform(sys, w, Init).0;
    InitSettlesTo(sys, w1, q1, q2, HardwareFault);
    var w2 := Perform(sys, w1, Init).0;
    InitSettlesTo(sys, w2, q2, q3, Success);
    var w3 := Perform(sys, w2, Init).0;
    CommandSettles(sys, w3, q3, Enable);
  }

  // ---------------------------------------------------------------- runs of commands

  function RateChanges(sys: System, w: World, run: seq<Action>): nat
    requires w.Valid()
  {
    if run == [] then 0
    else
      RateChanges(sys, w, run[..|run| - 1]) +
      if run[|run| - 1].SetSampleRate? && LastOutcome(sys, w, run) == Returned(Success) then 1 else 0
  }

  /** One command: it succeeds exactly when the lifecycle allows it, and only a rate change adds to the debt. */
  lemma CommandStep(sys: System, w: World, n: nat, a: Action)
    requires IsFifo(sys) && w.Valid() && Owes(w.io, n) && IsCommand(a)
    ensures var (w', outcome) := Perform(sys, w, a);
            && outcome == Returned(if Allowed(w.mouse.state, a) then Success else InvalidParameter)
            && Owes(w'.io, if a.SetSampleRate? && outcome == Returned(Success) then n + 1 else n)
  {
    AckPopped(n);
    AckPopped(n + 1);
    assert Acks(n) + [0xFA, 0xFA] == Acks(n + 2);
    CommandSettles(sys, w, Account(w.mouse.state, Acks(n)), a);
  }

  /** The ledger: over any interrupt-free run of commands the device owes its first debt plus one acknowledgement for
      each sample-rate change. */
  lemma {:induction false} LedgerGrowsByRateChanges(sys: System, w: World, n: nat, run: seq<Action>)
    requires IsFifo(sys) && w.Valid() && Owes(w.io, n)
    requires forall a :: a in run ==> IsCommand(a)
    ensures Owes(After(sys, w, run).io, n + RateChanges(sys, w, run))
  {
    if run != [] {
      var front := run[..|run| - 1];
      LedgerGrowsByRateChanges(sys, w, n, front);
      CommandStep(sys, After(sys, w, front), n + RateChanges(sys, w, front), run[|run| - 1]);
    }
  }

  /** No command of such a run ever sees a hardware fault. */
  lemma CommandsNeverFault(sys: System, w: World, n: nat, run: seq<Action>)
    requires IsFifo(sys) && w.Valid() && Owes(w.io, n)
    requires run != [] && forall a :: a in run ==> IsCommand(a)
    ensures var state := After(sys, w, run[..|run| - 1]).mouse.state;
            LastOutcome(sys, w, run) == Returned(if Allowed(state, run[|run| - 1]) then Success else InvalidParameter)
  {
    var front := run[..|run| - 1];
    LedgerGrowsByRateChanges(sys, w, n, front);
    CommandStep(sys, After(sys, w, front), n + RateChanges(sys, w, front), run[|run| - 1]);
  }

  /** From an idle device: Init succeeds, after any further commands the unread backlog is 2 plus the number of
      sample-rate changes, and a second Init at that point fails and leaves the driver as it is. */
  lemma BacklogAfterInit(sys: System, w: World, run: seq<Action>)
    requires IsFifo(sys) && w.Valid() && Owes(w.io, 0)
    requires forall a :: a in run ==> IsCommand(a)
    ensures var (ready, outcome) := Perform(sys, w, Init);
            var later := After(sys, ready, run);
            && outcome == Returned(Success)
            && Owes(later.io, 2 + RateChanges(sys, ready, run))
            && Perform(sys, later, Init).1 == Returned(HardwareFault)
            && Perform(sys, later, Init).0.mouse == later.mouse
  {
    InitNeedsEmptyQueue(sys, w, 0);
    var ready := Perform(sys, w, Init).0;
    LedgerGrowsByRateChanges(sys, ready, 2, run);
    InitNeedsEmptyQueue(sys, After(sys, ready, run), 2 + RateChanges(sys, ready, run));
  }

  // ---------------------------------------------------------------- unread acknowledgements become packets

  function Repeat(a: Action, k: nat): (r: seq<Action>)
    ensures |r| == k && forall i :: 0 <= i < k ==> r[i] == a
  {
    seq(k, _ => a)
  }

  function Phantoms(k: nat): seq<Packet> {
    seq(k, _ => Packet(0xFA, 0xFA, 0xFA))
  }

  lemma InterruptTakesAck(sys: System, w: World, n: nat)
    requires IsFifo(sys) && w.Valid() && Owes(w.io, n) && n > 0 && w.mouse.state == Running
    ensures var w' := Perform(sys, w, Interrupt).0;
            w'.mouse == Feed(w.mouse, 0xFA) && Owes(w'.io, n - 1)
  {
    assert Acks(n)[1..] == Acks(n - 1) && Acks(n)[0] == 0xFA;
    OneMore(w.io.history, InB(0x60, 0xFA));
  }

  /** Acknowledgement bytes carry both sign bits, so interrupts at a packet boundary frame the backlog as movement:
      k of them yield k / 3 packets of three acknowledgements, leave k % 3 pending and repay k of the debt. */
  lemma {:induction false} BacklogBecomesPackets(sys: System, w: World, n: nat, k: nat)
    requires IsFifo(sys) && w.Valid() && Owes(w.io, n) && k <= n
    requires w.mouse.state == Running && w.mouse.index == 0
    ensures var w' := After(sys, w, Repeat(Interrupt, k));
            && Owes(w'.io, n - k)
            && w'.mouse.state == Running
            && Pending(w'.mouse) == Acks(k % 3)
            && w'.mouse.packets == w.mouse.packets + Phantoms(k / 3)
  {
    if k > 0 {
      assert Repeat(Interrupt, k)[..k - 1] == Repeat(Interrupt, k - 1);
      BacklogBecomesPackets(sys, w, n, k - 1);
      var w1 := After(sys, w, Repeat(Interrupt, k - 1));
      assert After(sys, w, Repeat(Interrupt, k)) == Perform(sys, w1, Interrupt).0;
      InterruptTakesAck(sys, w1, n - k + 1);
      NextPhantom(w.mouse.packets, w1.mouse, k);
    }
  }

  lemma NextPhantom(before: seq<Packet>, m: MouseState, k: nat)
    requires k > 0 && m.Valid() && m.state == Running
    requires Pending(m) == Acks((k - 1) % 3) && m.packets == before + Phantoms((k - 1) / 3)
    ensures var m' := Feed(m, 0xFA);
            m'.state == Running && Pending(m') == Acks(k % 3) && m'.packets == before + Phantoms(k / 3)
  {
    AckFed(m, (k - 1) % 3);
    if k % 3 == 0 {
      assert Phantoms(k / 3) == Phantoms((k - 1) / 3) + [Packet(0xFA, 0xFA, 0xFA)];
    } else {
      assert k / 3 == (k - 1) / 3;
    }
  }

  lemma AckFed(m: MouseState, k: nat)
    requires m.Valid() && m.state == Running && k < 3 && Pending(m) == Acks(k)
    ensures var m' := Feed(m, 0xFA);
            && m'.state == Running
            && Pending(m') == Acks((k + 1) % 3)
            && m'.packets == if k == 2 then m.packets + [Packet(0xFA, 0xFA, 0xFA)] else m.packets
  {
    assert m.index == k;
    assert k > 0 ==> Pending(m)[0] == m.packet[0];
    assert k > 1 ==> Pending(m)[1] == m.packet[1];
  }
}
