/** The mouse driver while someone else holds its ports
    (src/drivers/common/io_port.c:65-81, src/drivers/mouse/mouse_driver.c:43-162). */
module MouseLocks {
  import opened RtTypes
  import opened IoPort
  import opened Mouse
  import opened MouseStream
  import opened MouseMotion

  /** Port p is locked at the start of the run and nobody unlocks it. */
  ghost predicate StaysLocked(w: World, run: seq<Action>, p: nat) {
    p < |w.io.locks| && w.io.locks[p] && PortCall(Unlock(p)) !in run
  }

  lemma StepKeepsLock(sys: System, w: World, a: Action, p: nat)
    requires w.Valid() && p < |w.io.locks| && w.io.locks[p] && a != PortCall(Unlock(p))
    ensures Perform(sys, w, a).0.io.locks[p]
  {
  }

  lemma {:induction false} LockPersists(sys: System, w: World, run: seq<Action>, p: nat)
    requires w.Valid() && StaysLocked(w, run, p)
    ensures After(sys, w, run).io.locks[p]
  {
    if run != [] {
      var front := run[..|run| - 1];
      LockPersists(sys, w, front, p);
      StepKeepsLock(sys, After(sys, w, front), run[|run| - 1], p);
    }
  }

  /** With either port locked no wait for a byte can succeed. */
  lemma NoAnswerWhileLocked(sys: System, io: Bus, expected: bv8)
    requires !io.Open(STATUS) || !io.Open(DATA)
    ensures expected != 0 ==> !WaitByte(sys, io, expected).1
  {
  }

  lemma StepWhileLocked(sys: System, w: World, a: Action)
    requires w.Valid() && (!w.io.Open(STATUS) || !w.io.Open(DATA))
    ensures var (w', outcome) := Perform(sys, w, a);
            outcome != Returned(Success) && w'.mouse.state == w.mouse.state
  {
    NoAnswerWhileLocked(sys, Out(sys, Out(sys, w.io, COMMAND, DISABLE_AUX), DATA, CMD_RESET), ACK);
    match a
    case Enable => NoAnswerWhileLocked(sys, Out(sys, w.io, DATA, CMD_ENABLE), ACK);
    case Disable => NoAnswerWhileLocked(sys, Out(sys, w.io, DATA, CMD_DISABLE), ACK);
    case SetSampleRate(rate) =>
      NoAnswerWhileLocked(sys, Out(sys, Out(sys, w.io, DATA, CMD_SET_SAMPLE_RATE), DATA, rate), ACK);
    case _ =>
  }

  /** While the status or the data port stays locked, no driver call of any run succeeds and the lifecycle stands still. */
  lemma {:induction false} NothingSucceedsWhileLocked(sys: System, w: World, run: seq<Action>, p: nat)
    requires w.Valid() && StaysLocked(w, run, p) && (p == 0x64 || p == 0x60)
    ensures After(sys, w, run).mouse.state == w.mouse.state
    ensures run != [] ==> LastOutcome(sys, w, run) != Returned(Success)
  {
    if run != [] {
      var front := run[..|run| - 1];
      NothingSucceedsWhileLocked(sys, w, front, p);
      LockPersists(sys, w, front, p);
      StepWhileLocked(sys, After(sys, w, front), run[|run| - 1]);
    }
  }

  function Interrupts(run: seq<Action>): nat {
    if run == [] then 0 else Interrupts(run[..|run| - 1]) + if run[|run| - 1].Interrupt? then 1 else 0
  }

  function Zeros(n: nat): seq<bv8> {
    seq(n, _ => 0)
  }

  lemma LockedStepReadsZero(sys: System, w: World, a: Action)
    requires w.Valid() && !w.io.Open(0x60)
    ensures var outcome := Perform(sys, w, a).1;
            && (outcome.Handled? <==> a.Interrupt? && w.mouse.state == Running)
            && (outcome.Handled? ==> outcome.byte == 0)
            && outcome != Returned(Success)
  {
    StepWhileLocked(sys, w, a);
  }

  /** Reads of a locked data port give 0, so the handler sees one zero byte an interrupt. */
  lemma {:induction false} LockedBytesAreZero(sys: System, w: World, run: seq<Action>)
    requires w.Valid() && StaysLocked(w, run, 0x60)
    ensures Stretches(sys, w, run) == [Zeros(if w.mouse.state == Running then Interrupts(run) else 0)]
  {
    if run != [] {
      var front := run[..|run| - 1];
      LockedBytesAreZero(sys, w, front);
      NothingSucceedsWhileLocked(sys, w, front, 0x60);
      LockPersists(sys, w, front, 0x60);
      LockedExtend(sys, After(sys, w, front), run[|run| - 1], if w.mouse.state == Running then Interrupts(front) else 0);
    } else {
      assert Zeros(0) == [];
    }
  }

  lemma LockedExtend(sys: System, w: World, a: Action, n: nat)
    requires w.Valid() && !w.io.Open(0x60)
    ensures Extend([Zeros(n)], a, Perform(sys, w, a).1) == [Zeros(if a.Interrupt? && w.mouse.state == Running then n + 1 else n)]
  {
    LockedStepReadsZero(sys, w, a);
    assert Zeros(n) + [0] == Zeros(n + 1);
  }

  lemma {:induction false} ZerosFrom(n: nat, i: nat)
    requires i <= n
    ensures ParseFrom(Zeros(n), i) == Parsed([], n - i, [])
    decreases n - i
  {
    if i < n {
      ZerosFrom(n, i + 1);
    }
  }

  lemma ZerosAreSkipped(n: nat)
    ensures Parse(Zeros(n)).packets == [] && Parse(Zeros(n)).rest == []
  {
    ZerosFrom(n, 0);
  }

  /** With the data port locked at a packet boundary, the position is frozen whatever happens. */
  lemma FrozenAtBoundary(sys: System, w: World, run: seq<Action>)
    requires w.Valid() && StaysLocked(w, run, 0x60) && InRange(w.mouse.data) && w.mouse.index == 0
    ensures var m' := After(sys, w, run).mouse;
            m'.packets == w.mouse.packets && m'.data == w.mouse.data && m'.index == 0
  {
    var n := if w.mouse.state == Running then Interrupts(run) else 0;
    LockedBytesAreZero(sys, w, run);
    StreamRefinesBatch(sys, w, run);
    MotionLaw(sys, w, run);
    assert Pending(w.mouse) + Zeros(n) == Zeros(n);
    ZerosAreSkipped(n);
  }

  /** Locking the data port in the middle of a packet lets at most that one packet complete, from zero bytes, and the
      framer is back at a boundary after two interrupts. */
  lemma LockEndsThePacket(sys: System, w: World, run: seq<Action>)
    requires w.Valid() && StaysLocked(w, run, 0x60) && Framed(w.mouse) && InRange(w.mouse.data) && w.mouse.state == Running
    ensures var m' := After(sys, w, run).mouse;
            && |NewPackets(w.mouse, m')| <= 1
            && (Interrupts(run) >= 2 ==> m'.index == 0)
            && (w.mouse.index + Interrupts(run) >= 3 && w.mouse.index > 0 ==> |NewPackets(w.mouse, m')| == 1)
  {
    var n := Interrupts(run);
    var pending := Pending(w.mouse);
    LockedBytesAreZero(sys, w, run);
    StreamRefinesBatch(sys, w, run);
    MotionLaw(sys, w, run);
    TwoZerosSettle(pending, n);
    PendingTakesZeros(w.mouse, n);
  }

  lemma TwoZerosSettle(pending: seq<bv8>, n: nat)
    ensures n >= 2 ==> Parse(pending + Zeros(n)).rest == []
  {
    if n >= 2 {
      assert pending + Zeros(n) == (pending + Zeros(n - 2)) + [0, 0];
      TwoUnmarkedBytesSynchronise(pending + Zeros(n - 2), 0, 0);
    }
  }

  lemma PendingTakesZeros(m: MouseState, n: nat)
    requires Framed(m)
    ensures var packets := Parse(Pending(m) + Zeros(n)).packets;
            |packets| == if m.index > 0 && m.index + n >= 3 then 1 else 0
  {
    var bs := Pending(m) + Zeros(n);
    if m.index == 0 {
      assert bs == Zeros(n);
      ZerosAreSkipped(n);
    } else if m.index + n >= 3 {
      assert bs == bs[..3] + Zeros(m.index + n - 3);
      ParseShifts(bs[..3], Zeros(m.index + n - 3), 0);
      ZerosAreSkipped(m.index + n - 3);
      assert Marked(bs[0]);
    }
  }
}
