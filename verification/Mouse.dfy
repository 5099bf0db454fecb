/** The PS/2 mouse driver over the port layer (src/drivers/mouse/mouse_driver.c).
    Every public call and every interrupt is one atomic step. */
module Mouse {
  import opened RtTypes
  import opened IoPort

  const STATUS: nat := 0x64
  const COMMAND: nat := 0x64
  const DATA: nat := 0x60
  const TIMEOUT: nat := 100000
  const PACKET_SIZE: nat := 3

  const CMD_RESET: bv8 := 0xFF
  const CMD_ENABLE: bv8 := 0xF4
  const CMD_DISABLE: bv8 := 0xF5
  const CMD_SET_SAMPLE_RATE: bv8 := 0xF3
  const ACK: bv8 := 0xFA
  const SELF_TEST_PASSED: bv8 := 0xAA
  const DISABLE_AUX: bv8 := 0xA7

  /** The hardware and the STATUS_OUTPUT_FULL mask (not defined in the repository, so arbitrary). */
  datatype System = System(device: Device, outputFull: bv8)

  // ---------------------------------------------------------------- packets

  datatype Packet = Packet(header: bv8, second: bv8, third: bv8)

  /** The framing rule: a byte may open a packet iff one of its two sign bits is set. */
  predicate Marked(b: bv8) {
    b & (0x10 | 0x20) != 0
  }

  function Dx(p: Packet): int {
    p.second as int - if p.header & 0x10 != 0 then 256 else 0
  }

  function Dy(p: Packet): int {
    p.third as int - if p.header & 0x20 != 0 then 256 else 0
  }

  datatype MouseData = MouseData(x: int, y: int, buttons: bv8, moved: bool)

  function Apply(d: MouseData, p: Packet): MouseData {
    MouseData(Wrap16(d.x + Dx(p)), Wrap16(d.y - Dy(p)), p.header & 0x07, Dx(p) != 0 || Dy(p) != 0)
  }

  // ---------------------------------------------------------------- driver state

  /** RT_MouseDriver. The last two components are instrumentation: the packets processed so far, and
      the data each callback invocation saw. */
  datatype MouseState = MouseState(
    state: DriverState, data: MouseData, sampleRate: bv8,
    packet: seq<bv8>, index: nat, complete: bool,
    hasCallback: bool, packets: seq<Packet>, notified: seq<MouseData>)
  {
    /** What holds between steps: the index is inside the buffer and no packet is left unprocessed. */
    ghost predicate Valid() {
      |packet| == PACKET_SIZE && index < PACKET_SIZE && !complete
    }
  }

  function Process(m: MouseState): MouseState
    requires |m.packet| == PACKET_SIZE
  {
    if !m.complete || m.state != Running then m
    else
      var p := Packet(m.packet[0], m.packet[1], m.packet[2]);
      var d := Apply(m.data, p);
      m.(data := d, complete := false, packets := m.packets + [p],
         notified := if m.hasCallback && d.moved then m.notified + [d] else m.notified)
  }

  /** The handler once it has read a byte. */
  function Feed(m: MouseState, b: bv8): (r: MouseState)
    requires m.Valid() && m.state == Running
    ensures r.Valid()
  {
    var m' := m.(packet := m.packet[m.index := b], index := m.index + 1);
    if m'.index == 1 && !Marked(m'.packet[0]) then m'.(index := 0)
    else if m'.index >= PACKET_SIZE then Process(m'.(complete := true, index := 0))
    else m'
  }

  // ---------------------------------------------------------------- talking to the device

  function In(sys: System, io: Bus, port: nat): (r: (Bus, bv8))
    ensures r.0.locks == io.locks
  {
    var (io', r) := Step(sys.device, io, In8(port)); (io', r.byte)
  }

  function Out(sys: System, io: Bus, port: nat, v: bv8): (r: Bus)
    ensures r.locks == io.locks
  {
    Step(sys.device, io, Out8(port, v)).0
  }

  /** The bus history after k status reads. */
  function Polled(sys: System, h: History, k: nat): (r: History)
    ensures |r| == |h| + k && h <= r
  {
    if k == 0 then h
    else var before := Polled(sys, h, k - 1); before + [InB(STATUS, sys.device.readB(before, STATUS))]
  }

  /** Status read number k (from 0) reports output-full. */
  predicate FullAt(sys: System, h: History, k: nat) {
    sys.device.readB(Polled(sys, h, k), STATUS) & sys.outputFull != 0
  }

  /** The number of the first status read that reports output-full, or limit. */
  function FirstFull(sys: System, h: History, limit: nat): (n: nat)
    ensures n <= limit && (n < limit ==> FullAt(sys, h, n))
    ensures forall j: nat :: j < n ==> !FullAt(sys, h, j)
  {
    if limit == 0 then 0
    else
      var n := FirstFull(sys, h, limit - 1);
      if n < limit - 1 || FullAt(sys, h, limit - 1) then n else limit
  }

  function PolledBus(sys: System, io: Bus, k: nat): Bus {
    if io.Open(STATUS) then io.(history := Polled(sys, io.history, k)) else io
  }

  lemma PollStep(sys: System, io: Bus, k: nat)
    requires k < TIMEOUT && (FirstFull(sys, io.history, k) == k || !io.Open(STATUS))
    ensures var (io', v) := In(sys, PolledBus(sys, io, k), STATUS);
            && io' == PolledBus(sys, io, k + 1)
            && (v & sys.outputFull != 0 ==> Poll(sys, io) == (io', true))
            && (v & sys.outputFull == 0 ==> FirstFull(sys, io.history, k + 1) == k + 1 || !io.Open(STATUS))
  {
    if io.Open(STATUS) && FullAt(sys, io.history, k) {
      assert FirstFull(sys, io.history, TIMEOUT) == k;
    }
  }

  function Poll(sys: System, io: Bus): (r: (Bus, bool))
    ensures r.0.locks == io.locks
  {
    if !io.Open(STATUS) then (io, false)
    else
      var n := FirstFull(sys, io.history, TIMEOUT);
      (io.(history := Polled(sys, io.history, if n < TIMEOUT then n + 1 else TIMEOUT)), n < TIMEOUT)
  }

  /** Wait for a byte and compare it. */
  function WaitByte(sys: System, io: Bus, expected: bv8): (r: (Bus, bool))
    ensures r.0.locks == io.locks
  {
    var (io1, ok) := Poll(sys, io);
    if !ok then (io1, false)
    else var (io2, b) := In(sys, io1, DATA); (io2, b == expected)
  }

  function InitIo(sys: System, io: Bus): (r: (Bus, bool))
    ensures r.0.locks == io.locks
  {
    var io0 := Out(sys, Out(sys, io, COMMAND, DISABLE_AUX), DATA, CMD_RESET);
    var (io1, ok1) := WaitByte(sys, io0, ACK);
    if !ok1 then (io1, false) else
    var (io2, ok2) := WaitByte(sys, io1, SELF_TEST_PASSED);
    if !ok2 then (io2, false) else
    var (io3, ok3) := WaitByte(sys, Out(sys, io2, DATA, CMD_ENABLE), ACK);
    if !ok3 then (io3, false) else
    (Out(sys, Out(sys, io3, DATA, CMD_SET_SAMPLE_RATE), DATA, 100), true)
  }

  // ---------------------------------------------------------------- steps and runs

  datatype World = World(io: Bus, mouse: MouseState) {
    ghost predicate Valid() {
      io.Valid() && mouse.Valid()
    }
  }

  /** Everything that can happen: driver calls, interrupts, and port calls made by anyone else. */
  datatype Action = Init | Enable | Disable | SetSampleRate(rate: bv8) | Interrupt | PortCall(call: Call)

  datatype Outcome = Returned(code: ErrorCode) | Handled(byte: bv8) | Ignored | Replied(reply: Reply)

  function Perform(sys: System, w: World, a: Action): (r: (World, Outcome))
    requires w.Valid()
    ensures r.0.Valid()
  {
    match a
    case Init =>
      var (io, ok) := InitIo(sys, w.io);
      if ok then (World(io, w.mouse.(state := Ready, index := 0)), Returned(Success))
      else (World(io, w.mouse), Returned(HardwareFault))
    case Enable =>
      if w.mouse.state != Ready then (w, Returned(InvalidParameter)) else
      var (io, ok) := WaitByte(sys, Out(sys, w.io, DATA, CMD_ENABLE), ACK);
      if ok then (World(io, w.mouse.(state := Running)), Returned(Success))
      else (World(io, w.mouse), Returned(HardwareFault))
    case Disable =>
      if w.mouse.state != Running then (w, Returned(InvalidParameter)) else
      var (io, ok) := WaitByte(sys, Out(sys, w.io, DATA, CMD_DISABLE), ACK);
      if ok then (World(io, w.mouse.(state := Ready)), Returned(Success))
      else (World(io, w.mouse), Returned(HardwareFault))
    case SetSampleRate(rate) =>
      if w.mouse.state != Ready then (w, Returned(InvalidParameter)) else
      var (io, ok) := WaitByte(sys, Out(sys, Out(sys, w.io, DATA, CMD_SET_SAMPLE_RATE), DATA, rate), ACK);
      if ok then (World(io, w.mouse.(sampleRate := rate)), Returned(Success))
      else (World(io, w.mouse), Returned(HardwareFault))
    case Interrupt =>
      if w.mouse.state != Running then (w, Ignored) else
      var (io, b) := In(sys, w.io, DATA);
      (World(io, Feed(w.mouse, b)), Handled(b))
    case PortCall(call) =>
      var (io, reply) := Step(sys.device, w.io, call);
      (World(io, w.mouse), Replied(reply))
  }

  /** What a step does to the driver: a handled interrupt feeds one byte, a successful Init drops the pending bytes,
      and otherwise only the lifecycle state and the sample rate can change. */
  lemma StepEffect(sys: System, w: World, a: Action)
    requires w.Valid()
    ensures var (w', outcome) := Perform(sys, w, a);
            if outcome.Handled? then
              a.Interrupt? && w.mouse.state == Running && w'.mouse == Feed(w.mouse, outcome.byte)
            else
              w'.mouse == w.mouse.(state := w'.mouse.state, sampleRate := w'.mouse.sampleRate,
                                   index := if a.Init? && outcome == Returned(Success) then 0 else w.mouse.index)
  {
  }

  /** The world after a run. */
  function After(sys: System, w: World, run: seq<Action>): (r: World)
    requires w.Valid()
    ensures r.Valid()
  {
    if run == [] then w
    else Perform(sys, After(sys, w, run[..|run| - 1]), run[|run| - 1]).0
  }

  /** The outcome of the last action of a run. */
  function LastOutcome(sys: System, w: World, run: seq<Action>): Outcome
    requires w.Valid() && run != []
  {
    Perform(sys, After(sys, w, run[..|run| - 1]), run[|run| - 1]).1
  }

  // ---------------------------------------------------------------- the driver

  class MouseDriver {
    const outputFull: bv8
    var state: DriverState
    var data: MouseData
    var sampleRate: bv8
    const packet: array<bv8>
    var packetIndex: nat
    var packetComplete: bool
    var hasCallback: bool
    ghost var packets: seq<Packet>
    ghost var notified: seq<MouseData>

    ghost predicate Valid()
      reads this, packet
    {
      View().Valid()
    }

    ghost function View(): MouseState
      reads this, packet
    {
      MouseState(state, data, sampleRate, packet[..], packetIndex, packetComplete, hasCallback, packets, notified)
    }

    ghost function WorldOn(io: Ports): World
      reads this, packet, io, io.portLocks
    {
      World(io.View(), View())
    }

    ghost function SystemOn(io: Ports): System {
      System(io.device, outputFull)
    }

    constructor (outputFull: bv8, hasCallback: bool)
      ensures Valid() && fresh(packet) && this.outputFull == outputFull
      ensures View() == MouseState(Uninitialized, MouseData(0, 0, 0, false), 0, [0, 0, 0], 0, false, hasCallback, [], [])
    {
      this.outputFull := outputFull;
      this.hasCallback := hasCallback;
      state, sampleRate, packetIndex, packetComplete := Uninitialized, 0, 0, false;
      data := MouseData(0, 0, 0, false);
      packet := new bv8[PACKET_SIZE](_ => 0);
      packets, notified := [], [];
      new;
      assert packet[..] == [0, 0, 0];
    }

    /** Poll the status port at most TIMEOUT times. */
    method WaitOutput(io: Ports) returns (ok: bool)
      requires io.Valid()
      modifies io`history
      ensures io.Valid() && (io.View(), ok) == Poll(SystemOn(io), old(io.View()))
    {
      ghost var sys, bus, polls: nat := SystemOn(io), io.View(), 0;
      var timeout := TIMEOUT;
      while timeout > 0
        invariant 0 <= timeout && polls + timeout == TIMEOUT
        invariant io.View() == PolledBus(sys, bus, polls)
        invariant FirstFull(sys, bus.history, polls) == polls || !bus.Open(STATUS)
      {
        timeout := timeout - 1;
        PollStep(sys, bus, polls);
        var status := io.ReadB(STATUS);
        if status & outputFull != 0 {
          return true;
        }
        polls := polls + 1;
      }
      return false;
    }

    method WaitAck(io: Ports) returns (ok: bool)
      requires io.Valid()
      modifies io`history
      ensures io.Valid() && (io.View(), ok) == WaitByte(SystemOn(io), old(io.View()), ACK)
    {
      ok := WaitOutput(io);
      if !ok {
        return false;
      }
      var response := io.ReadB(DATA);
      return response == 0xFA;
    }

    method Init(io: Ports) returns (r: ErrorCode)
      requires Valid() && io.Valid()
      modifies this, io`history
      ensures Valid() && io.Valid()
      ensures (WorldOn(io), Returned(r)) == Perform(SystemOn(io), old(WorldOn(io)), Action.Init)
    {
      io.WriteB(COMMAND, 0xA7);
      io.WriteB(DATA, CMD_RESET);
      var acked := WaitAck(io);
      if !acked {
        return HardwareFault;
      }
      var answered := WaitOutput(io);
      if !answered {
        return HardwareFault;
      }
      var selfTest := io.ReadB(DATA);
      if selfTest != 0xAA {
        return HardwareFault;
      }
      io.WriteB(DATA, CMD_ENABLE);
      acked := WaitAck(io);
      if !acked {
        return HardwareFault;
      }
      io.WriteB(DATA, CMD_SET_SAMPLE_RATE);
      io.WriteB(DATA, 100);
      packetIndex := 0;
      state := Ready;
      return Success;
    }

    method Enable(io: Ports) returns (r: ErrorCode)
      requires Valid() && io.Valid()
      modifies this, io`history
      ensures Valid() && io.Valid()
      ensures (WorldOn(io), Returned(r)) == Perform(SystemOn(io), old(WorldOn(io)), Action.Enable)
    {
      if state != Ready {
        return InvalidParameter;
      }
      io.WriteB(DATA, CMD_ENABLE);
      var acked := WaitAck(io);
      if !acked {
        return HardwareFault;
      }
      state := Running;
      return Success;
    }

    method Disable(io: Ports) returns (r: ErrorCode)
      requires Valid() && io.Valid()
      modifies this, io`history
      ensures Valid() && io.Valid()
      ensures (WorldOn(io), Returned(r)) == Perform(SystemOn(io), old(WorldOn(io)), Action.Disable)
    {
      if state != Running {
        return InvalidParameter;
      }
      io.WriteB(DATA, CMD_DISABLE);
      var acked := WaitAck(io);
      if !acked {
        return HardwareFault;
      }
      state := Ready;
      return Success;
    }

    method SetSampleRate(io: Ports, rate: bv8) returns (r: ErrorCode)
      requires Valid() && io.Valid()
      modifies this, io`history
      ensures Valid() && io.Valid()
      ensures (WorldOn(io), Returned(r)) == Perform(SystemOn(io), old(WorldOn(io)), Action.SetSampleRate(rate))
    {
      if state != Ready {
        return InvalidParameter;
      }
      io.WriteB(DATA, CMD_SET_SAMPLE_RATE);
      io.WriteB(DATA, rate);
      var acked := WaitAck(io);
      if !acked {
        return HardwareFault;
      }
      sampleRate := rate;
      return Success;
    }

    method InterruptHandler(io: Ports)
      requires Valid() && io.Valid()
      modifies this, packet, io`history
      ensures Valid() && io.Valid()
      ensures WorldOn(io) == Perform(SystemOn(io), old(WorldOn(io)), Interrupt).0
    {
      if state != Running {
        return;
      }
      var b := io.ReadB(DATA);
      Receive(b);
    }

    /** The rest of the handler: buffer the byte, drop it if it cannot open a packet, process a full buffer. */
    method Receive(b: bv8)
      requires Valid() && state == Running
      modifies this, packet
      ensures View() == Feed(old(View()), b)
    {
      packet[packetIndex] := b;
      packetIndex := packetIndex + 1;
      if packetIndex == 1 {
        if packet[0] & (0x10 | 0x20) == 0 {
          packetIndex := 0;
          return;
        }
      }
      if packetIndex >= PACKET_SIZE {
        packetComplete := true;
        packetIndex := 0;
        ProcessPacket();
      }
    }

    method ProcessPacket()
      requires packet.Length == PACKET_SIZE
      modifies this
      ensures View() == Process(old(View()))
    {
      if !packetComplete || state != Running {
        return;
      }
      var next := Decode();
      packets := packets + [Packet(packet[0], packet[1], packet[2])];
      data := next;
      if hasCallback && next.moved {
        notified := notified + [next];
      }
      packetComplete := false;
    }

    /** The new data: two 9-bit displacements, the buttons, and the position with y inverted. */
    method Decode() returns (next: MouseData)
      requires packet.Length == PACKET_SIZE
      ensures next == Apply(data, Packet(packet[0], packet[1], packet[2]))
    {
      var flags := packet[0];
      var x := packet[1] as int;
      if flags & 0x10 != 0 {
        x := x - 256;
      }
      var y := packet[2] as int;
      if flags & 0x20 != 0 {
        y := y - 256;
      }
      next := MouseData(Wrap16(data.x + x), Wrap16(data.y - y), flags & 0x07, x != 0 || y != 0);
    }
  }
}
