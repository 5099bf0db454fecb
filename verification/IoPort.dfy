/** Port input and output behind per-port locks (src/drivers/common/io_port.c). */
module IoPort {
  import opened RtTypes

  const MAX_IO_PORTS: nat := 1024

  /** One bus cycle that reached the hardware. */
  datatype Transaction =
    | InB(port: nat, gotB: bv8)  | OutB(port: nat, putB: bv8)
    | InW(port: nat, gotW: bv16) | OutW(port: nat, putW: bv16)
    | InL(port: nat, gotL: bv32) | OutL(port: nat, putL: bv32)

  type History = seq<Transaction>

  /** The hardware: what a read returns is any function of everything that happened on the bus before it. */
  datatype Device = Device(
    readB: (History, nat) -> bv8,
    readW: (History, nat) -> bv16,
    readL: (History, nat) -> bv32)

  datatype Bus = Bus(locks: seq<bool>, history: History) {
    ghost predicate Valid() {
      |locks| == MAX_IO_PORTS
    }

    /** The gate of every read and write: the port number is valid and its lock is free. */
    predicate Open(port: nat) {
      port < |locks| && !locks[port]
    }

    function Log(t: Transaction): Bus {
      if Open(t.port) then this.(history := history + [t]) else this
    }
  }

  datatype Call =
    | Lock(port: nat) | Unlock(port: nat)
    | In8(port: nat) | In16(port: nat) | In32(port: nat)
    | Out8(port: nat, value8: bv8) | Out16(port: nat, value16: bv16) | Out32(port: nat, value32: bv32)
  {
    predicate IsLocking() {
      Lock? || Unlock?
    }
  }

  datatype Reply = Code(code: ErrorCode) | GotB(byte: bv8) | GotW(word: bv16) | GotL(long: bv32) | Done

  /** The meaning of one call. */
  function Step(dev: Device, bus: Bus, call: Call): (Bus, Reply) {
    match call
    case Lock(p) =>
      if p >= |bus.locks| then (bus, Code(InvalidPort))
      else if bus.locks[p] then (bus, Code(PortLocked))
      else (bus.(locks := bus.locks[p := true]), Code(Success))
    case Unlock(p) =>
      if p >= |bus.locks| then (bus, Code(InvalidPort))
      else (bus.(locks := bus.locks[p := false]), Code(Success))
    case In8(p) => var v := if bus.Open(p) then dev.readB(bus.history, p) else 0; (bus.Log(InB(p, v)), GotB(v))
    case In16(p) => var v := if bus.Open(p) then dev.readW(bus.history, p) else 0; (bus.Log(InW(p, v)), GotW(v))
    case In32(p) => var v := if bus.Open(p) then dev.readL(bus.history, p) else 0; (bus.Log(InL(p, v)), GotL(v))
    case Out8(p, v) => (bus.Log(OutB(p, v)), Done)
    case Out16(p, v) => (bus.Log(OutW(p, v)), Done)
    case Out32(p, v) => (bus.Log(OutL(p, v)), Done)
  }

  /** The driver state of io_port.c over a device; each method is one step. */
  class Ports {
    const device: Device
    const portLocks: array<bool>
    var history: History

    ghost predicate Valid()
      reads this, portLocks
    {
      View().Valid()
    }

    ghost function View(): Bus
      reads this, portLocks
    {
      Bus(portLocks[..], history)
    }

    constructor (device: Device)
      ensures Valid() && fresh(portLocks) && this.device == device
      ensures history == [] && forall p :: 0 <= p < MAX_IO_PORTS ==> View().Open(p)
    {
      this.device := device;
      portLocks := new bool[MAX_IO_PORTS](_ => false);
      history := [];
    }

    predicate IsValidPort(port: nat) {
      port < MAX_IO_PORTS
    }

    predicate IsPortLocked(port: nat)
      requires Valid()
      reads this, portLocks
      ensures IsPortLocked(port) <==> !View().Open(port)
    {
      if !IsValidPort(port) then true else portLocks[port]
    }

    method LockPort(port: nat) returns (r: ErrorCode)
      requires Valid()
      modifies portLocks
      ensures Valid() && (View(), Code(r)) == Step(device, old(View()), Lock(port))
    {
      if !IsValidPort(port) {
        return InvalidPort;
      }
      if portLocks[port] {
        return PortLocked;
      }
      portLocks[port] := true;
      return Success;
    }

    method UnlockPort(port: nat) returns (r: ErrorCode)
      requires Valid()
      modifies portLocks
      ensures Valid() && (View(), Code(r)) == Step(device, old(View()), Unlock(port))
    {
      if !IsValidPort(port) {
        return InvalidPort;
      }
      portLocks[port] := false;
      return Success;
    }

    method ReadB(port: nat) returns (v: bv8)
      requires Valid()
      modifies this`history
      ensures Valid() && (View(), GotB(v)) == Step(device, old(View()), In8(port))
    {
      if !IsValidPort(port) || IsPortLocked(port) {
        return 0;
      }
      v := device.readB(history, port);
      history := history + [InB(port, v)];
    }

    method WriteB(port: nat, v: bv8)
      requires Valid()
      modifies this`history
      ensures Valid() && View() == Step(device, old(View()), Out8(port, v)).0
    {
      if !IsValidPort(port) || IsPortLocked(port) {
        return;
      }
      history := history + [OutB(port, v)];
    }

    method ReadW(port: nat) returns (v: bv16)
      requires Valid()
      modifies this`history
      ensures Valid() && (View(), GotW(v)) == Step(device, old(View()), In16(port))
    {
      if !IsValidPort(port) || IsPortLocked(port) {
        return 0;
      }
      v := device.readW(history, port);
      history := history + [InW(port, v)];
    }

    method WriteW(port: nat, v: bv16)
      requires Valid()
      modifies this`history
      ensures Valid() && View() == Step(device, old(View()), Out16(port, v)).0
    {
      if !IsValidPort(port) || IsPortLocked(port) {
        return;
      }
      history := history + [OutW(port, v)];
    }

    method ReadL(port: nat) returns (v: bv32)
      requires Valid()
      modifies this`history
      ensures Valid() && (View(), GotL(v)) == Step(device, old(View()), In32(port))
    {
      if !IsValidPort(port) || IsPortLocked(port) {
        return 0;
      }
      v := device.readL(history, port);
      history := history + [InL(port, v)];
    }

    method WriteL(port: nat, v: bv32)
      requires Valid()
      modifies this`history
      ensures Valid() && View() == Step(device, old(View()), Out32(port, v)).0
    {
      if !IsValidPort(port) || IsPortLocked(port) {
        return;
      }
      history := history + [OutL(port, v)];
    }
  }

  // ---------------------------------------------------------------- whole runs

  /** The bus after a run of calls. */
  function Run(dev: Device, bus: Bus, calls: seq<Call>): (r: Bus)
    ensures |r.locks| == |bus.locks|
  {
    if calls == [] then bus
    else Step(dev, Run(dev, bus, calls[..|calls| - 1]), calls[|calls| - 1]).0
  }

  /** What call number i answers in a run. */
  function ReplyAt(dev: Device, bus: Bus, calls: seq<Call>, i: nat): Reply
    requires i < |calls|
  {
    Step(dev, Run(dev, bus, calls[..i]), calls[i]).1
  }

  /** What call number i adds to the bus history. */
  function AddedAt(dev: Device, bus: Bus, calls: seq<Call>, i: nat): History
    requires i < |calls|
  {
    var before := Run(dev, bus, calls[..i]).history;
    var after := Run(dev, bus, calls[..i + 1]).history;
    if before <= after then after[|before|..] else []
  }

  /** Port p is held: it was locked at some call (or at the start) and never unlocked since. */
  ghost predicate Held(initially: bool, calls: seq<Call>, p: nat) {
    || (initially && Unlock(p) !in calls)
    || (exists i :: 0 <= i < |calls| && calls[i] == Lock(p) && Unlock(p) !in calls[i + 1..])
  }

  lemma HeldSnoc(initially: bool, calls: seq<Call>, p: nat)
    requires calls != []
    ensures var last := calls[|calls| - 1];
            Held(initially, calls, p) <==> last == Lock(p) || (last != Unlock(p) && Held(initially, calls[..|calls| - 1], p))
  {
    var n := |calls| - 1;
    var front, last := calls[..n], calls[n];
    assert calls == front + [last];
    if Held(initially, front, p) && last != Unlock(p) {
      if !(initially && Unlock(p) !in front) {
        var i :| 0 <= i < |front| && front[i] == Lock(p) && Unlock(p) !in front[i + 1..];
        assert calls[i + 1..] == front[i + 1..] + [last];
        assert calls[i] == Lock(p) && Unlock(p) !in calls[i + 1..];
      }
    }
    if Held(initially, calls, p) && last != Lock(p) {
      if !(initially && Unlock(p) !in calls) {
        var i :| 0 <= i < |calls| && calls[i] == Lock(p) && Unlock(p) !in calls[i + 1..];
        assert calls[i + 1..] == front[i + 1..] + [last];
        assert front[i] == Lock(p) && Unlock(p) !in front[i + 1..];
        assert last in calls[i + 1..];
      }
    }
    if last == Lock(p) {
      assert calls[n] == Lock(p) && calls[n + 1..] == [];
    }
  }

  /** The lock bit at the end of any run is exactly "held", whatever else the run did. */
  lemma {:induction false} LockBitIsHeld(dev: Device, bus: Bus, calls: seq<Call>, p: nat)
    requires p < |bus.locks|
    ensures Run(dev, bus, calls).locks[p] <==> Held(bus.locks[p], calls, p)
  {
    if calls != [] {
      LockBitIsHeld(dev, bus, calls[..|calls| - 1], p);
      HeldSnoc(bus.locks[p], calls, p);
    }
  }

  /** The bus cycle of a read or write with the given reply. */
  function Cycle(call: Call, reply: Reply): Transaction {
    match (call, reply)
    case (In8(p), GotB(v)) => InB(p, v)
    case (In16(p), GotW(v)) => InW(p, v)
    case (In32(p), GotL(v)) => InL(p, v)
    case (Out8(p, v), _) => OutB(p, v)
    case (Out16(p, v), _) => OutW(p, v)
    case (Out32(p, v), _) => OutL(p, v)
    case (_, _) => OutB(call.port, 0)
  }

  /** What a read or write answers without touching the hardware. */
  function Blank(call: Call): Reply {
    match call
    case In8(_) => GotB(0)
    case In16(_) => GotW(0)
    case In32(_) => GotL(0)
    case _ => Done
  }

  /** Access is exclusive: in any run a call reaches the hardware iff it reads or writes an existing port that is
      not held at that moment, and then it is one bus cycle naming that port; otherwise a read gives 0; a lock is granted
      iff not held. */
  lemma AccessExactlyWhenFree(dev: Device, bus: Bus, calls: seq<Call>, i: nat)
    requires bus.Valid() && i < |calls|
    ensures var p := calls[i].port;
            var free := p < 1024 && !Held(bus.locks[p], calls[..i], p);
            var added := AddedAt(dev, bus, calls, i);
            && Run(dev, bus, calls[..i + 1]).history == Run(dev, bus, calls[..i]).history + added
            && |added| <= 1
            && (added != [] <==> !calls[i].IsLocking() && free)
            && (forall t :: t in added ==> t.port == p && t == Cycle(calls[i], ReplyAt(dev, bus, calls, i)))
            && (added == [] && !calls[i].IsLocking() ==> ReplyAt(dev, bus, calls, i) == Blank(calls[i]))
            && (calls[i] == Lock(p) ==> (ReplyAt(dev, bus, calls, i) == Code(Success) <==> free))
  {
    assert calls[..i + 1][..i] == calls[..i];
    var p := calls[i].port;
    if p < 1024 {
      LockBitIsHeld(dev, bus, calls[..i], p);
    }
  }

  /** What a read returns is what the device answers after everything that reached it before, all bits of it; nothing is
      asked, and 0 returned, when the port is held or does not exist. */
  lemma ReadsAreTheDevice(dev: Device, bus: Bus, calls: seq<Call>, i: nat)
    requires bus.Valid() && i < |calls|
    ensures var p, h, reply := calls[i].port, Run(dev, bus, calls[..i]).history, ReplyAt(dev, bus, calls, i);
            var free := p < 1024 && !Held(bus.locks[p], calls[..i], p);
            && (calls[i].In8? ==> reply == GotB(if free then dev.readB(h, p) else 0))
            && (calls[i].In16? ==> reply == GotW(if free then dev.readW(h, p) else 0))
            && (calls[i].In32? ==> reply == GotL(if free then dev.readL(h, p) else 0))
  {
    var p := calls[i].port;
    if p < 1024 {
      LockBitIsHeld(dev, bus, calls[..i], p);
    }
  }

  /** What lock and unlock calls answer, in any run: an unlock succeeds on every existing port, held or not. */
  lemma LockingReplies(dev: Device, bus: Bus, calls: seq<Call>, i: nat)
    requires bus.Valid() && i < |calls|
    ensures var p, reply := calls[i].port, ReplyAt(dev, bus, calls, i);
            && (calls[i].Unlock? ==> reply == Code(if p < 1024 then Success else InvalidPort))
            && (calls[i].Lock? ==> reply == Code(if p >= 1024 then InvalidPort
                                                 else if Held(bus.locks[p], calls[..i], p) then PortLocked else Success))
  {
    var p := calls[i].port;
    if p < 1024 {
      LockBitIsHeld(dev, bus, calls[..i], p);
    }
  }

  /** Mutual exclusion over any run: after a granted Lock(p) and before the next Unlock(p), nothing reaches
      port p and no other Lock(p) is granted. */
  lemma NothingPassesALock(dev: Device, bus: Bus, calls: seq<Call>, i: nat, j: nat, p: nat)
    requires bus.Valid() && i < j < |calls|
    requires calls[i] == Lock(p) && ReplyAt(dev, bus, calls, i) == Code(Success)
    requires Unlock(p) !in calls[i + 1..j]
    ensures forall t :: t in AddedAt(dev, bus, calls, j) ==> t.port != p
    ensures calls[j] == Lock(p) ==> ReplyAt(dev, bus, calls, j) == Code(PortLocked)
  {
    AccessExactlyWhenFree(dev, bus, calls, j);
    var before := calls[..j];
    assert before[i] == Lock(p) && before[i + 1..] == calls[i + 1..j];
    assert Held(bus.locks[p], before, p);
    LockBitIsHeld(dev, bus, before, p);
  }

  /** The lock and unlock calls on one port. */
  function LockCalls(calls: seq<Call>, p: nat): seq<Call> {
    if calls == [] then []
    else
      var last := calls[|calls| - 1];
      LockCalls(calls[..|calls| - 1], p) + if last.IsLocking() && last.port == p then [last] else []
  }

  /** Replacing a run by its lock and unlock calls on p, on any other device and bus that agree on p's lock,
      leaves p's lock as it was: nothing else in the system influences it. */
  lemma {:induction false} LockDependsOnItsCallsOnly(dev: Device, bus: Bus, dev': Device, bus': Bus, calls: seq<Call>, p: nat)
    requires p < |bus.locks| == |bus'.locks| && bus.locks[p] == bus'.locks[p]
    ensures Run(dev, bus, calls).locks[p] == Run(dev', bus', LockCalls(calls, p)).locks[p]
  {
    if calls != [] {
      var front, last := calls[..|calls| - 1], calls[|calls| - 1];
      LockDependsOnItsCallsOnly(dev, bus, dev', bus', front, p);
      var before, sub := Run(dev, bus, front), Run(dev', bus', LockCalls(front, p));
      if last.IsLocking() && last.port == p {
        var lc := LockCalls(calls, p);
        assert lc[..|lc| - 1] == LockCalls(front, p);
        assert Run(dev', bus', lc) == Step(dev', sub, last).0;
      } else {
        assert LockCalls(calls, p) == LockCalls(front, p);
        assert Step(dev, before, last).0.locks[p] == before.locks[p];
      }
    }
  }

  /** So does every reply to a lock or unlock call on p. */
  lemma LockRepliesDependOnItsCallsOnly(dev: Device, bus: Bus, dev': Device, bus': Bus, calls: seq<Call>, i: nat)
    requires bus.Valid() && bus'.Valid() && i < |calls| && calls[i].IsLocking()
    requires var p := calls[i].port; p < 1024 ==> bus.locks[p] == bus'.locks[p]
    ensures var sub := LockCalls(calls[..i + 1], calls[i].port);
            sub != [] && ReplyAt(dev, bus, calls, i) == ReplyAt(dev', bus', sub, |sub| - 1)
  {
    var p := calls[i].port;
    var sub := LockCalls(calls[..i + 1], p);
    assert calls[..i + 1][..i] == calls[..i];
    assert sub[..|sub| - 1] == LockCalls(calls[..i], p);
    if p < 1024 {
      LockDependsOnItsCallsOnly(dev, bus, dev', bus', calls[..i], p);
    }
  }
}
