/** The initialisation handshake: exactly which port conversations make Mouse_Init succeed
    (src/drivers/mouse/mouse_driver.c:43-108). */
module MouseHandshake {
  import opened RtTypes
  import opened IoPort
  import opened Mouse

  /** Up to 100000 status reads, the last one (and no other) reporting output-full, then a data read of v. */
  ghost predicate IsExchange(sys: System, t: History, v: bv8) {
    var n := |t| - 1;
    && 1 <= n <= 100000
    && t[n] == InB(0x60, v)
    && forall i :: 0 <= i < n ==>
         t[i].InB? && t[i].port == 0x64 && (t[i].gotB & sys.outputFull != 0 <==> i == n - 1)
  }

  /** The conversation Mouse_Init holds: disable the port, reset, two answers, enable, one answer, sample rate. */
  function Handshake(t1: History, t2: History, t3: History): History {
    [OutB(0x64, 0xA7), OutB(0x60, 0xFF)] + t1 + t2 + [OutB(0x60, 0xF4)] + t3 + [OutB(0x60, 0xF3), OutB(0x60, 100)]
  }

  /** The device gives, after history h, the very answers that t records. */
  ghost predicate Agrees(dev: Device, h: History, t: History) {
    forall i :: 0 <= i < |t| && t[i].InB? ==> t[i].gotB == dev.readB(h + t[..i], t[i].port)
  }

  lemma AgreesConcat(dev: Device, h: History, s: History, t: History)
    ensures Agrees(dev, h, s + t) <==> Agrees(dev, h, s) && Agrees(dev, h + s, t)
  {
    var st := s + t;
    forall i | 0 <= i < |s| ensures st[i] == s[i] && st[..i] == s[..i] {
    }
    forall i | 0 <= i < |t| ensures st[|s| + i] == t[i] && h + st[..|s| + i] == (h + s) + t[..i] {
    }
    if Agrees(dev, h, st) {
      forall i | 0 <= i < |t| && t[i].InB? ensures t[i].gotB == dev.readB((h + s) + t[..i], t[i].port) {
        assert st[|s| + i] == t[i];
      }
    }
    if Agrees(dev, h, s) && Agrees(dev, h + s, t) {
      forall i | 0 <= i < |st| && st[i].InB? ensures st[i].gotB == dev.readB(h + st[..i], st[i].port) {
        if i >= |s| {
          assert st[|s| + (i - |s|)] == t[i - |s|];
        }
      }
    }
  }

  // ---------------------------------------------------------------- one exchange

  lemma {:induction false} StatusReadsArePolls(sys: System, h: History, t: History, k: nat)
    requires k <= |t| && Agrees(sys.device, h, t)
    requires forall i :: 0 <= i < k ==> t[i].InB? && t[i].port == STATUS
    ensures Polled(sys, h, k) == h + t[..k]
  {
    if k > 0 {
      StatusReadsArePolls(sys, h, t, k - 1);
      assert t[..k] == t[..k - 1] + [t[k - 1]];
      assert t[k - 1] == InB(STATUS, sys.device.readB(h + t[..k - 1], STATUS));
    } else {
      assert h + t[..0] == h;
    }
  }

  /** If the device can hold the exchange, the driver holds it. */
  lemma ExchangeHappens(sys: System, io: Bus, t: History, v: bv8)
    requires io.Open(0x64) && io.Open(0x60)
    requires IsExchange(sys, t, v) && Agrees(sys.device, io.history, t)
    ensures WaitByte(sys, io, v) == (io.(history := io.history + t), true)
  {
    var h, n := io.history, |t| - 1;
    forall k: nat | k < n ensures FullAt(sys, h, k) <==> k == n - 1 {
      StatusReadsArePolls(sys, h, t, k);
      assert t[k].gotB == sys.device.readB(h + t[..k], STATUS);
    }
    var first := FirstFull(sys, h, TIMEOUT);
    assert FullAt(sys, h, n - 1) && (first < TIMEOUT ==> FullAt(sys, h, first));
    assert first == n - 1;
    StatusReadsArePolls(sys, h, t, n);
    assert t == t[..n] + [t[n]];
    assert (h + t[..n]) + [t[n]] == h + t;
  }

  /** What a wait adds to the bus: status reads, then possibly one data read. */
  ghost predicate IsWait(t: History) {
    && 1 <= |t| <= 100000 + 1
    && (forall i :: 0 <= i < |t| - 1 ==> t[i].InB? && t[i].port == 0x64)
    && t[|t| - 1].InB? && t[|t| - 1].port == 0x60
  }

  lemma {:induction false} PolledReads(sys: System, h: History, k: nat)
    ensures var p := Polled(sys, h, k)[|h|..];
            && Polled(sys, h, k) == h + p && Agrees(sys.device, h, p)
            && forall i :: 0 <= i < k ==> p[i] == InB(STATUS, sys.device.readB(Polled(sys, h, i), STATUS))
  {
    if k > 0 {
      PolledReads(sys, h, k - 1);
      var before := Polled(sys, h, k - 1);
      var p, q := Polled(sys, h, k)[|h|..], before[|h|..];
      assert p == q + [InB(STATUS, sys.device.readB(before, STATUS))];
      AgreesConcat(sys.device, h, q, [InB(STATUS, sys.device.readB(before, STATUS))]);
      assert ([InB(STATUS, sys.device.readB(before, STATUS))])[..0] == [];
      assert (h + q) + [] == before;
    }
  }

  /** Every wait stays on the bus pattern, and succeeds only by an exchange the device agrees to. */
  lemma WaitIsExchange(sys: System, io: Bus, v: bv8) returns (t: History, rest: History)
    requires io.Open(0x64) && io.Open(0x60)
    ensures var (io', ok) := WaitByte(sys, io, v);
            && io'.history == io.history + t
            && IsWait(t + rest)
            && (ok ==> rest == [] && IsExchange(sys, t, v) && Agrees(sys.device, io.history, t))
  {
    var h := io.history;
    var n := FirstFull(sys, h, TIMEOUT);
    if n == TIMEOUT {
      PolledReads(sys, h, TIMEOUT);
      t, rest := Polled(sys, h, TIMEOUT)[|h|..], [InB(DATA, 0)];
    } else {
      t := PolledExchange(sys, h, n);
      rest := [];
      assert t + rest == t;
    }
  }

  /** A poll that ends at its first full status, and the data read after it. */
  lemma PolledExchange(sys: System, h: History, n: nat) returns (t: History)
    requires n < TIMEOUT && FirstFull(sys, h, TIMEOUT) == n
    ensures var p := Polled(sys, h, n + 1);
            var b := sys.device.readB(p, DATA);
            h + t == p + [InB(DATA, b)] && IsWait(t) && IsExchange(sys, t, b) && Agrees(sys.device, h, t)
  {
    PolledReads(sys, h, n + 1);
    var p := Polled(sys, h, n + 1)[|h|..];
    var read := [InB(DATA, sys.device.readB(h + p, DATA))];
    t := p + read;
    assert h + t == (h + p) + read;
    AgreesConcat(sys.device, h, p, read);
    assert read[..0] == [] && (h + p) + [] == h + p;
    assert forall i: nat :: i < n + 1 ==> (t[i].gotB & sys.outputFull != 0 <==> FullAt(sys, h, i));
  }

  // ---------------------------------------------------------------- the whole handshake

  ghost predicate AreExchanges(sys: System, t1: History, t2: History, t3: History) {
    IsExchange(sys, t1, 0xFA) && IsExchange(sys, t2, 0xAA) && IsExchange(sys, t3, 0xFA)
  }

  /** The device can hold the handshake after history h. */
  ghost predicate CanHandshake(sys: System, h: History) {
    exists t1, t2, t3 :: AreExchanges(sys, t1, t2, t3) && Agrees(sys.device, h, Handshake(t1, t2, t3))
  }

  lemma SilentAgrees(dev: Device, h: History, t: History)
    requires forall i :: 0 <= i < |t| ==> !t[i].InB?
    ensures Agrees(dev, h, t)
  {
  }

  /** Agreeing to the handshake is agreeing to each exchange in its place. */
  lemma HandshakeParts(dev: Device, h: History, t1: History, t2: History, t3: History)
    ensures var h1 := h + [OutB(COMMAND, 0xA7), OutB(DATA, 0xFF)];
            var h2 := h1 + t1;
            var h3 := h2 + t2 + [OutB(DATA, 0xF4)];
            && (Agrees(dev, h, Handshake(t1, t2, t3)) <==> Agrees(dev, h1, t1) && Agrees(dev, h2, t2) && Agrees(dev, h3, t3))
            && h + Handshake(t1, t2, t3) == h3 + t3 + [OutB(DATA, 0xF3), OutB(DATA, 100)]
  {
    var o1, o2, o3 := [OutB(COMMAND, 0xA7), OutB(DATA, 0xFF)], [OutB(DATA, 0xF4)], [OutB(DATA, 0xF3), OutB(DATA, 100)];
    var s2 := o1 + t1;
    var s3 := s2 + t2;
    var s4 := s3 + o2;
    var s5 := s4 + t3;
    assert Handshake(t1, t2, t3) == s5 + o3;
    AgreesConcat(dev, h, o1, t1);
    AgreesConcat(dev, h, s2, t2);
    AgreesConcat(dev, h, s3, o2);
    AgreesConcat(dev, h, s4, t3);
    AgreesConcat(dev, h, s5, o3);
    SilentAgrees(dev, h, o1);
    SilentAgrees(dev, h + s3, o2);
    SilentAgrees(dev, h + s5, o3);
    assert h + s2 == h + o1 + t1;
    assert h + s4 == h + o1 + t1 + t2 + o2;
    assert h + (s5 + o3) == h + o1 + t1 + t2 + o2 + t3 + o3;
  }

  lemma HandshakeHappens(sys: System, io: Bus, t1: History, t2: History, t3: History)
    requires io.Open(0x64) && io.Open(0x60)
    requires AreExchanges(sys, t1, t2, t3) && Agrees(sys.device, io.history, Handshake(t1, t2, t3))
    ensures InitIo(sys, io) == (io.(history := io.history + Handshake(t1, t2, t3)), true)
  {
    HandshakeParts(sys.device, io.history, t1, t2, t3);
    var io0 := Reset(sys, io);
    ExchangeHappens(sys, io0, t1, ACK);
    var io1 := io0.(history := io0.history + t1);
    ExchangeHappens(sys, io1, t2, SELF_TEST_PASSED);
    var io2 := Out(sys, io1.(history := io1.history + t2), DATA, CMD_ENABLE);
    ExchangeHappens(sys, io2, t3, ACK);
    SampleRateSent(sys, io2.(history := io2.history + t3));
  }

  /** The first two writes, and the last two. */
  function Reset(sys: System, io: Bus): (r: Bus)
    ensures io.Open(STATUS) && io.Open(DATA) ==> r == io.(history := io.history + [OutB(COMMAND, 0xA7), OutB(DATA, 0xFF)])
  {
    assert io.history + [OutB(COMMAND, 0xA7)] + [OutB(DATA, 0xFF)] == io.history + [OutB(COMMAND, 0xA7), OutB(DATA, 0xFF)];
    Out(sys, Out(sys, io, COMMAND, DISABLE_AUX), DATA, CMD_RESET)
  }

  lemma SampleRateSent(sys: System, io: Bus)
    requires io.Open(STATUS) && io.Open(DATA)
    ensures Out(sys, Out(sys, io, DATA, CMD_SET_SAMPLE_RATE), DATA, 100) ==
            io.(history := io.history + [OutB(DATA, 0xF3), OutB(DATA, 100)])
  {
    assert io.history + [OutB(DATA, 0xF3)] + [OutB(DATA, 100)] == io.history + [OutB(DATA, 0xF3), OutB(DATA, 100)];
  }

  /** What Init adds to the bus is a beginning of one fixed script. */
  ghost predicate OnScript(t: History) {
    exists t1, t2, t3 :: IsWait(t1) && IsWait(t2) && IsWait(t3) && t <= Handshake(t1, t2, t3)
  }

  const ANY_WAIT: History := [InB(DATA, 0)]

  lemma InitStaysOnScript(sys: System, io: Bus)
    requires io.Open(STATUS) && io.Open(DATA)
    ensures var (io', ok) := InitIo(sys, io);
            && io.history <= io'.history
            && OnScript(io'.history[|io.history|..])
            && (ok ==> CanHandshake(sys, io.history))
  {
    var h, o1 := io.history, [OutB(COMMAND, 0xA7), OutB(DATA, 0xFF)];
    var io' := InitIo(sys, io).0;
    var io0 := Reset(sys, io);
    var t1, r1 := WaitIsExchange(sys, io0, ACK);
    var (io1, ok1) := WaitByte(sys, io0, ACK);
    if !ok1 {
      ScriptAt(h, io'.history, t1, r1, ANY_WAIT, [], ANY_WAIT, []);
      return;
    }
    assert t1 + r1 == t1;
    var t2, r2 := WaitIsExchange(sys, io1, SELF_TEST_PASSED);
    var (io2, ok2) := WaitByte(sys, io1, SELF_TEST_PASSED);
    if !ok2 {
      ScriptAt(h, io'.history, t1, [], t2, r2, ANY_WAIT, []);
      return;
    }
    assert t2 + r2 == t2;
    var io2' := Out(sys, io2, DATA, CMD_ENABLE);
    assert io2'.history == h + o1 + t1 + t2 + [OutB(DATA, 0xF4)];
    var t3, r3 := WaitIsExchange(sys, io2', ACK);
    var (io3, ok3) := WaitByte(sys, io2', ACK);
    if !ok3 {
      ScriptAt(h, io'.history, t1, [], t2, [], t3, r3);
      return;
    }
    assert t3 + r3 == t3;
    HandshakeParts(sys.device, h, t1, t2, t3);
    HandshakeHappens(sys, io, t1, t2, t3);
    ScriptAt(h, io'.history, t1, [], t2, [], t3, []);
  }

  /** Stopping inside the first, second or third wait, or at the end, leaves a prefix of the script. */
  lemma ScriptAt(h: History, h': History, t1: History, r1: History, t2: History, r2: History, t3: History, r3: History)
    requires IsWait(t1 + r1) && IsWait(t2 + r2) && IsWait(t3 + r3)
    requires var h1 := h + [OutB(COMMAND, 0xA7), OutB(DATA, 0xFF)] + t1;
             || h' == h1
             || (r1 == [] && h' == h1 + t2)
             || (r1 == [] && r2 == [] && h' == h1 + t2 + [OutB(DATA, 0xF4)] + t3)
             || (r1 == [] && r2 == [] && r3 == [] && h' == h + Handshake(t1, t2, t3))
    ensures h <= h' && OnScript(h'[|h|..])
  {
    var script := Handshake(t1 + r1, t2 + r2, t3 + r3);
    assert h'[|h|..] <= script;
  }

  /** Init against unlocked ports: it succeeds if and only if the device can hold the whole handshake; then the bus
      has seen exactly that handshake and the driver is READY with nothing pending. Otherwise it reports a hardware
      fault, has sent a beginning of the script, and has changed nothing in the driver. */
  lemma InitSucceedsIffHandshake(sys: System, w: World)
    requires w.Valid() && w.io.Open(0x64) && w.io.Open(0x60)
    ensures var (w', outcome) := Perform(sys, w, Init);
            && w.io.history <= w'.io.history && OnScript(w'.io.history[|w.io.history|..])
            && (outcome == Returned(Success) <==> CanHandshake(sys, w.io.history))
            && (outcome == Returned(Success) ==> w'.mouse == w.mouse.(state := Ready, index := 0))
            && (outcome != Returned(Success) ==> outcome == Returned(HardwareFault) && w'.mouse == w.mouse)
  {
    InitStaysOnScript(sys, w.io);
    if CanHandshake(sys, w.io.history) {
      var t1, t2, t3 :| AreExchanges(sys, t1, t2, t3) && Agrees(sys.device, w.io.history, Handshake(t1, t2, t3));
      HandshakeHappens(sys, w.io, t1, t2, t3);
    }
  }

  /** What a command writes. */
  function CommandBytes(a: Action): History {
    match a
    case Enable => [OutB(0x60, 0xF4)]
    case Disable => [OutB(0x60, 0xF5)]
    case SetSampleRate(rate) => [OutB(0x60, 0xF3), OutB(0x60, rate)]
    case _ => []
  }

  /** The bus after those writes. */
  function CommandSent(sys: System, io: Bus, a: Action): Bus {
    match a
    case Enable => Out(sys, io, DATA, CMD_ENABLE)
    case Disable => Out(sys, io, DATA, CMD_DISABLE)
    case SetSampleRate(rate) => Out(sys, Out(sys, io, DATA, CMD_SET_SAMPLE_RATE), DATA, rate)
    case _ => io
  }

  lemma CommandOnBus(sys: System, io: Bus, a: Action)
    requires io.Open(DATA)
    ensures CommandSent(sys, io, a) == io.(history := io.history + CommandBytes(a))
  {
    assert io.history + [] == io.history;
    if a.SetSampleRate? {
      assert (io.history + [OutB(DATA, 0xF3)]) + [OutB(DATA, a.rate)] == io.history + CommandBytes(a);
    }
  }

  /** The driver once a command has been acknowledged. */
  function Acknowledged(m: MouseState, a: Action): MouseState {
    match a
    case Enable => m.(state := Running)
    case Disable => m.(state := Ready)
    case SetSampleRate(rate) => m.(sampleRate := rate)
    case _ => m
  }

  /** A command against unlocked ports: refused without traffic in the wrong lifecycle state; otherwise it succeeds if and
      only if the device can acknowledge it in time, and then the bus has seen its bytes and that exchange; on failure
      the driver is unchanged. */
  lemma CommandSucceedsIffAcknowledged(sys: System, w: World, a: Action)
    requires w.Valid() && w.io.Open(0x64) && w.io.Open(0x60) && (a.Enable? || a.Disable? || a.SetSampleRate?)
    ensures var (w', outcome) := Perform(sys, w, a);
            var h, bytes := w.io.history, CommandBytes(a);
            if w.mouse.state != (if a.Disable? then Running else Ready) then
              (w', outcome) == (w, Returned(InvalidParameter))
            else
              && (outcome == Returned(Success) <==> exists t :: IsExchange(sys, t, 0xFA) && Agrees(sys.device, h + bytes, t))
              && (outcome == Returned(Success) ==>
                    (exists t :: IsExchange(sys, t, 0xFA) && w'.io.history == h + bytes + t) && w'.mouse == Acknowledged(w.mouse, a))
              && (outcome != Returned(Success) ==> outcome == Returned(HardwareFault) && w'.mouse == w.mouse)
  {
    var sent := CommandSent(sys, w.io, a);
    CommandOnBus(sys, w.io, a);
    var t, rest := WaitIsExchange(sys, sent, ACK);
    if u :| IsExchange(sys, u, ACK) && Agrees(sys.device, sent.history, u) {
      ExchangeHappens(sys, sent, u, ACK);
    }
  }

  /** The handshake a device can hold is unique: no second choice of exchanges agrees with it. */
  lemma HandshakeIsUnique(sys: System, h: History, t1: History, t2: History, t3: History, u1: History, u2: History, u3: History)
    requires AreExchanges(sys, t1, t2, t3) && Agrees(sys.device, h, Handshake(t1, t2, t3))
    requires AreExchanges(sys, u1, u2, u3) && Agrees(sys.device, h, Handshake(u1, u2, u3))
    ensures Handshake(t1, t2, t3) == Handshake(u1, u2, u3)
  {
    var io := Bus(seq(MAX_IO_PORTS, _ => false), h);
    HandshakeHappens(sys, io, t1, t2, t3);
    HandshakeHappens(sys, io, u1, u2, u3);
    assert (h + Handshake(t1, t2, t3))[|h|..] == (h + Handshake(u1, u2, u3))[|h|..];
  }

  lemma WaitIsBounded(sys: System, io: Bus, expected: bv8)
    ensures |WaitByte(sys, io, expected).0.history| <= |io.history| + TIMEOUT + 1
  {
  }

  lemma OutIsBounded(sys: System, io: Bus, port: nat, v: bv8)
    ensures |Out(sys, io, port, v).history| <= |io.history| + 1
  {
  }

  /** No Init, successful or not, with free ports or locked ones, costs more than 300008 bus cycles. */
  lemma InitIsBounded(sys: System, w: World)
    requires w.Valid()
    ensures |Perform(sys, w, Init).0.io.history| <= |w.io.history| + 300008
  {
    var io := Out(sys, w.io, COMMAND, DISABLE_AUX);
    OutIsBounded(sys, w.io, COMMAND, DISABLE_AUX);
    OutIsBounded(sys, io, DATA, CMD_RESET);
    var io0 := Out(sys, io, DATA, CMD_RESET);
    WaitIsBounded(sys, io0, ACK);
    var io1 := WaitByte(sys, io0, ACK).0;
    WaitIsBounded(sys, io1, SELF_TEST_PASSED);
    var io2 := WaitByte(sys, io1, SELF_TEST_PASSED).0;
    OutIsBounded(sys, io2, DATA, CMD_ENABLE);
    WaitIsBounded(sys, Out(sys, io2, DATA, CMD_ENABLE), ACK);
    var io3 := WaitByte(sys, Out(sys, io2, DATA, CMD_ENABLE), ACK).0;
    OutIsBounded(sys, io3, DATA, CMD_SET_SAMPLE_RATE);
    OutIsBounded(sys, Out(sys, io3, DATA, CMD_SET_SAMPLE_RATE), DATA, 100);
  }
}
