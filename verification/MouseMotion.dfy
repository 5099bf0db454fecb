/** Positions, callbacks and the meaning of packets, over whole runs of the mouse driver
    (src/drivers/mouse/mouse_driver.c:145-196). */
module MouseMotion {
  import opened RtTypes
  import opened Mouse
  import opened MouseStream

  // ---------------------------------------------------------------- positions and callbacks

  function SumDx(ps: seq<Packet>): int {
    if ps == [] then 0 else SumDx(ps[..|ps| - 1]) + Dx(ps[|ps| - 1])
  }

  function SumDy(ps: seq<Packet>): int {
    if ps == [] then 0 else SumDy(ps[..|ps| - 1]) + Dy(ps[|ps| - 1])
  }

  /** Where the packets take the pointer: displacements are summed first and wrapped once. */
  function Travel(d: MouseData, ps: seq<Packet>): MouseData {
    if ps == [] then d
    else MouseData(Wrap16(d.x + SumDx(ps)), Wrap16(d.y - SumDy(ps)), ps[|ps| - 1].header & 0x07, true)
  }

  predicate InRange(d: MouseData) {
    -0x8000 <= d.x < 0x8000 && -0x8000 <= d.y < 0x8000
  }

  lemma MarkedPacketMoves(p: Packet)
    requires Marked(p.header)
    ensures Dx(p) < 0 || Dy(p) < 0
    ensures -256 <= Dx(p) < 256 && -256 <= Dy(p) < 256
  {
    assert p.header & 0x10 != 0 || p.header & 0x20 != 0;
  }

  lemma WrapAbsorbs(a: int, b: int)
    ensures Wrap16(Wrap16(a) + b) == Wrap16(a + b)
  {
  }

  lemma WrapKeeps(v: int)
    requires -0x8000 <= v < 0x8000
    ensures Wrap16(v) == v
  {
  }

  /** Two pointers that went from d1 and d2 to e1 and e2 are as far apart as before, in 16-bit arithmetic. */
  ghost predicate KeepDistance(d1: MouseData, d2: MouseData, e1: MouseData, e2: MouseData) {
    && Wrap16(e1.x - e2.x) == Wrap16(d1.x - d2.x)
    && Wrap16(e1.y - e2.y) == Wrap16(d1.y - d2.y)
  }

  lemma WrapKeepsDistance(a: int, b: int, s: int)
    ensures Wrap16(Wrap16(a + s) - Wrap16(b + s)) == Wrap16(a - b)
  {
  }

  lemma TravelKeepsDistance(d1: MouseData, d2: MouseData, ps: seq<Packet>)
    ensures KeepDistance(d1, d2, Travel(d1, ps), Travel(d2, ps))
  {
    WrapKeepsDistance(d1.x, d2.x, SumDx(ps));
    WrapKeepsDistance(d1.y, d2.y, -SumDy(ps));
  }

  /** Wrapping at every packet is wrapping the sum once. */
  lemma TravelOneMore(d: MouseData, ps: seq<Packet>, p: Packet)
    requires InRange(d) && Marked(p.header)
    ensures Travel(d, ps + [p]) == Apply(Travel(d, ps), p)
  {
    MarkedPacketMoves(p);
    assert (ps + [p])[..|ps|] == ps;
    WrapAbsorbs(d.x + SumDx(ps), Dx(p));
    WrapAbsorbs(d.y - SumDy(ps), -Dy(p));
  }

  function NewPackets(m: MouseState, m': MouseState): seq<Packet> {
    if |m.packets| <= |m'.packets| then m'.packets[|m.packets|..] else []
  }

  /** What callbacks see while ps arrive: one call a packet, each with the position reached by then. */
  function Notices(d: MouseData, ps: seq<Packet>): (r: seq<MouseData>)
    ensures |r| == |ps|
  {
    if ps == [] then [] else Notices(d, ps[..|ps| - 1]) + [Travel(d, ps)]
  }

  /** The motion law: after any run the position is the start plus the wrapped sum of all displacements processed
      (y inverted), and a callback, when set, was called exactly once for every packet with the position then reached. */
  lemma {:induction false} MotionLaw(sys: System, w: World, run: seq<Action>)
    requires w.Valid() && Framed(w.mouse) && InRange(w.mouse.data)
    ensures var m, m' := w.mouse, After(sys, w, run).mouse;
            var ps := NewPackets(m, m');
            && Framed(m')
            && m'.packets == m.packets + ps
            && (forall p :: p in ps ==> Marked(p.header))
            && m'.data == Travel(m.data, ps)
            && m'.hasCallback == m.hasCallback
            && m'.notified == m.notified + (if m.hasCallback then Notices(m.data, ps) else [])
  {
    if run != [] {
      var front, a := run[..|run| - 1], run[|run| - 1];
      MotionLaw(sys, w, front);
      var m, w1 := w.mouse, After(sys, w, front);
      var (w', outcome) := Perform(sys, w1, a);
      StepEffect(sys, w1, a);
      if outcome.Handled? {
        FeedRefinesParse(w1.mouse, outcome.byte);
        FeedMoves(m, w1.mouse, outcome.byte, NewPackets(m, w1.mouse));
      } else {
        assert w'.mouse.packets == w1.mouse.packets && w'.mouse.data == w1.mouse.data;
      }
    }
  }

  /** The law for a driver that was in state m and is now in state m1. */
  ghost predicate HasMoved(m: MouseState, m1: MouseState, ps: seq<Packet>) {
    && m1.packets == m.packets + ps && m1.data == Travel(m.data, ps) && m1.hasCallback == m.hasCallback
    && m1.notified == m.notified + (if m.hasCallback then Notices(m.data, ps) else [])
  }

  lemma PacketMoves(m: MouseState, m1: MouseState, ps: seq<Packet>, p: Packet)
    requires InRange(m.data) && HasMoved(m, m1, ps) && Marked(p.header)
    ensures var d := Apply(m1.data, p);
            HasMoved(m, m1.(data := d, packets := m1.packets + [p],
                            notified := if m1.hasCallback && d.moved then m1.notified + [d] else m1.notified), ps + [p])
  {
    TravelOneMore(m.data, ps, p);
    MarkedPacketMoves(p);
    assert (ps + [p])[..|ps|] == ps;
  }

  lemma FeedMoves(m: MouseState, m1: MouseState, b: bv8, ps: seq<Packet>)
    requires InRange(m.data) && Framed(m1) && m1.state == Running && HasMoved(m, m1, ps)
    ensures var more := NewPackets(m1, Feed(m1, b));
            HasMoved(m, Feed(m1, b), ps + more) && forall p :: p in more ==> Marked(p.header)
  {
    if m1.index == 2 {
      var p := Packet(m1.packet[0], m1.packet[1], b);
      PacketMoves(m, m1, ps, p);
      assert NewPackets(m1, Feed(m1, b)) == [p];
    } else {
      assert NewPackets(m1, Feed(m1, b)) == [] && ps + [] == ps;
    }
  }

  lemma {:induction false} SumsAreBounded(ps: seq<Packet>)
    requires forall p :: p in ps ==> Marked(p.header)
    ensures -256 * |ps| <= SumDx(ps) <= 256 * |ps| && -256 * |ps| <= SumDy(ps) <= 256 * |ps|
  {
    if ps != [] {
      SumsAreBounded(ps[..|ps| - 1]);
      MarkedPacketMoves(ps[|ps| - 1]);
    }
  }

  /** As long as 256 units a packet fit, no coordinate has wrapped, and none moved further than that. */
  lemma NoWrapWithinBudget(sys: System, w: World, run: seq<Action>)
    requires w.Valid() && Framed(w.mouse) && InRange(w.mouse.data)
    requires var n := |NewPackets(w.mouse, After(sys, w, run).mouse)|;
             var d := w.mouse.data;
             -0x7FFF <= d.x - 256 * n && d.x + 256 * n <= 0x7FFF && -0x7FFF <= d.y - 256 * n && d.y + 256 * n <= 0x7FFF
    ensures var m, m' := w.mouse, After(sys, w, run).mouse;
            var ps := NewPackets(m, m');
            && m'.data.x == m.data.x + SumDx(ps) && m'.data.y == m.data.y - SumDy(ps)
            && -256 * |ps| <= m'.data.x - m.data.x <= 256 * |ps|
            && -256 * |ps| <= m'.data.y - m.data.y <= 256 * |ps|
  {
    MotionLaw(sys, w, run);
    var d, ps := w.mouse.data, NewPackets(w.mouse, After(sys, w, run).mouse);
    SumsAreBounded(ps);
    WrapKeeps(d.x + SumDx(ps));
    WrapKeeps(d.y - SumDy(ps));
  }

  // ---------------------------------------------------------------- self-synchronisation of drivers

  /** A driver that runs pre and then post, on some hardware. */
  datatype Trial = Trial(sys: System, start: World, pre: seq<Action>, post: seq<Action>) {
    ghost predicate Valid() {
      start.Valid() && Framed(start.mouse) && InRange(start.mouse.data)
    }

    function Mid(): (r: World)
      requires start.Valid()
      ensures r.Valid()
    {
      After(sys, start, pre)
    }

    function End(): (r: World)
      requires start.Valid()
      ensures r.Valid()
    {
      After(sys, Mid(), post)
    }

    /** In pre the handler reads some bytes of which the last two are unmarked; in post it reads v. */
    ghost predicate ReadsPairThen(v: seq<bv8>)
      requires start.Valid()
    {
      && (exists u, a, b :: !Marked(a) && !Marked(b) && Stretches(sys, start, pre) == [u + [a, b]])
      && Stretches(sys, Mid(), post) == [v]
    }
  }

  lemma StopsAtBoundary(t: Trial, u: seq<bv8>, a: bv8, b: bv8)
    requires t.Valid() && !Marked(a) && !Marked(b) && Stretches(t.sys, t.start, t.pre) == [u + [a, b]]
    ensures t.Mid().mouse.index == 0
  {
    var pending := Pending(t.start.mouse);
    StreamRefinesBatch(t.sys, t.start, t.pre);
    assert pending + (u + [a, b]) == (pending + u) + [a, b];
    TwoUnmarkedBytesSynchronise(pending + u, a, b);
  }

  /** From a packet boundary on, the packets are those of the bytes read from there on. */
  lemma ContinuesFromBoundary(sys: System, w: World, run: seq<Action>, v: seq<bv8>)
    requires w.Valid() && w.mouse.index == 0 && Stretches(sys, w, run) == [v]
    ensures var m' := After(sys, w, run).mouse;
            NewPackets(w.mouse, m') == Parse(v).packets && Pending(m') == Parse(v).rest
  {
    StreamRefinesBatch(sys, w, run);
    assert Pending(w.mouse) + v == v;
  }

  /** A driver that has just read two unmarked bytes in a row is at a packet boundary, so from there on it processes
      exactly the packets of what it reads next. */
  lemma ResumesAtBoundary(t: Trial, v: seq<bv8>)
    requires t.Valid() && t.ReadsPairThen(v)
    ensures t.Mid().mouse.index == 0
    ensures NewPackets(t.Mid().mouse, t.End().mouse) == Parse(v).packets
    ensures Pending(t.End().mouse) == Parse(v).rest
    ensures t.End().mouse.data == Travel(t.Mid().mouse.data, Parse(v).packets)
  {
    var u, a, b :| !Marked(a) && !Marked(b) && Stretches(t.sys, t.start, t.pre) == [u + [a, b]];
    StopsAtBoundary(t, u, a, b);
    ContinuesFromBoundary(t.sys, t.Mid(), t.post, v);
    StaysInRange(t.sys, t.start, t.pre);
    MotionLaw(t.sys, t.Mid(), t.post);
  }

  lemma StaysInRange(sys: System, w: World, run: seq<Action>)
    requires w.Valid() && Framed(w.mouse) && InRange(w.mouse.data)
    ensures InRange(After(sys, w, run).mouse.data)
  {
    MotionLaw(sys, w, run);
  }

  /** Self-synchronisation: two drivers in any states and on any hardware that have each just read two unmarked bytes in
      a row, and then read the same bytes v, process the same packets, and keep their distance modulo 2^16. */
  lemma DriversSynchronise(t1: Trial, t2: Trial, v: seq<bv8>)
    requires t1.Valid() && t2.Valid()
    ensures t1.ReadsPairThen(v) && t2.ReadsPairThen(v) ==>
            && NewPackets(t1.Mid().mouse, t1.End().mouse) == NewPackets(t2.Mid().mouse, t2.End().mouse)
            && Pending(t1.End().mouse) == Pending(t2.End().mouse)
            && KeepDistance(t1.Mid().mouse.data, t2.Mid().mouse.data, t1.End().mouse.data, t2.End().mouse.data)
  {
    if t1.ReadsPairThen(v) && t2.ReadsPairThen(v) {
      ResumesAtBoundary(t1, v);
      ResumesAtBoundary(t2, v);
      TravelKeepsDistance(t1.Mid().mouse.data, t2.Mid().mouse.data, Parse(v).packets);
    }
  }

  // ---------------------------------------------------------------- PS/2 encoding

  /** A displacement from -256 to 255, as nine bits of two's complement. */
  datatype NineBit = NineBit(negative: bool, low: bv8) {
    function Value(): int {
      low as int - if negative then 256 else 0
    }
  }

  /** A movement report; noise fills the bits the driver must ignore (always-one and overflow). */
  datatype Event = Event(buttons: bv8, dx: NineBit, dy: NineBit, noise: bv8) {
    ghost predicate Valid() {
      buttons & 0x07 == buttons
    }

    predicate Negative() {
      dx.Value() < 0 || dy.Value() < 0
    }
  }

  function Encode(e: Event): Packet
    requires e.Valid()
  {
    var header := e.buttons | (if e.dx.negative then 0x10 else 0) | (if e.dy.negative then 0x20 else 0) | (e.noise & 0xC8);
    Packet(header, e.dx.low, e.dy.low)
  }

  function EncodeAll(es: seq<Event>): (r: seq<bv8>)
    requires forall e :: e in es ==> e.Valid()
    ensures |r| == 3 * |es|
  {
    if es == [] then []
    else
      var p := Encode(es[0]);
      [p.header, p.second, p.third] + EncodeAll(es[1..])
  }

  /** A packet carries an event. */
  predicate Carries(p: Packet, e: Event) {
    p.header & 0x07 == e.buttons && Dx(p) == e.dx.Value() && Dy(p) == e.dy.Value()
  }

  ghost predicate CarryAll(ps: seq<Packet>, es: seq<Event>) {
    |ps| == |es| && forall i :: 0 <= i < |ps| ==> Carries(ps[i], es[i])
  }

  lemma EncodedHeader(e: Event)
    requires e.Valid()
    ensures var h := Encode(e).header;
            && h & 0x07 == e.buttons
            && (h & 0x10 != 0 <==> e.dx.negative)
            && (h & 0x20 != 0 <==> e.dy.negative)
            && (Marked(h) <==> e.dx.negative || e.dy.negative)
  {
  }

  lemma EncodedPacket(e: Event)
    requires e.Valid()
    ensures Carries(Encode(e), e) && (Marked(Encode(e).header) <==> e.Negative())
  {
    EncodedHeader(e);
  }

  /** The round trip holds exactly for streams in which every report moves left or down: one report with neither
      coordinate negative loses its header, and no packet count can then match. */
  lemma {:induction false} RoundTripIffAllNegative(es: seq<Event>)
    requires forall e :: e in es ==> e.Valid()
    ensures var r := Parse(EncodeAll(es));
            && (CarryAll(r.packets, es) <==> forall e :: e in es ==> e.Negative())
            && (CarryAll(r.packets, es) ==> r.skipped == 0 && r.rest == [])
  {
    if es != [] {
      EncodedPacket(es[0]);
      RoundTripIffAllNegative(es[1..]);
      OneMoreReport(Encode(es[0]), EncodeAll(es[1..]), es);
    }
  }

  lemma OneMoreReport(p: Packet, tail: seq<bv8>, es: seq<Event>)
    requires es != [] && |tail| == 3 * |es[1..]|
    requires Carries(p, es[0]) && (Marked(p.header) <==> es[0].Negative())
    requires var r := Parse(tail);
             && (CarryAll(r.packets, es[1..]) <==> forall e :: e in es[1..] ==> e.Negative())
             && (CarryAll(r.packets, es[1..]) ==> r.skipped == 0 && r.rest == [])
    ensures var r := Parse([p.header, p.second, p.third] + tail);
            && (CarryAll(r.packets, es) <==> forall e :: e in es ==> e.Negative())
            && (CarryAll(r.packets, es) ==> r.skipped == 0 && r.rest == [])
  {
    assert es == [es[0]] + es[1..];
    if es[0].Negative() {
      ParseTakes(p, tail);
      CarryAllSplits(p, Parse(tail).packets, es);
    } else {
      ParseSkips(p, tail);
      assert es[0] in es;
    }
  }

  lemma ParseTakes(p: Packet, tail: seq<bv8>)
    requires Marked(p.header)
    ensures var r := Parse(tail);
            Parse([p.header, p.second, p.third] + tail) == r.(packets := [p] + r.packets)
  {
    ParseShifts([p.header, p.second, p.third], tail, 0);
  }

  lemma ParseSkips(p: Packet, tail: seq<bv8>)
    requires !Marked(p.header)
    ensures Parse([p.header, p.second, p.third] + tail).skipped > 0
  {
  }

  lemma CarryAllSplits(p: Packet, ps: seq<Packet>, es: seq<Event>)
    requires es != [] && Carries(p, es[0])
    ensures CarryAll([p] + ps, es) <==> CarryAll(ps, es[1..])
  {
    if CarryAll([p] + ps, es) {
      forall i | 0 <= i < |ps| ensures Carries(ps[i], es[1..][i]) {
        assert ([p] + ps)[i + 1] == ps[i];
      }
    }
  }

  /** What becomes of a report with no negative coordinate: its header is dropped, and the first of its other bytes that
      is marked opens a packet which mixes it with the bytes of later reports. */
  lemma LostHeaderReframes(e: Event, tail: seq<bv8>)
    requires e.Valid() && !e.Negative() && |tail| >= 2
    ensures var p := Encode(e);
            var r := Parse([p.header, p.second, p.third] + tail);
            if Marked(p.second) then r.packets != [] && r.packets[0] == Packet(p.second, p.third, tail[0])
            else if Marked(p.third) then r.packets != [] && r.packets[0] == Packet(p.third, tail[0], tail[1])
            else r == Parse(tail).(skipped := Parse(tail).skipped + 3)
  {
    var p := Encode(e);
    EncodedPacket(e);
    var bs := [p.header, p.second, p.third] + tail;
    assert bs[1] == p.second && bs[2] == p.third && bs[3] == tail[0] && bs[4] == tail[1];
    ParseShifts([p.header, p.second, p.third], tail, 0);
    assert Parse(bs) == var r := ParseFrom(bs, 1); r.(skipped := r.skipped + 1);
    if !Marked(p.second) {
      assert ParseFrom(bs, 1) == var r := ParseFrom(bs, 2); r.(skipped := r.skipped + 1);
    }
  }

  /** The driver at a packet boundary whose handler reads an encoded stream processes exactly those reports, in order,
      and is at a boundary again, if and only if every report has a negative coordinate. */
  lemma DriverRoundTrip(sys: System, w: World, run: seq<Action>, es: seq<Event>)
    requires w.Valid() && w.mouse.index == 0 && InRange(w.mouse.data)
    requires forall e :: e in es ==> e.Valid()
    requires Stretches(sys, w, run) == [EncodeAll(es)]
    ensures var m' := After(sys, w, run).mouse;
            && (CarryAll(NewPackets(w.mouse, m'), es) <==> forall e :: e in es ==> e.Negative())
            && ((forall e :: e in es ==> e.Negative()) ==> m'.index == 0)
  {
    ContinuesFromBoundary(sys, w, run, EncodeAll(es));
    RoundTripIffAllNegative(es);
  }
}
