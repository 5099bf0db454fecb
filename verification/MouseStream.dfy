/** What the mouse driver makes of a byte stream, over whole runs (src/drivers/mouse/mouse_driver.c:138-196). */
module MouseStream {
  import opened RtTypes
  import opened Mouse

  // ---------------------------------------------------------------- the batch parser

  datatype Parsed = Parsed(packets: seq<Packet>, skipped: nat, rest: seq<bv8>)

  /** One parse after another. */
  function Join(a: Parsed, b: Parsed): Parsed {
    Parsed(a.packets + b.packets, a.skipped + b.skipped, b.rest)
  }

  lemma JoinWithEmpty(rest: seq<bv8>, b: Parsed)
    ensures Join(Parsed([], 0, rest), b) == b
  {
    assert [] + b.packets == b.packets;
  }

  lemma JoinTakes(p: Packet, a: Parsed, b: Parsed)
    ensures Join(a.(packets := [p] + a.packets), b) == Join(a, b).(packets := [p] + Join(a, b).packets)
  {
    assert [p] + (a.packets + b.packets) == ([p] + a.packets) + b.packets;
  }

  /** Reference reading of bs from position i, a packet boundary: drop unmarked bytes there, else take three. */
  function ParseFrom(bs: seq<bv8>, i: nat): (r: Parsed)
    requires i <= |bs|
    ensures |bs| - i == 3 * |r.packets| + r.skipped + |r.rest|
    ensures |r.rest| < 3 && (r.rest != [] ==> Marked(r.rest[0]))
    decreases |bs| - i
  {
    if i == |bs| then Parsed([], 0, [])
    else if !Marked(bs[i]) then var r := ParseFrom(bs, i + 1); r.(skipped := r.skipped + 1)
    else if |bs| < i + 3 then Parsed([], 0, bs[i..])
    else var r := ParseFrom(bs, i + 3); r.(packets := [Packet(bs[i], bs[i + 1], bs[i + 2])] + r.packets)
  }

  function Parse(bs: seq<bv8>): Parsed {
    ParseFrom(bs, 0)
  }

  lemma {:induction false} ParseShifts(u: seq<bv8>, v: seq<bv8>, i: nat)
    requires i <= |v|
    ensures ParseFrom(u + v, |u| + i) == ParseFrom(v, i)
    decreases |v| - i
  {
    if i == |v| {
    } else if !Marked(v[i]) {
      ParseShifts(u, v, i + 1);
    } else if i + 3 <= |v| {
      ParseShifts(u, v, i + 3);
    } else {
      assert (u + v)[|u| + i..] == v[i..];
    }
  }

  lemma {:induction false} RestIsSuffix(s: seq<bv8>, i: nat)
    requires i <= |s|
    ensures s[|s| - |ParseFrom(s, i).rest|..] == ParseFrom(s, i).rest
    decreases |s| - i
  {
    if i == |s| {
    } else if !Marked(s[i]) {
      RestIsSuffix(s, i + 1);
    } else if i + 3 <= |s| {
      RestIsSuffix(s, i + 3);
    }
  }

  /** Position j, where the parse of s stops, is a packet boundary of any longer string st. */
  lemma {:induction false} ResumesFrom(s: seq<bv8>, st: seq<bv8>, i: nat, j: nat)
    requires i <= |s| && s <= st && j == |s| - |ParseFrom(s, i).rest|
    ensures ParseFrom(st, i) == Join(ParseFrom(s, i), ParseFrom(st, j))
    decreases |s| - i
  {
    if i == |s| {
      JoinWithEmpty([], ParseFrom(st, j));
    } else if !Marked(s[i]) {
      ResumesFrom(s, st, i + 1, j);
    } else if i + 3 <= |s| {
      ResumesFrom(s, st, i + 3, j);
      JoinTakes(Packet(s[i], s[i + 1], s[i + 2]), ParseFrom(s, i + 3), ParseFrom(st, j));
    } else {
      JoinWithEmpty(s[i..], ParseFrom(st, j));
    }
  }

  /** Parsing may stop anywhere and resume from the unfinished rest. */
  lemma ParseResumes(s: seq<bv8>, t: seq<bv8>)
    ensures Parse(s + t) == Join(Parse(s), Parse(Parse(s).rest + t))
  {
    var rest := Parse(s).rest;
    var j := |s| - |rest|;
    ResumesFrom(s, s + t, 0, j);
    RestIsSuffix(s, 0);
    assert s + t == s[..j] + (rest + t);
    ParseShifts(s[..j], rest + t, 0);
  }

  /** The bytes of a packet under construction. */
  function Pending(m: MouseState): seq<bv8>
    requires m.Valid()
  {
    m.packet[..m.index]
  }

  /** A framer state a run can reach: the pending bytes are an unfinished packet. */
  ghost predicate Framed(m: MouseState) {
    m.Valid() && (m.index > 0 ==> Marked(m.packet[0]))
  }

  /** One interrupt refines one step of the parser. */
  lemma FeedRefinesParse(m: MouseState, b: bv8)
    requires Framed(m) && m.state == Running
    ensures Framed(Feed(m, b)) && Feed(m, b).state == Running
    ensures var r := Parse(Pending(m) + [b]);
            Feed(m, b).packets == m.packets + r.packets && Pending(Feed(m, b)) == r.rest
  {
    var bs := Pending(m) + [b];
    var packet := m.packet[m.index := b];
    assert packet[..m.index + 1] == bs;
    if m.index == 2 {
      assert ParseFrom(bs, 3) == Parsed([], 0, []);
      assert Parse(bs).packets == [Packet(packet[0], packet[1], packet[2])];
    }
  }

  // ---------------------------------------------------------------- runs

  /** What one step adds to the stretches: a handled byte, or a new stretch at a successful Init. */
  function Extend(stretches: seq<seq<bv8>>, a: Action, outcome: Outcome): (r: seq<seq<bv8>>)
    requires stretches != []
    ensures r != []
  {
    var n := |stretches| - 1;
    if outcome.Handled? then stretches[n := stretches[n] + [outcome.byte]]
    else if a.Init? && outcome == Returned(Success) then stretches + [[]]
    else stretches
  }

  /** The bytes the handler read in a run, cut into stretches: each successful Init opens a new one. */
  function Stretches(sys: System, w: World, run: seq<Action>): (r: seq<seq<bv8>>)
    requires w.Valid()
    ensures r != []
  {
    if run == [] then [[]]
    else Extend(Stretches(sys, w, run[..|run| - 1]), run[|run| - 1], LastOutcome(sys, w, run))
  }

  /** The packets of all stretches, the first one continuing the given unfinished packet. */
  function ParseAll(pending: seq<bv8>, stretches: seq<seq<bv8>>): seq<Packet>
    requires stretches != []
  {
    var n := |stretches| - 1;
    if n == 0 then Parse(pending + stretches[0]).packets
    else ParseAll(pending, stretches[..n]) + Parse(stretches[n]).packets
  }

  /** The stretch being read, with what was pending when it began. */
  function LastStretch(pending: seq<bv8>, stretches: seq<seq<bv8>>): seq<bv8>
    requires stretches != []
  {
    if |stretches| == 1 then pending + stretches[0] else stretches[|stretches| - 1]
  }

  /** One more byte in the last stretch. */
  lemma ParseAllExtended(pending: seq<bv8>, stretches: seq<seq<bv8>>, b: bv8)
    requires stretches != []
    ensures var n := |stretches| - 1;
            var rest := Parse(LastStretch(pending, stretches)).rest;
            var stretches' := stretches[n := stretches[n] + [b]];
            && ParseAll(pending, stretches') == ParseAll(pending, stretches) + Parse(rest + [b]).packets
            && Parse(LastStretch(pending, stretches')).rest == Parse(rest + [b]).rest
  {
    var n := |stretches| - 1;
    var last := LastStretch(pending, stretches);
    var stretches' := stretches[n := stretches[n] + [b]];
    ParseResumes(last, [b]);
    if n == 0 {
      assert pending + (stretches[0] + [b]) == last + [b];
    } else {
      var before, more := ParseAll(pending, stretches[..n]), Parse(Parse(last).rest + [b]).packets;
      assert stretches'[..n] == stretches[..n] && stretches'[n] == last + [b];
      assert before + (Parse(last).packets + more) == (before + Parse(last).packets) + more;
    }
  }

  /** A driver that was in state m and has since read the given stretches has processed the packets of the batch
      parser, and holds its rest. */
  ghost predicate Refines(m: MouseState, stretches: seq<seq<bv8>>, m': MouseState)
    requires m.Valid() && stretches != []
  {
    && Framed(m')
    && m'.packets == m.packets + ParseAll(Pending(m), stretches)
    && Pending(m') == Parse(LastStretch(Pending(m), stretches)).rest
  }

  lemma FeedKeepsRefinement(m: MouseState, stretches: seq<seq<bv8>>, m': MouseState, b: bv8)
    requires m.Valid() && stretches != [] && Refines(m, stretches, m') && m'.state == Running
    ensures var n := |stretches| - 1;
            Refines(m, stretches[n := stretches[n] + [b]], Feed(m', b))
  {
    FeedRefinesParse(m', b);
    ParseAllExtended(Pending(m), stretches, b);
  }

  lemma InitKeepsRefinement(m: MouseState, stretches: seq<seq<bv8>>, m': MouseState, m'': MouseState)
    requires m.Valid() && stretches != [] && Refines(m, stretches, m')
    requires m''.Valid() && m''.packets == m'.packets && m''.index == 0
    ensures Refines(m, stretches + [[]], m'')
  {
    assert (stretches + [[]])[..|stretches|] == stretches;
    assert Parse([]) == Parsed([], 0, []);
  }

  lemma StepKeepsRefinement(sys: System, m: MouseState, stretches: seq<seq<bv8>>, w: World, a: Action)
    requires m.Valid() && stretches != [] && w.Valid() && Refines(m, stretches, w.mouse)
    ensures Refines(m, Extend(stretches, a, Perform(sys, w, a).1), Perform(sys, w, a).0.mouse)
  {
    var (w', outcome) := Perform(sys, w, a);
    StepEffect(sys, w, a);
    if outcome.Handled? {
      FeedKeepsRefinement(m, stretches, w.mouse, outcome.byte);
    } else if a.Init? && outcome == Returned(Success) {
      InitKeepsRefinement(m, stretches, w.mouse, w'.mouse);
    } else {
      assert Pending(w'.mouse) == Pending(w.mouse);
    }
  }

  /** Streaming refines batch parsing: in every run, of any driver calls, interrupts, and port calls by others,
      the packets processed are those of the batch parser on the bytes read, and what is pending is its rest. */
  lemma {:induction false} StreamRefinesBatch(sys: System, w: World, run: seq<Action>)
    requires w.Valid() && Framed(w.mouse)
    ensures Refines(w.mouse, Stretches(sys, w, run), After(sys, w, run).mouse)
  {
    if run == [] {
      assert Pending(w.mouse) + [] == Pending(w.mouse);
      PendingParsesToItself(w.mouse);
    } else {
      var front, a := run[..|run| - 1], run[|run| - 1];
      StreamRefinesBatch(sys, w, front);
      StepKeepsRefinement(sys, w.mouse, Stretches(sys, w, front), After(sys, w, front), a);
    }
  }

  lemma PendingParsesToItself(m: MouseState)
    requires Framed(m)
    ensures Parse(Pending(m)) == Parsed([], 0, Pending(m))
  {
  }

  function Total(stretches: seq<seq<bv8>>): nat {
    if stretches == [] then 0 else Total(stretches[..|stretches| - 1]) + |stretches[|stretches| - 1]|
  }

  /** Bytes that end up in no packet: skipped at a boundary, or pending when an Init succeeds. */
  function Dropped(pending: seq<bv8>, stretches: seq<seq<bv8>>): nat
    requires stretches != []
  {
    var n := |stretches| - 1;
    if n == 0 then Parse(pending + stretches[0]).skipped
    else
      var front := stretches[..n];
      Dropped(pending, front) + |Parse(LastStretch(pending, front)).rest| + Parse(stretches[n]).skipped
  }

  lemma {:induction false} StretchesAreConserved(pending: seq<bv8>, stretches: seq<seq<bv8>>)
    requires stretches != []
    ensures |pending| + Total(stretches) ==
            3 * |ParseAll(pending, stretches)| + Dropped(pending, stretches) + |Parse(LastStretch(pending, stretches)).rest|
  {
    var n := |stretches| - 1;
    if n == 0 {
      assert Total(stretches[..0]) == 0;
    } else {
      StretchesAreConserved(pending, stretches[..n]);
    }
  }

  /** No byte is lost or invented: over every run, each byte read (or pending at the start) is in a processed packet,
      was dropped in one of the two ways above, or is pending at the end. */
  lemma BytesAreConserved(sys: System, w: World, run: seq<Action>)
    requires w.Valid() && Framed(w.mouse)
    ensures var m, m', stretches := w.mouse, After(sys, w, run).mouse, Stretches(sys, w, run);
            m.index + Total(stretches) ==
            3 * (|m'.packets| - |m.packets|) + Dropped(Pending(m), stretches) + m'.index
  {
    StreamRefinesBatch(sys, w, run);
    StretchesAreConserved(Pending(w.mouse), Stretches(sys, w, run));
  }

  // ---------------------------------------------------------------- self-synchronisation

  /** Whatever came before, two consecutive unmarked bytes leave the parser at a packet boundary. */
  lemma TwoUnmarkedBytesSynchronise(s: seq<bv8>, a: bv8, b: bv8)
    requires !Marked(a) && !Marked(b)
    ensures Parse(s + [a, b]).rest == []
  {
    var rest := Parse(s).rest;
    ParseResumes(s, [a, b]);
    var bs := rest + [a, b];
    assert bs[|rest|] == a && bs[|rest| + 1] == b;
    if |rest| == 0 {
      assert ParseFrom(bs, 1).rest == [];
    } else {
      assert ParseFrom(bs, 3).rest == [];
    }
  }

  /** One unmarked byte does so exactly when the parser is not one byte into a packet. */
  lemma OneUnmarkedByteSynchronises(s: seq<bv8>, a: bv8)
    requires !Marked(a)
    ensures Parse(s + [a]).rest == [] <==> |Parse(s).rest| != 1
  {
    var rest := Parse(s).rest;
    ParseResumes(s, [a]);
    var bs := rest + [a];
    assert bs[|rest|] == a;
    if |rest| == 2 {
      assert ParseFrom(bs, 3).rest == [];
    }
  }
}
