/** The USB device table (src/drivers/usb/usb_driver.c:70-125): 32 slots, append, first-match search, removal by shifting. */
module Usb {
  import opened RtTypes
  import IoPort

  const USB_MAX_DEVICES: nat := 32

  /** A USB_Device: its address, the descriptor read at attach time, and everything else in it. */
  datatype Device = Device(address: nat, descriptor: seq<bv8>, rest: seq<bv8>)

  type Table = seq<Device>

  datatype Op = Attach(device: Device, descriptor: seq<bv8>) | Detach(address: nat) | Find(address: nat)

  datatype Result = Done | Rejected | Found(device: Device) | NotFound

  // ---------------------------------------------------------------- the table

  /** The first position holding the address, or |t|. */
  function IndexOf(t: Table, address: nat): (i: nat)
    ensures i <= |t| && (i < |t| ==> t[i].address == address)
    ensures forall j :: 0 <= j < i ==> t[j].address != address
  {
    if t == [] || t[0].address == address then 0 else 1 + IndexOf(t[1..], address)
  }

  function Without(t: Table, i: nat): Table
    requires i < |t|
  {
    t[..i] + t[i + 1..]
  }

  function Step(t: Table, op: Op): (Table, Result) {
    match op
    case Attach(d, descriptor) =>
      if |t| >= USB_MAX_DEVICES then (t, Rejected) else (t + [d.(descriptor := descriptor)], Done)
    case Detach(a) =>
      if a >= USB_MAX_DEVICES || IndexOf(t, a) == |t| then (t, Rejected) else (Without(t, IndexOf(t, a)), Done)
    case Find(a) =>
      if a >= USB_MAX_DEVICES || IndexOf(t, a) == |t| then (t, NotFound) else (t, Found(t[IndexOf(t, a)]))
  }

  class UsbDriver {
    const devices: array<Device>
    var numDevices: nat
    var onConnected: bool
    var onDisconnected: bool
    ghost var connected: seq<Device>
    ghost var disconnected: seq<nat>

    ghost predicate Valid()
      reads this, devices
    {
      devices.Length == USB_MAX_DEVICES && numDevices <= USB_MAX_DEVICES
    }

    ghost function Contents(): Table
      requires Valid()
      reads this, devices
    {
      devices[..numDevices]
    }

    constructor (onConnected: bool, onDisconnected: bool)
      ensures Valid() && fresh(devices) && Contents() == []
    {
      devices := new Device[USB_MAX_DEVICES](_ => Device(0, [], []));
      numDevices := 0;
      this.onConnected, this.onDisconnected := onConnected, onDisconnected;
      connected, disconnected := [], [];
    }

    /** The search loop: the first slot with the address. */
    method Search(address: nat) returns (i: nat)
      requires Valid()
      ensures i == IndexOf(Contents(), address)
    {
      i := 0;
      while i < numDevices
        invariant i <= numDevices
        invariant forall j :: 0 <= j < i ==> devices[j].address != address
      {
        if devices[i].address == address {
          FirstIsIndexOf(Contents(), address, i);
          return;
        }
        i := i + 1;
      }
      FirstIsIndexOf(Contents(), address, i);
    }

    method FindDevice(address: nat) returns (slot: Option<nat>)
      requires Valid()
      ensures var i := IndexOf(Contents(), address);
              slot == if address < USB_MAX_DEVICES && i < numDevices then Some(i) else None
      ensures Step(Contents(), Find(address)) ==
              (Contents(), if slot.Some? then Found(devices[slot.value]) else NotFound)
    {
      if address >= USB_MAX_DEVICES {
        return None;
      }
      var i := Search(address);
      return if i < numDevices then Some(i) else None;
    }

    /** descriptor stands for the bytes read from the controller; the updated device goes back to the caller. */
    method AttachDevice(io: IoPort.Ports, device: Device, descriptor: seq<bv8>) returns (r: ErrorCode, device': Device)
      requires Valid() && io.Valid()
      modifies this, devices, io`history
      ensures Valid() && io.Valid()
      ensures (Contents(), if r == Success then Done else Rejected) == Step(old(Contents()), Attach(device, descriptor))
      ensures r == Success || r == InvalidParameter
      ensures device' == if r == Success then device.(descriptor := descriptor) else device
      ensures connected == old(connected) + if r == Success && onConnected then [device'] else []
      ensures disconnected == old(disconnected) && onConnected == old(onConnected) && onDisconnected == old(onDisconnected)
      ensures io.history == old(io.history)
    {
      device' := device;
      if numDevices >= USB_MAX_DEVICES {
        r := InvalidParameter;
        return;
      }
      io.WriteB(0xCF8, 0x00);  // the low byte of 0x80001000 | (num_devices << 8)
      io.WriteW(0xCFC, 1);
      device' := device.(descriptor := descriptor);
      devices[numDevices] := device';
      numDevices := numDevices + 1;
      assert Contents() == old(Contents()) + [device'];
      if onConnected {
        connected := connected + [device'];
      }
      r := Success;
    }

    method DetachDevice(address: nat) returns (r: ErrorCode)
      requires Valid()
      modifies this, devices
      ensures Valid()
      ensures (Contents(), if r == Success then Done else Rejected) == Step(old(Contents()), Detach(address))
      ensures r == Success || r == InvalidParameter
      ensures disconnected == old(disconnected) + if r == Success && onDisconnected then [address] else []
      ensures connected == old(connected) && onConnected == old(onConnected) && onDisconnected == old(onDisconnected)
    {
      if address >= USB_MAX_DEVICES {
        return InvalidParameter;
      }
      var i := Search(address);
      if i == numDevices {
        return InvalidParameter;
      }
      CloseGap(i);
      if onDisconnected {
        disconnected := disconnected + [address];
      }
      return Success;
    }

    /** memmove of the slots behind a slot onto it. */
    method CloseGap(i: nat)
      requires Valid() && i < numDevices
      modifies devices, this`numDevices
      ensures Valid() && Contents() == Without(old(Contents()), i)
    {
      ghost var was := Contents();
      forall k | i <= k < numDevices - 1 {
        devices[k] := devices[k + 1];
      }
      numDevices := numDevices - 1;
      ShiftIsWithout(was, Contents(), i);
    }
  }

  lemma ShiftIsWithout(t: Table, t': Table, i: nat)
    requires i < |t| && |t'| == |t| - 1
    requires forall k :: 0 <= k < i ==> t'[k] == t[k]
    requires forall k :: i <= k < |t'| ==> t'[k] == t[k + 1]
    ensures t' == Without(t, i)
  {
  }

  lemma FirstIsIndexOf(t: Table, address: nat, i: nat)
    requires i <= |t| && (i < |t| ==> t[i].address == address)
    requires forall j :: 0 <= j < i ==> t[j].address != address
    ensures IndexOf(t, address) == i
  {
  }

  // ---------------------------------------------------------------- per-address queues

  /** The devices at one address, oldest first. */
  function QueueOf(t: Table, a: nat): seq<Device> {
    if t == [] then []
    else QueueOf(t[..|t| - 1], a) + if t[|t| - 1].address == a then [t[|t| - 1]] else []
  }

  lemma {:induction false} QueueOfConcat(s: Table, t: Table, a: nat)
    ensures QueueOf(s + t, a) == QueueOf(s, a) + QueueOf(t, a)
  {
    if t == [] {
      assert s + t == s;
    } else {
      var last := t[|t| - 1];
      QueueOfConcat(s, t[..|t| - 1], a);
      assert (s + t)[..|s + t| - 1] == s + t[..|t| - 1];
      assert QueueOf(s, a) + (QueueOf(t[..|t| - 1], a) + if last.address == a then [last] else []) ==
             (QueueOf(s, a) + QueueOf(t[..|t| - 1], a)) + if last.address == a then [last] else [];
    }
  }

  lemma {:induction false} NoneInQueue(t: Table, a: nat)
    requires forall j :: 0 <= j < |t| ==> t[j].address != a
    ensures QueueOf(t, a) == []
  {
    if t != [] {
      NoneInQueue(t[..|t| - 1], a);
    }
  }

  function Alone(d: Device, a: nat): seq<Device> {
    if d.address == a then [d] else []
  }

  lemma QueueAround(front: Table, d: Device, back: Table, a: nat)
    ensures QueueOf(front + ([d] + back), a) == QueueOf(front, a) + (Alone(d, a) + QueueOf(back, a))
  {
    QueueOfConcat(front, [d] + back, a);
    QueueOfConcat([d], back, a);
    assert [d][..0] == [];
    assert QueueOf([d], a) == Alone(d, a);
  }

  /** The first device of an address is the front of its queue; taking it out moves no other queue. */
  lemma QueueSplits(t: Table, i: nat, b: nat)
    requires i < |t| && i == IndexOf(t, t[i].address)
    ensures QueueOf(t, b) == Alone(t[i], b) + QueueOf(Without(t, i), b)
  {
    var front, back := t[..i], t[i + 1..];
    assert t == front + ([t[i]] + back);
    QueueAround(front, t[i], back, b);
    QueueOfConcat(front, back, b);
    if b == t[i].address {
      NoneInQueue(front, b);
    }
    Rearranged(QueueOf(front, b), Alone(t[i], b), QueueOf(back, b));
  }

  lemma Rearranged(front: Table, x: Table, back: Table)
    requires front == [] || x == []
    ensures front + (x + back) == x + (front + back)
  {
  }

  lemma EmptyQueueIffAbsent(t: Table, a: nat)
    ensures QueueOf(t, a) == [] <==> IndexOf(t, a) == |t|
  {
    if IndexOf(t, a) == |t| {
      NoneInQueue(t, a);
    } else {
      QueueSplits(t, IndexOf(t, a), a);
    }
  }

  // ---------------------------------------------------------------- refinement

  /** The abstract table: one queue for every address, sharing a number of free places. */
  datatype Family = Family(queue: nat -> seq<Device>, free: nat)

  function FamilyStep(f: Family, op: Op): (Family, Result) {
    match op
    case Attach(d, descriptor) =>
      if f.free == 0 then (f, Rejected)
      else
        var d' := d.(descriptor := descriptor);
        (Family((a: nat) => if a == d.address then f.queue(a) + [d'] else f.queue(a), f.free - 1), Done)
    case Detach(a) =>
      if a >= 32 || f.queue(a) == [] then (f, Rejected)
      else (Family((b: nat) => if b == a && f.queue(b) != [] then f.queue(b)[1..] else f.queue(b), f.free + 1), Done)
    case Find(a) =>
      if a >= 32 || f.queue(a) == [] then (f, NotFound) else (f, Found(f.queue(a)[0]))
  }

  ghost predicate Represents(t: Table, f: Family) {
    f.free + |t| == 32 && forall a :: f.queue(a) == QueueOf(t, a)
  }

  /** Attach enqueues, Find shows the oldest survivor, Detach dequeues it, and no other address notices. */
  lemma StepRefines(t: Table, f: Family, op: Op)
    requires Represents(t, f)
    ensures Step(t, op).1 == FamilyStep(f, op).1
    ensures Represents(Step(t, op).0, FamilyStep(f, op).0)
  {
    match op
    case Attach(d, descriptor) =>
      var d' := d.(descriptor := descriptor);
      assert (t + [d'])[..|t|] == t;
    case Detach(a) =>
      EmptyQueueIffAbsent(t, a);
      if a < 32 && IndexOf(t, a) < |t| {
        forall b: nat ensures QueueOf(t, b) == Alone(t[IndexOf(t, a)], b) + QueueOf(Without(t, IndexOf(t, a)), b) {
          QueueSplits(t, IndexOf(t, a), b);
        }
      }
    case Find(a) =>
      EmptyQueueIffAbsent(t, a);
      if a < 32 && IndexOf(t, a) < |t| {
        QueueSplits(t, IndexOf(t, a), a);
      }
  }

  function Run(t: Table, ops: seq<Op>): (Table, seq<Result>) {
    if ops == [] then (t, [])
    else
      var (t1, results) := Run(t, ops[..|ops| - 1]);
      var (t2, result) := Step(t1, ops[|ops| - 1]);
      (t2, results + [result])
  }

  function FamilyRun(f: Family, ops: seq<Op>): (Family, seq<Result>) {
    if ops == [] then (f, [])
    else
      var (f1, results) := FamilyRun(f, ops[..|ops| - 1]);
      var (f2, result) := FamilyStep(f1, ops[|ops| - 1]);
      (f2, results + [result])
  }

  /** Every run of the table answers as the family of queues does. */
  lemma {:induction false} RunRefines(t: Table, f: Family, ops: seq<Op>)
    requires Represents(t, f)
    ensures Run(t, ops).1 == FamilyRun(f, ops).1
    ensures Represents(Run(t, ops).0, FamilyRun(f, ops).0)
  {
    if ops != [] {
      var front := ops[..|ops| - 1];
      RunRefines(t, f, front);
      StepRefines(Run(t, front).0, FamilyRun(f, front).0, ops[|ops| - 1]);
    }
  }

  // ---------------------------------------------------------------- whole-run laws

  /** The device a step attaches, if any. */
  function Arrival(t: Table, op: Op): seq<Device> {
    if op.Attach? && |t| < 32 then [op.device.(descriptor := op.descriptor)] else []
  }

  /** 1 if the step detaches a device of address a. */
  function Departure(t: Table, op: Op, a: nat): nat {
    if op == Detach(a) && Step(t, op).1 == Done then 1 else 0
  }

  /** The devices a run attaches, in order. */
  function Attached(t: Table, ops: seq<Op>): seq<Device> {
    if ops == [] then []
    else Attached(t, ops[..|ops| - 1]) + Arrival(Run(t, ops[..|ops| - 1]).0, ops[|ops| - 1])
  }

  /** How many detaches of an address succeed in a run. */
  function Detached(t: Table, ops: seq<Op>, a: nat): nat {
    if ops == [] then 0
    else Detached(t, ops[..|ops| - 1], a) + Departure(Run(t, ops[..|ops| - 1]).0, ops[|ops| - 1], a)
  }

  /** First in, first out: after any run the queue of an address is what it held at first, then everything attached to
      it, without as many of the oldest as were detached. */
  lemma {:induction false} QueueLaw(t: Table, ops: seq<Op>, a: nat)
    ensures var arrivals := QueueOf(t, a) + QueueOf(Attached(t, ops), a);
            Detached(t, ops, a) <= |arrivals| && QueueOf(Run(t, ops).0, a) == arrivals[Detached(t, ops, a)..]
  {
    if ops == [] {
      assert QueueOf(t, a) + [] == QueueOf(t, a);
    } else {
      var front, op := ops[..|ops| - 1], ops[|ops| - 1];
      QueueLaw(t, front, a);
      var t1, k := Run(t, front).0, Detached(t, front, a);
      StepLaw(t1, op, a);
      QueueOfConcat(Attached(t, front), Arrival(t1, op), a);
      SuffixGrows(QueueOf(t, a), QueueOf(Attached(t, front), a), QueueOf(Arrival(t1, op), a), k, Departure(t1, op, a), QueueOf(t1, a));
    }
  }

  lemma SuffixGrows(first: Table, attached: Table, more: Table, k: nat, gone: nat, q: Table)
    requires k <= |first + attached| && q == (first + attached)[k..] && gone <= |q|
    ensures k + gone <= |first + (attached + more)|
    ensures q[gone..] + more == (first + (attached + more))[k + gone..]
  {
  }

  /** One step on one queue: an attach adds at the back, a successful detach takes from the front. */
  lemma StepLaw(t: Table, op: Op, a: nat)
    ensures Departure(t, op, a) <= |QueueOf(t, a)|
    ensures QueueOf(Step(t, op).0, a) == QueueOf(t, a)[Departure(t, op, a)..] + QueueOf(Arrival(t, op), a)
  {
    var q := QueueOf(t, a);
    assert q[0..] == q && q + [] == q;
    if op.Attach? && |t| < 32 {
      QueueOfConcat(t, Arrival(t, op), a);
    } else if op.Detach? && op.address < 32 && IndexOf(t, op.address) < |t| {
      DetachLaw(t, op.address, a);
    }
  }

  lemma DetachLaw(t: Table, address: nat, a: nat)
    requires IndexOf(t, address) < |t|
    ensures var q, gone := QueueOf(t, a), if address == a then 1 else 0;
            gone <= |q| && QueueOf(Without(t, IndexOf(t, address)), a) == q[gone..]
  {
    QueueSplits(t, IndexOf(t, address), a);
  }

  /** Conservation: entries of an address below 32 are those at first, plus attached, minus detached, and Find sees one
      exactly when that number is positive; at 32 and above nothing is ever detached or found. */
  lemma EntriesAreConserved(t: Table, ops: seq<Op>, a: nat)
    ensures var t' := Run(t, ops).0;
            && |QueueOf(t', a)| == |QueueOf(t, a)| + |QueueOf(Attached(t, ops), a)| - Detached(t, ops, a)
            && (a < 32 ==> (Step(t', Find(a)).1.Found? <==> |QueueOf(t', a)| > 0))
            && (a >= 32 ==> Detached(t, ops, a) == 0 && Step(t', Find(a)).1 == NotFound)
  {
    QueueLaw(t, ops, a);
    EmptyQueueIffAbsent(Run(t, ops).0, a);
    if a >= 32 {
      NothingDetachedAbove(t, ops, a);
    }
  }

  lemma {:induction false} NothingDetachedAbove(t: Table, ops: seq<Op>, a: nat)
    requires a >= 32
    ensures Detached(t, ops, a) == 0
  {
    if ops != [] {
      NothingDetachedAbove(t, ops[..|ops| - 1], a);
    }
  }

  lemma AbsenceAfterRemoval(t: Table, i: nat, b: nat)
    requires i < |t| && IndexOf(t, b) == |t|
    ensures IndexOf(Without(t, i), b) == |t| - 1
  {
    FirstIsIndexOf(Without(t, i), b, |t| - 1);
  }

  lemma RemovalsCommute(t: Table, i: nat, j: nat)
    requires i < j < |t|
    ensures Without(Without(t, i), j - 1) == Without(Without(t, j), i)
  {
  }

  lemma IndexAfterRemoval(t: Table, a: nat, b: nat)
    requires a != b && IndexOf(t, a) < |t| && IndexOf(t, b) < |t|
    ensures var i, j := IndexOf(t, a), IndexOf(t, b);
            IndexOf(Without(t, i), b) == if j < i then j else j - 1
  {
    var i, j := IndexOf(t, a), IndexOf(t, b);
    FirstIsIndexOf(Without(t, i), b, if j < i then j else j - 1);
  }

  lemma PresentDetachesCommute(t: Table, a: nat, b: nat, i: nat, j: nat)
    requires a != b && i == IndexOf(t, a) && j == IndexOf(t, b) && i < j < |t|
    ensures IndexOf(Without(t, i), b) == j - 1 && IndexOf(Without(t, j), a) == i
    ensures Without(Without(t, i), j - 1) == Without(Without(t, j), i)
  {
    IndexAfterRemoval(t, a, b);
    IndexAfterRemoval(t, b, a);
    RemovalsCommute(t, i, j);
  }

  /** A detach that finds nothing still finds nothing after a detach elsewhere. */
  lemma AbsentDetachCommutes(t: Table, a: nat, b: nat)
    requires IndexOf(t, b) == |t|
    ensures var t' := Step(t, Detach(a)).0; Step(t', Detach(b)) == (t', Rejected)
  {
    if IndexOf(t, a) < |t| {
      AbsenceAfterRemoval(t, IndexOf(t, a), b);
    }
  }

  /** Detaching a and then b. */
  function DetachBoth(t: Table, a: nat, b: nat): Table {
    Step(Step(t, Detach(a)).0, Detach(b)).0
  }

  lemma OneAbsent(t: Table, a: nat, b: nat)
    requires a != b && IndexOf(t, b) == |t|
    ensures DetachBoth(t, a, b) == DetachBoth(t, b, a)
    ensures Step(Step(t, Detach(a)).0, Detach(b)).1 == Step(t, Detach(b)).1
    ensures Step(Step(t, Detach(b)).0, Detach(a)).1 == Step(t, Detach(a)).1
  {
    AbsentDetachCommutes(t, a, b);
  }

  lemma BothPresent(t: Table, a: nat, b: nat)
    requires a != b && IndexOf(t, a) < IndexOf(t, b) < |t|
    ensures DetachBoth(t, a, b) == DetachBoth(t, b, a)
    ensures Step(Step(t, Detach(a)).0, Detach(b)).1 == Step(t, Detach(b)).1
    ensures Step(Step(t, Detach(b)).0, Detach(a)).1 == Step(t, Detach(a)).1
  {
    PresentDetachesCommute(t, a, b, IndexOf(t, a), IndexOf(t, b));
  }

  /** Removals at different addresses commute, answers included. */
  lemma DetachesCommute(t: Table, a: nat, b: nat)
    requires a != b
    ensures DetachBoth(t, a, b) == DetachBoth(t, b, a)
    ensures Step(Step(t, Detach(a)).0, Detach(b)).1 == Step(t, Detach(b)).1
  {
    if IndexOf(t, b) == |t| {
      OneAbsent(t, a, b);
    } else if IndexOf(t, a) == |t| {
      OneAbsent(t, b, a);
    } else if IndexOf(t, a) < IndexOf(t, b) {
      BothPresent(t, a, b);
    } else {
      BothPresent(t, b, a);
    }
  }

  /** s arises from t by leaving devices out. */
  ghost predicate Subsequence(s: Table, t: Table) {
    if s == [] then true
    else if t == [] then false
    else
      var s', t' := s[..|s| - 1], t[..|t| - 1];
      (s[|s| - 1] == t[|t| - 1] && Subsequence(s', t')) || Subsequence(s, t')
  }

  lemma {:induction false} SubsequenceOfSelf(s: Table)
    ensures Subsequence(s, s)
  {
    if s != [] {
      SubsequenceOfSelf(s[..|s| - 1]);
    }
  }

  lemma {:induction false} RemovalKeepsSubsequence(s: Table, t: Table, i: nat)
    requires Subsequence(s, t) && i < |s|
    ensures Subsequence(Without(s, i), t)
    decreases |t|
  {
    var s', t' := s[..|s| - 1], t[..|t| - 1];
    if s[|s| - 1] == t[|t| - 1] && Subsequence(s', t') {
      if i == |s| - 1 {
        assert Without(s, i) == s';
        SkipOne(s', t);
      } else {
        RemovalKeepsSubsequence(s', t', i);
        assert Without(s, i)[..|s| - 2] == Without(s', i);
      }
    } else {
      RemovalKeepsSubsequence(s, t', i);
      SkipOne(Without(s, i), t);
    }
  }

  lemma SkipOne(s: Table, t: Table)
    requires t != [] && Subsequence(s, t[..|t| - 1])
    ensures Subsequence(s, t)
  {
  }

  lemma ConcatAssociates(s: Table, t: Table, u: Table)
    ensures (s + t) + u == s + (t + u)
  {
  }

  /** The table always lists devices in the order in which they came. */
  lemma {:induction false} OrderIsKept(t: Table, ops: seq<Op>)
    ensures Subsequence(Run(t, ops).0, t + Attached(t, ops))
  {
    if ops == [] {
      SubsequenceOfSelf(t);
      assert t + [] == t;
    } else {
      var front := ops[..|ops| - 1];
      var t1, came, more := Run(t, front).0, Attached(t, front), Arrival(Run(t, front).0, ops[|ops| - 1]);
      OrderIsKept(t, front);
      StepKeepsOrder(t1, ops[|ops| - 1], t + came);
      ConcatAssociates(t, came, more);
    }
  }

  lemma StepKeepsOrder(t: Table, op: Op, came: Table)
    requires Subsequence(t, came)
    ensures Subsequence(Step(t, op).0, came + Arrival(t, op))
  {
    if op.Attach? && |t| < 32 {
      var d := op.device.(descriptor := op.descriptor);
      assert (came + [d])[..|came|] == came && (t + [d])[..|t|] == t;
    } else {
      assert came + [] == came;
      if op.Detach? && op.address < 32 && IndexOf(t, op.address) < |t| {
        RemovalKeepsSubsequence(t, came, IndexOf(t, op.address));
      }
    }
  }

  // ---------------------------------------------------------------- lost capacity

  /** Entries no operation can reach. */
  function Unreachable(t: Table): nat {
    if t == [] then 0 else Unreachable(t[..|t| - 1]) + if t[|t| - 1].address >= 32 then 1 else 0
  }

  lemma {:induction false} UnreachableConcat(s: Table, t: Table)
    ensures Unreachable(s + t) == Unreachable(s) + Unreachable(t) && Unreachable(t) <= |t|
  {
    if t == [] {
      assert s + t == s;
    } else {
      UnreachableConcat(s, t[..|t| - 1]);
      assert (s + t)[..|s + t| - 1] == s + t[..|t| - 1];
    }
  }

  /** Devices attached at 32 or above hold their slots for good: once there are u of them, no run leaves more than
      32 - u slots to all other addresses together. */
  lemma {:induction false} CapacityIsLost(t: Table, ops: seq<Op>)
    requires |t| <= 32
    ensures var t' := Run(t, ops).0;
            && |t'| <= 32
            && Unreachable(t) <= Unreachable(t')
            && |t'| - Unreachable(t') <= 32 - Unreachable(t)
  {
    if ops != [] {
      var front, op := ops[..|ops| - 1], ops[|ops| - 1];
      CapacityIsLost(t, front);
      StepLosesNone(Run(t, front).0, op);
    }
  }

  lemma StepLosesNone(t: Table, op: Op)
    requires |t| <= 32
    ensures var t' := Step(t, op).0;
            |t'| <= 32 && Unreachable(t) <= Unreachable(t')
  {
    if op.Attach? && |t| < 32 {
      UnreachableConcat(t, Arrival(t, op));
    } else if op.Detach? && op.address < 32 && IndexOf(t, op.address) < |t| {
      RemovalLosesNone(t, IndexOf(t, op.address));
    }
  }

  lemma OneReachable(d: Device)
    requires d.address < 32
    ensures Unreachable([d]) == 0
  {
    assert [d][..0] == [];
  }

  lemma RemovalLosesNone(t: Table, i: nat)
    requires i < |t| && t[i].address < 32
    ensures Unreachable(Without(t, i)) == Unreachable(t)
  {
    var front, back := t[..i], t[i + 1..];
    assert t == front + ([t[i]] + back);
    UnreachableConcat(front, [t[i]] + back);
    UnreachableConcat([t[i]], back);
    UnreachableConcat(front, back);
    OneReachable(t[i]);
  }
}
