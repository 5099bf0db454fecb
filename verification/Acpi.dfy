/** ACPI table discovery over a memory image (src/drivers/acpi/acpi_driver.c:33-157). */
module Acpi {
  import opened RtTypes

  type Byte = b: int | 0 <= b < 256

  /** Physical memory. */
  type Memory = nat -> Byte

  const RSDP_ADDRESS: nat := 0xE0000
  const RSDP_WINDOW: nat := 0xFFFFF
  const CANDIDATES: nat := 0x1_0000
  const RSDP_SIZE: nat := 36
  const HEADER_SIZE: nat := 36
  const TABLE_MAX: nat := 7
  const U32_BYTES: nat := 4
  const U64_BYTES: nat := 8
  const RSDP_SIGNATURE: string := "RSD PTR "
  const RSDT_SIGNATURE: string := "RSDT"

  // ---------------------------------------------------------------- bytes and checksums

  function Sum(mem: Memory, a: nat, n: nat): nat {
    if n == 0 then 0 else Sum(mem, a, n - 1) + mem(a + n - 1)
  }

  function LittleEndian(mem: Memory, a: nat, n: nat): nat
    decreases n
  {
    if n == 0 then 0 else mem(a) + 256 * LittleEndian(mem, a + 1, n - 1)
  }

  /** memcmp(a, signature) == 0 */
  predicate Matches(mem: Memory, a: nat, signature: seq<char>) {
    forall i :: 0 <= i < |signature| ==> mem(a + i) == signature[i] as int
  }

  /** The length field of a table header. */
  function TableLength(mem: Memory, table: nat): nat {
    LittleEndian(mem, table + 4, U32_BYTES)
  }

  /** The bytes of a table, as many as it says it has, sum to 0 modulo 256. */
  predicate TableValid(mem: Memory, table: nat) {
    Sum(mem, table, TableLength(mem, table)) % 256 == 0
  }

  predicate IsRsdp(mem: Memory, a: nat) {
    Matches(mem, a, RSDP_SIGNATURE) && Sum(mem, a, RSDP_SIZE) % 256 == 0
  }

  function Candidate(k: nat): nat {
    RSDP_ADDRESS + 16 * k
  }

  ghost function RsdpTest(mem: Memory): iset<nat> {
    iset k: nat | IsRsdp(mem, Candidate(k))
  }

  /** The least number below n that passes a test. */
  ghost function Lowest(test: iset<nat>, n: nat): (r: Option<nat>)
    ensures r.Some? ==> r.value < n && r.value in test && forall j: nat :: j < r.value ==> j !in test
    ensures r.None? ==> forall j: nat :: j < n ==> j !in test
  {
    if n == 0 then None
    else
      var r := Lowest(test, n - 1);
      if r.Some? then r else if n - 1 in test then Some(n - 1) else None
  }

  /** The number of the candidate that the scan must return. */
  ghost function FirstRsdp(mem: Memory): Option<nat> {
    Lowest(RsdpTest(mem), CANDIDATES)
  }

  // ---------------------------------------------------------------- the root table

  function EntrySize(wide: bool): nat {
    if wide then U64_BYTES else U32_BYTES
  }

  /** The number of entries: (length - 36) / 8 or / 4 in 64-bit arithmetic, kept in 32 bits. */
  function EntryCount(length: nat, wide: bool): nat {
    ((length - HEADER_SIZE) % 0x1_0000_0000_0000_0000) / EntrySize(wide) % U32
  }

  function Entry(mem: Memory, base: nat, wide: bool, i: nat): nat {
    LittleEndian(mem, if wide then base + 8 * i else base + 4 * i, EntrySize(wide))
  }

  function Entries(mem: Memory, base: nat, wide: bool, n: nat): (r: seq<nat>)
    ensures |r| == n && forall i :: 0 <= i < n ==> r[i] == Entry(mem, base, wide, i)
  {
    seq(n, i requires 0 <= i => Entry(mem, base, wide, i))
  }

  ghost predicate AreEntries(mem: Memory, base: nat, wide: bool, entries: seq<nat>) {
    forall i: nat {:trigger Entry(mem, base, wide, i)} :: i < |entries| ==> entries[i] == Entry(mem, base, wide, i)
  }

  ghost predicate CollectsValid(mem: Memory, test: iset<nat>) {
    forall t: nat {:trigger TableValid(mem, t)} :: TableValid(mem, t) <==> t in test
  }

  ghost function ValidTest(mem: Memory): iset<nat> {
    iset table: nat | TableValid(mem, table)
  }

  ghost function SignatureTest(mem: Memory, signature: seq<char>): iset<nat> {
    iset table: nat | Matches(mem, table, signature)
  }

  function NextStored(stored: seq<nat>, table: nat, valid: bool): seq<nat> {
    if valid then stored + [table] else stored
  }

  /** A list of stored tables, extended by those of the first n given tables that pass a test, in order. */
  ghost function Store(stored: seq<nat>, test: iset<nat>, tables: seq<nat>, n: nat): seq<nat>
    requires n <= |tables|
  {
    if n == 0 then stored
    else NextStored(Store(stored, test, tables, n - 1), tables[n - 1], tables[n - 1] in test)
  }

  /** The first table that passes a test. */
  ghost function First(test: iset<nat>, tables: seq<nat>): Option<nat> {
    if tables == [] then None
    else if tables[0] in test then Some(tables[0])
    else First(test, tables[1..])
  }

  /** rsdp is the driver's own copy of the root pointer. */
  datatype State = State(state: DriverState, rsdp: seq<Byte>, acpi20: bool, tables: seq<nat>)

  function Copy(mem: Memory, a: nat): seq<Byte> {
    seq(RSDP_SIZE, i requires 0 <= i < RSDP_SIZE => mem(a + i))
  }

  /** A little-endian field of the copied root pointer. */
  function Field(rsdp: seq<Byte>, offset: nat, size: nat): nat {
    LittleEndian((a: nat) => if a < |rsdp| then rsdp[a] else 0, offset, size)
  }

  function XsdtAddress(rsdp: seq<Byte>): nat {
    Field(rsdp, 24, U64_BYTES)
  }

  function RsdtAddress(rsdp: seq<Byte>): nat {
    Field(rsdp, 16, U32_BYTES)
  }

  function RootTable(s: State): nat {
    if s.acpi20 then XsdtAddress(s.rsdp) else RsdtAddress(s.rsdp)
  }

  predicate RootAccepted(mem: Memory, s: State) {
    Matches(mem, RootTable(s), RSDT_SIGNATURE) && TableValid(mem, RootTable(s))
  }

  /** The entries of the root table, read as the code does from the address that its length field gives. */
  function RootEntries(mem: Memory, s: State): seq<nat> {
    var length := TableLength(mem, RootTable(s));
    Entries(mem, length, s.acpi20, EntryCount(length, s.acpi20))
  }

  /** How many of the first n tables pass a test. */
  ghost function Count(test: iset<nat>, tables: seq<nat>, n: nat): nat
    requires n <= |tables|
  {
    if n == 0 then 0 else Count(test, tables, n - 1) + if tables[n - 1] in test then 1 else 0
  }

  /** The free slots suffice for the valid entries of the root table. */
  ghost predicate HasRoom(mem: Memory, s: State) {
    |s.tables| + Count(ValidTest(mem), RootEntries(mem, s), |RootEntries(mem, s)|) <= TABLE_MAX
  }

  ghost function Loaded(mem: Memory, s: State): seq<nat> {
    Store(s.tables, ValidTest(mem), RootEntries(mem, s), |RootEntries(mem, s)|)
  }

  function Upto(list: seq<nat>, n: nat): seq<nat> {
    if |list| <= n then list else list[..n]
  }

  /** A return code, or the first store past the end of the array (which the code does not check, and behind which its
      struct keeps acpi_2_0_supported and num_tables): nothing is said about what the original does from there on. */
  datatype Outcome = Code(code: ErrorCode) | Overrun

  ghost function Load(mem: Memory, s: State): (State, Outcome) {
    if s.state != Initializing then (s, Code(InvalidParameter))
    else if !RootAccepted(mem, s) then (s, Code(HardwareFault))
    else (s.(tables := Upto(Loaded(mem, s), TABLE_MAX)), if HasRoom(mem, s) then Code(Success) else Overrun)
  }

  /** The state once the root pointer at an address has been found: copied, and checked for revision 2. */
  function Detect(mem: Memory, s: State, address: nat): State {
    var rsdp := Copy(mem, address);
    s.(rsdp := rsdp, acpi20 := s.acpi20 || (rsdp[15] >= 2 && XsdtAddress(rsdp) != 0))
  }

  ghost function Initialize(mem: Memory, s: State): (State, Outcome) {
    match FirstRsdp(mem)
    case None => (s, Code(HardwareFault))
    case Some(k) =>
      var (s', r) := Load(mem, Detect(mem, s, Candidate(k)));
      if r == Code(Success) then (s'.(state := Ready), r) else (s', r)
  }

  ghost function Lookup(mem: Memory, s: State, signature: seq<char>): Option<nat> {
    if s.state != Ready then None else First(SignatureTest(mem, signature), s.tables)
  }

  // ---------------------------------------------------------------- the driver

  lemma LowByteOfSum(sum: nat, b: Byte)
    ensures (sum % 256 + b) % 256 == (sum + b) % 256
  {
  }

  /** The 8-bit accumulator over n bytes. */
  method Accumulate(mem: Memory, a: nat, n: nat) returns (sum: Byte)
    ensures sum == Sum(mem, a, n) % 256
  {
    sum := 0;
    var i := 0;
    while i < n
      invariant i <= n && sum == Sum(mem, a, i) % 256
    {
      LowByteOfSum(Sum(mem, a, i), mem(a + i));
      sum := (sum + mem(a + i)) % 256;
      i := i + 1;
    }
  }

  class AcpiDriver {
    var state: DriverState
    var rsdp: seq<Byte>
    var acpi20: bool
    const tables: array<nat>
    var numTables: nat

    ghost predicate Valid()
      reads this, tables
    {
      tables.Length == TABLE_MAX && numTables <= TABLE_MAX && |rsdp| == RSDP_SIZE
    }

    ghost function View(): State
      requires Valid()
      reads this, tables
    {
      State(state, rsdp, acpi20, tables[..numTables])
    }

    constructor ()
      ensures Valid() && fresh(tables) && state == Uninitialized && View().tables == [] && !acpi20
    {
      state, rsdp, acpi20, numTables := Uninitialized, seq(RSDP_SIZE, _ => 0), false, 0;
      tables := new nat[TABLE_MAX](_ => 0);
    }

    /** Scan the window in steps of 16 for the signature and a zero checksum. */
    method FindRsdp(mem: Memory) returns (found: bool)
      requires Valid()
      modifies this`rsdp
      ensures Valid()
      ensures found <==> FirstRsdp(mem).Some?
      ensures rsdp == if found then Copy(mem, Candidate(FirstRsdp(mem).value)) else old(rsdp)
    {
      var address := RSDP_ADDRESS;
      ghost var k: nat, test := 0, RsdpTest(mem);
      while address < RSDP_ADDRESS + RSDP_WINDOW
        invariant address == Candidate(k) && k <= CANDIDATES
        invariant Lowest(test, k) == None && rsdp == old(rsdp)
      {
        found := CheckRsdp(mem, address);
        if found {
          assert k in test;
          LowestIs(test, k, CANDIDATES);
          rsdp := Copy(mem, address);
          return true;
        }
        address := address + 16;
        k := k + 1;
      }
      assert k == CANDIDATES;
      return false;
    }

    method CheckRsdp(mem: Memory, address: nat) returns (ok: bool)
      ensures ok <==> IsRsdp(mem, address)
    {
      if !Matches(mem, address, RSDP_SIGNATURE) {
        return false;
      }
      var sum := Accumulate(mem, address, RSDP_SIZE);
      return sum == 0;
    }

    method CheckTableChecksum(mem: Memory, table: nat) returns (ok: bool)
      ensures ok <==> TableValid(mem, table)
    {
      var sum := Accumulate(mem, table, TableLength(mem, table));
      return sum == 0;
    }

    method LoadTables(mem: Memory) returns (r: Outcome)
      requires Valid()
      modifies this`numTables, tables
      ensures Valid() && (View(), r) == Load(mem, old(View()))
    {
      if state != Initializing {
        return Code(InvalidParameter);
      }
      var root := if acpi20 then XsdtAddress(rsdp) else RsdtAddress(rsdp);
      if !Matches(mem, root, RSDT_SIGNATURE) {
        return Code(HardwareFault);
      }
      var ok := CheckTableChecksum(mem, root);
      if !ok {
        return Code(HardwareFault);
      }
      var length := TableLength(mem, root);
      var n := EntryCount(length, acpi20);
      StoreIsCounted(View().tables, ValidTest(mem), Entries(mem, length, acpi20, n), n);
      var overrun := StoreEntries(mem, length, acpi20, n, Entries(mem, length, acpi20, n), ValidTest(mem));
      return if overrun then Overrun else Code(Success);
    }

    /** The loop over the entries, which it reads from address length on; test collects the valid tables. It ends at the
        store that would fall outside the array. */
    method StoreEntries(mem: Memory, length: nat, wide: bool, n: nat, ghost entries: seq<nat>, ghost test: iset<nat>)
      returns (overrun: bool)
      requires n == |entries| && AreEntries(mem, length, wide, entries) && CollectsValid(mem, test)
      requires Valid()
      modifies this`numTables, tables
      ensures Valid() && View().tables == Upto(Store(old(View().tables), test, entries, n), TABLE_MAX)
      ensures overrun <==> |Store(old(View().tables), test, entries, n)| > TABLE_MAX
    {
      ghost var stored := View().tables;
      var i := 0;
      while i < n
        invariant i <= n && Valid()
        invariant View().tables == Store(stored, test, entries, i)
      {
        StoreGrows(stored, test, entries, i + 1, n);
        var table, valid := ExamineEntry(mem, length, wide, i, entries, test);
        if valid {
          if numTables == TABLE_MAX {
            return true;
          }
          Append(table);
        }
        i := i + 1;
      }
      return false;
    }

    method ExamineEntry(mem: Memory, length: nat, wide: bool, i: nat, ghost entries: seq<nat>, ghost test: iset<nat>)
      returns (table: nat, valid: bool)
      requires i < |entries| && AreEntries(mem, length, wide, entries) && CollectsValid(mem, test)
      ensures table == entries[i] && (valid <==> table in test)
    {
      table := Entry(mem, length, wide, i);
      valid := CheckTableChecksum(mem, table);
    }

    method Append(table: nat)
      requires Valid() && numTables < TABLE_MAX
      modifies this`numTables, tables
      ensures Valid() && View().tables == old(View().tables) + [table]
    {
      tables[numTables] := table;
      numTables := numTables + 1;
    }

    method Init(mem: Memory) returns (r: Outcome)
      requires Valid()
      modifies this, tables
      ensures Valid() && (View(), r) == Initialize(mem, old(View()))
    {
      var found := FindRsdp(mem);
      if !found {
        return Code(HardwareFault);
      }
      if rsdp[15] >= 2 && XsdtAddress(rsdp) != 0 {
        acpi20 := true;
      }
      assert View() == Detect(mem, old(View()), Candidate(FirstRsdp(mem).value));
      r := LoadTables(mem);
      if r != Code(Success) {
        return;
      }
      state := Ready;
    }

    method FindTable(mem: Memory, signature: seq<char>) returns (table: Option<nat>)
      requires Valid() && |signature| == 4
      ensures table == Lookup(mem, View(), signature)
    {
      if state != Ready {
        return None;
      }
      var i := 0;
      while i < numTables
        invariant i <= numTables
        invariant First(SignatureTest(mem, signature), tables[..numTables]) ==
                  First(SignatureTest(mem, signature), tables[i..numTables])
      {
        assert tables[i..numTables][1..] == tables[i + 1..numTables];
        if Matches(mem, tables[i], signature) {
          return Some(tables[i]);
        }
        i := i + 1;
      }
      return None;
    }
  }

  lemma LowestIs(test: iset<nat>, k: nat, n: nat)
    requires k < n && k in test && Lowest(test, k) == None
    ensures Lowest(test, n) == Some(k)
  {
    var r := Lowest(test, n);
    assert r.Some? && r.value == k;
  }

  lemma {:induction false} StoreGrows(stored: seq<nat>, test: iset<nat>, tables: seq<nat>, m: nat, n: nat)
    requires m <= n <= |tables|
    ensures Store(stored, test, tables, m) <= Store(stored, test, tables, n)
  {
    if m < n {
      StoreGrows(stored, test, tables, m, n - 1);
    }
  }

  // ---------------------------------------------------------------- what is stored and found

  lemma {:induction false} StoreIsCounted(stored: seq<nat>, test: iset<nat>, tables: seq<nat>, n: nat)
    requires n <= |tables|
    ensures stored <= Store(stored, test, tables, n)
    ensures |Store(stored, test, tables, n)| == |stored| + Count(test, tables, n)
  {
    if n > 0 {
      StoreIsCounted(stored, test, tables, n - 1);
    }
  }

  /** Storing keeps the old list in front and is order-preserving selection: every valid table, and nothing else, goes to
      the slot numbered by how many valid tables precede it. */
  lemma {:induction false} StoredAtRank(stored: seq<nat>, test: iset<nat>, tables: seq<nat>, n: nat, i: nat)
    requires i < n <= |tables| && tables[i] in test
    ensures var all := Store(stored, test, tables, n);
            && stored <= all && |all| == |stored| + Count(test, tables, n)
            && Count(test, tables, i) < Count(test, tables, n)
            && all[|stored| + Count(test, tables, i)] == tables[i]
  {
    StoreIsCounted(stored, test, tables, n);
    StoreIsCounted(stored, test, tables, n - 1);
    if i < n - 1 {
      StoredAtRank(stored, test, tables, n - 1, i);
    }
  }

  /** r is the first element of the list that is wanted, or None if none is. */
  ghost predicate IsFirstOf(r: Option<nat>, wanted: iset<nat>, list: seq<nat>) {
    && (r.None? <==> forall k :: 0 <= k < |list| ==> list[k] !in wanted)
    && (r.Some? ==> exists k ::
          (0 <= k < |list| && r.value == list[k] && list[k] in wanted && forall j :: 0 <= j < k ==> list[j] !in wanted))
  }

  lemma {:induction false} FirstIsFirst(test: iset<nat>, tables: seq<nat>)
    ensures IsFirstOf(First(test, tables), test, tables)
  {
    if tables != [] {
      var tail := tables[1..];
      FirstIsFirst(test, tail);
      assert forall j :: 1 <= j < |tables| ==> tables[j] == tail[j - 1];
      if tables[0] !in test && First(test, tail).Some? {
        var k :| 0 <= k < |tail| && First(test, tail).value == tail[k] && tail[k] in test
                 && forall j :: 0 <= j < k ==> tail[j] !in test;
        assert tables[k + 1] == tail[k];
      }
    }
  }

  lemma {:induction false} FirstOneMore(test: iset<nat>, tables: seq<nat>, last: seq<nat>)
    ensures First(test, tables + last) == if First(test, tables).Some? then First(test, tables) else First(test, last)
  {
    if tables == [] {
      assert tables + last == last;
    } else {
      FirstOneMore(test, tables[1..], last);
      assert (tables + last)[1..] == tables[1..] + last;
    }
  }

  /** Searching what was stored is searching the old list, and then the new tables for one that is stored. */
  lemma {:induction false} FirstOfStored(stored: seq<nat>, keep: iset<nat>, test: iset<nat>, tables: seq<nat>, n: nat)
    requires n <= |tables|
    ensures First(test, Store(stored, keep, tables, n)) ==
            if First(test, stored).Some? then First(test, stored) else First(keep * test, tables[..n])
  {
    if n > 0 {
      FirstOfStored(stored, keep, test, tables, n - 1);
      assert tables[..n] == tables[..n - 1] + [tables[n - 1]];
      FirstOneMore(keep * test, tables[..n - 1], [tables[n - 1]]);
      FirstOneMore(test, Store(stored, keep, tables, n - 1), [tables[n - 1]]);
    }
  }

  lemma StoredSearch(stored: seq<nat>, keep: iset<nat>, test: iset<nat>, tables: seq<nat>)
    ensures var r := First(test, Store(stored, keep, tables, |tables|));
            if exists t :: t in stored && t in test then IsFirstOf(r, test, stored) else IsFirstOf(r, keep * test, tables)
  {
    FirstOfStored(stored, keep, test, tables, |tables|);
    assert tables[..|tables|] == tables;
    FirstIsFirst(test, stored);
    FirstIsFirst(keep * test, tables);
  }

  /** Loading from an accepted root table leaves the array exactly when the valid entries outnumber the free slots; a load
      that does not has stored them all. */
  lemma LoadOverrunsIff(mem: Memory, s: State)
    requires s.state == Initializing && RootAccepted(mem, s)
    ensures var entries := RootEntries(mem, s);
            var (s', outcome) := Load(mem, s);
            && (outcome == Overrun <==> |s.tables| + Count(ValidTest(mem), entries, |entries|) > 7)
            && (outcome != Overrun ==>
                  outcome == Code(Success) && s'.tables == Store(s.tables, ValidTest(mem), entries, |entries|)
                  && |s'.tables| == |s.tables| + Count(ValidTest(mem), entries, |entries|))
  {
    StoreIsCounted(s.tables, ValidTest(mem), RootEntries(mem, s), |RootEntries(mem, s)|);
  }

  // ---------------------------------------------------------------- the copied root pointer

  lemma {:induction false} SameBytesSameNumber(m: Memory, a: nat, m': Memory, a': nat, n: nat)
    requires forall x: nat :: a <= x < a + n ==> m(x) == m'(x - a + a')
    ensures LittleEndian(m, a, n) == LittleEndian(m', a', n)
    decreases n
  {
    if n > 0 {
      SameBytesSameNumber(m, a + 1, m', a' + 1, n - 1);
    }
  }

  lemma CopyKeepsField(mem: Memory, a: nat, offset: nat, size: nat)
    requires offset + size <= RSDP_SIZE
    ensures Field(Copy(mem, a), offset, size) == LittleEndian(mem, a + offset, size)
  {
    var rsdp := Copy(mem, a);
    var copy := (x: nat) => if x < |rsdp| then rsdp[x] else 0;
    forall x: nat | offset <= x < offset + size ensures copy(x) == mem(x - offset + (a + offset)) {
      assert rsdp[x] == mem(a + x);
    }
    SameBytesSameNumber(copy, offset, mem, a + offset, size);
  }

  // ---------------------------------------------------------------- lifecycle

  datatype Action = DoInit(mem: Memory) | DoLoad(mem: Memory) | DoFind(mem: Memory, signature: seq<char>)

  ghost function Perform(s: State, a: Action): State {
    match a
    case DoInit(mem) => Initialize(mem, s).0
    case DoLoad(mem) => Load(mem, s).0
    case DoFind(_, _) => s
  }

  ghost function After(s: State, run: seq<Action>): State {
    if run == [] then s else Perform(After(s, run[..|run| - 1]), run[|run| - 1])
  }

  /** A driver that starts UNINITIALIZED, as the instance in the source does, never gets out of that state: no run of its
      operations, on whatever memory, makes Init succeed, stores a table or lets a lookup find one. */
  lemma {:induction false} NeverInitialized(s: State, run: seq<Action>, mem: Memory, signature: seq<char>)
    requires s.state == Uninitialized
    ensures var s' := After(s, run);
            && s'.state == Uninitialized && s'.tables == s.tables
            && Initialize(mem, s').1 == Code(if FirstRsdp(mem).Some? then InvalidParameter else HardwareFault)
            && Lookup(mem, s', signature) == None
  {
    if run != [] {
      NeverInitialized(s, run[..|run| - 1], mem, signature);
    }
  }
}
