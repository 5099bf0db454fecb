/** Discovery end to end, on every memory image: what src/drivers/acpi/acpi_driver.c:33-158 finds, loads, refuses and looks
    up, with addresses, sizes and signatures written out in numbers. */
module AcpiDiscovery {
  import opened RtTypes
  import opened Acpi

  // ---------------------------------------------------------------- the layout, in numbers

  /** The 32-bit number at an address. */
  function Long(mem: Memory, a: nat): nat {
    mem(a) + 0x100 * mem(a + 1) + 0x1_0000 * mem(a + 2) + 0x100_0000 * mem(a + 3)
  }

  /** The 64-bit number at an address. */
  function Quad(mem: Memory, a: nat): nat {
    Long(mem, a) + 0x1_0000_0000 * Long(mem, a + 4)
  }

  predicate Signed(mem: Memory, table: nat, signature: seq<char>)
    requires |signature| == 4
  {
    && mem(table) == signature[0] as int && mem(table + 1) == signature[1] as int
    && mem(table + 2) == signature[2] as int && mem(table + 3) == signature[3] as int
  }

  predicate Checks(mem: Memory, table: nat) {
    Sum(mem, table, Long(mem, table + 4)) % 256 == 0
  }

  /** "RSD PTR " and a zero checksum over 36 bytes, at the k-th multiple of 16 from 0xE0000 on. */
  predicate PointerAt(mem: Memory, k: nat) {
    var a := 0xE0000 + 16 * k;
    && mem(a) == 0x52 && mem(a + 1) == 0x53 && mem(a + 2) == 0x44 && mem(a + 3) == 0x20
    && mem(a + 4) == 0x50 && mem(a + 5) == 0x54 && mem(a + 6) == 0x52 && mem(a + 7) == 0x20
    && Sum(mem, a, 36) % 256 == 0
  }

  /** It is the lowest one below 0xE0000 + 0xFFFFF. */
  ghost predicate IsLowest(mem: Memory, k: nat) {
    16 * k < 0xFFFFF && PointerAt(mem, k) && forall j: nat :: j < k ==> !PointerAt(mem, j)
  }

  /** The root table: its entry width, its address and its length. */
  datatype Root = Root(wide: bool, address: nat, length: nat)

  /** The root table that a pointer names; a driver that once was in 64-bit mode stays in it. */
  function RootFrom(mem: Memory, a: nat, acpi20: bool): Root {
    var wide := acpi20 || (mem(a + 15) >= 2 && Quad(mem, a + 24) != 0);
    var address := if wide then Quad(mem, a + 24) else Long(mem, a + 16);
    Root(wide, address, Long(mem, address + 4))
  }

  function RootOf(mem: Memory, k: nat, acpi20: bool): Root {
    RootFrom(mem, 0xE0000 + 16 * k, acpi20)
  }

  /** The code demands "RSDT" of both kinds of root table. */
  predicate IsGood(mem: Memory, r: Root) {
    Signed(mem, r.address, "RSDT") && Checks(mem, r.address)
  }

  /** How many entries the code takes the table to have. */
  function ListedCount(r: Root): nat {
    (r.length - 36) / (if r.wide then 8 else 4) % 0x1_0000_0000
  }

  /** Entry i, where the code reads it: counted from the address that the length names. */
  function Listed(mem: Memory, r: Root, i: nat): nat {
    if r.wide then Quad(mem, r.length + 8 * i) else Long(mem, r.length + 4 * i)
  }

  /** How many of the first n entries are valid tables. */
  function ValidListed(mem: Memory, r: Root, n: nat): nat {
    if n == 0 then 0 else ValidListed(mem, r, n - 1) + if Checks(mem, Listed(mem, r, n - 1)) then 1 else 0
  }

  // ---------------------------------------------------------------- the driver's terms in these numbers

  lemma NumberSplits(mem: Memory, a: nat, n: nat)
    ensures LittleEndian(mem, a, n + 4) == Long(mem, a) + 0x1_0000_0000 * LittleEndian(mem, a + 4, n)
  {
    assert LittleEndian(mem, a + 3, n + 1) == mem(a + 3) + 256 * LittleEndian(mem, a + 4, n);
    assert LittleEndian(mem, a + 2, n + 2) == mem(a + 2) + 256 * LittleEndian(mem, a + 3, n + 1);
    assert LittleEndian(mem, a + 1, n + 3) == mem(a + 1) + 256 * LittleEndian(mem, a + 2, n + 2);
  }

  lemma FourBytes(mem: Memory, a: nat)
    ensures LittleEndian(mem, a, U32_BYTES) == Long(mem, a)
  {
    NumberSplits(mem, a, 0);
  }

  lemma EightBytes(mem: Memory, a: nat)
    ensures LittleEndian(mem, a, U64_BYTES) == Quad(mem, a)
  {
    NumberSplits(mem, a, 4);
    FourBytes(mem, a + 4);
  }

  lemma ChecksIff(mem: Memory, table: nat)
    ensures TableValid(mem, table) <==> Checks(mem, table)
    ensures TableLength(mem, table) == Long(mem, table + 4)
  {
    FourBytes(mem, table + 4);
  }

  lemma SignedIff(mem: Memory, table: nat, signature: seq<char>)
    requires |signature| == 4
    ensures Matches(mem, table, signature) <==> Signed(mem, table, signature)
  {
    if Matches(mem, table, signature) {
      assert mem(table + 0) == signature[0] as int && mem(table + 1) == signature[1] as int;
      assert mem(table + 2) == signature[2] as int && mem(table + 3) == signature[3] as int;
    }
  }

  lemma EightLetters(mem: Memory, a: nat, signature: seq<char>)
    requires |signature| == 8
    ensures Matches(mem, a, signature) <==>
            && mem(a) == signature[0] as int && mem(a + 1) == signature[1] as int
            && mem(a + 2) == signature[2] as int && mem(a + 3) == signature[3] as int
            && mem(a + 4) == signature[4] as int && mem(a + 5) == signature[5] as int
            && mem(a + 6) == signature[6] as int && mem(a + 7) == signature[7] as int
  {
    if Matches(mem, a, signature) {
      assert mem(a + 0) == signature[0] as int;
      assert mem(a + 1) == signature[1] as int && mem(a + 2) == signature[2] as int && mem(a + 3) == signature[3] as int;
      assert mem(a + 4) == signature[4] as int && mem(a + 5) == signature[5] as int;
      assert mem(a + 6) == signature[6] as int && mem(a + 7) == signature[7] as int;
    }
  }

  lemma CandidateIff(mem: Memory, k: nat)
    ensures k in RsdpTest(mem) <==> PointerAt(mem, k)
  {
    EightLetters(mem, Candidate(k), RSDP_SIGNATURE);
  }

  /** The scan finds the lowest pointer of the window, and nothing iff there is none. */
  lemma ScanFindsLowest(mem: Memory)
    ensures forall k: nat :: IsLowest(mem, k) <==> FirstRsdp(mem) == Some(k)
    ensures FirstRsdp(mem) == None <==> forall k: nat :: 16 * k < 0xFFFFF ==> !PointerAt(mem, k)
  {
    forall k: nat ensures k in RsdpTest(mem) <==> PointerAt(mem, k) {
      CandidateIff(mem, k);
    }
    forall k: nat | IsLowest(mem, k) ensures FirstRsdp(mem) == Some(k) {
      LowestIs(RsdpTest(mem), k, CANDIDATES);
    }
  }

  lemma WideFieldIsRead(mem: Memory, a: nat)
    ensures XsdtAddress(Copy(mem, a)) == Quad(mem, a + 24)
  {
    CopyKeepsField(mem, a, 24, U64_BYTES);
    EightBytes(mem, a + 24);
  }

  lemma NarrowFieldIsRead(mem: Memory, a: nat)
    ensures RsdtAddress(Copy(mem, a)) == Long(mem, a + 16)
  {
    CopyKeepsField(mem, a, 16, U32_BYTES);
    FourBytes(mem, a + 16);
  }

  lemma RevisionIsRead(mem: Memory, a: nat)
    ensures Copy(mem, a)[15] == mem(a + 15)
  {
  }

  /** What Init makes of a pointer: from revision 2 on, and only with a nonzero 64-bit address, the driver goes into 64-bit
      mode, and it never leaves it. */
  lemma PointerIsRead(mem: Memory, s: State, a: nat)
    ensures var found, r := Detect(mem, s, a), RootFrom(mem, a, s.acpi20);
            found == s.(rsdp := found.rsdp, acpi20 := r.wide) && RootTable(found) == r.address
  {
    WideFieldIsRead(mem, a);
    NarrowFieldIsRead(mem, a);
    RevisionIsRead(mem, a);
  }

  /** The root table a driver state names. */
  function RootIn(mem: Memory, s: State): Root {
    Root(s.acpi20, RootTable(s), Long(mem, RootTable(s) + 4))
  }

  lemma AcceptedIff(mem: Memory, s: State)
    ensures RootAccepted(mem, s) <==> IsGood(mem, RootIn(mem, s))
    ensures TableLength(mem, RootTable(s)) == RootIn(mem, s).length
  {
    SignedIff(mem, RootTable(s), RSDT_SIGNATURE);
    ChecksIff(mem, RootTable(s));
  }

  lemma EightByteEntries(rest: int)
    requires -36 <= rest < 0x1_0000_0000
    ensures rest % 0x1_0000_0000_0000_0000 / 8 % 0x1_0000_0000 == rest / 8 % 0x1_0000_0000
  {
    if rest >= 0 {
      assert rest % 0x1_0000_0000_0000_0000 == rest;
    } else {
      assert rest % 0x1_0000_0000_0000_0000 / 8 == 0x2000_0000_0000_0000 + rest / 8;
    }
  }

  lemma FourByteEntries(rest: int)
    requires -36 <= rest < 0x1_0000_0000
    ensures rest % 0x1_0000_0000_0000_0000 / 4 % 0x1_0000_0000 == rest / 4 % 0x1_0000_0000
  {
    if rest >= 0 {
      assert rest % 0x1_0000_0000_0000_0000 == rest;
    } else {
      assert rest % 0x1_0000_0000_0000_0000 / 4 == 0x4000_0000_0000_0000 + rest / 4;
    }
  }

  lemma CountIsListed(r: Root)
    requires r.length < 0x1_0000_0000
    ensures EntryCount(r.length, r.wide) == ListedCount(r)
  {
    if r.wide {
      EightByteEntries(r.length - 36);
    } else {
      FourByteEntries(r.length - 36);
    }
  }

  /** The count is the number of whole entries behind the header; a length below 36 wraps it to almost 2^32. */
  lemma CountFits(r: Root)
    requires r.length < 0x1_0000_0000
    ensures var n, size := ListedCount(r), if r.wide then 8 else 4;
            && (r.length >= 36 ==> size * n <= r.length - 36 < size * (n + 1))
            && (r.length < 36 ==> n >= 0x1_0000_0000 - 9)
  {
  }

  lemma EntryIsListed(mem: Memory, r: Root, i: nat)
    ensures Entry(mem, r.length, r.wide, i) == Listed(mem, r, i)
  {
    if r.wide {
      EightBytes(mem, r.length + 8 * i);
    } else {
      FourBytes(mem, r.length + 4 * i);
    }
  }

  lemma LongIsShort(mem: Memory, a: nat)
    ensures Long(mem, a) < 0x1_0000_0000
  {
  }

  ghost predicate AreListed(mem: Memory, r: Root, entries: seq<nat>) {
    forall i: nat :: i < |entries| ==> entries[i] == Listed(mem, r, i)
  }

  /** What the entry loop goes through. */
  lemma EntriesAreListed(mem: Memory, s: State)
    ensures |RootEntries(mem, s)| == ListedCount(RootIn(mem, s)) && AreListed(mem, RootIn(mem, s), RootEntries(mem, s))
  {
    var r := RootIn(mem, s);
    AcceptedIff(mem, s);
    LongIsShort(mem, RootTable(s) + 4);
    CountIsListed(r);
    forall i: nat | i < |RootEntries(mem, s)| ensures RootEntries(mem, s)[i] == Listed(mem, r, i) {
      EntryIsListed(mem, r, i);
    }
  }

  lemma {:induction false} ValidAreCounted(mem: Memory, r: Root, entries: seq<nat>, n: nat)
    requires n <= |entries| && AreListed(mem, r, entries)
    ensures Count(ValidTest(mem), entries, n) == ValidListed(mem, r, n)
  {
    if n > 0 {
      ValidAreCounted(mem, r, entries, n - 1);
      ChecksIff(mem, entries[n - 1]);
    }
  }

  // ---------------------------------------------------------------- loading

  /** There are slots enough for the valid entries: the array has 7. */
  predicate Fits(mem: Memory, s: State, r: Root) {
    |s.tables| + ValidListed(mem, r, ListedCount(r)) <= 7
  }

  lemma RoomIff(mem: Memory, s: State)
    ensures HasRoom(mem, s) <==> Fits(mem, s, RootIn(mem, s))
    ensures Count(ValidTest(mem), RootEntries(mem, s), |RootEntries(mem, s)|) ==
            ValidListed(mem, RootIn(mem, s), ListedCount(RootIn(mem, s)))
  {
    EntriesAreListed(mem, s);
    ValidAreCounted(mem, RootIn(mem, s), RootEntries(mem, s), |RootEntries(mem, s)|);
  }

  lemma LoadCodes(mem: Memory, s: State)
    ensures var (s', outcome) := Load(mem, s);
            && (outcome == Code(InvalidParameter) <==> s.state != Initializing)
            && (outcome == Code(HardwareFault) <==> s.state == Initializing && !RootAccepted(mem, s))
            && (outcome == Overrun <==> s.state == Initializing && RootAccepted(mem, s) && !HasRoom(mem, s))
            && (outcome == Code(Success) <==> s.state == Initializing && RootAccepted(mem, s) && HasRoom(mem, s))
            && s' == s.(tables := s'.tables)
            && (outcome == Code(InvalidParameter) || outcome == Code(HardwareFault) ==> s' == s)
  {
  }

  /** A load never takes stored tables away, and fills at most the 7 slots. */
  lemma LoadKeepsTables(mem: Memory, s: State)
    requires |s.tables| <= 7
    ensures var (s', outcome) := Load(mem, s);
            && s.tables <= s'.tables && |s'.tables| <= 7
            && (outcome == Code(Success) ==> s'.tables == Loaded(mem, s))
            && (outcome == Overrun ==> |s'.tables| == 7)
  {
    StoreIsCounted(s.tables, ValidTest(mem), RootEntries(mem, s), |RootEntries(mem, s)|);
  }

  /** Loading is refused in other states than INITIALIZING, and on other root tables than valid ones signed "RSDT"; both
      change nothing. Otherwise it leaves the array iff the valid entries have no room, and only then does not succeed. */
  lemma LoadOutcomes(mem: Memory, s: State, r: Root)
    requires r == RootIn(mem, s)
    ensures var (s', outcome) := Load(mem, s);
            && (outcome == Code(InvalidParameter) <==> s.state != Initializing)
            && (outcome == Code(HardwareFault) <==> s.state == Initializing && !IsGood(mem, r))
            && (outcome == Overrun <==> s.state == Initializing && IsGood(mem, r) && !Fits(mem, s, r))
            && (outcome == Code(Success) <==> s.state == Initializing && IsGood(mem, r) && Fits(mem, s, r))
            && s' == s.(tables := s'.tables)
            && (outcome == Code(InvalidParameter) || outcome == Code(HardwareFault) ==> s' == s)
  {
    LoadCodes(mem, s);
    AcceptedIff(mem, s);
    RoomIff(mem, s);
  }

  /** That slot of the list exists and holds the table. */
  predicate HoldsAt(tables: seq<nat>, slot: nat, table: nat) {
    slot < |tables| && tables[slot] == table
  }

  lemma RankIs(tables: seq<nat>, stored: seq<nat>, keep: iset<nat>, entries: seq<nat>, i: nat, slot: nat)
    requires i < |entries| && entries[i] in keep
    requires tables == Store(stored, keep, entries, |entries|) && slot == |stored| + Count(keep, entries, i)
    ensures HoldsAt(tables, slot, entries[i])
  {
    StoredAtRank(stored, keep, entries, |entries|, i);
  }

  /** A successful load stores as many tables as there are valid entries. */
  lemma LoadStoresCount(mem: Memory, s: State, r: Root)
    requires r == RootIn(mem, s) && Load(mem, s).1 == Code(Success)
    ensures |Load(mem, s).0.tables| == |s.tables| + ValidListed(mem, r, ListedCount(r))
  {
    LoadOverrunsIff(mem, s);
    RoomIff(mem, s);
  }

  lemma EntryIsStored(mem: Memory, tables: seq<nat>, stored: seq<nat>, r: Root, entries: seq<nat>, i: nat, slot: nat)
    requires i < |entries| && AreListed(mem, r, entries) && Checks(mem, entries[i])
    requires tables == Store(stored, ValidTest(mem), entries, |entries|) && slot == |stored| + ValidListed(mem, r, i)
    ensures HoldsAt(tables, slot, entries[i])
  {
    ValidAreCounted(mem, r, entries, i);
    ChecksIff(mem, entries[i]);
    RankIs(tables, stored, ValidTest(mem), entries, i, slot);
  }

  lemma FirstSlotsAreKept(all: seq<nat>, slot: nat, table: nat)
    requires HoldsAt(all, slot, table) && slot < 7
    ensures HoldsAt(Upto(all, 7), slot, table)
  {
  }

  lemma LoadedHolds(mem: Memory, s: State, r: Root, i: nat, slot: nat)
    requires r == RootIn(mem, s) && i < ListedCount(r) && Checks(mem, Listed(mem, r, i))
    requires slot == |s.tables| + ValidListed(mem, r, i)
    ensures HoldsAt(Loaded(mem, s), slot, Listed(mem, r, i))
  {
    EntriesAreListed(mem, s);
    EntryIsStored(mem, Loaded(mem, s), s.tables, r, RootEntries(mem, s), i, slot);
  }

  lemma LoadTakes(mem: Memory, s: State)
    ensures var (s', outcome) := Load(mem, s);
            && (outcome == Code(Success) || outcome == Overrun ==> s'.tables == Upto(Loaded(mem, s), 7))
            && (outcome == Code(Success) ==> |Loaded(mem, s)| <= 7)
  {
    StoreIsCounted(s.tables, ValidTest(mem), RootEntries(mem, s), |RootEntries(mem, s)|);
  }

  /** Every valid entry, read from the address that the length names, goes behind the tables from before, in the slot that
      the number of valid entries in front of it gives, as long as that is one of the 7; in a successful load it always is. */
  lemma LoadStores(mem: Memory, s: State, r: Root, i: nat)
    requires r == RootIn(mem, s) && i < ListedCount(r) && Checks(mem, Listed(mem, r, i))
    ensures var (s', outcome), slot := Load(mem, s), |s.tables| + ValidListed(mem, r, i);
            && (outcome == Code(Success) ==> slot < 7)
            && (outcome == Code(Success) || outcome == Overrun ==> slot < 7 ==> HoldsAt(s'.tables, slot, Listed(mem, r, i)))
  {
    var outcome, slot := Load(mem, s).1, |s.tables| + ValidListed(mem, r, i);
    if outcome == Code(Success) || outcome == Overrun {
      LoadTakes(mem, s);
      LoadedHolds(mem, s, r, i, slot);
      if slot < 7 {
        FirstSlotsAreKept(Loaded(mem, s), slot, Listed(mem, r, i));
      }
    }
  }

  // ---------------------------------------------------------------- initialising

  lemma RootIsDetected(mem: Memory, s: State, k: nat)
    ensures RootIn(mem, Detect(mem, s, Candidate(k))) == RootOf(mem, k, s.acpi20)
  {
    PointerIsRead(mem, s, Candidate(k));
  }

  lemma InitLoads(mem: Memory, s: State, k: nat) returns (found: State)
    requires IsLowest(mem, k)
    ensures RootIn(mem, found) == RootOf(mem, k, s.acpi20) && found.tables == s.tables && found.state == s.state
    ensures Initialize(mem, s).1 == Load(mem, found).1
    ensures Initialize(mem, s).0 ==
            if Load(mem, found).1 == Code(Success) then Load(mem, found).0.(state := Ready) else Load(mem, found).0
  {
    found := Detect(mem, s, Candidate(k));
    ScanFindsLowest(mem);
    RootIsDetected(mem, s, k);
  }

  /** The outcome of Init on every image and from every state. */
  lemma InitOutcomes(mem: Memory, s: State, k: nat, r: Root)
    requires IsLowest(mem, k) && r == RootOf(mem, k, s.acpi20)
    ensures var outcome := Initialize(mem, s).1;
            && (outcome == Code(InvalidParameter) <==> s.state != Initializing)
            && (outcome == Code(HardwareFault) <==> s.state == Initializing && !IsGood(mem, r))
            && (outcome == Overrun <==> s.state == Initializing && IsGood(mem, r) && !Fits(mem, s, r))
            && (outcome == Code(Success) <==> s.state == Initializing && IsGood(mem, r) && Fits(mem, s, r))
  {
    var found := InitLoads(mem, s, k);
    LoadOutcomes(mem, found, r);
  }

  /** Init succeeds exactly when the driver is INITIALIZING, a pointer exists, and the root table of the lowest one is good
      and has room for its valid entries; with everything but the room, and only then, it leaves the array. */
  lemma InitSucceedsIff(mem: Memory, s: State)
    ensures Initialize(mem, s).1 == Code(Success) <==>
            s.state == Initializing && exists k: nat ::
              (var r := RootOf(mem, k, s.acpi20); IsLowest(mem, k) && IsGood(mem, r) && Fits(mem, s, r))
    ensures Initialize(mem, s).1 == Overrun <==>
            s.state == Initializing && exists k: nat ::
              (var r := RootOf(mem, k, s.acpi20); IsLowest(mem, k) && IsGood(mem, r) && !Fits(mem, s, r))
  {
    ScanFindsLowest(mem);
    if FirstRsdp(mem).Some? {
      InitOutcomes(mem, s, FirstRsdp(mem).value, RootOf(mem, FirstRsdp(mem).value, s.acpi20));
    }
  }

  /** An Init that returns an error has changed neither the lifecycle state nor the stored tables; without a pointer it has
      changed nothing at all. */
  lemma FailedInitKeeps(mem: Memory, s: State)
    ensures var (s', outcome) := Initialize(mem, s);
            && (outcome == Code(Success) ==> s'.state == Ready)
            && (outcome != Code(Success) ==> s'.state == s.state)
            && (outcome != Code(Success) && outcome != Overrun ==> s'.tables == s.tables)
            && ((forall k: nat :: !IsLowest(mem, k)) ==> (s', outcome) == (s, Code(HardwareFault)))
  {
    ScanFindsLowest(mem);
    if FirstRsdp(mem).Some? {
      var found := InitLoads(mem, s, FirstRsdp(mem).value);
      LoadCodes(mem, found);
    }
  }

  /** The only root signature accepted is "RSDT": when the lowest pointer is of revision 2 and names an extended root table
      with that table's own signature, Init succeeds from no state and stores nothing. */
  lemma XsdtIsRefused(mem: Memory, s: State, k: nat, xsdt: nat)
    requires IsLowest(mem, k)
    requires var a := 0xE0000 + 16 * k; mem(a + 15) >= 2 && Quad(mem, a + 24) == xsdt != 0 && Signed(mem, xsdt, "XSDT")
    ensures Initialize(mem, s).1 == Code(if s.state == Initializing then HardwareFault else InvalidParameter)
    ensures Initialize(mem, s).0.tables == s.tables
  {
    InitOutcomes(mem, s, k, RootOf(mem, k, s.acpi20));
    FailedInitKeeps(mem, s);
    assert RootOf(mem, k, s.acpi20).address == xsdt;
    assert "XSDT"[0] != "RSDT"[0];
  }

  // ---------------------------------------------------------------- looking up

  /** r is the first of the tables with the signature, if any has it. */
  ghost predicate IsFirstSigned(mem: Memory, r: Option<nat>, tables: seq<nat>, signature: seq<char>)
    requires |signature| == 4
  {
    && (r.None? <==> forall i: nat :: i < |tables| ==> !Signed(mem, tables[i], signature))
    && (r.Some? ==> exists i: nat :: i < |tables| && r.value == tables[i] && Signed(mem, tables[i], signature)
                      && forall j: nat :: j < i ==> !Signed(mem, tables[j], signature))
  }

  /** Entry i is a valid table with the signature. */
  predicate IsWanted(mem: Memory, r: Root, signature: seq<char>, i: nat)
    requires |signature| == 4
  {
    Checks(mem, Listed(mem, r, i)) && Signed(mem, Listed(mem, r, i), signature)
  }

  /** r is the first listed table that is valid and has the signature, if there is one. */
  ghost predicate IsFirstWanted(mem: Memory, table: Option<nat>, r: Root, signature: seq<char>)
    requires |signature| == 4
  {
    var n := ListedCount(r);
    && (table.None? <==> forall i: nat :: i < n ==> !IsWanted(mem, r, signature, i))
    && (table.Some? ==> exists i: nat :: i < n && IsWanted(mem, r, signature, i) && table.value == Listed(mem, r, i)
                          && forall j: nat :: j < i ==> !IsWanted(mem, r, signature, j))
  }

  lemma FirstSigned(mem: Memory, table: Option<nat>, tables: seq<nat>, signature: seq<char>)
    requires |signature| == 4 && IsFirstOf(table, SignatureTest(mem, signature), tables)
    ensures IsFirstSigned(mem, table, tables, signature)
  {
    forall i: nat | i < |tables| ensures tables[i] in SignatureTest(mem, signature) <==> Signed(mem, tables[i], signature) {
      SignedIff(mem, tables[i], signature);
    }
  }

  lemma FirstWanted(mem: Memory, table: Option<nat>, r: Root, entries: seq<nat>, signature: seq<char>)
    requires |signature| == 4 && |entries| == ListedCount(r) && AreListed(mem, r, entries)
    requires IsFirstOf(table, ValidTest(mem) * SignatureTest(mem, signature), entries)
    ensures IsFirstWanted(mem, table, r, signature)
  {
    forall i: nat | i < |entries|
      ensures entries[i] in ValidTest(mem) * SignatureTest(mem, signature) <==> IsWanted(mem, r, signature, i)
    {
      SignedIff(mem, entries[i], signature);
      ChecksIff(mem, entries[i]);
    }
  }

  /** Whether one of the tables has the signature. */
  ghost predicate SomeSigned(mem: Memory, tables: seq<nat>, signature: seq<char>)
    requires |signature| == 4
  {
    exists i: nat :: i < |tables| && Signed(mem, tables[i], signature)
  }

  lemma SearchAfterLoad(mem: Memory, s: State, signature: seq<char>)
    requires |signature| == 4 && Load(mem, s).1 == Code(Success)
    ensures var table := First(SignatureTest(mem, signature), Load(mem, s).0.tables);
            if SomeSigned(mem, s.tables, signature) then IsFirstSigned(mem, table, s.tables, signature)
            else IsFirstWanted(mem, table, RootIn(mem, s), signature)
  {
    var table := First(SignatureTest(mem, signature), Load(mem, s).0.tables);
    LoadOverrunsIff(mem, s);
    StoredSearch(s.tables, ValidTest(mem), SignatureTest(mem, signature), RootEntries(mem, s));
    forall t ensures t in SignatureTest(mem, signature) <==> Signed(mem, t, signature) {
      SignedIff(mem, t, signature);
    }
    if SomeSigned(mem, s.tables, signature) {
      FirstSigned(mem, table, s.tables, signature);
    } else {
      EntriesAreListed(mem, s);
      FirstWanted(mem, table, RootIn(mem, s), RootEntries(mem, s), signature);
    }
  }

  /** Discovery end to end: after a successful Init a lookup returns the first table with the signature among those stored
      before, or else the first entry of the lowest pointer's root table, in entry order, that is valid and carries the
      signature, and nothing exactly when there is none. */
  lemma LookupAfterInit(mem: Memory, s: State, k: nat, r: Root, signature: seq<char>)
    requires |signature| == 4 && IsLowest(mem, k) && r == RootOf(mem, k, s.acpi20) && Initialize(mem, s).1 == Code(Success)
    ensures var table := Lookup(mem, Initialize(mem, s).0, signature);
            if SomeSigned(mem, s.tables, signature) then IsFirstSigned(mem, table, s.tables, signature)
            else IsFirstWanted(mem, table, r, signature)
  {
    var found := InitLoads(mem, s, k);
    SearchAfterLoad(mem, found, signature);
  }
}
