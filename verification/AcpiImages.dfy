/** Memory images for src/drivers/acpi/acpi_driver.c: which changes a checksum notices, where the entries of the root table
    are looked for, and images on which discovery goes wrong. */
module AcpiImages {
  import opened RtTypes
  import opened Acpi
  import opened AcpiDiscovery

  // ---------------------------------------------------------------- sums and numbers of changed images

  /** Memory with one byte changed. */
  function Changed(mem: Memory, at: nat, b: Byte): Memory {
    (a: nat) => if a == at then b else mem(a)
  }

  lemma {:induction false} SumChanged(mem: Memory, at: nat, b: Byte, a: nat, n: nat)
    ensures Sum(Changed(mem, at, b), a, n) == Sum(mem, a, n) + if a <= at < a + n then b - mem(at) else 0
  {
    if n > 0 {
      SumChanged(mem, at, b, a, n - 1);
    }
  }

  lemma SumFour(mem: Memory, a: nat, n: nat)
    ensures Sum(mem, a, n + 4) == Sum(mem, a, n) + mem(a + n) + mem(a + n + 1) + mem(a + n + 2) + mem(a + n + 3)
  {
    assert Sum(mem, a, n + 2) == Sum(mem, a, n) + mem(a + n) + mem(a + n + 1);
  }

  /** Zero bytes add nothing. */
  lemma {:induction false} SumOverZeros(mem: Memory, a: nat, m: nat, n: nat)
    requires m <= n && forall x: nat :: a + m <= x < a + n ==> mem(x) == 0
    ensures Sum(mem, a, n) == Sum(mem, a, m)
  {
    if m < n {
      SumOverZeros(mem, a, m, n - 1);
    }
  }

  /** What a byte counts at position p of a little-endian number. */
  function Weight(p: nat): nat {
    if p == 0 then 1 else 256 * Weight(p - 1)
  }

  lemma {:induction false} WeightIsLarge(p: nat)
    ensures Weight(p) >= 1 && (p > 0 ==> Weight(p) >= 256)
  {
    if p > 0 {
      WeightIsLarge(p - 1);
    }
  }

  /** What a changed byte adds to the number of n bytes at a. */
  function Shift(at: nat, before: Byte, after: Byte, a: nat, n: nat): int {
    if a <= at < a + n then (after - before) * Weight(at - a) else 0
  }

  lemma {:induction false} NumberChanged(mem: Memory, at: nat, b: Byte, a: nat, n: nat)
    ensures LittleEndian(Changed(mem, at, b), a, n) == LittleEndian(mem, a, n) + Shift(at, mem(at), b, a, n)
    decreases n
  {
    if n > 0 {
      NumberChanged(mem, at, b, a + 1, n - 1);
      if a < at {
        ScaledByte(b - mem(at), Weight(at - a - 1));
      }
    }
  }

  lemma ScaledByte(d: int, w: int)
    ensures 256 * (d * w) == d * (256 * w)
  {
  }

  lemma LengthUnchanged(mem: Memory, table: nat, at: nat, b: Byte)
    requires !(table + 4 <= at < table + 8)
    ensures TableLength(Changed(mem, at, b), table) == TableLength(mem, table)
  {
    FourBytes(mem, table + 4);
    FourBytes(Changed(mem, at, b), table + 4);
  }

  // ---------------------------------------------------------------- what a checksum notices

  lemma SmallStepIsSeen(before: nat, after: nat)
    requires before % 256 == 0 && before != after && -256 < before - after < 256
    ensures after % 256 != 0
  {
  }

  /** A changed byte of an accepted table is always caught, unless it belongs to the length field. */
  lemma OneByteChangeIsCaught(mem: Memory, table: nat, at: nat, b: Byte)
    requires TableValid(mem, table) && b != mem(at)
    requires table <= at < table + TableLength(mem, table) && !(table + 4 <= at < table + 8)
    ensures !TableValid(Changed(mem, at, b), table)
  {
    var n := TableLength(mem, table);
    LengthUnchanged(mem, table, at, b);
    SumChanged(mem, at, b, table, n);
    SmallStepIsSeen(Sum(mem, table, n), Sum(Changed(mem, at, b), table, n));
  }

  /** A valid table of length 8 at address 0, with a byte behind it. */
  const EIGHT_BYTES: Memory := (a: nat) => if a == 0 then 248 else if a == 4 then 8 else if a == 8 then 255 else 0

  /** The same with 1 added to a byte of its length field, which makes it longer by a power of 256. */
  function Longer(offset: nat): Memory
    requires 4 <= offset < 8
  {
    Changed(EIGHT_BYTES, offset, EIGHT_BYTES(offset) + 1)
  }

  lemma EightBytesValid()
    ensures TableLength(EIGHT_BYTES, 0) == 8 && TableValid(EIGHT_BYTES, 0) && Sum(EIGHT_BYTES, 0, 8) == 256
    ensures Sum(EIGHT_BYTES, 0, 9) == 511
  {
    FourBytes(EIGHT_BYTES, 4);
    SumFour(EIGHT_BYTES, 0, 0);
    SumFour(EIGHT_BYTES, 0, 4);
  }

  lemma LongerLength(offset: nat)
    requires 4 <= offset < 8
    ensures TableLength(Longer(offset), 0) == 8 + Weight(offset - 4) >= 9
  {
    EightBytesValid();
    WeightIsLarge(offset - 4);
    NumberChanged(EIGHT_BYTES, offset, EIGHT_BYTES(offset) + 1, 4, U32_BYTES);
  }

  lemma LongerSum(offset: nat, n: nat)
    requires 4 <= offset < 8 && n >= 9
    ensures Sum(Longer(offset), 0, n) == 512
  {
    EightBytesValid();
    SumOverZeros(Longer(offset), 0, 9, n);
    SumChanged(EIGHT_BYTES, offset, EIGHT_BYTES(offset) + 1, 0, 9);
  }

  /** A change of the byte at an offset inside an accepted table leaves it accepted. */
  predicate Passes(mem: Memory, table: nat, offset: nat, b: Byte) {
    && TableValid(mem, table) && offset < TableLength(mem, table)
    && b != mem(table + offset) && TableValid(Changed(mem, table + offset, b), table)
  }

  lemma LongerPasses(offset: nat)
    requires 4 <= offset < 8
    ensures Passes(EIGHT_BYTES, 0, offset, EIGHT_BYTES(offset) + 1)
  {
    EightBytesValid();
    LongerLength(offset);
    LongerSum(offset, TableLength(Longer(offset), 0));
    assert 0 + offset == offset;
  }

  /** Some change of one byte at that offset passes, in some table. */
  ghost predicate CanPass(offset: nat) {
    exists mem: Memory, table: nat, b: Byte :: Passes(mem, table, offset, b)
  }

  /** A longer length can be made up for by the byte behind the table. */
  lemma LengthChangeCanPass(offset: nat)
    requires 4 <= offset < 8
    ensures CanPass(offset)
  {
    LongerPasses(offset);
    PassingWitness(EIGHT_BYTES, 0, offset, EIGHT_BYTES(offset) + 1);
  }

  lemma PassingWitness(mem: Memory, table: nat, offset: nat, b: Byte)
    requires Passes(mem, table, offset, b)
    ensures CanPass(offset)
  {
  }

  lemma OtherChangesAreCaught(offset: nat)
    requires CanPass(offset)
    ensures 4 <= offset < 8
  {
    var mem: Memory, table: nat, b: Byte :| Passes(mem, table, offset, b);
    if !(4 <= offset < 8) {
      OneByteChangeIsCaught(mem, table, table + offset, b);
    }
  }

  /** The exact condition: a change at an offset can pass iff the offset is one of the length field's. */
  lemma OneByteChangesAreCaughtIff(offset: nat)
    ensures CanPass(offset) <==> 4 <= offset < 8
  {
    if 4 <= offset < 8 {
      LengthChangeCanPass(offset);
    }
    if CanPass(offset) {
      OtherChangesAreCaught(offset);
    }
  }

  /** An address inside a table of that length, but not in its length field. */
  predicate IsInside(r: Root, at: nat) {
    r.address <= at < r.address + r.length && !(r.address + 4 <= at < r.address + 8)
  }

  lemma CorruptTableFails(mem: Memory, r: Root, at: nat, b: Byte)
    requires r.length == Long(mem, r.address + 4) && Checks(mem, r.address) && IsInside(r, at) && b != mem(at)
    ensures !Checks(Changed(mem, at, b), r.address)
  {
    ChecksIff(mem, r.address);
    ChecksIff(Changed(mem, at, b), r.address);
    OneByteChangeIsCaught(mem, r.address, at, b);
  }

  lemma CorruptRoot(mem: Memory, s: State, at: nat, b: Byte)
    requires Checks(mem, RootIn(mem, s).address) && IsInside(RootIn(mem, s), at) && b != mem(at)
    ensures !Checks(Changed(mem, at, b), RootIn(Changed(mem, at, b), s).address)
  {
    CorruptTableFails(mem, RootIn(mem, s), at, b);
  }

  /** A load that accepts a root table refuses it, and changes nothing, once any one byte of the table outside its length
      field is changed. */
  lemma CorruptRootIsRefused(mem: Memory, s: State, at: nat, b: Byte)
    requires s.state == Initializing && Load(mem, s).1 != Code(HardwareFault)
    requires IsInside(RootIn(mem, s), at) && b != mem(at)
    ensures Load(Changed(mem, at, b), s) == (s, Code(HardwareFault))
  {
    GoodRootIsAccepted(mem, s, RootIn(mem, s));
    CorruptRoot(mem, s, at, b);
    BadRootIsRefused(Changed(mem, at, b), s, RootIn(Changed(mem, at, b), s));
  }

  lemma GoodRootIsAccepted(mem: Memory, s: State, r: Root)
    requires s.state == Initializing && r == RootIn(mem, s) && Load(mem, s).1 != Code(HardwareFault)
    ensures Checks(mem, r.address)
  {
    LoadOutcomes(mem, s, r);
  }

  lemma BadRootIsRefused(mem: Memory, s: State, r: Root)
    requires s.state == Initializing && r == RootIn(mem, s) && !Checks(mem, r.address)
    ensures Load(mem, s) == (s, Code(HardwareFault))
  {
    LoadOutcomes(mem, s, r);
  }

  lemma CorruptRootOf(mem: Memory, k: nat, acpi20: bool, at: nat, b: Byte)
    requires Checks(mem, RootOf(mem, k, acpi20).address) && IsInside(RootOf(mem, k, acpi20), at) && b != mem(at)
    requires !(0xE0000 + 16 * k <= at < 0xE0000 + 16 * k + 36)
    ensures !Checks(Changed(mem, at, b), RootOf(Changed(mem, at, b), k, acpi20).address)
  {
    CorruptTableFails(mem, RootOf(mem, k, acpi20), at, b);
    PointerKept(mem, Changed(mem, at, b), k, acpi20);
  }

  /** The same for Init, as long as the change leaves the lowest pointer and its place alone. */
  lemma CorruptRootFailsInit(mem: Memory, s: State, k: nat, at: nat, b: Byte)
    requires s.state == Initializing && Initialize(mem, s).1 != Code(HardwareFault)
    requires IsLowest(mem, k) && IsLowest(Changed(mem, at, b), k) && !(0xE0000 + 16 * k <= at < 0xE0000 + 16 * k + 36)
    requires IsInside(RootOf(mem, k, s.acpi20), at) && b != mem(at)
    ensures var (s', outcome) := Initialize(Changed(mem, at, b), s);
            outcome == Code(HardwareFault) && s'.state == s.state && s'.tables == s.tables
  {
    GoodRootIsTaken(mem, s, k, RootOf(mem, k, s.acpi20));
    CorruptRootOf(mem, k, s.acpi20, at, b);
    BadRootFailsInit(Changed(mem, at, b), s, k, RootOf(Changed(mem, at, b), k, s.acpi20));
  }

  lemma GoodRootIsTaken(mem: Memory, s: State, k: nat, r: Root)
    requires s.state == Initializing && IsLowest(mem, k) && r == RootOf(mem, k, s.acpi20)
    requires Initialize(mem, s).1 != Code(HardwareFault)
    ensures Checks(mem, r.address)
  {
    InitOutcomes(mem, s, k, r);
  }

  lemma PointerKept(mem: Memory, mem': Memory, k: nat, acpi20: bool)
    requires forall x: nat :: 0xE0000 + 16 * k <= x < 0xE0000 + 16 * k + 36 ==> mem'(x) == mem(x)
    ensures RootOf(mem', k, acpi20).address == RootOf(mem, k, acpi20).address
  {
  }

  lemma BadRootFailsInit(mem: Memory, s: State, k: nat, r: Root)
    requires s.state == Initializing && IsLowest(mem, k) && r == RootOf(mem, k, s.acpi20) && !Checks(mem, r.address)
    ensures var (s', outcome) := Initialize(mem, s);
            outcome == Code(HardwareFault) && s'.state == s.state && s'.tables == s.tables
  {
    InitOutcomes(mem, s, k, r);
    FailedInitKeeps(mem, s);
  }

  // ---------------------------------------------------------------- which pointers are found

  lemma SumNotices(mem: Memory, a: nat, n: nat, offset: nat, b: Byte)
    requires Sum(mem, a, n) % 256 == 0 && b != mem(a + offset)
    ensures Sum(Changed(mem, a + offset, b), a, n) % 256 == 0 <==> offset >= n
  {
    SumChanged(mem, a + offset, b, a, n);
    if offset < n {
      SmallStepIsSeen(Sum(mem, a, n), Sum(Changed(mem, a + offset, b), a, n));
    }
  }

  /** A pointer with any one of its 36 bytes changed is not found any more. */
  lemma CorruptPointerIsNotFound(mem: Memory, k: nat, offset: nat, b: Byte)
    requires IsLowest(mem, k) && offset < 36 && b != mem(0xE0000 + 16 * k + offset)
    ensures FirstRsdp(Changed(mem, 0xE0000 + 16 * k + offset, b)) != Some(k)
  {
    var mem' := Changed(mem, 0xE0000 + 16 * k + offset, b);
    SumNotices(mem, 0xE0000 + 16 * k, 36, offset, b);
    OnlyPointersAreFound(mem', k);
  }

  /** The byte behind those does not count. */
  lemma ByteBehindPointerIsFree(mem: Memory, k: nat, b: Byte)
    requires PointerAt(mem, k)
    ensures PointerAt(Changed(mem, 0xE0000 + 16 * k + 36, b), k)
  {
    var a := 0xE0000 + 16 * k;
    SumChanged(mem, a + 36, b, a, 36);
  }

  lemma PointerLetter(mem: Memory, k: nat, i: nat, letter: char)
    requires PointerAt(mem, k) && i < 8 && letter == "RSD PTR "[i]
    ensures mem(0xE0000 + 16 * k + i) == letter as int
  {
  }

  /** Nothing is found at a place that differs from "RSD PTR " in one letter or more. */
  lemma OtherSignatureIsNotFound(mem: Memory, k: nat, i: nat)
    requires i < 8 && mem(0xE0000 + 16 * k + i) != "RSD PTR "[i] as int
    ensures FirstRsdp(mem) != Some(k)
  {
    if PointerAt(mem, k) {
      PointerLetter(mem, k, i, "RSD PTR "[i]);
    }
    OnlyPointersAreFound(mem, k);
  }

  lemma OnlyPointersAreFound(mem: Memory, k: nat)
    ensures FirstRsdp(mem) == Some(k) ==> PointerAt(mem, k)
  {
    ScanFindsLowest(mem);
  }

  /** Nothing outside the window, and the 36 bytes of a pointer in its last place, matters for where the pointer is. */
  lemma WindowDecides(mem: Memory, k: nat, at: nat, b: Byte)
    requires IsLowest(mem, k) && !(0xE0000 <= at < 0x1E0014)
    ensures IsLowest(Changed(mem, at, b), k)
  {
    forall j: nat | j <= k ensures PointerAt(Changed(mem, at, b), j) <==> PointerAt(mem, j) {
      SumChanged(mem, at, b, 0xE0000 + 16 * j, 36);
    }
  }

  // ---------------------------------------------------------------- where the entries are

  /** The layout of section 5.2.7 of the ACPI specification puts the entries right after the header. */
  function SpecifiedBase(root: nat): nat {
    root + HEADER_SIZE
  }

  /** The image holds a root table of the given length that the code accepts. */
  ghost predicate HoldsRoot(mem: Memory, root: nat, length: nat) {
    Matches(mem, root, RSDT_SIGNATURE) && TableLength(mem, root) == length && TableValid(mem, root)
  }

  /** The entries that the code reads are the specified ones. */
  predicate ReadsSpecified(mem: Memory, root: nat, length: nat, wide: bool) {
    var n := EntryCount(length, wide);
    Entries(mem, length, wide, n) == Entries(mem, SpecifiedBase(root), wide, n)
  }

  function Next(b: Byte): Byte {
    (b + 1) % 256
  }

  function Previous(b: Byte): Byte {
    (b + 255) % 256
  }

  /** The checksum (byte 9 of the header) lowered by 1 modulo 256, if it covers the byte behind the header. */
  function Rechecked(mem: Memory, root: nat, length: nat): Memory {
    if length <= HEADER_SIZE then mem else Changed(mem, root + 9, Previous(mem(root + 9)))
  }

  /** In addition that byte raised by 1 modulo 256: the sum stays the same modulo 256. */
  function Twin(mem: Memory, root: nat, length: nat): Memory {
    Changed(Rechecked(mem, root, length), root + HEADER_SIZE, Next(mem(root + HEADER_SIZE)))
  }

  lemma HeaderKept(mem: Memory, root: nat, at: nat, b: Byte)
    requires Matches(mem, root, RSDT_SIGNATURE) && at >= root + 8
    ensures Matches(Changed(mem, at, b), root, RSDT_SIGNATURE)
    ensures TableLength(Changed(mem, at, b), root) == TableLength(mem, root)
  {
    LengthUnchanged(mem, root, at, b);
  }

  lemma TwinSum(mem: Memory, root: nat, length: nat)
    ensures var more := Sum(Twin(mem, root, length), root, length) - Sum(mem, root, length); more % 256 == 0
  {
    if length > HEADER_SIZE {
      SumChanged(mem, root + 9, Previous(mem(root + 9)), root, length);
    }
    SumChanged(Rechecked(mem, root, length), root + HEADER_SIZE, Next(mem(root + HEADER_SIZE)), root, length);
  }

  lemma RecheckedHeader(mem: Memory, root: nat, length: nat)
    requires Matches(mem, root, RSDT_SIGNATURE)
    ensures var mem' := Rechecked(mem, root, length);
            Matches(mem', root, RSDT_SIGNATURE) && TableLength(mem', root) == TableLength(mem, root)
  {
    HeaderKept(mem, root, root + 9, Previous(mem(root + 9)));
  }

  lemma TwinHolds(mem: Memory, root: nat, length: nat)
    requires HoldsRoot(mem, root, length)
    ensures HoldsRoot(Twin(mem, root, length), root, length)
  {
    RecheckedHeader(mem, root, length);
    HeaderKept(Rechecked(mem, root, length), root, root + HEADER_SIZE, Next(mem(root + HEADER_SIZE)));
    TwinSum(mem, root, length);
  }

  /** No multiple of a lowered checksum by a power of 256, and no proper one of a raised byte, is a raised byte's step. */
  lemma DifferentSteps(before: Byte, after: Byte, w: nat, b: Byte)
    requires (w >= 256 && after == Next(before)) || ((w == 1 || w >= 256) && after == Previous(before))
    ensures (after - before) * w != Next(b) - b && Next(b) != b
  {
    assert Next(b) - b == 1 || Next(b) - b == -255;
    if after == Next(before) {
      assert after - before == 1 || after - before == -255;
    } else {
      assert after - before == -1 || after - before == 255;
    }
  }

  /** What the twin adds to a number. */
  function Movement(mem: Memory, root: nat, length: nat, a: nat, size: nat): int {
    var base := SpecifiedBase(root);
    (if length <= HEADER_SIZE then 0 else Shift(root + 9, mem(root + 9), Previous(mem(root + 9)), a, size)) +
    Shift(base, mem(base), Next(mem(base)), a, size)
  }

  lemma NumberMoved(mem: Memory, root: nat, length: nat, a: nat, size: nat)
    ensures LittleEndian(Twin(mem, root, length), a, size) ==
            LittleEndian(mem, a, size) + Movement(mem, root, length, a, size)
  {
    var base := SpecifiedBase(root);
    NumberChanged(mem, root + 9, Previous(mem(root + 9)), a, size);
    NumberChanged(Rechecked(mem, root, length), base, Next(mem(base)), a, size);
    assert Rechecked(mem, root, length)(base) == mem(base);
  }

  /** The number at the specified address moves as no number at another address does. */
  lemma OnlyTheSpecifiedEntryMoves(mem: Memory, root: nat, length: nat, a: nat, size: nat)
    requires 1 <= size <= 8 && a != SpecifiedBase(root)
    ensures Movement(mem, root, length, a, size) != Movement(mem, root, length, SpecifiedBase(root), size)
  {
    var base := SpecifiedBase(root);
    assert Movement(mem, root, length, base, size) == (Next(mem(base)) - mem(base)) * Weight(0);
    if length > HEADER_SIZE && a <= root + 9 < a + size {
      WeightIsLarge(root + 9 - a);
      DifferentSteps(mem(root + 9), Previous(mem(root + 9)), Weight(root + 9 - a), mem(base));
    } else if a < base < a + size {
      WeightIsLarge(base - a);
      DifferentSteps(mem(base), Next(mem(base)), Weight(base - a), mem(base));
    }
  }

  lemma FirstEntry(mem: Memory, base: nat, wide: bool, size: nat)
    requires size == EntrySize(wide)
    ensures Entry(mem, base, wide, 0) == LittleEndian(mem, base, size)
  {
  }

  lemma SameFirst(mem: Memory, root: nat, length: nat, wide: bool)
    requires EntryCount(length, wide) > 0 && ReadsSpecified(mem, root, length, wide)
    ensures Entry(mem, length, wide, 0) == Entry(mem, SpecifiedBase(root), wide, 0)
  {
    var n := EntryCount(length, wide);
    assert Entries(mem, length, wide, n)[0] == Entries(mem, SpecifiedBase(root), wide, n)[0];
  }

  lemma SameFirstNumber(mem: Memory, root: nat, length: nat, wide: bool, size: nat)
    requires EntryCount(length, wide) > 0 && ReadsSpecified(mem, root, length, wide) && size == EntrySize(wide)
    ensures LittleEndian(mem, length, size) == LittleEndian(mem, SpecifiedBase(root), size)
  {
    SameFirst(mem, root, length, wide);
    FirstEntry(mem, length, wide, size);
    FirstEntry(mem, SpecifiedBase(root), wide, size);
  }

  lemma OneOfThemMisreads(mem: Memory, root: nat, length: nat, wide: bool, size: nat)
    requires EntryCount(length, wide) > 0 && length != SpecifiedBase(root) && size == EntrySize(wide)
    requires ReadsSpecified(mem, root, length, wide)
    ensures !ReadsSpecified(Twin(mem, root, length), root, length, wide)
  {
    OnlyTheSpecifiedEntryMoves(mem, root, length, length, size);
    NumberMoved(mem, root, length, length, size);
    NumberMoved(mem, root, length, SpecifiedBase(root), size);
    SameFirstNumber(mem, root, length, wide, size);
    if ReadsSpecified(Twin(mem, root, length), root, length, wide) {
      SameFirstNumber(Twin(mem, root, length), root, length, wide, size);
    }
  }

  lemma MisreadsIff(image: Memory, root: nat, length: nat, wide: bool)
    requires HoldsRoot(image, root, length)
    ensures (forall mem: Memory :: HoldsRoot(mem, root, length) ==> ReadsSpecified(mem, root, length, wide)) <==>
            EntryCount(length, wide) == 0 || length == SpecifiedBase(root)
  {
    if EntryCount(length, wide) > 0 && length != SpecifiedBase(root) {
      TwinHolds(image, root, length);
      if ReadsSpecified(image, root, length, wide) {
        OneOfThemMisreads(image, root, length, wide, EntrySize(wide));
      }
    }
  }

  /** The same root table with its entries behind the header of 36 bytes. */
  function Specified(r: Root): Root {
    r.(length := r.address + 36)
  }

  /** All entries that the code reads are the specified ones. */
  ghost predicate ListsSpecified(mem: Memory, r: Root) {
    forall i: nat :: i < ListedCount(r) ==> Listed(mem, r, i) == Listed(mem, Specified(r), i)
  }

  lemma ListsIsReads(mem: Memory, r: Root)
    requires r.length < 0x1_0000_0000
    ensures ListsSpecified(mem, r) <==> ReadsSpecified(mem, r.address, r.length, r.wide)
  {
    var n := ListedCount(r);
    CountIsListed(r);
    var read, specified := Entries(mem, r.length, r.wide, n), Entries(mem, SpecifiedBase(r.address), r.wide, n);
    forall i: nat | i < n ensures read[i] == Listed(mem, r, i) && specified[i] == Listed(mem, Specified(r), i) {
      EntryIsListed(mem, r, i);
      EntryIsListed(mem, Specified(r), i);
    }
  }

  /** The image holds that root table, and it is good. */
  predicate Holds(mem: Memory, r: Root) {
    IsGood(mem, r) && Long(mem, r.address + 4) == r.length
  }

  lemma HoldsIff(mem: Memory, r: Root)
    ensures Holds(mem, r) <==> HoldsRoot(mem, r.address, r.length)
  {
    SignedIff(mem, r.address, "RSDT");
    ChecksIff(mem, r.address);
  }

  /** The code reads the entries from the address that the length field names instead. Given one good root table, it reads
      the specified entries, on every image with a good root table of that length at that address, if and only if there are
      none or the length happens to be the address behind the header. */
  lemma EntriesAreWhereSpecifiedIff(image: Memory, r: Root)
    requires Holds(image, r)
    ensures (forall mem: Memory :: Holds(mem, r) ==> ListsSpecified(mem, r)) <==>
            ListedCount(r) == 0 || r.length == r.address + 36
  {
    LongIsShort(image, r.address + 4);
    forall mem: Memory ensures Holds(mem, r) <==> HoldsRoot(mem, r.address, r.length) {
      HoldsIff(mem, r);
    }
    forall mem: Memory ensures ListsSpecified(mem, r) <==> ReadsSpecified(mem, r.address, r.length, r.wide) {
      ListsIsReads(mem, r);
    }
    CountIsListed(r);
    MisreadsIff(image, r.address, r.length, r.wide);
  }

  const RSDT_BYTES: seq<Byte> := [82, 83, 68, 84]

  function LengthByte(length: nat, i: nat): Byte {
    if i == 0 then length % 256 else if i == 1 then length / 256 % 256
    else if i == 2 then length / 65536 % 256 else length / 16777216 % 256
  }

  /** A root table header of the given length, its checksum not yet set, in a memory of zeros. */
  function BareByte(root: nat, length: nat, a: nat): Byte {
    if root <= a < root + 4 then RSDT_BYTES[a - root]
    else if root + 4 <= a < root + 8 then LengthByte(length, a - root - 4) else 0
  }

  function BareRoot(root: nat, length: nat): Memory {
    (a: nat) => BareByte(root, length, a)
  }

  lemma LengthBytes(length: nat)
    requires length < U32
    ensures length == LengthByte(length, 0) + 256 * LengthByte(length, 1) + 65536 * LengthByte(length, 2)
                      + 16777216 * LengthByte(length, 3)
  {
    assert length / 65536 == length / 256 / 256 && length / 16777216 == length / 65536 / 256;
  }

  lemma BareRootLength(root: nat, length: nat)
    requires length < U32
    ensures TableLength(BareRoot(root, length), root) == length && Matches(BareRoot(root, length), root, RSDT_SIGNATURE)
  {
    FourBytes(BareRoot(root, length), root + 4);
    LengthBytes(length);
  }

  lemma Balances(sum: nat, b: Byte)
    requires b == (256 - sum % 256) % 256
    ensures (sum + b) % 256 == 0
  {
  }

  /** Such images exist for every length that covers the header: byte 9, the checksum, balances the sum. */
  lemma RootsExist(r: Root) returns (image: Memory)
    requires 36 <= r.length < 0x1_0000_0000
    ensures Holds(image, r)
  {
    var bare := BareRoot(r.address, r.length);
    var b: Byte := (256 - Sum(bare, r.address, r.length) % 256) % 256;
    image := Changed(bare, r.address + 9, b);
    BareRootLength(r.address, r.length);
    HeaderKept(bare, r.address, r.address + 9, b);
    SumChanged(bare, r.address + 9, b, r.address, r.length);
    Balances(Sum(bare, r.address, r.length), b);
    HoldsIff(image, r);
  }

  // ---------------------------------------------------------------- images on which discovery goes wrong

  /** Byte i of the root pointer used below: revision 0, root table at 0x1000. */
  function PointerByte(i: nat): Byte {
    if i == 0 then 0x52 else if i == 1 then 0x53 else if i == 2 then 0x44 else if i == 3 then 0x20
    else if i == 4 then 0x50 else if i == 5 then 0x54 else if i == 6 then 0x52 else if i == 7 then 0x20
    else if i == 8 then 209 else if i == 17 then 0x10 else 0
  }

  /** The root pointer stands at the first candidate address. */
  predicate HasPointer(mem: Memory) {
    forall x: nat :: 0xE0000 <= x < 0xE0024 ==> mem(x) == PointerByte(x - 0xE0000)
  }

  lemma PointerBytes(mem: Memory, a: nat)
    requires a == 0xE0000 && HasPointer(mem)
    ensures mem(a) == 0x52 && mem(a + 1) == 0x53 && mem(a + 2) == 0x44 && mem(a + 3) == 0x20
    ensures mem(a + 4) == 0x50 && mem(a + 5) == 0x54 && mem(a + 6) == 0x52 && mem(a + 7) == 0x20
    ensures mem(a + 8) == 209 && mem(a + 15) == 0 && mem(a + 17) == 0x10
    ensures forall x: nat :: a + 9 <= x < a + 36 && x != a + 17 ==> mem(x) == 0
  {
  }

  lemma PointerSum(mem: Memory, a: nat, n: nat)
    requires a == 0xE0000 && HasPointer(mem) && n == 36
    ensures Sum(mem, a, n) == 768
  {
    PointerBytes(mem, a);
    SumFour(mem, a, 0);
    SumFour(mem, a, 4);
    SumOverZeros(mem, a, 9, 17);
    SumOverZeros(mem, a, 18, n);
  }

  /** It names a root table at 0x1000 with 4-byte entries. */
  lemma PointerFound(mem: Memory, k: nat) returns (r: Root)
    requires HasPointer(mem) && k == 0
    ensures IsLowest(mem, k) && r == RootOf(mem, k, false)
    ensures !r.wide && r.address == 0x1000 && r.length == Long(mem, r.address + 4)
  {
    PointerBytes(mem, 0xE0000 + 16 * k);
    PointerSum(mem, 0xE0000 + 16 * k, 36);
    r := RootOf(mem, k, false);
  }

  /** A table with the given signature, length and checksum, else zeros, but for one byte. */
  predicate HasTable(mem: Memory, t: nat, signature: seq<char>, length: Byte, checksum: Byte, at: nat)
    requires |signature| == 4
  {
    && Signed(mem, t, signature) && mem(t + 4) == length && mem(t + 9) == checksum && 12 <= at < length
    && forall x: nat :: t + 5 <= x < t + length && x != t + 9 && x != t + at ==> mem(x) == 0
  }

  function Letters(signature: seq<char>): nat
    requires |signature| == 4
  {
    signature[0] as int + signature[1] as int + signature[2] as int + signature[3] as int
  }

  lemma HeaderSum(mem: Memory, t: nat)
    ensures Sum(mem, t, 10) == mem(t) + mem(t + 1) + mem(t + 2) + mem(t + 3) + mem(t + 4)
                               + mem(t + 5) + mem(t + 6) + mem(t + 7) + mem(t + 8) + mem(t + 9)
  {
    SumFour(mem, t, 0);
    SumFour(mem, t, 4);
  }

  lemma SparseSum(mem: Memory, t: nat, signature: seq<char>, length: Byte, checksum: Byte, at: nat)
    requires |signature| == 4 && HasTable(mem, t, signature, length, checksum, at)
    ensures Sum(mem, t, length) == Letters(signature) + length + checksum + mem(t + at)
  {
    HeaderSum(mem, t);
    SumOverZeros(mem, t, 10, at);
    assert Sum(mem, t, at + 1) == Sum(mem, t, at) + mem(t + at);
    SumOverZeros(mem, t, at + 1, length);
  }

  lemma SparseTable(mem: Memory, t: nat, signature: seq<char>, length: Byte, checksum: Byte, at: nat)
    requires |signature| == 4 && HasTable(mem, t, signature, length, checksum, at)
    requires (Letters(signature) + length + checksum + mem(t + at)) % 256 == 0
    ensures Long(mem, t + 4) == length && Checks(mem, t)
  {
    SparseSum(mem, t, signature, length, checksum, at);
  }

  /** Byte i of a header of which nothing but signature, length and checksum is set. */
  function HeaderByte(letters: seq<Byte>, length: Byte, checksum: Byte, i: nat): Byte
    requires |letters| == 4
  {
    if i < 4 then letters[i] else if i == 4 then length else if i == 9 then checksum else 0
  }

  /** A table without bytes passes the checksum. */
  lemma EmptyTableChecks(mem: Memory, t: nat)
    requires mem(t + 4) == 0 && mem(t + 5) == 0 && mem(t + 6) == 0 && mem(t + 7) == 0
    ensures Checks(mem, t)
  {
    assert Long(mem, t + 4) == 0;
  }

  /** The root pointer, and a root table of length 68 at 0x1000 that is empty behind its header. */
  function CrowdedByte(a: nat): Byte {
    if 0xE0000 <= a < 0xE0024 then PointerByte(a - 0xE0000)
    else if 0x1000 <= a < 0x1024 then HeaderByte(RSDT_BYTES, 68, 127, a - 0x1000) else 0
  }

  const CROWDED: Memory := (a: nat) => CrowdedByte(a)

  lemma CrowdedEntryIsValid(r: Root, i: nat)
    requires !r.wide && r.length == 68 && i < 8
    ensures Checks(CROWDED, Listed(CROWDED, r, i))
  {
    assert Listed(CROWDED, r, i) == 0;
    EmptyTableChecks(CROWDED, Listed(CROWDED, r, i));
  }

  lemma {:induction false} CrowdedEntriesAreValid(r: Root, n: nat)
    requires !r.wide && r.length == 68 && n <= 8
    ensures ValidListed(CROWDED, r, n) == n
  {
    if n > 0 {
      CrowdedEntriesAreValid(r, n - 1);
      CrowdedEntryIsValid(r, n - 1);
    }
  }

  lemma CrowdedRoot(t: nat)
    requires t == 0x1000
    ensures Signed(CROWDED, t, "RSDT") && Checks(CROWDED, t) && Long(CROWDED, t + 4) == 68
  {
    SparseTable(CROWDED, t, "RSDT", 68, 127, 12);
  }

  lemma CrowdedFull(s: State, r: Root)
    requires !r.wide && r.length == 68
    ensures !Fits(CROWDED, s, r)
  {
    CrowdedEntriesAreValid(r, ListedCount(r));
  }

  lemma CrowdedOut(mem: Memory, s: State, k: nat, r: Root)
    requires s.state == Initializing && IsLowest(mem, k) && r == RootOf(mem, k, s.acpi20)
    requires IsGood(mem, r) && !Fits(mem, s, r)
    ensures Initialize(mem, s).1 == Overrun
  {
    InitOutcomes(mem, s, k, r);
  }

  /** An image on which Init leaves the array: the 8 entries read from address 68 are 0, and the empty table at address 0 is
      valid, so it is stored 8 times. */
  lemma InitCanOverrun(s: State)
    requires s.state == Initializing && !s.acpi20
    ensures Initialize(CROWDED, s).1 == Overrun
  {
    var k := 0;
    var r := PointerFound(CROWDED, k);
    CrowdedRoot(r.address);
    CrowdedFull(s, r);
    CrowdedOut(CROWDED, s, k, r);
  }

  const FACP_BYTES: seq<Byte> := [70, 65, 67, 80]

  /** The root pointer, a root table with the one entry 0x2000 behind its header, and a table "FACP" there. */
  function MissedByte(a: nat): Byte {
    if 0xE0000 <= a < 0xE0024 then PointerByte(a - 0xE0000)
    else if 0x1000 <= a < 0x1024 then HeaderByte(RSDT_BYTES, 40, 123, a - 0x1000)
    else if a == 0x1025 then 0x20
    else if 0x2000 <= a < 0x2024 then HeaderByte(FACP_BYTES, 36, 194, a - 0x2000) else 0
  }

  const MISSED: Memory := (a: nat) => MissedByte(a)

  lemma MissedRoot(t: nat)
    requires t == 0x1000
    ensures Signed(MISSED, t, "RSDT") && Checks(MISSED, t) && Long(MISSED, t + 4) == 40 && Long(MISSED, t + 36) == 0x2000
  {
    SparseTable(MISSED, t, "RSDT", 40, 123, 37);
  }

  lemma MissedTable(t: nat)
    requires t == 0x2000
    ensures Signed(MISSED, t, "FACP") && Checks(MISSED, t)
  {
    SparseTable(MISSED, t, "FACP", 36, 194, 12);
  }

  lemma MissedEntries(r: Root)
    requires !r.wide && r.length == 40
    ensures ListedCount(r) == 1 && ValidListed(MISSED, r, ListedCount(r)) <= 1
    ensures forall i: nat :: i < ListedCount(r) ==> !IsWanted(MISSED, r, "FACP", i)
  {
    assert Listed(MISSED, r, 0) == 0;
    assert MISSED(0) != "FACP"[0] as int;
  }

  lemma NoneWanted(mem: Memory, table: Option<nat>, r: Root, signature: seq<char>)
    requires |signature| == 4 && IsFirstWanted(mem, table, r, signature)
    requires forall i: nat :: i < ListedCount(r) ==> !IsWanted(mem, r, signature, i)
    ensures table == None
  {
  }

  lemma OneMissed(mem: Memory, s: State, k: nat, r: Root, signature: seq<char>)
    requires s.state == Initializing && s.tables == [] && IsLowest(mem, k) && r == RootOf(mem, k, s.acpi20) && IsGood(mem, r)
    requires |signature| == 4 && ValidListed(mem, r, ListedCount(r)) <= 1
    requires forall i: nat :: i < ListedCount(r) ==> !IsWanted(mem, r, signature, i)
    ensures Initialize(mem, s).1 == Code(Success) && Lookup(mem, Initialize(mem, s).0, signature) == None
  {
    InitOutcomes(mem, s, k, r);
    LookupAfterInit(mem, s, k, r, signature);
    NoneWanted(mem, Lookup(mem, Initialize(mem, s).0, signature), r, signature);
  }

  /** An image on which Init succeeds and a lookup misses a table that is valid, carries the signature and is the one
      specified entry of the good root table. */
  lemma SpecifiedTableIsMissed(s: State) returns (k: nat, r: Root, table: nat)
    requires s.state == Initializing && !s.acpi20 && s.tables == []
    ensures IsLowest(MISSED, k) && r == RootOf(MISSED, k, s.acpi20) && IsGood(MISSED, r) && r.length == 40
    ensures table == Long(MISSED, r.address + 36) && Signed(MISSED, table, "FACP") && Checks(MISSED, table)
    ensures Initialize(MISSED, s).1 == Code(Success) && Lookup(MISSED, Initialize(MISSED, s).0, "FACP") == None
  {
    k := 0;
    r := PointerFound(MISSED, k);
    MissedRoot(r.address);
    table := Long(MISSED, r.address + 36);
    MissedTable(table);
    MissedEntries(r);
    OneMissed(MISSED, s, k, r, "FACP");
  }
}
