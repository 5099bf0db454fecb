/** The kernel loader's copy loop (src/boot.c:36-59). The remaining size is a 32-bit counter that the inner loop lowers
    byte by byte and the outer loop lowers by a whole sector again, so its wrap-around decides when the loop ends. */
module Loader {
  import opened RtTypes

  const KERNEL_LOAD_ADDRESS: nat := 0x1_0000

  type Memory = map<nat, bv8>

  /** read_sector: the answer to read number n, of the given sector; None is an error. */
  type Disk = (nat, nat) -> Option<seq<bv8>>

  ghost predicate ReadsSectors(disk: Disk, s: nat) {
    forall n, sector :: disk(n, sector).Some? ==> |disk(n, sector).value| == s
  }

  /** SECTOR_SIZE is not defined in the repository: any size of which 2^32 is an even multiple. */
  ghost predicate IsSectorSize(s: nat) {
    0 < s && 0x1_0000_0000 % (2 * s) == 0
  }

  datatype Status = Loading | ReadError | Entered

  /** The loop head: readCount counts the sectors read so far. */
  datatype Head = Head(status: Status, readCount: nat, sector: nat, size: nat, address: nat, memory: Memory)

  /** count bytes of buffer stored from address on. */
  function Store(memory: Memory, address: nat, buffer: seq<bv8>, count: nat): Memory
    requires count <= |buffer|
  {
    if count == 0 then memory
    else Store(memory, address, buffer, count - 1)[(address + count - 1) % U32 := buffer[count - 1]]
  }

  /** One turn of the outer loop, or the exit through its test. */
  function Turn(s: nat, disk: Disk, h: Head): Head
    requires ReadsSectors(disk, s)
  {
    if h.status != Loading then h
    else if h.size == 0 then h.(status := Entered)
    else
      var got := disk(h.readCount, h.sector);
      if got.None? then h.(status := ReadError)
      else
        var count := if s < h.size then s else h.size;
        Head(Loading, h.readCount + 1, (h.sector + 1) % U32, (h.size - count - s) % U32,
             (h.address + count) % U32, Store(h.memory, h.address, got.value, count))
  }

  function Start(sector: nat, size: nat, memory: Memory): Head {
    Head(Loading, 0, sector, size, KERNEL_LOAD_ADDRESS, memory)
  }

  function Turns(s: nat, disk: Disk, h: Head, n: nat): Head
    requires ReadsSectors(disk, s)
  {
    if n == 0 then h else Turn(s, disk, Turns(s, disk, h, n - 1))
  }

  class Machine {
    var memory: Memory

    /** load_kernel, given up after limit turns of the outer loop (the original has no such limit and may not end). */
    method LoadKernel(s: nat, disk: Disk, kernelSector: nat, kernelSize: nat, limit: nat) returns (status: Status)
      requires ReadsSectors(disk, s) && kernelSector < U32 && kernelSize < U32
      modifies this
      ensures var end := Turns(s, disk, Start(kernelSector, kernelSize, old(memory)), limit);
              status == end.status && memory == end.memory
    {
      var sector: nat, size: nat, address: nat, turns: nat := kernelSector, kernelSize, KERNEL_LOAD_ADDRESS, 0;
      ghost var start := Start(kernelSector, kernelSize, memory);
      while turns < limit
        invariant turns <= limit && size < U32 && address < U32
        invariant AtHead(s, disk, start, Head(Loading, turns, sector, size, address, memory))
      {
        ghost var head := Head(Loading, turns, sector, size, address, memory);
        if size == 0 {
          EntersHere(s, disk, start, head, limit);
          return Entered;
        }
        var got := disk(turns, sector);
        if got.None? {
          FailsHere(s, disk, start, head, limit);
          return ReadError;
        }
        address, size := CopySector(got.value, s, address, size);
        size := (size - s) % U32;
        sector := (sector + 1) % U32;
        turns := turns + 1;
        GoesOnHere(s, disk, start, head);
      }
      return Loading;
    }

    /** The inner loop. */
    method CopySector(buffer: seq<bv8>, s: nat, address0: nat, size0: nat) returns (address: nat, size: nat)
      requires |buffer| == s && address0 < U32
      modifies this
      ensures var count := if s < size0 then s else size0;
              size == size0 - count && address == (address0 + count) % U32
              && memory == Store(old(memory), address0, buffer, count)
    {
      address, size := address0, size0;
      var i := 0;
      while i < s && size > 0
        invariant 0 <= i <= s && size == size0 - i
        invariant address == (address0 + i) % U32
        invariant memory == Store(old(memory), address0, buffer, i)
      {
        NextNumber(address0, i);
        memory := memory[address := buffer[i]];
        address := (address + 1) % U32;
        size := size - 1;
        i := i + 1;
      }
    }
  }

  lemma {:induction false} FinishedStays(s: nat, disk: Disk, h: Head, n: nat, m: nat)
    requires ReadsSectors(disk, s) && n <= m && Turns(s, disk, h, n).status != Loading
    ensures Turns(s, disk, h, m) == Turns(s, disk, h, n)
  {
    if n < m {
      FinishedStays(s, disk, h, n, m - 1);
    }
  }

  /** As many turns as it has read sectors lead from the start to this head. */
  predicate AtHead(s: nat, disk: Disk, start: Head, h: Head)
    requires ReadsSectors(disk, s)
  {
    Turns(s, disk, start, h.readCount) == h && h.status == Loading
  }

  lemma EntersHere(s: nat, disk: Disk, start: Head, h: Head, limit: nat)
    requires ReadsSectors(disk, s) && AtHead(s, disk, start, h) && h.size == 0 && h.readCount < limit
    ensures Turns(s, disk, start, limit) == h.(status := Entered)
  {
    FinishedStays(s, disk, start, h.readCount + 1, limit);
  }

  lemma FailsHere(s: nat, disk: Disk, start: Head, h: Head, limit: nat)
    requires ReadsSectors(disk, s) && AtHead(s, disk, start, h) && h.size > 0 && h.readCount < limit
    requires disk(h.readCount, h.sector).None?
    ensures Turns(s, disk, start, limit) == h.(status := ReadError)
  {
    FinishedStays(s, disk, start, h.readCount + 1, limit);
  }

  lemma GoesOnHere(s: nat, disk: Disk, start: Head, h: Head)
    requires ReadsSectors(disk, s) && AtHead(s, disk, start, h) && h.size > 0 && disk(h.readCount, h.sector).Some?
    ensures var count := if s < h.size then s else h.size;
            AtHead(s, disk, start,
              Head(Loading, h.readCount + 1, (h.sector + 1) % U32, (h.size - count - s) % U32,
                   (h.address + count) % U32, Store(h.memory, h.address, disk(h.readCount, h.sector).value, count)))
  {
  }

  // ---------------------------------------------------------------- arithmetic

  lemma NextNumber(first: nat, n: nat)
    ensures ((first + n) % U32 + 1) % U32 == (first + (n + 1)) % U32
  {
  }

  lemma Minus(d: int, a: int, b: int)
    ensures d * a - d * b == d * (a - b)
  {
  }

  lemma MultipleIsLarge(d: nat, g: int)
    ensures g >= 1 ==> d * g >= d
    ensures g <= -1 ==> d * g <= -(d as int)
  {
    Minus(d, g, 1);
    Minus(d, g, -1);
  }

  lemma MultipleHasNoRemainder(n: nat, d: nat, q: int)
    requires d > 0 && n == d * q
    ensures n % d == 0 && n / d == q
  {
    Minus(d, q, n / d);
    MultipleIsLarge(d, q - n / d);
  }

  /** One turn on the 32-bit counter. */
  function NextSize(s: nat, size: nat): nat {
    (size - (if s < size then s else size) - s) % U32
  }

  lemma NextSizeWraps(s: nat, size: nat)
    requires 0 < s && 2 * s <= U32 && 0 < size < U32
    ensures NextSize(s, size) == if size >= 2 * s then size - 2 * s else if size >= s then size - 2 * s + U32 else U32 - s
  {
  }

  lemma OneMoreIsMultiple(d: nat, size: nat, q: int)
    requires d > 0 && size - d == d * q
    ensures size % d == 0
  {
    Minus(d, q, -1);
    MultipleHasNoRemainder(size, d, q + 1);
  }

  lemma HalfIsNoMultiple(s: nat, q: int, q': int)
    requires 0 < s
    ensures 2 * s * q - s != 2 * s * q'
  {
    Minus(2 * s, q, q');
    MultipleIsLarge(2 * s, q - q');
  }

  /** A counter that one turn makes a multiple of two sectors was one before: with two full sectors left it drops by
      both; otherwise it wraps, and below one sector it lands one sector short of 2^32. */
  lemma TurnReflectsMultiples(s: nat, size: nat)
    requires IsSectorSize(s) && 0 < size < U32 && NextSize(s, size) % (2 * s) == 0
    ensures size % (2 * s) == 0
  {
    var d, q, q' := 2 * s, U32 / (2 * s), NextSize(s, size) / (2 * s);
    assert U32 == d * q && NextSize(s, size) == d * q';
    MultipleIsLarge(d, q);
    NextSizeWraps(s, size);
    if size >= d {
      OneMoreIsMultiple(d, size, q');
    } else if size >= s {
      Minus(d, q', q);
      OneMoreIsMultiple(d, size, q' - q);
    } else {
      HalfIsNoMultiple(s, q, q');
    }
  }

  // ---------------------------------------------------------------- sizes that are not a multiple of two sectors

  /** The counter never reaches zero: at every loop head it is still not a multiple of two sectors, through every wrap,
      so the kernel is not entered however long the loop runs. */
  lemma {:induction false} OddSizeNeverEnters(s: nat, disk: Disk, sector: nat, size: nat, memory: Memory, n: nat)
    requires IsSectorSize(s) && ReadsSectors(disk, s) && size < 0x1_0000_0000 && size % (2 * s) != 0
    ensures var h := Turns(s, disk, Start(sector, size, memory), n);
            h.size < U32 && h.size % (2 * s) != 0 && h.status != Entered
  {
    if n > 0 {
      OddSizeNeverEnters(s, disk, sector, size, memory, n - 1);
      OddTurn(s, disk, Turns(s, disk, Start(sector, size, memory), n - 1));
    }
  }

  lemma OddTurn(s: nat, disk: Disk, h: Head)
    requires IsSectorSize(s) && ReadsSectors(disk, s) && h.size < U32 && h.size % (2 * s) != 0 && h.status != Entered
    ensures var h' := Turn(s, disk, h);
            h'.size < U32 && h'.size % (2 * s) != 0 && h'.status != Entered
  {
    var h' := Turn(s, disk, h);
    if h.size == 0 {
      MultipleHasNoRemainder(0, 2 * s, 0);
    } else if h'.size != h.size {
      assert h'.size == NextSize(s, h.size);
      if NextSize(s, h.size) % (2 * s) == 0 {
        TurnReflectsMultiples(s, h.size);
      }
    }
  }

  // ---------------------------------------------------------------- multiples of two sectors

  /** Sector number i of the kernel, as read number i. */
  function Sector(disk: Disk, sector: nat, i: nat): Option<seq<bv8>> {
    disk(i, (sector + i) % 0x1_0000_0000)
  }

  /** The size of n sectors. */
  function Bytes(s: nat, n: nat): nat {
    if n == 0 then 0 else Bytes(s, n - 1) + s
  }

  lemma {:induction false} BytesIsProduct(s: nat, n: nat)
    ensures Bytes(s, n) == s * n
  {
    if n > 0 {
      BytesIsProduct(s, n - 1);
      Minus(s, n, 1);
    }
  }

  lemma {:induction false} BytesGrow(s: nat, i: nat, n: nat)
    requires i < n
    ensures Bytes(s, i) + s <= Bytes(s, n)
  {
    if i < n - 1 {
      BytesGrow(s, i, n - 1);
    }
  }

  /** Where byte j of sector i belongs. */
  function ByteAddress(s: nat, i: nat, j: nat): nat {
    0x1_0000 + Bytes(s, i) + j
  }

  /** Two memories agree at an address. */
  ghost predicate SameAt(m: Memory, m': Memory, a: nat) {
    (a in m <==> a in m') && (a in m ==> m[a] == m'[a])
  }

  ghost predicate ByteAt(m: Memory, a: nat, b: bv8) {
    a in m && m[a] == b
  }

  /** Memory after n whole sectors: their bytes from the load address on, and nothing else changed. */
  ghost predicate Holds(s: nat, disk: Disk, sector: nat, before: Memory, memory: Memory, n: nat) {
    && (forall i: nat, j: nat :: i < n && j < s ==> StoredAt(disk, sector, memory, i, j, ByteAddress(s, i, j)))
    && (forall a: nat :: a < 0x1_0000 || ByteAddress(s, n, 0) <= a ==> SameAt(memory, before, a))
  }

  ghost predicate StoredAt(disk: Disk, sector: nat, memory: Memory, i: nat, j: nat, a: nat) {
    var got := Sector(disk, sector, i);
    got.Some? && j < |got.value| && ByteAt(memory, a, got.value[j])
  }

  lemma {:induction false} StoreWrites(memory: Memory, address: nat, buffer: seq<bv8>, count: nat)
    requires count <= |buffer| && address + count <= U32
    ensures var m := Store(memory, address, buffer, count);
            && (forall j: nat :: j < count ==> ByteAt(m, address + j, buffer[j]))
            && (forall a: nat :: a < address || address + count <= a ==> SameAt(m, memory, a))
  {
    if count > 0 {
      StoreWrites(memory, address, buffer, count - 1);
      var before, last, m := Store(memory, address, buffer, count - 1), address + count - 1, Store(memory, address, buffer, count);
      assert last % U32 == last && m == before[last := buffer[count - 1]];
      forall j: nat | j < count ensures ByteAt(m, address + j, buffer[j]) {
        if j < count - 1 {
          assert ByteAt(before, address + j, buffer[j]);
        }
      }
      forall a: nat | a < address || address + count <= a ensures SameAt(m, memory, a) {
        assert SameAt(before, memory, a);
      }
    }
  }

  lemma NextSectorHolds(s: nat, disk: Disk, sector: nat, before: Memory, memory: Memory, n: nat)
    requires ReadsSectors(disk, s) && Holds(s, disk, sector, before, memory, n)
    requires Sector(disk, sector, n).Some? && ByteAddress(s, n, s) <= U32
    ensures Holds(s, disk, sector, before, Store(memory, ByteAddress(s, n, 0), Sector(disk, sector, n).value, s), n + 1)
  {
    var buffer, start := Sector(disk, sector, n).value, ByteAddress(s, n, 0);
    var m := Store(memory, start, buffer, s);
    StoreWrites(memory, start, buffer, s);
    forall i: nat, j: nat | i < n + 1 && j < s ensures StoredAt(disk, sector, m, i, j, ByteAddress(s, i, j)) {
      if i < n {
        BytesGrow(s, i, n);
        assert StoredAt(disk, sector, memory, i, j, ByteAddress(s, i, j)) && SameAt(m, memory, ByteAddress(s, i, j));
      } else {
        assert ByteAt(m, start + j, buffer[j]);
      }
    }
    forall a: nat | a < 0x1_0000 || ByteAddress(s, n + 1, 0) <= a ensures SameAt(m, before, a) {
      assert SameAt(m, memory, a) && SameAt(memory, before, a);
    }
  }

  /** The loop head after n turns of a load of size == 2 * Bytes(s, k), while every read succeeds. */
  ghost predicate Progress(s: nat, disk: Disk, sector: nat, size: nat, memory: Memory, n: nat, h: Head) {
    && h.status == Loading && h.readCount == n && h.sector == (sector + n) % U32
    && h.size == size - 2 * Bytes(s, n) && h.address == ByteAddress(s, n, 0)
    && Holds(s, disk, sector, memory, h.memory, n)
  }

  lemma {:induction false} EvenSizeProgress(s: nat, disk: Disk, sector: nat, size: nat, k: nat, memory: Memory, n: nat)
    requires ReadsSectors(disk, s) && sector < U32 && size < U32 && 0 < s && size == 2 * Bytes(s, k) && n <= k
    requires forall i: nat :: i < n ==> Sector(disk, sector, i).Some?
    ensures Progress(s, disk, sector, size, memory, n, Turns(s, disk, Start(sector, size, memory), n))
  {
    if n > 0 {
      EvenSizeProgress(s, disk, sector, size, k, memory, n - 1);
      BytesGrow(s, n - 1, k);
      EvenTurn(s, disk, sector, size, memory, n - 1, Turns(s, disk, Start(sector, size, memory), n - 1));
    }
  }

  lemma EvenTurn(s: nat, disk: Disk, sector: nat, size: nat, memory: Memory, n: nat, h: Head)
    requires ReadsSectors(disk, s) && sector < U32 && size < U32 && 0 < s && 2 * Bytes(s, n + 1) <= size
    requires Progress(s, disk, sector, size, memory, n, h) && Sector(disk, sector, n).Some?
    ensures Progress(s, disk, sector, size, memory, n + 1, Turn(s, disk, h))
  {
    FullTurn(s, disk, h);
    NextSectorHolds(s, disk, sector, memory, h.memory, n);
    NextNumber(sector, n);
  }

  /** A turn with two full sectors left to count. */
  lemma FullTurn(s: nat, disk: Disk, h: Head)
    requires ReadsSectors(disk, s) && h.status == Loading && 0 < s && 2 * s <= h.size < U32 && h.address + s < U32
    requires disk(h.readCount, h.sector).Some?
    ensures Turn(s, disk, h) ==
            Head(Loading, h.readCount + 1, (h.sector + 1) % U32, h.size - 2 * s, h.address + s,
                 Store(h.memory, h.address, disk(h.readCount, h.sector).value, s))
  {
  }

  // ---------------------------------------------------------------- the fate of a load

  lemma Halves(s: nat, size: nat, k: nat)
    requires 0 < s && size % (2 * s) == 0 && k == size / (2 * s)
    ensures size == 2 * Bytes(s, k)
  {
    BytesIsProduct(s, k);
    assert size == (2 * s) * k == 2 * (s * k);
  }

  ghost predicate EventuallyEnters(s: nat, disk: Disk, sector: nat, size: nat, memory: Memory)
    requires ReadsSectors(disk, s)
  {
    exists n: nat :: Turns(s, disk, Start(sector, size, memory), n).status == Entered
  }

  /** Whatever the pattern of read failures, the kernel is entered if and only if its size is a multiple of two sectors
      and the first size / (2 * s) reads succeed. */
  lemma EntersIff(s: nat, disk: Disk, sector: nat, size: nat, memory: Memory)
    requires IsSectorSize(s) && ReadsSectors(disk, s) && sector < 0x1_0000_0000 && size < 0x1_0000_0000
    ensures EventuallyEnters(s, disk, sector, size, memory) <==>
            size % (2 * s) == 0 && forall i: nat :: i < size / (2 * s) ==> Sector(disk, sector, i).Some?
  {
    var start, k := Start(sector, size, memory), size / (2 * s);
    if size % (2 * s) != 0 {
      forall n: nat ensures Turns(s, disk, start, n).status != Entered {
        OddSizeNeverEnters(s, disk, sector, size, memory, n);
      }
    } else {
      Halves(s, size, k);
      if i: nat :| i < k && Sector(disk, sector, i).None? {
        FailsAtFirstBadSector(s, disk, sector, size, k, memory, i);
      } else {
        EntersAfter(s, disk, sector, size, k, memory);
      }
    }
  }

  lemma EntersAfter(s: nat, disk: Disk, sector: nat, size: nat, k: nat, memory: Memory)
    requires ReadsSectors(disk, s) && sector < 0x1_0000_0000 && size < 0x1_0000_0000 && 0 < s && size == 2 * Bytes(s, k)
    requires forall i: nat :: i < k ==> Sector(disk, sector, i).Some?
    ensures var h := Turns(s, disk, Start(sector, size, memory), k + 1);
            h.status == Entered && h.readCount == k && Holds(s, disk, sector, memory, h.memory, k)
  {
    EvenSizeProgress(s, disk, sector, size, k, memory, k);
  }

  lemma FailsAtFirstBadSector(s: nat, disk: Disk, sector: nat, size: nat, k: nat, memory: Memory, i: nat)
    requires ReadsSectors(disk, s) && sector < 0x1_0000_0000 && size < 0x1_0000_0000 && 0 < s && size == 2 * Bytes(s, k)
    requires i < k && Sector(disk, sector, i).None?
    ensures !EventuallyEnters(s, disk, sector, size, memory)
  {
    if j: nat :| j < i && Sector(disk, sector, j).None? {
      FailsAtFirstBadSector(s, disk, sector, size, k, memory, j);
    } else {
      var start := Start(sector, size, memory);
      EvenSizeProgress(s, disk, sector, size, k, memory, i);
      BytesGrow(s, i, k);
      assert Turns(s, disk, start, i + 1).status == ReadError;
      forall n: nat ensures Turns(s, disk, start, n).status != Entered {
        if n <= i {
          EvenSizeProgress(s, disk, sector, size, k, memory, n);
        } else {
          FinishedStays(s, disk, start, i + 1, n);
        }
      }
    }
  }

  /** Without read errors the loop ends if and only if the size is a multiple of two sectors. */
  lemma TerminatesIff(s: nat, disk: Disk, sector: nat, size: nat, memory: Memory)
    requires IsSectorSize(s) && ReadsSectors(disk, s) && sector < 0x1_0000_0000 && size < 0x1_0000_0000
    requires forall n, sec :: disk(n, sec).Some?
    ensures (exists n: nat :: Turns(s, disk, Start(sector, size, memory), n).status != Loading) <==> size % (2 * s) == 0
  {
    var start := Start(sector, size, memory);
    EntersIff(s, disk, sector, size, memory);
    if size % (2 * s) == 0 {
      assert forall i: nat :: Sector(disk, sector, i).Some?;
      var n: nat :| Turns(s, disk, start, n).status == Entered;
      assert Turns(s, disk, start, n).status != Loading;
    } else {
      forall n: nat ensures Turns(s, disk, start, n).status == Loading {
        NoReadError(s, disk, start, n);
        OddSizeNeverEnters(s, disk, sector, size, memory, n);
      }
    }
  }

  lemma {:induction false} NoReadError(s: nat, disk: Disk, h: Head, n: nat)
    requires ReadsSectors(disk, s) && h.status == Loading && forall n, sec :: disk(n, sec).Some?
    ensures Turns(s, disk, h, n).status != ReadError
  {
    if n > 0 {
      NoReadError(s, disk, h, n - 1);
    }
  }

  /** When the kernel is entered, exactly size / (2 * s) sectors have been read and memory holds their bytes from the
      load address on, with nothing else written. */
  lemma EnteredMemory(s: nat, disk: Disk, sector: nat, size: nat, memory: Memory, n: nat)
    requires IsSectorSize(s) && ReadsSectors(disk, s) && sector < 0x1_0000_0000 && size < 0x1_0000_0000
    requires Turns(s, disk, Start(sector, size, memory), n).status == Entered
    ensures var h, k := Turns(s, disk, Start(sector, size, memory), n), size / (2 * s);
            h.readCount == k && ByteAddress(s, k, 0) == 0x1_0000 + size / 2
            && Holds(s, disk, sector, memory, h.memory, k)
  {
    var start, k := Start(sector, size, memory), size / (2 * s);
    EntersIff(s, disk, sector, size, memory);
    Halves(s, size, k);
    EntersAfter(s, disk, sector, size, k, memory);
    if n <= k {
      EvenSizeProgress(s, disk, sector, size, k, memory, n);
    } else {
      FinishedStays(s, disk, start, k + 1, n);
    }
  }

  /** So an entered kernel is complete in memory (every one of its size bytes was stored) only if it is empty. */
  lemma CompleteIffEmpty(s: nat, disk: Disk, sector: nat, size: nat, n: nat)
    requires IsSectorSize(s) && ReadsSectors(disk, s) && sector < 0x1_0000_0000 && size < 0x1_0000_0000
    requires Turns(s, disk, Start(sector, size, map[]), n).status == Entered
    ensures var h := Turns(s, disk, Start(sector, size, map[]), n);
            (forall a: nat :: 0x1_0000 <= a < 0x1_0000 + size ==> a in h.memory) <==> size == 0
  {
    EnteredMemory(s, disk, sector, size, map[], n);
    var h := Turns(s, disk, Start(sector, size, map[]), n);
    if size > 0 {
      assert SameAt(h.memory, map[], 0x1_0000 + size / 2);
    }
  }
}
