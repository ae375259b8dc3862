/**
 * FLASH_IsProtected: which protection regions a range of the flash meets, and what their bits say.
 */
module FlashProtection {
  import opened Multiples
  import opened Words
  import opened FlashDevice

  datatype State = Unprotected | Protected | Mixed

  type Register = c: nat | c < 0x100

  /** The protection registers, eight regions each, first region in the lowest bit of FPROTL3. */
  datatype Fprot = Fprot(l3: Register, l2: Register, l1: Register, l0: Register,
                         h3: Register, h2: Register, h1: Register, h0: Register) {
    function Registers(): seq<Register> {
      [l3, l2, l1, l0, h3, h2, h1, h0]
    }

    /** Region `i` is not protected: bit i of the 64-bit number that the registers form is set. */
    function Free(i: nat): bool {
      ShiftRight(Number(Registers()), i) % 2 == 1
    }
  }

  /** The number with these bytes, the least significant first. */
  function Number(registers: seq<Register>): nat {
    if registers == [] then 0 else registers[0] + 0x100 * Number(registers[1..])
  }

  /** Bit j of the k-th byte is bit 8k + j of the number. */
  lemma {:induction false} RegisterBit(registers: seq<Register>, k: nat, j: nat)
    requires k < |registers| && j < 8
    ensures ShiftRight(Number(registers), 8 * k + j) % 2 == ShiftRight(registers[k], j) % 2
    decreases k
  {
    var low, high := registers[0], Number(registers[1..]);
    assert Pow2(8) == 0x100;
    if k == 0 {
      LowBits(low, high, 8, j);
    } else {
      HighPart(low, high, 8, 8 * k + j);
      RegisterBit(registers[1..], k - 1, j);
    }
  }

  predicate RegionCount(n: nat) { n in {16, 20, 24, 32, 64} }

  /** The driver's choice of register and shift for a region. */
  method ReadStatus(f: Fprot, regionCount: nat, regionCounter: nat) returns (status: nat)
    requires RegionCount(regionCount) && regionCounter < regionCount
    ensures status == if f.Free(regionCounter) then 1 else 0
  {
    if regionCounter < 8 {
      RegisterBit(f.Registers(), 0, regionCounter);
      status := ShiftRight(f.l3, regionCounter) % 2;
    } else if 8 <= regionCounter < 16 {
      RegisterBit(f.Registers(), 1, regionCounter - 8);
      status := ShiftRight(f.l2, regionCounter - 8) % 2;
    } else if 16 <= regionCounter < 24 {
      RegisterBit(f.Registers(), 2, regionCounter - 16);
      status := ShiftRight(f.l1, regionCounter - 16) % 2;
    } else if 24 <= regionCounter < 32 {
      RegisterBit(f.Registers(), 3, regionCounter - 24);
      status := ShiftRight(f.l0, regionCounter - 24) % 2;
    } else if regionCounter < 40 {
      RegisterBit(f.Registers(), 4, regionCounter - 32);
      status := ShiftRight(f.h3, regionCounter - 32) % 2;
    } else if regionCounter < 48 {
      RegisterBit(f.Registers(), 5, regionCounter - 40);
      status := ShiftRight(f.h2, regionCounter - 40) % 2;
    } else if regionCounter < 56 {
      RegisterBit(f.Registers(), 6, regionCounter - 48);
      status := ShiftRight(f.h1, regionCounter - 48) % 2;
    } else {
      RegisterBit(f.Registers(), 7, regionCounter - 56);
      status := ShiftRight(f.h0, regionCounter - 56) % 2;
    }
  }

  /** flash_get_protection_info: an equal share each, but at least 1 KB. */
  function RegionSize(totalSize: nat, regionCount: nat): nat
    requires 0 < regionCount
  {
    if totalSize > regionCount * 1024 then totalSize / regionCount else 1024
  }

  /** A region is never below 1 KB; above that, all of them together are the flash but for less than one share. */
  lemma RegionSizeMeaning(totalSize: nat, regionCount: nat)
    requires 0 < regionCount
    ensures var n := RegionSize(totalSize, regionCount);
            && n >= 1024
            && (n > 1024 ==> regionCount * n <= totalSize < regionCount * n + regionCount)
            && (n == 1024 ==> totalSize < regionCount * 1024 + regionCount)
  {
    if totalSize > regionCount * 1024 {
      QuotientBounds(totalSize, regionCount);
      QuotientLimit(totalSize, regionCount, 1024);
    }
  }

  /** The regions reach to the end of the flash, when it divides evenly. */
  lemma RegionsCover(totalSize: nat, regionCount: nat)
    requires 0 < regionCount && (totalSize > regionCount * 1024 ==> totalSize % regionCount == 0)
    ensures totalSize <= regionCount * RegionSize(totalSize, regionCount) && 0 < RegionSize(totalSize, regionCount)
  {
    QuotientBounds(totalSize, regionCount);
    if totalSize > regionCount * 1024 && totalSize / regionCount == 0 {
      assert false;
    }
  }

  /** The state of the regions lo..hi-1. */
  ghost function StateOf(free: seq<bool>, lo: nat, hi: nat): State
    requires hi <= |free|
  {
    if forall i :: lo <= i < hi ==> free[i] then Unprotected
    else if forall i :: lo <= i < hi ==> !free[i] then Protected
    else Mixed
  }

  /** The state of all regions that share an address with [addr, addr + length). */
  ghost function RangeState(free: seq<bool>, regionSize: nat, addr: nat, length: nat): State
    requires 0 < regionSize
  {
    if forall i: nat :: i < |free| && Meets(i, regionSize, addr, length) ==> free[i] then Unprotected
    else if forall i: nat :: i < |free| && Meets(i, regionSize, addr, length) ==> !free[i] then Protected
    else Mixed
  }

  /** How many regions the driver looks at, stepping one region size at a time from `start`. */
  function Steps(length: nat, regionSize: nat): nat
    requires 0 < regionSize
  {
    (length + regionSize - 1) / regionSize
  }

  /** The answer of the driver for a range that fits. */
  ghost function Answer(free: seq<bool>, regionSize: nat, addr: nat, length: nat): State
    requires 0 < regionSize && addr / regionSize + Steps(length, regionSize) <= |free|
  {
    StateOf(free, addr / regionSize, addr / regionSize + Steps(length, regionSize))
  }

  // ---------------------------------------------------------------- the driver call

  method RegionStarts(base: nat, regionSize: nat, regionCount: nat) returns (address: array<nat>)
    ensures fresh(address) && address.Length == regionCount + 1
    ensures forall i :: 0 <= i <= regionCount ==> address[i] == base + regionSize * i
  {
    address := new nat[regionCount + 1];
    var regionCounter := 0;
    while regionCounter <= regionCount
      invariant regionCounter <= regionCount + 1
      invariant forall i :: 0 <= i < regionCounter ==> address[i] == base + regionSize * i
    {
      address[regionCounter] := base + regionSize * regionCounter;
      regionCounter := regionCounter + 1;
    }
  }

  method RegionStatuses(f: Fprot, regionCount: nat) returns (status: array<nat>)
    requires RegionCount(regionCount)
    ensures fresh(status) && status.Length == regionCount
    ensures forall i :: 0 <= i < regionCount ==> (status[i] != 0 <==> f.Free(i))
  {
    status := new nat[regionCount];
    var regionCounter := 0;
    while regionCounter < regionCount
      invariant regionCounter <= regionCount
      invariant forall i :: 0 <= i < regionCounter ==> (status[i] != 0 <==> f.Free(i))
    {
      status[regionCounter] := ReadStatus(f, regionCount, regionCounter);
      regionCounter := regionCounter + 1;
    }
  }

  /** An address is in region `i` exactly if its quotient says so. */
  lemma InRegion(base: nat, regionSize: nat, at: nat, i: nat)
    requires 0 < regionSize && base <= at
    ensures base + regionSize * i <= at < base + regionSize * (i + 1) <==> (at - base) / regionSize == i
  {
    QuotientBounds(at - base, regionSize);
    assert regionSize * (i + 1) == i * regionSize + regionSize;
    if base + regionSize * i <= at < base + regionSize * (i + 1) {
      OnlyQuotient(at - base, regionSize, i, (at - base) / regionSize);
    }
  }

  lemma NextRegion(base: nat, regionSize: nat, at: nat)
    requires 0 < regionSize && base <= at
    ensures (at + regionSize - base) / regionSize == (at - base) / regionSize + 1
  {
    QuotientShift(at - base, 1, regionSize);
  }

  /** An address inside the flash lies in one of the regions. */
  lemma RegionExists(regionSize: nat, regionCount: nat, offset: nat)
    requires 0 < regionSize && offset < regionCount * regionSize
    ensures offset / regionSize < regionCount
  {
    QuotientBounds(offset, regionSize);
    MulLe(regionCount, offset / regionSize, regionSize);
  }

  /** After `steps` turns the walk from `start` has passed the end, and not one turn earlier. */
  lemma StepsEnd(length: nat, regionSize: nat, steps: nat)
    requires 0 < regionSize
    ensures steps == Steps(length, regionSize) <==>
              steps * regionSize >= length && (0 < steps ==> (steps - 1) * regionSize < length)
  {
    var all := length + regionSize - 1;
    QuotientBounds(all, regionSize);
    if 0 < steps {
      assert (steps - 1) * regionSize == steps * regionSize - regionSize;
    }
    if steps * regionSize >= length && (0 < steps ==> (steps - 1) * regionSize < length) {
      if 0 < steps {
        QuotientIs(all, regionSize, steps);
      } else {
        QuotientIs(all, regionSize, 0);
      }
    }
  }

  /** Where the walk stands after `steps` steps, in region first + steps. */
  ghost predicate Position(base: nat, regionSize: nat, start0: nat, endAddress: nat, first: nat, start: nat,
                           steps: nat) {
    && 0 < regionSize && base <= start0 <= start && start0 <= endAddress
    && start == start0 + steps * regionSize
    && (0 < steps ==> (steps - 1) * regionSize < endAddress - start0)
    && (start - base) / regionSize == first + steps
  }

  lemma PositionStep(base: nat, regionSize: nat, start0: nat, endAddress: nat, first: nat, start: nat, steps: nat)
    requires Position(base, regionSize, start0, endAddress, first, start, steps) && start < endAddress
    ensures Position(base, regionSize, start0, endAddress, first, start + regionSize, steps + 1)
  {
    NextRegion(base, regionSize, start);
    assert (steps + 1) * regionSize == steps * regionSize + regionSize;
  }

  lemma PositionEnd(base: nat, regionSize: nat, start0: nat, endAddress: nat, first: nat, start: nat, steps: nat)
    requires Position(base, regionSize, start0, endAddress, first, start, steps) && start >= endAddress
    ensures steps == Steps(endAddress - start0, regionSize)
  {
    StepsEnd(endAddress - start0, regionSize, steps);
  }

  /** Short of the end the walk has more steps to go. */
  lemma PositionShort(base: nat, regionSize: nat, start0: nat, endAddress: nat, first: nat, start: nat, steps: nat)
    requires Position(base, regionSize, start0, endAddress, first, start, steps) && start < endAddress
    ensures steps < Steps(endAddress - start0, regionSize)
  {
    var length := endAddress - start0;
    QuotientBounds(length + regionSize - 1, regionSize);
    ShortCore(length, regionSize, steps, Steps(length, regionSize));
  }

  lemma ShortCore(length: nat, regionSize: nat, steps: nat, all: nat)
    requires 0 < regionSize && steps * regionSize < length && length + regionSize - 1 < all * regionSize + regionSize
    ensures steps < all
  {
    MulLe(all, steps, regionSize);
  }

  /** The counters of the walk against the bits of the regions it stepped on. */
  ghost predicate Tally(free: seq<bool>, first: nat, regionChecked: nat, protectStatus: nat) {
    && (0 < regionChecked ==> first + regionChecked <= |free|) && protectStatus <= regionChecked
    && (protectStatus == 0 <==> forall i :: first <= i < first + regionChecked ==> free[i])
    && (protectStatus == regionChecked <==> forall i :: first <= i < first + regionChecked ==> !free[i])
  }

  lemma {:induction false} TallyStep(free: seq<bool>, first: nat, regionChecked: nat, protectStatus: nat)
    requires Tally(free, first, regionChecked, protectStatus) && first + regionChecked < |free|
    ensures Tally(free, first, regionChecked + 1, protectStatus + if free[first + regionChecked] then 0 else 1)
  {
    var now := first + regionChecked;
    if free[now] {
      assert first <= now < first + regionChecked + 1;
    } else {
      assert first <= now < first + regionChecked + 1;
    }
  }

  /** The two arrays describe the regions. */
  ghost predicate Tables(address: array<nat>, status: array<nat>, regionSize: nat, base: nat, free: seq<bool>)
    reads address, status
  {
    && address.Length == status.Length + 1 && |free| == status.Length
    && (forall i :: 0 <= i <= status.Length ==> address[i] == base + regionSize * i)
    && (forall i :: 0 <= i < status.Length ==> (status[i] != 0 <==> free[i]))
  }

  /** One turn of the walk, at a region that exists. */
  method WalkTurn(address: array<nat>, status: array<nat>, regionSize: nat, ghost base: nat, ghost start0: nat,
                  endAddress: nat, ghost free: seq<bool>, ghost first: nat,
                  start: nat, regionCounter: nat, regionChecked: nat, protectStatus: nat)
    returns (start': nat, regionChecked': nat, protectStatus': nat)
    requires Tables(address, status, regionSize, base, free) && regionCounter < status.Length
    requires Position(base, regionSize, start0, endAddress, first, start, regionChecked) && start < endAddress
    requires Tally(free, first, regionChecked, protectStatus) && regionCounter <= first + regionChecked
    ensures Position(base, regionSize, start0, endAddress, first, start', regionChecked')
    ensures Tally(free, first, regionChecked', protectStatus') && regionCounter + 1 <= first + regionChecked'
    ensures start' > start || (start' == start && regionChecked' == regionChecked)
  {
    InRegion(base, regionSize, start, regionCounter);
    start', regionChecked', protectStatus' := start, regionChecked, protectStatus;
    if start >= address[regionCounter] && start < address[regionCounter + 1] {
      PositionStep(base, regionSize, start0, endAddress, first, start, regionChecked);
      TallyStep(free, first, regionChecked, protectStatus);
      regionChecked' := regionChecked + 1;
      if status[regionCounter] == 0 {
        protectStatus' := protectStatus + 1;
      }
      start' := start + regionSize;
    }
  }

  /**
   * The walk over the regions.  It stays within the two arrays exactly when the last region it steps on
   * exists; past that the model stops where the code reads beyond its array.
   */
  method Walk(address: array<nat>, status: array<nat>, regionSize: nat, ghost base: nat, start0: nat, endAddress: nat,
              ghost free: seq<bool>, ghost first: nat)
    returns (inBounds: bool, state: State)
    requires 0 < regionSize && Tables(address, status, regionSize, base, free)
    requires base <= start0 <= endAddress && first == (start0 - base) / regionSize
    ensures inBounds <==> start0 == endAddress || first + Steps(endAddress - start0, regionSize) <= |free|
    ensures inBounds && start0 < endAddress ==>
              state == StateOf(free, first, first + Steps(endAddress - start0, regionSize))
    ensures start0 == endAddress ==> state == Unprotected
  {
    var start := start0;
    var regionCounter: nat, regionChecked: nat, protectStatus: nat := 0, 0, 0;
    while start < endAddress
      invariant Position(base, regionSize, start0, endAddress, first, start, regionChecked)
      invariant Tally(free, first, regionChecked, protectStatus) && regionCounter <= first + regionChecked
      invariant (start0 < endAddress || regionChecked == 0) && regionCounter <= status.Length
      decreases endAddress - start, first + regionChecked - regionCounter
    {
      if regionCounter == status.Length {
        PositionShort(base, regionSize, start0, endAddress, first, start, regionChecked);
        return false, Unprotected;
      }
      start, regionChecked, protectStatus :=
        WalkTurn(address, status, regionSize, base, start0, endAddress, free, first,
                 start, regionCounter, regionChecked, protectStatus);
      regionCounter := regionCounter + 1;
    }
    PositionEnd(base, regionSize, start0, endAddress, first, start, regionChecked);
    inBounds := true;
    if protectStatus == 0 {
      state := Unprotected;
    } else if protectStatus == regionChecked {
      state := Protected;
    } else {
      state := Mixed;
    }
  }

  /** The bits of the regions, in order. */
  function FreeBits(f: Fprot, regionCount: nat): (r: seq<bool>)
    requires regionCount <= 64
    ensures |r| == regionCount && forall i :: 0 <= i < regionCount ==> r[i] == f.Free(i)
  {
    seq(regionCount, i requires 0 <= i < regionCount => f.Free(i))
  }

  /**
   * FLASH_IsProtected.  The regions it judges are those it steps on.  It reads beyond its tables exactly
   * when one of these does not exist, which an evenly divided flash rules out (EvenlyDivided).
   */
  method IsProtected(c: Config, f: Fprot, regionCount: nat, start0: nat, length: nat)
    returns (rc: Status, inBounds: bool, state: State)
    requires 0 < c.writeUnit && RegionCount(regionCount)
    ensures rc in {Success, AlignmentError, AddressError}
    ensures rc == AlignmentError <==> start0 % c.writeUnit != 0 || length % c.writeUnit != 0
    ensures rc == AddressError <==>
              && start0 % c.writeUnit == 0 && length % c.writeUnit == 0
              && (start0 < c.base || start0 + length > c.base + c.size)
    ensures rc == Success ==>
              var regionSize, addr := RegionSize(c.size, regionCount), start0 - c.base;
              && 0 < regionSize
              && (inBounds <==> length == 0 || addr / regionSize + Steps(length, regionSize) <= regionCount)
              && (inBounds && 0 < length ==> state == Answer(FreeBits(f, regionCount), regionSize, addr, length))
              && (length == 0 ==> state == Unprotected)
  {
    inBounds, state := true, Unprotected;
    rc := CheckRange(c, start0, length, c.writeUnit);
    if rc != Success {
      return;
    }
    SharePositive(c.size, regionCount);
    var regionSize := RegionSize(c.size, regionCount);
    QuotientBounds(start0 - c.base, regionSize);
    ghost var first: nat := (start0 - c.base) / regionSize;
    var address := RegionStarts(c.base, regionSize, regionCount);
    var status := RegionStatuses(f, regionCount);
    inBounds, state :=
      Walk(address, status, regionSize, c.base, start0, start0 + length, FreeBits(f, regionCount), first);
  }

  lemma SharePositive(totalSize: nat, regionCount: nat)
    requires 0 < regionCount
    ensures 0 < RegionSize(totalSize, regionCount)
  {
    if totalSize > regionCount * 1024 {
      QuotientBounds(totalSize, regionCount);
      if totalSize / regionCount == 0 { assert false; }
    }
  }

  /** If the flash divides evenly, or its regions have the least size, no range inside it leaves the tables. */
  lemma EvenlyDivided(totalSize: nat, regionCount: nat, addr: nat, length: nat)
    requires 0 < regionCount && (totalSize > regionCount * 1024 ==> totalSize % regionCount == 0)
    requires 0 < length && addr + length <= totalSize
    ensures 0 < RegionSize(totalSize, regionCount)
    ensures addr / RegionSize(totalSize, regionCount) + Steps(length, RegionSize(totalSize, regionCount)) <= regionCount
  {
    RegionsCover(totalSize, regionCount);
    WalkFits(regionCount, RegionSize(totalSize, regionCount), addr, length);
  }

  /** The walk over this range stays within the tables. */
  predicate InTables(regionCount: nat, regionSize: nat, addr: nat, length: nat)
    requires 0 < regionSize
  {
    addr / regionSize + Steps(length, regionSize) <= regionCount
  }

  /** Equal shares, rounded down, leave a remainder. */
  lemma SharesFallShort(totalSize: nat, regionCount: nat)
    requires 0 < regionCount && totalSize > regionCount * 1024 && totalSize % regionCount != 0
    ensures 0 < RegionSize(totalSize, regionCount) && regionCount * RegionSize(totalSize, regionCount) < totalSize
  {
    SharePositive(totalSize, regionCount);
    QuotientBounds(totalSize, regionCount);
  }

  /** Then the whole flash takes more steps than there are regions. */
  lemma WholeFlashOutOfTables(totalSize: nat, regionCount: nat)
    requires 0 < regionCount && totalSize > regionCount * 1024 && totalSize % regionCount != 0
    ensures 0 < RegionSize(totalSize, regionCount)
    ensures !InTables(regionCount, RegionSize(totalSize, regionCount), 0, totalSize)
  {
    SharesFallShort(totalSize, regionCount);
    var size := RegionSize(totalSize, regionCount);
    QuotientBounds(totalSize + size - 1, size);
    QuotientIs(0, size, 0);
    ShortCore(totalSize, size, regionCount, Steps(totalSize, size));
  }

  /**
   * No range inside the flash makes FLASH_IsProtected leave its tables if and only if the flash divides
   * evenly by its region count, or its regions have the least size.
   */
  lemma {:induction false} EvenlyDividedIff(totalSize: nat, regionCount: nat)
    requires 0 < regionCount
    ensures 0 < RegionSize(totalSize, regionCount)
    ensures (forall addr: nat, length: nat :: 0 < length && addr + length <= totalSize ==>
               InTables(regionCount, RegionSize(totalSize, regionCount), addr, length))
            <==> (totalSize > regionCount * 1024 ==> totalSize % regionCount == 0)
  {
    SharePositive(totalSize, regionCount);
    if totalSize > regionCount * 1024 && totalSize % regionCount != 0 {
      WholeFlashOutOfTables(totalSize, regionCount);
    } else {
      forall addr: nat, length: nat | 0 < length && addr + length <= totalSize
        ensures InTables(regionCount, RegionSize(totalSize, regionCount), addr, length)
      {
        EvenlyDivided(totalSize, regionCount, addr, length);
      }
    }
  }

  /** For example 33000 bytes in 32 regions of 1031: the last 8 bytes lie in no region. */
  lemma RemainderOutOfBounds()
    ensures RegionSize(33000, 32) == 1031 && 32992 + 8 == 33000
    ensures 32992 / RegionSize(33000, 32) + Steps(8, RegionSize(33000, 32)) > 32
  {
    assert 32992 / 1031 == 32 && (8 + 1031 - 1) / 1031 == 1;
  }

  // ---------------------------------------------------------------- against the regions that the range meets

  /** Adding with carry, one unit up. */
  lemma QuotientOfSum(x: nat, y: nat, k: nat)
    requires 0 < k
    ensures (x + y) / k == x / k + y / k + if x % k + y % k < k then 0 else 1
    ensures (x + y) % k < x % k <==> x % k + y % k >= k
  {
    QuotientBounds(x, k);
    QuotientBounds(y, k);
    CarryCore(x, y, k, x / k, y / k);
  }

  lemma CarryCore(x: nat, y: nat, k: nat, a: nat, b: nat)
    requires 0 < k && x == a * k + x % k && y == b * k + y % k && x % k < k && y % k < k
    ensures (x + y) / k == a + b + if x % k + y % k < k then 0 else 1
    ensures (x + y) % k < x % k <==> x % k + y % k >= k
  {
    var q := a + b;
    assert q * k == a * k + b * k && (q + 1) * k == q * k + k;
    if x % k + y % k < k {
      QuotientIs(x + y, k, q);
    } else {
      QuotientIs(x + y, k, q + 1);
    }
  }

  /** The walk steps on every region of the range, or misses just the last one. */
  lemma StepsAgainstRegions(addr: nat, length: nat, regionSize: nat)
    requires 0 < regionSize && 0 < length
    ensures var missed := (addr + length - 1) / regionSize + 1 - (addr / regionSize + Steps(length, regionSize));
            missed == if addr % regionSize <= (addr + length - 1) % regionSize then 0 else 1
    ensures 0 < Steps(length, regionSize)
  {
    var last := length - 1;
    NextRegion(0, regionSize, last);
    assert Steps(length, regionSize) == last / regionSize + 1;
    QuotientOfSum(addr, last, regionSize);
  }

  lemma {:induction false} AllThatMeet(free: seq<bool>, value: bool, regionSize: nat, addr: nat, length: nat,
                                       lo: nat, last: nat)
    requires 0 < regionSize && 0 < length && last < |free|
    requires lo == addr / regionSize && last == (addr + length - 1) / regionSize
    ensures (forall i: nat :: i < |free| && Meets(i, regionSize, addr, length) ==> free[i] == value)
            <==> (forall i: nat :: lo <= i <= last ==> free[i] == value)
  {
    forall i: nat ensures Meets(i, regionSize, addr, length) <==> lo <= i <= last {
      MeetsIffBetween(i, regionSize, addr, length);
    }
  }

  lemma {:induction false} RangeIsBetween(free: seq<bool>, regionSize: nat, addr: nat, length: nat)
    requires 0 < regionSize && 0 < length && (addr + length - 1) / regionSize < |free|
    ensures RangeState(free, regionSize, addr, length)
            == StateOf(free, addr / regionSize, (addr + length - 1) / regionSize + 1)
  {
    QuotientBounds(addr, regionSize);
    QuotientBounds(addr + length - 1, regionSize);
    RangeBetween(free, regionSize, addr, length, addr / regionSize, (addr + length - 1) / regionSize);
  }

  lemma {:induction false} RangeBetween(free: seq<bool>, regionSize: nat, addr: nat, length: nat, lo: nat, last: nat)
    requires 0 < regionSize && 0 < length && last < |free|
    requires lo == addr / regionSize && last == (addr + length - 1) / regionSize
    ensures RangeState(free, regionSize, addr, length) == StateOf(free, lo, last + 1)
  {
    AllThatMeet(free, true, regionSize, addr, length, lo, last);
    AllThatMeet(free, false, regionSize, addr, length, lo, last);
    Between(free, lo, last);
  }

  lemma {:induction false} Between(free: seq<bool>, lo: nat, last: nat)
    requires last < |free|
    ensures StateOf(free, lo, last + 1) ==
            if forall i: nat :: lo <= i <= last ==> free[i] == true then Unprotected
            else if forall i: nat :: lo <= i <= last ==> free[i] == false then Protected
            else Mixed
  {}

  lemma WalkFits(regionCount: nat, regionSize: nat, addr: nat, length: nat)
    requires 0 < regionSize && 0 < length && addr + length <= regionCount * regionSize
    ensures (addr + length - 1) / regionSize < regionCount
    ensures addr / regionSize + Steps(length, regionSize) <= regionCount
  {
    RegionExists(regionSize, regionCount, addr + length - 1);
    StepsAgainstRegions(addr, length, regionSize);
  }

  /** Whatever the protection bits, the answer speaks of exactly the regions that the range meets. */
  ghost predicate AlwaysRight(regionCount: nat, regionSize: nat, addr: nat, length: nat)
    requires 0 < regionSize && addr / regionSize + Steps(length, regionSize) <= regionCount
  {
    forall free: seq<bool> :: |free| == regionCount ==>
      Answer(free, regionSize, addr, length) == RangeState(free, regionSize, addr, length)
  }

  function AllBut(count: nat, blocked: nat): (free: seq<bool>)
    ensures |free| == count && forall i :: 0 <= i < count ==> free[i] == (i != blocked)
  {
    seq(count, i => i != blocked)
  }

  lemma {:induction false} OneBlocked(free: seq<bool>, first: nat, last: nat)
    requires first < last < |free| && forall i :: 0 <= i < |free| ==> free[i] == (i != last)
    ensures StateOf(free, first, last) == Unprotected && StateOf(free, first, last + 1) == Mixed
  {
    assert free[first] && !free[last];
  }

  /** The last region of the range and the ones the walk judged, where it missed the last. */
  lemma MissedBounds(regionCount: nat, regionSize: nat, addr: nat, length: nat) returns (first: nat, last: nat)
    requires 0 < regionSize && 0 < length && addr + length <= regionCount * regionSize
    requires addr % regionSize > (addr + length - 1) % regionSize
    ensures first == addr / regionSize && last == (addr + length - 1) / regionSize
    ensures first < last < regionCount && first + Steps(length, regionSize) == last
  {
    WalkFits(regionCount, regionSize, addr, length);
    StepsAgainstRegions(addr, length, regionSize);
    QuotientBounds(addr, regionSize);
    first, last := addr / regionSize, (addr + length - 1) / regionSize;
  }

  /** Protecting only the last region of a range where it is missed makes the answer wrong. */
  lemma {:induction false} MissedRegion(regionCount: nat, regionSize: nat, addr: nat, length: nat)
    returns (free: seq<bool>)
    requires 0 < regionSize && 0 < length && addr + length <= regionCount * regionSize
    requires addr % regionSize > (addr + length - 1) % regionSize
    ensures |free| == regionCount && addr / regionSize + Steps(length, regionSize) <= regionCount
    ensures Answer(free, regionSize, addr, length) == Unprotected
    ensures RangeState(free, regionSize, addr, length) == Mixed
  {
    var first, last := MissedBounds(regionCount, regionSize, addr, length);
    free := AllBut(regionCount, last);
    OneBlocked(free, first, last);
    RangeIsBetween(free, regionSize, addr, length);
  }

  /**
   * FLASH_IsProtected answers for exactly the regions of the range, whatever their bits, if and only if the
   * range starts no further into its region than its last byte does.
   */
  lemma {:induction false} RightIffNotMissed(regionCount: nat, regionSize: nat, addr: nat, length: nat)
    requires 0 < regionSize && 0 < length && addr + length <= regionCount * regionSize
    ensures addr / regionSize + Steps(length, regionSize) <= regionCount
    ensures AlwaysRight(regionCount, regionSize, addr, length) <==>
              addr % regionSize <= (addr + length - 1) % regionSize
  {
    WalkFits(regionCount, regionSize, addr, length);
    StepsAgainstRegions(addr, length, regionSize);
    if addr % regionSize <= (addr + length - 1) % regionSize {
      forall free: seq<bool> | |free| == regionCount
        ensures Answer(free, regionSize, addr, length) == RangeState(free, regionSize, addr, length)
      {
        RangeIsBetween(free, regionSize, addr, length);
      }
    } else {
      var free := MissedRegion(regionCount, regionSize, addr, length);
      assert Answer(free, regionSize, addr, length) != RangeState(free, regionSize, addr, length);
    }
  }

  /** In particular it is right for every range that starts at a region. */
  lemma {:induction false} RegionAlignedIsRight(free: seq<bool>, regionSize: nat, addr: nat, length: nat)
    requires 0 < regionSize && 0 < length && addr + length <= |free| * regionSize && addr % regionSize == 0
    ensures addr / regionSize + Steps(length, regionSize) <= |free|
    ensures Answer(free, regionSize, addr, length) == RangeState(free, regionSize, addr, length)
  {
    RightIffNotMissed(|free|, regionSize, addr, length);
    assert AlwaysRight(|free|, regionSize, addr, length);
  }
}
