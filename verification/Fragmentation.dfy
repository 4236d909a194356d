/** Fragmentation analysis (include/capacity_fabric/fragmentation/fragmentation.hpp). */
module Fragmentation {
  import opened Timelines
  import opened Fleet

  // Sums saturate instead of wrapping.
  function SatAdd(a: U64, b: U64): U64 {
    if a > MAX_U64 - b then MAX_U64 else a + b
  }

  // --- One device -------------------------------------------------------------------

  datatype Scan = Scan(total: U64, largest: U64, stopped: bool)

  // The scan stops at the block that overflows the total, which is then not looked at.
  function ScanBlocks(blocks: seq<U64>): Scan {
    if blocks == [] then Scan(0, 0, false)
    else
      var (s, b) := (ScanBlocks(blocks[..|blocks| - 1]), blocks[|blocks| - 1]);
      if s.stopped then s
      else if s.total > MAX_U64 - b then Scan(MAX_U64, s.largest, true)
      else Scan(s.total + b, if b > s.largest then b else s.largest, false)
  }

  datatype MemoryReport = MemoryReport(
    total: U64, largest: U64, usableForShape: U64, stranded: U64, ratio: real, shapeSatisfiable: bool)

  function ClampUnit(x: real): real {
    if x < 0.0 then 0.0 else if x > 1.0 then 1.0 else x
  }

  function MemoryOf(blocks: seq<U64>, required: U64): MemoryReport {
    var s := ScanBlocks(blocks);
    var satisfiable := required == 0 || s.largest >= required;
    var usable := if required == 0 then s.total else if satisfiable then s.largest else 0;
    var stranded := if required == 0 then 0
                    else if !satisfiable then s.total
                    else if s.largest > s.total then 0 else s.total - s.largest;
    var ratio := if s.total > 0 && usable > 0 then ClampUnit(1.0 - usable as real / s.total as real) else 0.0;
    MemoryReport(s.total, s.largest, usable, stranded, ratio, satisfiable)
  }

  method AnalyzeDeviceMemory(blocks: seq<U64>, required: U64) returns (r: MemoryReport)
    ensures r == MemoryOf(blocks, required)
  {
    var total: U64, largest: U64 := 0, 0;
    var i := 0;
    while i < |blocks|
      invariant 0 <= i <= |blocks|
      invariant ScanBlocks(blocks[..i]) == Scan(total, largest, false)
    {
      assert blocks[..i + 1][..i] == blocks[..i];
      if total > MAX_U64 - blocks[i] {
        ScanStopped(blocks, i + 1);
        total := MAX_U64;
        break;
      }
      total := total + blocks[i];
      if blocks[i] > largest { largest := blocks[i]; }
      i := i + 1;
    }
    assert blocks[..|blocks|] == blocks;
    if required == 0 {
      r := MemoryReport(total, largest, total, 0, 0.0, true);
    } else if largest >= required {
      r := MemoryReport(total, largest, largest, if largest > total then 0 else total - largest, 0.0, true);
    } else {
      r := MemoryReport(total, largest, 0, total, 0.0, false);
    }
    if total > 0 && r.usableForShape > 0 {
      r := r.(ratio := ClampUnit(1.0 - r.usableForShape as real / total as real));
    }
  }

  lemma {:induction false} ScanStopped(blocks: seq<U64>, i: nat)
    requires i <= |blocks| && ScanBlocks(blocks[..i]).stopped
    ensures ScanBlocks(blocks) == ScanBlocks(blocks[..i])
  {
    if i < |blocks| {
      assert blocks[..|blocks| - 1][..i] == blocks[..i];
      ScanStopped(blocks[..|blocks| - 1], i);
    } else {
      assert blocks[..i] == blocks;
    }
  }

  // --- What the scan reports ------------------------------------------------------------

  function BlockSum(blocks: seq<U64>): nat {
    if blocks == [] then 0 else BlockSum(blocks[..|blocks| - 1]) + blocks[|blocks| - 1]
  }

  function Capped(n: nat): U64 {
    if n > MAX_U64 then MAX_U64 else n
  }

  // The blocks up to and including number i add up without overflow.
  predicate Counted(blocks: seq<U64>, i: nat) {
    i < |blocks| && BlockSum(blocks[..i + 1]) <= MAX_U64
  }

  // v is the largest of the blocks that are counted.
  ghost predicate IsLargest(blocks: seq<U64>, v: U64) {
    && (forall i: nat | Counted(blocks, i) :: blocks[i] <= v)
    && (v == 0 || exists i: nat :: Counted(blocks, i) && blocks[i] == v)
  }

  lemma {:induction false} SumGrows(blocks: seq<U64>, i: nat)
    requires i <= |blocks|
    ensures BlockSum(blocks[..i]) <= BlockSum(blocks)
  {
    if i < |blocks| {
      assert blocks[..|blocks| - 1][..i] == blocks[..i];
      SumGrows(blocks[..|blocks| - 1], i);
    } else {
      assert blocks[..i] == blocks;
    }
  }

  lemma CountedInit(blocks: seq<U64>, n: nat)
    requires |blocks| == n + 1
    ensures forall i: nat | i < n :: Counted(blocks, i) <==> Counted(blocks[..n], i)
    ensures Counted(blocks, n) <==> BlockSum(blocks) <= MAX_U64
  {
    forall i: nat | i < n ensures Counted(blocks, i) <==> Counted(blocks[..n], i) {
      assert blocks[..n][..i + 1] == blocks[..i + 1];
    }
    assert blocks[..n + 1] == blocks;
  }

  // The total is the true sum, saturated; the scan stops exactly when the sum overflows;
  // and the largest block is the largest of those before the overflow.
  lemma {:induction false} ScanMeaning(blocks: seq<U64>)
    ensures var s := ScanBlocks(blocks);
            && s.total == Capped(BlockSum(blocks)) && (s.stopped <==> BlockSum(blocks) > MAX_U64)
            && IsLargest(blocks, s.largest) && s.largest <= s.total
  {
    if blocks != [] {
      var n := |blocks| - 1;
      ScanMeaning(blocks[..n]);
      CountedInit(blocks, n);
      LargestNext(blocks, n, ScanBlocks(blocks[..n]).largest, ScanBlocks(blocks).largest);
    }
  }

  lemma LargestNext(blocks: seq<U64>, n: nat, before: U64, after: U64)
    requires |blocks| == n + 1 && IsLargest(blocks[..n], before)
    requires after == if BlockSum(blocks) <= MAX_U64 && blocks[n] > before then blocks[n] else before
    ensures IsLargest(blocks, after)
  {
    CountedInit(blocks, n);
    if after == before && before != 0 {
      var i: nat :| Counted(blocks[..n], i) && blocks[..n][i] == before;
      assert Counted(blocks, i) && blocks[i] == before;
    }
  }

  // A shape is satisfiable exactly when a block that is large enough is counted.
  lemma ShapeSatisfiableIff(blocks: seq<U64>, required: U64)
    ensures MemoryOf(blocks, required).shapeSatisfiable
            <==> required == 0 || exists i: nat :: Counted(blocks, i) && blocks[i] >= required
  {
    ScanMeaning(blocks);
  }

  // So the report is right about a shape if and only if the first block that is large
  // enough comes before the running total overflows.
  lemma FirstFittingBlockIff(blocks: seq<U64>, required: U64, i: nat)
    requires required > 0 && i < |blocks| && blocks[i] >= required
    requires forall j | 0 <= j < i :: blocks[j] < required
    ensures MemoryOf(blocks, required).shapeSatisfiable <==> BlockSum(blocks[..i + 1]) <= MAX_U64
  {
    ShapeSatisfiableIff(blocks, required);
    if k: nat :| Counted(blocks, k) && blocks[k] >= required {
      SumGrows(blocks[..k + 1], i + 1);
      assert blocks[..k + 1][..i + 1] == blocks[..i + 1];
    }
  }

  // A block of all the memory there can be, and a shape of two bytes is not satisfiable.
  lemma SaturationHidesBlock()
    ensures !MemoryOf([1, MAX_U64], 2).shapeSatisfiable
  {
    assert [1, MAX_U64][..1] == [1];
    assert ScanBlocks([1]) == Scan(1, 1, false);
  }

  // Nothing is lost: what is counted is usable for the shape or stranded.
  lemma MemoryConserved(blocks: seq<U64>, required: U64)
    ensures MemoryOf(blocks, required).usableForShape + MemoryOf(blocks, required).stranded
            == MemoryOf(blocks, required).total == Capped(BlockSum(blocks))
  {
    ScanMeaning(blocks);
  }

  // Where something is usable the ratio is the stranded part; otherwise it is zero.
  lemma RatioIsStrandedPart(blocks: seq<U64>, required: U64)
    ensures var m := MemoryOf(blocks, required);
            && 0.0 <= m.ratio <= 1.0
            && (m.usableForShape > 0 ==> m.ratio * m.total as real == m.stranded as real)
            && (m.usableForShape == 0 ==> m.ratio == 0.0)
  {
    MemoryConserved(blocks, required);
    var m := MemoryOf(blocks, required);
    if m.usableForShape > 0 {
      PartOf(m.usableForShape as real, m.stranded as real, m.total as real);
    }
  }

  lemma PartOf(used: real, rest: real, total: real)
    requires used >= 0.0 && rest >= 0.0 && total > 0.0 && used + rest == total
    ensures 0.0 <= 1.0 - used / total <= 1.0 && (1.0 - used / total) * total == rest
  {
    assert (used / total) * total == used;
    DivMonotone(0.0, used, total);
    DivMonotone(used, total, total);
  }

  // --- The fleet ------------------------------------------------------------------------

  predicate ShapeUsable(d: Device, required: U64) {
    && MemoryOf(d.freeBlocks, required).shapeSatisfiable
    && d.health != FAILED && !d.drained && !d.maintenance && d.health != UNKNOWN_HEALTH
  }

  function TotalFree(devices: seq<Device>): U64 {
    if devices == [] then 0
    else SatAdd(TotalFree(devices[..|devices| - 1]), devices[|devices| - 1].vramFree)
  }

  // Free memory on devices that cannot supply the shape.
  function Stranded(devices: seq<Device>, required: U64): U64 {
    if devices == [] then 0
    else
      var (s, d) := (Stranded(devices[..|devices| - 1], required), devices[|devices| - 1]);
      if ShapeUsable(d, required) then s else SatAdd(s, d.vramFree)
  }

  function UsableIndices(devices: seq<Device>, required: U64): seq<nat> {
    if devices == [] then []
    else
      var (s, n) := (UsableIndices(devices[..|devices| - 1], required), |devices| - 1);
      if ShapeUsable(devices[n], required) then s + [n] else s
  }

  // What the usable devices can give to the shape.
  function UsableTotal(devices: seq<Device>, required: U64): U64 {
    if devices == [] then 0
    else
      var (s, d) := (UsableTotal(devices[..|devices| - 1], required), devices[|devices| - 1]);
      if ShapeUsable(d, required) then SatAdd(s, MemoryOf(d.freeBlocks, required).usableForShape) else s
  }

  function LargestBlock(devices: seq<Device>, required: U64): U64 {
    if devices == [] then 0
    else
      var (s, m) := (LargestBlock(devices[..|devices| - 1], required),
                     MemoryOf(devices[|devices| - 1].freeBlocks, required));
      if m.largest > s then m.largest else s
  }

  datatype FleetReport = FleetReport(
    totalFree: U64, largest: U64, usableForShape: U64, stranded: U64, ratio: real,
    totalDevices: nat, usable: seq<nat>, shapeSatisfiable: bool, groupSatisfiable: bool)

  function Ratio(total: U64, stranded: U64, required: U64): real {
    if total > 0 && required > 0 then
      var ratio := stranded as real / total as real;
      if ratio > 1.0 then 1.0 else ratio
    else 0.0
  }

  function ReportOf(devices: seq<Device>, required: U64, need: U64, groupSize: nat): FleetReport {
    var (t, s, u) := (TotalFree(devices), Stranded(devices, required), UsableIndices(devices, required));
    FleetReport(t, LargestBlock(devices, required), UsableTotal(devices, required), s, Ratio(t, s, required),
                |devices|, u, |u| > 0 && required > 0, |u| >= need && (groupSize == 0 || |u| >= groupSize))
  }

  method AnalyzeFragmentation(devices: seq<Device>, required: U64, need: U64, groupSize: nat)
    returns (r: FleetReport)
    ensures r == ReportOf(devices, required, need, groupSize)
  {
    var total: U64, usableSum: U64, largest: U64, usable: seq<nat> := 0, 0, 0, [];
    for i := 0 to |devices|
      invariant total == TotalFree(devices[..i]) && usable == UsableIndices(devices[..i], required)
      invariant usableSum == UsableTotal(devices[..i], required) && largest == LargestBlock(devices[..i], required)
    {
      var d := devices[i];
      assert devices[..i + 1][..i] == devices[..i];
      total := SatAdd(total, d.vramFree);
      var per := AnalyzeDeviceMemory(d.freeBlocks, required);
      if per.shapeSatisfiable && d.health != FAILED && !d.drained && !d.maintenance && d.health != UNKNOWN_HEALTH {
        usable := usable + [i];
        usableSum := SatAdd(usableSum, per.usableForShape);
      }
      if per.largest > largest { largest := per.largest; }
    }
    var stranded := SumStranded(devices, required);
    assert devices[..|devices|] == devices;
    r := FleetReport(total, largest, usableSum, stranded, Ratio(total, stranded, required), |devices|, usable,
                     |usable| > 0 && required > 0, |usable| >= need && (groupSize == 0 || |usable| >= groupSize));
  }

  method SumStranded(devices: seq<Device>, required: U64) returns (stranded: U64)
    ensures stranded == Stranded(devices, required)
  {
    stranded := 0;
    for i := 0 to |devices|
      invariant stranded == Stranded(devices[..i], required)
    {
      var d := devices[i];
      assert devices[..i + 1][..i] == devices[..i];
      var per := AnalyzeDeviceMemory(d.freeBlocks, required);
      if !(per.shapeSatisfiable && d.health != FAILED && !d.drained && !d.maintenance && d.health != UNKNOWN_HEALTH) {
        stranded := SatAdd(stranded, d.vramFree);
      }
    }
    assert devices[..|devices|] == devices;
  }

  // --- Laws --------------------------------------------------------------------------------

  // Free memory on devices that can supply the shape.
  function Placeable(devices: seq<Device>, required: U64): U64 {
    if devices == [] then 0
    else
      var (s, d) := (Placeable(devices[..|devices| - 1], required), devices[|devices| - 1]);
      if ShapeUsable(d, required) then SatAdd(s, d.vramFree) else s
  }

  // Nothing is counted twice or lost: free memory is stranded or placeable, and
  // saturation commutes with the split.
  lemma {:induction false} FreeIsPartitioned(devices: seq<Device>, required: U64)
    ensures TotalFree(devices) == SatAdd(Stranded(devices, required), Placeable(devices, required))
  {
    if devices != [] {
      FreeIsPartitioned(devices[..|devices| - 1], required);
    }
  }

  function FreeSum(devices: seq<Device>): nat {
    if devices == [] then 0 else FreeSum(devices[..|devices| - 1]) + devices[|devices| - 1].vramFree
  }

  // The total is the true sum, saturated.
  lemma {:induction false} TotalIsSum(devices: seq<Device>)
    ensures TotalFree(devices) == Capped(FreeSum(devices))
  {
    if devices != [] { TotalIsSum(devices[..|devices| - 1]); }
  }

  // What the usable devices can truly give to the shape.
  function UsableSum(devices: seq<Device>, required: U64): nat {
    if devices == [] then 0
    else
      var (s, d) := (UsableSum(devices[..|devices| - 1], required), devices[|devices| - 1]);
      if ShapeUsable(d, required) then s + MemoryOf(d.freeBlocks, required).usableForShape else s
  }

  // The usable total is that sum over the usable devices, saturated.
  lemma {:induction false} UsableTotalIsSum(devices: seq<Device>, required: U64)
    ensures UsableTotal(devices, required) == Capped(UsableSum(devices, required))
  {
    if devices != [] { UsableTotalIsSum(devices[..|devices| - 1], required); }
  }

  // The largest block of the fleet is the greatest of its devices' largest blocks.
  lemma {:induction false} LargestIsGreatest(devices: seq<Device>, required: U64)
    ensures forall d | d in devices :: MemoryOf(d.freeBlocks, required).largest <= LargestBlock(devices, required)
    ensures LargestBlock(devices, required) == 0
            || exists d | d in devices :: MemoryOf(d.freeBlocks, required).largest == LargestBlock(devices, required)
  {
    if devices != [] {
      var init, last := devices[..|devices| - 1], devices[|devices| - 1];
      LargestIsGreatest(init, required);
      assert last in devices && forall d | d in init :: d in devices;
      assert forall d | d in devices :: d in init || d == last;
    }
  }

  // The indices are exactly those of the usable devices, in increasing order.
  lemma {:induction false} IndicesAreUsable(devices: seq<Device>, required: U64)
    ensures forall i: nat ::
              i in UsableIndices(devices, required) <==> i < |devices| && ShapeUsable(devices[i], required)
    ensures forall i, j | 0 <= i < j < |UsableIndices(devices, required)| ::
              UsableIndices(devices, required)[i] < UsableIndices(devices, required)[j]
  {
    if devices != [] {
      var n := |devices| - 1;
      IndicesAreUsable(devices[..n], required);
      assert forall i | 0 <= i < |UsableIndices(devices[..n], required)| ::
          UsableIndices(devices[..n], required)[i] in UsableIndices(devices[..n], required);
    }
  }

  // --- The report, told by the devices -----------------------------------------------------

  // A block that is large enough is counted, if one is needed.
  ghost predicate BlockFits(blocks: seq<U64>, required: U64) {
    required == 0 || exists i: nat :: Counted(blocks, i) && blocks[i] >= required
  }

  // The device has such a block and is neither failed nor of unknown health, nor drained,
  // nor under maintenance.
  ghost predicate CanPlace(d: Device, required: U64) {
    BlockFits(d.freeBlocks, required) && d.health != 4 && d.health != 5 && !d.drained && !d.maintenance
  }

  lemma CanPlaceIff(d: Device, required: U64)
    ensures ShapeUsable(d, required) <==> CanPlace(d, required)
  {
    ShapeSatisfiableIff(d.freeBlocks, required);
  }

  ghost function StrandedSum(devices: seq<Device>, required: U64): nat {
    if devices == [] then 0
    else
      var (s, d) := (StrandedSum(devices[..|devices| - 1], required), devices[|devices| - 1]);
      if CanPlace(d, required) then s else s + d.vramFree
  }

  lemma {:induction false} StrandedIsSum(devices: seq<Device>, required: U64)
    ensures Stranded(devices, required) == Capped(StrandedSum(devices, required))
  {
    if devices != [] {
      StrandedIsSum(devices[..|devices| - 1], required);
      CanPlaceIff(devices[|devices| - 1], required);
    }
  }

  // The stranded share: the saturated free memory of the devices that cannot place the
  // block over that of all devices, and nothing if no block is needed or nothing is free.
  ghost function StrandedShare(devices: seq<Device>, required: U64): real {
    if FreeSum(devices) > 0 && required > 0
    then Capped(StrandedSum(devices, required)) as real / Capped(FreeSum(devices)) as real
    else 0.0
  }

  lemma RatioIsShare(devices: seq<Device>, required: U64, need: U64, groupSize: nat)
    ensures ReportOf(devices, required, need, groupSize).ratio == StrandedShare(devices, required)
  {
    TotalIsSum(devices);
    StrandedIsSum(devices, required);
    SmallerBlockStrandsLess(devices, required, required);
    var t, s := TotalFree(devices), Stranded(devices, required);
    if t > 0 { DivMonotone(s as real, t as real, t as real); }
  }

  ghost function Placers(devices: seq<Device>, required: U64): set<nat> {
    set i: nat | i < |devices| && CanPlace(devices[i], required)
  }

  lemma {:induction false} PlacersCount(devices: seq<Device>, required: U64)
    ensures |UsableIndices(devices, required)| == |Placers(devices, required)|
  {
    if devices == [] {
      assert Placers(devices, required) == {};
    } else {
      var n := |devices| - 1;
      PlacersCount(devices[..n], required);
      CanPlaceIff(devices[n], required);
      if CanPlace(devices[n], required) {
        assert Placers(devices, required) == Placers(devices[..n], required) + {n};
      } else {
        assert Placers(devices, required) == Placers(devices[..n], required);
      }
    }
  }

  // The flags: a needed block can be placed somewhere, and enough devices can place it.
  lemma FlagsAre(devices: seq<Device>, required: U64, need: U64, groupSize: nat)
    ensures var r := ReportOf(devices, required, need, groupSize);
            && (r.shapeSatisfiable <==> required > 0 && Placers(devices, required) != {})
            && (r.groupSatisfiable
                <==> |Placers(devices, required)| >= need && |Placers(devices, required)| >= groupSize)
            && r.totalDevices == |devices|
  {
    PlacersCount(devices, required);
    assert Placers(devices, required) == {} <==> |Placers(devices, required)| == 0;
  }

  // What one device can give: everything if no block is needed, else its largest counted
  // block if that is large enough, else nothing.
  lemma UsableIsLargest(blocks: seq<U64>, required: U64)
    ensures var m := MemoryOf(blocks, required);
            && (required == 0 ==> m.usableForShape == Capped(BlockSum(blocks)))
            && (required > 0 && BlockFits(blocks, required) ==> IsLargest(blocks, m.usableForShape))
            && (required > 0 && !BlockFits(blocks, required) ==> m.usableForShape == 0)
            && IsLargest(blocks, m.largest)
  {
    ScanMeaning(blocks);
    ShapeSatisfiableIff(blocks, required);
  }

  // A smaller block strands no more memory.
  lemma {:induction false} SmallerBlockStrandsLess(devices: seq<Device>, small: U64, large: U64)
    requires small <= large
    ensures Stranded(devices, small) <= Stranded(devices, large) <= TotalFree(devices)
  {
    if devices != [] {
      SmallerBlockStrandsLess(devices[..|devices| - 1], small, large);
    }
  }

  lemma RatioMonotone(devices: seq<Device>, small: U64, large: U64)
    requires small <= large
    ensures 0.0 <= Ratio(TotalFree(devices), Stranded(devices, small), small)
                   <= Ratio(TotalFree(devices), Stranded(devices, large), large) <= 1.0
  {
    SmallerBlockStrandsLess(devices, small, large);
    var t, a, b := TotalFree(devices), Stranded(devices, small), Stranded(devices, large);
    if t > 0 {
      DivMonotone(a as real, b as real, t as real);
      DivMonotone(b as real, t as real, t as real);
    }
  }

  lemma DivMonotone(a: real, b: real, t: real)
    requires 0.0 <= a <= b && t > 0.0
    ensures 0.0 <= a / t <= b / t && t / t == 1.0
  {
  }
}
