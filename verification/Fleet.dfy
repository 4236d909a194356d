/** Records of the fleet and the aggregated view
    (resource.hpp, demand.hpp, view.hpp, freshness.hpp, outcome.hpp). */
module Fleet {
  import opened Wrappers
  import opened Capacities
  import opened Timelines

  // Health is an 8-bit enumeration; other values name no state.
  type Health = nat
  const HEALTHY: Health := 0
  const DEGRADED: Health := 1
  const DRAINING: Health := 2
  const UNDER_MAINTENANCE: Health := 3
  const FAILED: Health := 4
  const UNKNOWN_HEALTH: Health := 5

  datatype DeviceCapability = DeviceCapability(architecture: string, className: string, name: string)

  datatype Device = Device(
    id: U64, nodeId: U64, capability: DeviceCapability, vramTotal: U64, vramFree: U64,
    freeBlocks: seq<U64>, health: Health, drained: bool, maintenance: bool)

  // An identifier, a generation or a boot identity is valid when it is not zero.
  datatype Resource = Resource(
    id: U64, generation: U64, fleetId: U64, nodeId: U64, deviceId: U64, kind: nat,
    capability: DeviceCapability, nominal: Amounts, free: Amounts, freeBlocks: seq<U64>,
    committed: Amounts, unavailable: Amounts, health: Health, drained: bool, maintenance: bool,
    worker: U64, bootId: U64)

  datatype Freshness = Fresh | Stale | RevalidationRequired | InsufficientEvidence | UnknownFreshness

  datatype View = View(
    devices: seq<Device>, resources: seq<Resource>, available: Amounts, nominal: Amounts,
    committed: Amounts, unavailable: Amounts, currentUse: Amounts, reservations: seq<Reservation>,
    releases: seq<Release>, maintenance: seq<Maintenance>, now: int, freshness: Freshness,
    staleDynamic: bool, synthetic: bool)

  // The reservations left when those with an id are erased.
  function WithoutReservation(rs: seq<Reservation>, id: nat): seq<Reservation> {
    if rs == [] then []
    else
      var (s, r) := (WithoutReservation(rs[..|rs| - 1], id), rs[|rs| - 1]);
      if r.id == id then s else s + [r]
  }

  datatype AcceleratorClass = AcceleratorClass(name: string, architecture: string, capability: string)

  datatype Demand = Demand(
    id: U64, generation: U64, requirements: Amounts, requiresContiguousVram: bool,
    minContiguousVram: U64, minAccelerators: U64, topologyGroupSize: Option<U64>,
    allowedClasses: seq<AcceleratorClass>, requiredCapability: string, sloHeadroom: real,
    maxFragmentation: Option<real>)
  {
    predicate Valid() {
      && id != 0 && generation != 0
      && minAccelerators != 0
      && (requiresContiguousVram ==> minContiguousVram != 0)
      && (maxFragmentation.Some? ==> 0.0 <= maxFragmentation.value <= 1.0)
    }
  }

  // A non-negative amount cut to whole bytes.
  function Whole(x: real): U64 {
    if x < 0.0 then 0 else if x.Floor > MAX_U64 then MAX_U64 else x.Floor
  }

  function Vram(c: Amounts): U64 {
    Whole(c.At(VRAM_BYTES))
  }

  // A resource as the device it stands for.
  function DeviceOf(r: Resource): Device {
    Device(r.deviceId, r.nodeId, r.capability, Vram(r.nominal), Vram(r.free), r.freeBlocks,
           r.health, r.drained, r.maintenance)
  }

  // What is in use: nominal less the available, committed and unavailable parts.
  function CurrentUse(nominal: Amounts, available: Amounts, committed: Amounts, unavailable: Amounts): Amounts {
    Monus(Monus(Monus(nominal, available), committed), unavailable)
  }

  method SubtractUse(nominal: Amounts, available: Amounts, committed: Amounts, unavailable: Amounts)
    returns (use: Amounts)
    ensures use == CurrentUse(nominal, available, committed, unavailable)
  {
    var c := new Capacity(nominal);
    c.SubtractClamp(available);
    c.SubtractClamp(committed);
    c.SubtractClamp(unavailable);
    use := c.amounts;
  }
}
