// Values exchanged between the NodeManager plugin and the host simulation.
// The host (KSP2's maneuver plan, solver and universe clock) is outside the
// model: everything the plugin reads from it arrives as one of these values.
module NodeTypes {

  datatype Option<T> = None | Some(value: T)

  /** A burn's delta-v vector. */
  datatype Vector3 = Vector3(x: real, y: real, z: real)

  const ZeroVector: Vector3 := Vector3(0.0, 0.0, 0.0)

  /** An orbit or orbit patch owned by the host. `patchedConic` says whether the
      host object is a PatchedConicsOrbit (the plugin casts to that type); the
      other fields are the orbital elements AddNode reads. */
  datatype Orbit = Orbit(id: nat, patchedConic: bool, eccentricity: real, timeToAp: real, period: real)

  /** A snapshot of one host maneuver node. `id` is its NodeID, which stands for
      the identity of the host object (the source compares nodes by reference). */
  datatype Node = Node(
    id: nat,
    time: real,
    onTrajectory: bool,
    burnDuration: real,
    burnVector: Vector3,
    patch: Option<Orbit>)

  /** The active vessel: its GlobalId, its orbit, the nodes of its ManeuverPlanComponent (None when
      the vessel has no plan component) and the nodes the maneuver registry lists for it. */
  datatype Vessel = Vessel(id: nat, orbit: Orbit, plan: Option<seq<Node>>, registered: seq<Node>)

  /** What the host shows at the moment an operation starts: universal time and the
      active vessel, if any. */
  datatype Host = Host(ut: real, vessel: Option<Vessel>)

  /** The host's answers during one node creation: the NodeID of the new node, the
      maneuver-trajectory patch containing the current time, whether AddNodeToVessel
      accepted the node, the burn duration it then computed, whether a map core
      exists, whether the map view's HideManeuverPopup throws when it is called (only
      with a map core), and the host state the closing refresh reads. */
  datatype HostReply = HostReply(
    nodeId: nat,
    patchAtNow: Option<Orbit>,
    accepted: bool,
    burnDuration: real,
    hasMapCore: bool,
    popupThrows: bool,
    after: Host)

  /** Why a creation returned false. */
  datatype Refusal = NoActiveVessel | NodeLimitReached | HostRejected | NoReferenceOrbit

  /** The outcome of a creation. `recentred` records whether the centering update
      reached the host: without a map core, reading its gizmo table throws after the
      node's time is shifted and before any update call, and the exception is caught.
      ThrewAfterCommit: the host already holds the node when HideManeuverPopup
      throws, so the exception leaves the plugin with the node uncentred and the
      cache not refreshed again. */
  datatype Creation =
    | Refused(reason: Refusal)
    | Created(node: Node, recentred: bool)
    | ThrewAfterCommit(node: Node)
  {
    /** The boolean the plugin returns to its caller, when it returns. */
    predicate Succeeded() { Created? }

    /** The host holds a new node. */
    predicate Committed() { Created? || ThrewAfterCommit? }
  }

  /** What a deletion asks of the host: remove `targets` from the vessel whose GlobalId
      is `vesselId`. NullVessel: the plugin would pass the id of
      a missing active vessel to the host, which throws a null reference.
      IndexOutOfRange: the (clamped) index is outside the cache, and reading the
      cache there throws. */
  datatype Removal = NothingRemoved | RemoveRequest(vesselId: nat, targets: seq<Node>) | NullVessel | IndexOutOfRange

  /** AddNode either finishes with a creation outcome or throws a null reference
      (it reads the orbit of a missing active vessel). */
  datatype AddOutcome = Finished(creation: Creation) | ThrowsNullReference

  const Int32Min: int := -0x8000_0000
  const Int32Max: int := 0x7FFF_FFFF

  /** C#'s `int`. */
  newtype int32 = x: int | -0x8000_0000 <= x <= 0x7FFF_FFFF

  /** The value C#'s unchecked `int` arithmetic leaves for the exact result `x`:
      `x` reduced modulo 2^32 into the `int` range. */
  function WrapInt32(x: int): (r: int32)
    ensures Int32Min <= x <= Int32Max ==> r as int == x
    ensures x == Int32Max + 1 ==> r as int == Int32Min
  {
    ((x - Int32Min) % 0x1_0000_0000 + Int32Min) as int32
  }

  /** The host cannot hold a tenth maneuver node. */
  const MaxNodes: nat := 9

  /** The node list of the active vessel's plan component, if both exist. */
  function PlanNodes(host: Host): Option<seq<Node>>
  {
    if host.vessel.Some? then host.vessel.value.plan else None
  }

  /** The node cache after a refresh against `host`, given the cache before it. */
  function CacheAfterRefresh(host: Host, cache: seq<Node>): seq<Node>
  {
    match PlanNodes(host)
    case Some(plan) => plan
    case None => cache
  }

  /** The first node the maneuver registry lists for the active vessel, if any. */
  function CurrentNodeOf(host: Host): Option<Node>
  {
    if host.vessel.Some? && |host.vessel.value.registered| > 0
    then Some(host.vessel.value.registered[0])
    else None
  }
}
