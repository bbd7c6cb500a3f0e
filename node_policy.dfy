// The plugin's decisions about new nodes: the earliest allowed time, whether a
// node goes on the maneuver trajectory, the burn-centering shift, AddNode's
// default time and the orbit a true anomaly is resolved against.
module NodePolicy {
  import opened NodeTypes

  function Min(a: real, b: real): (m: real)
    ensures m <= a && m <= b && (m == a || m == b)
  {
    if a <= b then a else b
  }

  /** A requested burn time is moved forward to one second from now when it is
      earlier than that; any later time is kept. */
  function ClampBurnUT(ut: real, burnUT: real): (t: real)
    ensures t >= ut + 1.0
    ensures burnUT >= ut + 1.0 ==> t == burnUT
    ensures burnUT < ut + 1.0 ==> t == ut + 1.0
  {
    if burnUT < ut + 1.0 then ut + 1.0 else burnUT
  }

  /** A new node at time `t` goes on the maneuver trajectory when the cache holds a
      node and `t` is later than the FIRST cached node. */
  predicate OnManeuverTrajectory(cache: seq<Node>, t: real)
  {
    |cache| > 0 && t > cache[0].time
  }

  /** The cast `orbit as PatchedConicsOrbit`: None unless it is one. */
  function AsPatchedConic(orbit: Option<Orbit>): (r: Option<Orbit>)
    ensures r.Some? <==> orbit.Some? && orbit.value.patchedConic
    ensures r.Some? ==> r == orbit
  {
    if orbit.Some? && orbit.value.patchedConic then orbit else None
  }

  /** The outcome of CreateManeuverNodeAtUT once the cache has been refreshed to
      `cache`, with `vessel` active at universal time `ut`. */
  function CreationOutcome(
    cache: seq<Node>, vessel: Option<Vessel>, ut: real,
    burnVector: Vector3, burnUT: real, factor: real, reply: HostReply): (c: Creation)
    // the two precondition refusals
    ensures vessel.None? ==> c == Refused(NoActiveVessel)
    ensures vessel.Some? && |cache| >= MaxNodes ==> c == Refused(NodeLimitReached)
    // the host holds a new node exactly when the guards pass and it accepts the node
    ensures c.Committed() <==> vessel.Some? && |cache| < MaxNodes && reply.accepted
    ensures c.Refused? && vessel.Some? && |cache| < MaxNodes ==> c.reason == HostRejected
    // the plugin reports success unless the popup call, made with a map core, throws
    ensures c.Succeeded() <==>
      vessel.Some? && |cache| < MaxNodes && reply.accepted && !(reply.hasMapCore && reply.popupThrows)
    ensures c.ThrewAfterCommit? <==> c.Committed() && reply.hasMapCore && reply.popupThrows
    // placement of the committed node
    ensures c.Committed() ==>
      (c.node.onTrajectory <==> |cache| > 0 && ClampBurnUT(ut, burnUT) > cache[0].time)
    ensures c.Committed() && c.node.onTrajectory ==> c.node.patch == AsPatchedConic(reply.patchAtNow)
    ensures c.Committed() && !c.node.onTrajectory ==> c.node.patch == None
    ensures c.Committed() ==>
      c.node.id == reply.nodeId && c.node.burnVector == burnVector &&
      c.node.burnDuration == reply.burnDuration
    // centering: shifted by burn duration times factor; the host update is reached only
    // for a nonzero shift with a map core
    ensures c.Created? ==> c.node.time == ClampBurnUT(ut, burnUT) + reply.burnDuration * factor
    ensures c.Created? ==> (c.recentred <==> reply.burnDuration * factor != 0.0 && reply.hasMapCore)
    ensures c.Created? && reply.hasMapCore && !c.recentred ==> c.node.time >= ut + 1.0
    // the popup exception comes before centering
    ensures c.ThrewAfterCommit? ==> c.node.time == ClampBurnUT(ut, burnUT)
  {
    if vessel.None? then Refused(NoActiveVessel)
    else if |cache| >= MaxNodes then Refused(NodeLimitReached)
    else if !reply.accepted then Refused(HostRejected)
    else
      var t := ClampBurnUT(ut, burnUT);
      var onTrajectory := OnManeuverTrajectory(cache, t);
      var patch := if onTrajectory then AsPatchedConic(reply.patchAtNow) else None;
      var committed := Node(reply.nodeId, t, onTrajectory, reply.burnDuration, burnVector, patch);
      if reply.hasMapCore && reply.popupThrows then ThrewAfterCommit(committed)
      else
        var shift := reply.burnDuration * factor;
        Created(committed.(time := t + shift), shift != 0.0 && reply.hasMapCore)
  }

  /** The time AddNode picks when the requested time is already past. */
  function DefaultBurnUT(ut: real, orbit: Orbit, cache: seq<Node>): (t: real)
    ensures orbit.eccentricity < 1.0 && cache == [] ==> t == ut + orbit.timeToAp
    ensures orbit.eccentricity >= 1.0 && cache == [] ==> t == ut + 30.0
    ensures cache != [] ==> t == cache[|cache| - 1].time + Min(orbit.period / 10.0, 600.0)
    ensures cache != [] ==> t <= cache[|cache| - 1].time + 600.0
    ensures cache != [] && orbit.period > 0.0 ==> t > cache[|cache| - 1].time
  {
    if orbit.eccentricity < 1.0 && |cache| == 0 then ut + orbit.timeToAp
    else if |cache| > 0 then cache[|cache| - 1].time + Min(orbit.period / 10.0, 600.0)
    else ut + 30.0
  }

  /** The orbit GetLastOrbit answers: the trajectory patch of the last cached node,
      or the vessel's own orbit when the cache is empty. */
  function LastOrbit(cache: seq<Node>, vessel: Option<Vessel>): (o: Option<Orbit>)
    ensures cache == [] && vessel.None? ==> o == None
    ensures cache == [] && vessel.Some? ==> o == Some(vessel.value.orbit)
    ensures cache != [] ==> o == cache[|cache| - 1].patch
  {
    if |cache| == 0 then
      if vessel.None? then None else Some(vessel.value.orbit)
    else cache[|cache| - 1].patch
  }

  /** The index DeleteNode and DeleteNodes read: an index at or beyond `count` is
      replaced by max(0, count - 1). The test `index + 1 > count` is evaluated in
      C#'s `int`, so for the largest `int` the sum wraps to the smallest one and the
      index is kept. */
  function ClampIndex(index: int32, count: nat): (k: int)
    ensures index as int < Int32Max && index as int < count ==> k == index as int
    ensures index as int < Int32Max && index as int >= count && count > 0 ==> k == count - 1
    ensures index as int < Int32Max && index as int >= count && count == 0 ==> k == 0
    ensures index as int == Int32Max ==> k == Int32Max
    ensures 0 <= index as int < Int32Max && count > 0 ==> 0 <= k < count
  {
    if WrapInt32(index as int + 1) as int > count then (if count - 1 > 0 then count - 1 else 0)
    else index as int
  }
}
