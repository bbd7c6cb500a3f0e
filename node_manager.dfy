// The NodeManager plugin object: a cache of the active vessel's maneuver nodes and
// the create and delete operations other mods call on it. Every operation but
// AddNode refreshes the cache from the host first; AddNode refreshes only the
// active vessel and current node, and reads the cache as the last refresh left it.
module NodeManager {
  import opened NodeTypes
  import opened NodePolicy
  import opened RemovalLists

  class NodeManagerPlugin {
    var activeVessel: Option<Vessel>
    var currentNode: Option<Node>
    var nodes: seq<Node>

    constructor ()
      ensures activeVessel == None && currentNode == None && nodes == []
    {
      activeVessel := None;
      currentNode := None;
      nodes := [];
    }

    /** Looks up the active vessel and the first node the registry lists for it. */
    method RefreshActiveVesselAndCurrentManeuver(host: Host)
      modifies this`activeVessel, this`currentNode
      ensures activeVessel == host.vessel
      ensures currentNode == CurrentNodeOf(host)
    {
      activeVessel := host.vessel;
      if activeVessel.Some? && |activeVessel.value.registered| > 0 {
        currentNode := Some(activeVessel.value.registered[0]);
      } else {
        currentNode := None;
      }
    }

    /** Replaces the cache by the plan's nodes; without a plan the cache is kept. */
    method RefreshManeuverNodes(host: Host) returns (count: nat)
      modifies this
      ensures activeVessel == host.vessel && currentNode == CurrentNodeOf(host)
      ensures PlanNodes(host).Some? ==> nodes == PlanNodes(host).value
      ensures PlanNodes(host).None? ==> nodes == old(nodes)
      ensures nodes == CacheAfterRefresh(host, old(nodes))
      ensures count == |nodes|
    {
      RefreshActiveVesselAndCurrentManeuver(host);
      var plan := if activeVessel.Some? then activeVessel.value.plan else None;
      if plan.Some? {
        nodes := plan.value;
      }
      count := |nodes|;
    }

    /** Removes the node at the (clamped) index, but only a past node that is off the
        maneuver trajectory. */
    method DeleteNode(host: Host, selectedNodeIndex: int32) returns (removal: Removal)
      modifies this
      ensures nodes == CacheAfterRefresh(host, old(nodes))
      ensures activeVessel == host.vessel && currentNode == CurrentNodeOf(host)
      ensures var k := ClampIndex(selectedNodeIndex, |nodes|);
        if k < 0 || k >= |nodes| then removal == IndexOutOfRange
        else if nodes[k].time < host.ut && !nodes[k].onTrajectory
        then removal == (if host.vessel.Some? then RemoveRequest(host.vessel.value.id, [nodes[k]]) else NullVessel)
        else removal == NothingRemoved
    {
      var count := RefreshManeuverNodes(host);
      var selection := SelectNode(nodes, selectedNodeIndex, host.ut);
      if selection.None? {
        return IndexOutOfRange;
      }
      if selection.value == [] {
        return NothingRemoved;
      }
      if activeVessel.None? {
        return NullVessel;
      }
      return RemoveRequest(activeVessel.value.id, selection.value);
    }

    /** Removes every cached node that is off the maneuver trajectory or in the past. */
    method DeletePastNodes(host: Host) returns (removal: Removal)
      modifies this
      ensures nodes == CacheAfterRefresh(host, old(nodes))
      ensures activeVessel == host.vessel && currentNode == CurrentNodeOf(host)
      ensures host.vessel.None? ==> removal == NullVessel
      ensures host.vessel.Some? ==>
        removal.RemoveRequest? && removal.vesselId == host.vessel.value.id &&
        Selects(removal.targets, nodes, PastOrOffTrajectory(nodes, host.ut))
    {
      var count := RefreshManeuverNodes(host);
      var toDelete := SelectPastNodes(nodes, host.ut);
      if activeVessel.None? {
        return NullVessel;
      }
      return RemoveRequest(activeVessel.value.id, toDelete);
    }

    /** Truncates the plan from the node at the (clamped) index onward. */
    method DeleteNodes(host: Host, selectedNodeIndex: int32) returns (removal: Removal)
      modifies this
      ensures nodes == CacheAfterRefresh(host, old(nodes))
      ensures activeVessel == host.vessel && currentNode == CurrentNodeOf(host)
      ensures var k := ClampIndex(selectedNodeIndex, |nodes|);
        k < 0 || k >= |nodes| ==> removal == IndexOutOfRange
      ensures var k := ClampIndex(selectedNodeIndex, |nodes|);
        0 <= k < |nodes| && host.vessel.None? ==> removal == NullVessel
      ensures var k := ClampIndex(selectedNodeIndex, |nodes|);
        0 <= k < |nodes| && host.vessel.Some? ==>
          removal.RemoveRequest? && removal.vesselId == host.vessel.value.id &&
          DeletesFrom(removal.targets, nodes, nodes[k])
    {
      var count := RefreshManeuverNodes(host);
      var selection := SelectNodesFrom(nodes, selectedNodeIndex);
      if selection.None? {
        return IndexOutOfRange;
      }
      if activeVessel.None? {
        return NullVessel;
      }
      return RemoveRequest(activeVessel.value.id, selection.value);
    }

    /** The orbit the last planned node ends on, or the vessel's orbit without nodes. */
    method GetLastOrbit(host: Host) returns (orbit: Option<Orbit>)
      modifies this
      ensures nodes == CacheAfterRefresh(host, old(nodes))
      ensures activeVessel == host.vessel && currentNode == CurrentNodeOf(host)
      ensures orbit == LastOrbit(nodes, host.vessel)
    {
      var count := RefreshManeuverNodes(host);
      if count == 0 {
        if activeVessel.None? {
          return None;
        }
        return Some(activeVessel.value.orbit);
      }
      return nodes[count - 1].patch;
    }

    /** Creates a node at an absolute time, after the guards, then refreshes the cache. */
    method CreateManeuverNodeAtUT(
      host: Host, burnVector: Vector3, burnUT: real, reply: HostReply,
      burnDurationOffsetFactor: real := -0.5)
      returns (result: Creation)
      modifies this
      ensures result == CreationOutcome(
        CacheAfterRefresh(host, old(nodes)), host.vessel, host.ut,
        burnVector, burnUT, burnDurationOffsetFactor, reply)
      // a refusal, or the popup exception, leaves the state of the opening refresh
      ensures !result.Created? ==>
        nodes == CacheAfterRefresh(host, old(nodes)) &&
        activeVessel == host.vessel && currentNode == CurrentNodeOf(host)
      // a creation ends with a refresh against the host as it is afterwards
      ensures result.Created? ==>
        nodes == CacheAfterRefresh(reply.after, CacheAfterRefresh(host, old(nodes))) &&
        activeVessel == reply.after.vessel && currentNode == CurrentNodeOf(reply.after)
    {
      var count := RefreshManeuverNodes(host);
      if activeVessel.None? {
        return Refused(NoActiveVessel);
      }
      if |nodes| >= MaxNodes {
        return Refused(NodeLimitReached);
      }
      var ut := host.ut;
      var time := burnUT;
      if time < ut + 1.0 {
        time := ut + 1.0;
      }
      var isManeuver := false;
      var patch: Option<Orbit> := None;
      if |nodes| > 0 {
        if time > nodes[0].time {
          isManeuver := true;
          patch := reply.patchAtNow;
        }
      }
      var node := Node(reply.nodeId, time, isManeuver, reply.burnDuration, ZeroVector, None);
      if node.onTrajectory {
        node := node.(patch := AsPatchedConic(patch));
      }
      node := node.(burnVector := burnVector);
      if !reply.accepted {
        return Refused(HostRejected);
      }
      // gizmo creation swallows its exceptions; the popup call after it does not
      if reply.hasMapCore && reply.popupThrows {
        return ThrewAfterCommit(node);
      }
      var nodeTimeAdj := node.burnDuration * burnDurationOffsetFactor;
      var recentred := false;
      if nodeTimeAdj != 0.0 {
        // the shifted time is written to the node before the host update runs,
        // so it stays shifted even when that update throws
        // without a map core the gizmo table read throws before any update call
        node := node.(time := node.time + nodeTimeAdj);
        recentred := reply.hasMapCore;
      }
      count := RefreshManeuverNodes(reply.after);
      return Created(node, recentred);
    }

    /** Creates a node at a true anomaly of the last orbit, which must be a patched conic. */
    method CreateManeuverNodeAtTA(
      host: Host, burnVector: Vector3, trueAnomalyRad: real,
      utForTrueAnomaly: (Orbit, real) -> real, reply: HostReply,
      burnDurationOffsetFactor: real := -0.5)
      returns (result: Creation)
      modifies this
      ensures var cache := CacheAfterRefresh(host, old(nodes));
        var referenced := AsPatchedConic(LastOrbit(cache, host.vessel));
        result ==
          if referenced.None? then Refused(NoReferenceOrbit)
          else CreationOutcome(
            cache, host.vessel, host.ut, burnVector,
            utForTrueAnomaly(referenced.value, trueAnomalyRad), burnDurationOffsetFactor, reply)
      ensures !result.Created? ==>
        nodes == CacheAfterRefresh(host, old(nodes)) &&
        activeVessel == host.vessel && currentNode == CurrentNodeOf(host)
      ensures result.Created? ==>
        nodes == CacheAfterRefresh(reply.after, CacheAfterRefresh(host, old(nodes))) &&
        activeVessel == reply.after.vessel && currentNode == CurrentNodeOf(reply.after)
    {
      var orbit := GetLastOrbit(host);
      var referenced := AsPatchedConic(orbit);
      if referenced.None? {
        return Refused(NoReferenceOrbit);
      }
      var ut := utForTrueAnomaly(referenced.value, trueAnomalyRad);
      result := CreateManeuverNodeAtUT(host, burnVector, ut, reply, burnDurationOffsetFactor);
    }

    /** Creates an empty node, choosing a default time when the requested one is past;
        the burn is never recentred. */
    method AddNode(host: Host, reply: HostReply, burnUT: real := 0.0) returns (outcome: AddOutcome)
      modifies this
      ensures burnUT < host.ut && host.vessel.None? ==> outcome == ThrowsNullReference
      ensures burnUT >= host.ut ==>
        outcome == Finished(CreationOutcome(
          CacheAfterRefresh(host, old(nodes)), host.vessel, host.ut, ZeroVector, burnUT, 0.0, reply))
      ensures burnUT < host.ut && host.vessel.Some? ==>
        outcome == Finished(CreationOutcome(
          CacheAfterRefresh(host, old(nodes)), host.vessel, host.ut, ZeroVector,
          DefaultBurnUT(host.ut, host.vessel.value.orbit, old(nodes)), 0.0, reply))
      ensures outcome.Finished? && outcome.creation.Created? ==> !outcome.creation.recentred
      // the vessel lookup has happened when the null reference is thrown; the cache is untouched
      ensures outcome.ThrowsNullReference? ==>
        nodes == old(nodes) && activeVessel == None && currentNode == None
      ensures outcome.Finished? && !outcome.creation.Created? ==>
        nodes == CacheAfterRefresh(host, old(nodes)) &&
        activeVessel == host.vessel && currentNode == CurrentNodeOf(host)
      ensures outcome.Finished? && outcome.creation.Created? ==>
        nodes == CacheAfterRefresh(reply.after, CacheAfterRefresh(host, old(nodes))) &&
        activeVessel == reply.after.vessel && currentNode == CurrentNodeOf(reply.after)
    {
      RefreshActiveVesselAndCurrentManeuver(host);
      var ut := host.ut;
      var time := burnUT;
      if time < ut {
        if activeVessel.None? {
          return ThrowsNullReference;
        }
        var orbit := activeVessel.value.orbit;
        if orbit.eccentricity < 1.0 && |nodes| == 0 {
          time := ut + orbit.timeToAp;
        } else {
          if |nodes| > 0 {
            time := nodes[|nodes| - 1].time + Min(orbit.period / 10.0, 600.0);
          } else {
            time := ut + 30.0;
          }
        }
      }
      var creation := CreateManeuverNodeAtUT(host, ZeroVector, time, reply, 0.0);
      return Finished(creation);
    }
  }
}
