# NodeManager maneuver-node plan policy in Dafny

NodeManager is a Kerbal Space Program 2 plugin that other mods call to create
and delete maneuver nodes on the active vessel. Almost everything it does is
forwarded to the game's simulation. The one piece of logic it owns is its plan
policy, and that is what this project models:

- the node cache `Nodes` and `currentNode`. Every operation except `AddNode`
  refreshes the cache from the host first. `AddNode` refreshes only the active
  vessel and the current node, and reads the cache as the last refresh left it;
- the guards and decisions of node creation (active vessel, the nine-node
  ceiling, the one-second-ahead clamp, on-trajectory placement, burn centering);
- AddNode's default time and GetLastOrbit's orbit choice;
- the three deletion selectors that turn the cache into a removal list.

The host is a value. `Host` holds the universal time and the active vessel, if
there is one. The vessel holds its orbit, its plan component's node list (absent
when it has no plan component) and the nodes the maneuver registry lists for it.
`HostReply` holds the host's answers during one creation:

- the new node's id;
- the trajectory patch containing the current time;
- whether `AddNodeToVessel` accepted the node;
- the burn duration the host computed for it;
- whether a map core exists, and whether the map view's `HideManeuverPopup`
  throws when it is called (it is called only with a map core);
- the host state that the closing refresh reads.

Removals are not performed. Each deletion returns the `RemoveRequest` it would
hand to `RemoveNodesFromVessel`: the active vessel's `GlobalId` (`Vessel.id`) and
the list of nodes. It returns `IndexOutOfRange` when it
would read the cache outside its bounds, and `NullVessel` when it would pass
the id of a missing vessel.

Index arithmetic follows C#'s 32-bit `int`. The index parameter is an `int32`.
The clamp test `SelectedNodeIndex + 1 > Nodes.Count` wraps for the largest
`int`: the sum becomes the smallest `int`, the test fails, and the unclamped
index is read, which throws. A negative index and an empty cache also throw.

Files and modules:

- `node_types.dfy` (`NodeTypes`): nodes, orbits, vessels, the host snapshot,
  outcomes, `MaxNodes = 9` and the refresh rule `CacheAfterRefresh`.
- `node_policy.dfy` (`NodePolicy`): the pure decisions.
  - `CreationOutcome` is the specification of `CreateManeuverNodeAtUT`.
  - `DefaultBurnUT` and `LastOrbit` are the case analyses in `AddNode` and
    `GetLastOrbit`.
- `removal_lists.dfy` (`RemovalLists`): the three selectors, written as loops,
  and what is proved about them.
  - `Selects(r, s, chosen)` says that `r` lists exactly the nodes of `s` that are
    in `chosen`, each once, in order of first occurrence.
  - `SelectsUnique` proves that this determines `r` completely.
  - `SelectionIsFilter` proves that on a cache without duplicates, `r` is the
    plain filter `Filter(s, chosen)`.
- `node_manager.dfy` (`NodeManager`): the class `NodeManagerPlugin` with the
  fields `activeVessel`, `currentNode` and `nodes`, and the operations. Each
  operation is proved against the functions above.

Node identity: the source's `List.Contains` compares node objects by reference.
The model compares node values, and each value carries its `NodeID` as `id`. When
node ids are unique, the two comparisons agree.

Where a reader might expect otherwise, the model follows the code:

- A refresh without an active vessel (or without a plan component) leaves the
  cache unchanged. It does not empty it (NodeManagerProject/NodeManagerPlugin.cs:280-283).
- The clamp moves every time earlier than `UT + 1` to `UT + 1`. This includes
  times between now and one second from now (NodeManagerProject/NodeManagerPlugin.cs:488-489).
- A new node goes on the maneuver trajectory when it is later than the FIRST cached
  node, not later than all of them. Its patch is the one that contains the
  current time, not the burn time (NodeManagerProject/NodeManagerPlugin.cs:494-501).
- The centering shift is written to the node (`Time += nodeTimeAdj`) while the
  arguments of the host update are evaluated, before the update runs. A failing
  update therefore still leaves the node's time shifted, and the call still
  returns true (NodeManagerProject/NodeManagerPlugin.cs:530-534).
- Exceptions from gizmo creation are caught, but `HideManeuverPopup` is called
  outside the `try`. If it throws, the node is already in the plan, and nobody
  centres it or runs the closing refresh. The model's outcome for that case is
  `ThrewAfterCommit` (NodeManagerProject/NodeManagerPlugin.cs:510-516).
- Without a map core, the centering branch still shifts the node's time: the
  argument `Time += nodeTimeAdj` is evaluated before the argument that reads the
  map core's gizmo table, which throws inside the `try`. No host update is called,
  so `recentred` is false, but the returned node carries the shifted time and the
  call returns true (NodeManagerProject/NodeManagerPlugin.cs:511, 524-534).
- `DeleteNodes` removes every cached node when its target is OFF the trajectory.
  When the target is on the trajectory, it adds only nodes strictly later than
  the target, so other nodes at the same time are kept (NodeManagerProject/NodeManagerPlugin.cs:416).

## Model

| member | source | states |
|---|---|---|
| `NodeManager.NodeManagerPlugin.constructor` | NodeManagerProject/NodeManagerPlugin.cs:89-91 | a new plugin has no active vessel, no current node and an empty cache |
| `NodeManager.NodeManagerPlugin.RefreshActiveVesselAndCurrentManeuver` | NodeManagerProject/NodeManagerPlugin.cs:269-273 | the active vessel is the host's; the current node is the first node registered for it, or none without a vessel or nodes; the cache is untouched |
| `NodeManager.NodeManagerPlugin.RefreshManeuverNodes` | NodeManagerProject/NodeManagerPlugin.cs:276-287 | with a plan component the cache becomes its node list; without one the cache keeps its old value; the count returned is the cache's length |
| `NodeManager.NodeManagerPlugin.DeleteNode` | NodeManagerProject/NodeManagerPlugin.cs:364-383 | after a refresh, an index whose clamped value is outside the cache throws an index exception; otherwise only the node at the clamped index can be removed, from the active vessel, and only when it is in the past and off the trajectory; otherwise nothing is asked of the host |
| `NodeManager.NodeManagerPlugin.DeletePastNodes` | NodeManagerProject/NodeManagerPlugin.cs:385-400 | after a refresh, the removal request names the active vessel and selects exactly the cached nodes that are off the trajectory or in the past; without a vessel the removal call dereferences null |
| `NodeManager.NodeManagerPlugin.DeleteNodes` | NodeManagerProject/NodeManagerPlugin.cs:402-421 | after a refresh, an out-of-range clamped index throws before the vessel is used; otherwise the removal request names the active vessel and lists the clamped target followed by the selection of nodes after it, and without a vessel the removal call dereferences null |
| `NodeManager.NodeManagerPlugin.GetLastOrbit` | NodeManagerProject/NodeManagerPlugin.cs:423-451 | after a refresh, answers the orbit `LastOrbit` picks for the refreshed cache |
| `NodeManager.NodeManagerPlugin.CreateManeuverNodeAtUT` | NodeManagerProject/NodeManagerPlugin.cs:468-540 | the outcome is `CreationOutcome` of the refreshed cache; a refusal or a popup exception leaves the cache, vessel and current node as the first refresh set them, and a creation refreshes them again from the host afterwards; the offset factor defaults to -0.5 |
| `NodeManager.NodeManagerPlugin.CreateManeuverNodeAtTA` | NodeManagerProject/NodeManagerPlugin.cs:453-466 | fails with no reference orbit unless the last orbit is a patched conic; otherwise it creates at the time the host resolves for the true anomaly on that orbit; every outcome but a creation leaves the state of the first refresh, and a creation leaves the state of the closing refresh; the offset factor defaults to -0.5 |
| `NodeManager.NodeManagerPlugin.AddNode` | NodeManagerProject/NodeManagerPlugin.cs:787-815 | a requested time (default 0) at or after now passes through unchanged; an earlier one is replaced by `DefaultBurnUT`, which reads the cache before the refresh; a past time without a vessel throws a null reference, with no vessel and no current node recorded and the cache untouched; the node is never recentred; otherwise the state is that of the creation |
| `NodePolicy.ClampBurnUT` | NodeManagerProject/NodeManagerPlugin.cs:488-489 | the time is at least one second from now; a time earlier than that becomes exactly `UT + 1`, and any other time is kept |
| `NodePolicy.CreationOutcome` | NodeManagerProject/NodeManagerPlugin.cs:470-540 | refused without a vessel or with 9 or more cached nodes; the host holds a new node iff both guards pass and it accepts; success is reported iff, in addition, the popup call (made only with a map core) does not throw; on the trajectory iff the cache is non-empty and the clamped time is later than the first node; a reported node is shifted by burn duration × factor, and the host update is reached iff that product is nonzero and a map core exists; a node whose popup threw keeps the clamped time |
| `NodePolicy.DefaultBurnUT` | NodeManagerProject/NodeManagerPlugin.cs:794-806 | for an elliptical orbit with no nodes, now plus time to apoapsis; with nodes, the last node's time plus min(period/10, 600), so never more than 600 s after it; otherwise now plus 30 s |
| `NodePolicy.LastOrbit` | NodeManagerProject/NodeManagerPlugin.cs:430-450 | with an empty cache, the vessel's orbit (none without a vessel); otherwise the trajectory patch of the last cached node |
| `NodePolicy.ClampIndex` | NodeManagerProject/NodeManagerPlugin.cs:373-374 | below the largest `int`, an index below the count is kept and one at or beyond it becomes max(0, count - 1), so a non-negative index lands inside a non-empty cache; the largest `int` is kept unclamped because the sum wraps |
| `NodeTypes.WrapInt32` | NodeManagerProject/NodeManagerPlugin.cs:373 | C#'s unchecked `int` sum: exact inside the `int` range, and one past the largest `int` wraps to the smallest |
| `NodePolicy.AsPatchedConic` | NodeManagerProject/NodeManagerPlugin.cs:456-457 | the `as PatchedConicsOrbit` cast: keeps an orbit exactly when it is a patched conic |
| `RemovalLists.SelectNode` | NodeManagerProject/NodeManagerPlugin.cs:373-382 | no list (the index exception) iff the clamped index is outside the cache; otherwise the list is empty or holds just the node at the clamped index, and it is non-empty iff that node is in the past and off the trajectory |
| `RemovalLists.SelectPastNodes` | NodeManagerProject/NodeManagerPlugin.cs:393-399 | the list holds exactly the cached nodes that are off the trajectory or in the past, without duplicates and in cache order |
| `RemovalLists.SelectNodesFrom` | NodeManagerProject/NodeManagerPlugin.cs:408-418 | no list (the index exception) iff the clamped index is outside the cache; otherwise the list starts with the clamped target; with the target off the trajectory it holds every cached node; otherwise it holds the target and exactly the nodes strictly later than it; no duplicates |
| `RemovalLists.SelectsExtend` | NodeManagerProject/NodeManagerPlugin.cs:395-396 | the `Contains`-guarded append of one scanned node keeps the list an exact selection of the scanned prefix |
| `RemovalLists.SelectsUnique` | NodeManagerProject/NodeManagerPlugin.cs:393-399 | two lists that select the same nodes from the same cache are equal, so the selectors' contracts determine their results |
| `RemovalLists.FilterSelects` | NodeManagerProject/NodeManagerPlugin.cs:393-399 | on a cache without duplicates, the plain in-order filter is a selection |
| `RemovalLists.SelectionIsFilter` | NodeManagerProject/NodeManagerPlugin.cs:393-399 | on a cache without duplicates, every selection equals the plain in-order filter |
| `RemovalLists.FilterAfterTarget` | NodeManagerProject/NodeManagerPlugin.cs:416 | on a strictly time-ordered cache, filtering a prefix by "strictly later than the on-trajectory target at k" leaves exactly the nodes after position k |
| `RemovalLists.SelectsAfterTarget` | NodeManagerProject/NodeManagerPlugin.cs:414-418 | on a strictly time-ordered cache, the nodes DeleteNodes adds after an on-trajectory target at k are exactly the nodes after position k, in order |
| `RemovalLists.DeletesFromTruncates` | NodeManagerProject/NodeManagerPlugin.cs:408-420 | on a strictly time-ordered cache, DeleteNodes with an on-trajectory target at k removes exactly the suffix starting at k |
| `RemovalLists.DeletesFromSecondOfFour` | NodeManagerProject/NodeManagerPlugin.cs:408-420 | for nodes at 10, 20, 30 and 40 with the on-trajectory node at 20 as target, the removal list is the nodes at 20, 30 and 40, so the node at 10 is kept |

## Left out

- The debug window (`OnGUI`, `FillWindow`, `CloseButton`, `CloseWindow`): Unity immediate-mode UI.
- Plugin bootstrap: the singleton `Instance`, Harmony patch registration and the message subscriptions. Both subscribed events only call `RefreshManeuverNodes`, which is modelled.
- `SpitNode` (both overloads) and all logging: output only.
- The `RefreshNodes` coroutine: it waits for physics ticks and calls the host's `UpdateNodeDetails` and `RefreshManeuverNodeState`.
- The host's own algorithms are inputs, not models: `FindPatchContainingUt` (`HostReply.patchAtNow`), `GetUTforTrueAnomaly` (the `utForTrueAnomaly` parameter), the burn-duration computation (`HostReply.burnDuration`), `AddNodeToVessel` (`HostReply.accepted`), and the host state after a creation (`HostReply.after`).
- What the host does with a removal list (`RemoveNodesFromVessel`): the list is returned instead.
- What the host does during centering (`UpdateTimeOnNode`, `UpdateActiveNode`, `UpdateAllChildNodeDetails`): the model records whether the update was reached (`recentred`), which needs a nonzero shift and a map core. Exceptions there are swallowed by the source, so the plugin's result and the node value are the same whether or not the update fails.
- Gizmo creation: cosmetic, and its exceptions are swallowed. `HideManeuverPopup` is modelled only by whether it throws (`HostReply.popupThrows`).
- The null reference the source would throw when `Orbiter` or its `ManeuverPlanSolver` is missing while it looks for a trajectory patch: the model assumes every active vessel has a solver. The same holds for a vessel without a `SimulationObject`: the refresh treats it as having no plan component (`?.` at NodeManagerProject/NodeManagerPlugin.cs:279), and creation then throws when it reads `SimulationObject.GlobalId` (504). The model assumes every active vessel has a simulation object, and creates the node.
- IEEE double arithmetic: times are `real`. The rules use only comparisons, sums, one product and one minimum. NaN values are not modelled.
- The `silent` flag of `GetLastOrbit` and the burn vector's magnitude: they affect logging only.
- The commented-out alternative implementations and the reflection example in the header comment: not live code.
- NodeManager.NodeManagerPlugin.AddNode: the cache holds value snapshots taken at the last refresh, where the source holds the host's live node objects. The default time therefore reads the last node's time as of that refresh; if the host object changed since (for example, the player dragged the node), the source sees the new time and the model does not. Aliasing in general is not captured: the in-place `Time +=` during centering is recorded on the returned node value only.
