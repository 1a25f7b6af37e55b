# OpenDoors in Dafny

A model of the door-grouping logic of the OpenDoors game-server plugin, with
proofs. The plugin reacts to a right click on a wooden door. It finds every
wooden door connected to the clicked one through shared faces and drives them
all to one state: open if the clicked door was closed, closed if it was open.

The model has these parts:

- **Materials** (`materials.dfy`): the block materials and the classifier
  `IsDoorButNotIron`. It accepts exactly the eleven wooden door kinds. Iron
  doors, air and every other block are rejected.
- **Grid** (`grid.dfy`): integer cells and a world, which is a finite map from
  cells to materials. A cell outside the map is air. It also defines face
  adjacency and the six neighbours in the order the search visits them.
- **DoorHalves** (`bottom.dfy`): `DoorBottom` resolves a door cell to its lower
  half by looking one cell down. Idempotence is proved for worlds whose doors
  are at most two cells tall. A three-cell column shows it fails otherwise.
- **Reach** (`reach.dfy`): a reference definition of the connected group.
  Reachability is any chain of eligible door cells in which each step moves to
  a face neighbour, independent of any search order. It is proved symmetric and
  transitive. Every member of a group reaches the same doors.
- **Lists** (`lists.dfy`): duplicate-free sequences, and `FirstOccurrences`,
  which keeps the first occurrence of each cell in order.
- **Discovery** (`discovery.dfy`): the order in which a first-in-first-out
  search examines cells.
  - Each cell after the start was queued by the first examined door next to
    it, its parent.
  - Cells are examined by the position of their parent, then by their place
    among the parent's six neighbours.
  - `DiscoveryOrderUnique` proves that at most one duplicate-free order of a
    set of cells from a given start has both properties.
- **Search** (`search.dfy`): the breadth-first search. It is a loop over a FIFO
  queue and a visited set, with one iteration factored out as `Examine`.
  - The examined set is proved to be exactly the start cell plus the doors
    reachable from it, so the search is both sound and complete.
  - The result is proved to hold exactly the bottoms of those doors, without
    repetition, in the order the search first examines them.
  - That examination order is proved to be a discovery order. The queue is
    kept sorted by discovery key behind the examined cells, so taking its head
    takes the next cell. Since a discovery order is unique, the world and the
    start cell fix the order of the result.
  - The loop terminates: each iteration either examines a new cell of the
    finite search space or shortens the queue.
- **Toggle** (`toggle.dfy`): `OpenDoor` and `CloseDoor` change one door's open
  flag unless it is already in the wanted state. `ApplyAll` is the pass over
  the found list. The door state is a map from cells to open flags. A cell
  outside the map has no door data and is never written. Each write is recorded
  in the `written` list, which stands for the door sound the plugin plays.
- **Interact** (`interact.dfy`): the click handler and the open/close entry
  points. Their contracts are stated against `Cluster`, the bottoms of the
  doors reachable from the clicked door's bottom.
- **Scenarios** (`scenarios.dfy`): small worlds where the cluster is computed
  exactly. They cover:
  - a row of doors next to a distant door, and the exact order in which the
    search returns the row;
  - diagonal contact, which does not connect;
  - an iron door between two wooden doors, which blocks the search;
  - a two-cell door clicked at its upper half.

The comments in `OpenDoors.kt` (lines 132 and 135) treat the cell below as the
other half of the same door. That assumes doors are at most two cells tall. The
code itself looks one cell down and compares materials only. Resolution is
therefore idempotent only under that assumption, that is, when no three
same-material door cells are stacked (`DoorHalves.DoorBottomIdempotent`
against `DoorHalves.ThreeTallColumnNotIdempotent`). The model follows the code.

## Model

| member | source | states |
|---|---|---|
| Materials.EligibleAreWoodenDoors | src/main/kotlin/winlyps/openDoors/OpenDoors.kt:48-64 | The classifier accepts a material exactly when it is one of the eleven wooden doors, listed separately. Iron doors, air and every other block are rejected. |
| Grid.Neighbours | src/main/kotlin/winlyps/openDoors/OpenDoors.kt:109-117 | Six cells, exactly the face-adjacent ones (one coordinate differs by one), never the cell itself and never a diagonal. |
| DoorHalves.DoorBottom | src/main/kotlin/winlyps/openDoors/OpenDoors.kt:128-137 | The result is the cell itself or the cell one below. It is the one below exactly when that cell has the same material and is an eligible door. Material and eligibility are kept. |
| DoorHalves.DoorBottomIdempotent | src/main/kotlin/winlyps/openDoors/OpenDoors.kt:128-137 | When no door is more than two cells tall, resolving a resolved cell changes nothing. |
| DoorHalves.HalvesResolveAlike | src/main/kotlin/winlyps/openDoors/OpenDoors.kt:128-137 | Both halves of a two-cell door resolve to the lower half. |
| DoorHalves.ThreeTallColumnNotIdempotent | src/main/kotlin/winlyps/openDoors/OpenDoors.kt:128-137 | In a column of three oak doors the top resolves to the middle, and the middle resolves further down, so resolution is not idempotent in general. |
| Reach.ReachableDoors | src/main/kotlin/winlyps/openDoors/OpenDoors.kt:103-123 | Reference group: a cell is in it exactly when a chain of eligible doors in face steps leads to it from the start. |
| Reach.ReachableDoorsOfStart | src/main/kotlin/winlyps/openDoors/OpenDoors.kt:95-103 | A start that is not an eligible door reaches nothing. An eligible start reaches itself. |
| Reach.ClosedSetContainsReachable | src/main/kotlin/winlyps/openDoors/OpenDoors.kt:119-123 | A set containing the start that holds every eligible neighbour of its eligible members contains every reachable door. This is the completeness argument. |
| Reach.ReachableDoorsShared | src/main/kotlin/winlyps/openDoors/OpenDoors.kt:109-123 | Any two connected doors reach exactly the same doors. |
| Lists.FirstOccurrences | src/main/kotlin/winlyps/openDoors/OpenDoors.kt:104-107 | Same cells as the input, each once, ordered by where they first occur in the input. |
| Discovery.ParentIndex | src/main/kotlin/winlyps/openDoors/OpenDoors.kt:109-121 | The position of the first examined cell that is an eligible door next to the given cell. No earlier examined cell is one. The result is the number of examined cells when there is none. |
| Discovery.DiscoveryOrderUnique | src/main/kotlin/winlyps/openDoors/OpenDoors.kt:97-123 | Two duplicate-free discovery orders of the same cells from the same start are equal. So the examination order is determined by the world and the start. |
| Search.FreshDoorNeighbours | src/main/kotlin/winlyps/openDoors/OpenDoors.kt:119-123 | A neighbour is queued exactly when it is unvisited and an eligible door. |
| Search.QueueAfterExamine | src/main/kotlin/winlyps/openDoors/OpenDoors.kt:119-121 | Apart from the start, only eligible doors reachable from the start are ever queued. |
| Search.FreshKeepsOrder | src/main/kotlin/winlyps/openDoors/OpenDoors.kt:109-123 | The fresh eligible neighbours are queued in the order of the neighbour list: east, west, south, north, up, down. |
| Search.HeadComesNext | src/main/kotlin/winlyps/openDoors/OpenDoors.kt:98-100 | An unexamined head of a queue in discovery order was queued by an examined door. Its key is above every examined cell's and below every other waiting cell's, so removing index 0 takes the next cell in discovery order. |
| Search.DiscoveryAfterExamine | src/main/kotlin/winlyps/openDoors/OpenDoors.kt:100-123 | Examining the head extends the discovery order. Waiting cells keep their keys. Appended cells were discovered by the head, in slot order, after everything waiting. |
| Search.FrontierAfterVisit | src/main/kotlin/winlyps/openDoors/OpenDoors.kt:98-123 | After a cell is taken from the queue and examined, every eligible neighbour of an examined door is still examined or queued. |
| Search.RemainingShrinks | src/main/kotlin/winlyps/openDoors/OpenDoors.kt:100-101 | Marking a new cell as examined leaves strictly fewer unexamined cells in the finite search space. The loop's termination rests on this. |
| Search.Examine | src/main/kotlin/winlyps/openDoors/OpenDoors.kt:97-124 | One iteration, with the exact next state. The head leaves the queue. An examined head changes nothing else. A new head joins the examined cells. If it is a door, its bottom joins the result unless already there, and its unexamined eligible neighbours are appended in list order. |
| Search.IterationKeepsInvariant | src/main/kotlin/winlyps/openDoors/OpenDoors.kt:97-124 | One iteration keeps the search invariant. Queued and examined cells are the start or reachable doors, and the frontier is covered. The order lists the examined cells once, and the result holds the first occurrences of their bottoms. |
| Search.IterationKeepsDiscoveryOrder | src/main/kotlin/winlyps/openDoors/OpenDoors.kt:97-124 | One iteration keeps the examined cells a discovery order, with the unexamined queue entries sorted by key behind them. |
| Search.IterationProgress | src/main/kotlin/winlyps/openDoors/OpenDoors.kt:96-124 | Every iteration either examines a new cell of the search space or shortens the queue, so the loop ends. |
| Search.SearchStarts | src/main/kotlin/winlyps/openDoors/OpenDoors.kt:95 | The invariant holds with the start alone in the queue. |
| Search.ExaminedIsReachable | src/main/kotlin/winlyps/openDoors/OpenDoors.kt:97-125 | With the queue empty, the examined cells are exactly the start and the doors reachable from it. |
| Search.RecordedBottoms | src/main/kotlin/winlyps/openDoors/OpenDoors.kt:103-107 | The recorded bottoms are exactly the bottoms of the reachable doors, and each is itself reachable and examined. |
| Search.SearchFinished | src/main/kotlin/winlyps/openDoors/OpenDoors.kt:97-125 | On an empty queue the examined set and the result are as the search promises, and a start that is not a door yields an empty result. |
| Search.FindConnectedDoors | src/main/kotlin/winlyps/openDoors/OpenDoors.kt:94-126 | Examined cells equal the start plus the reachable doors. The result holds exactly their bottoms, without duplicates, in the order they are first examined. A start that is not a door gives an empty result with only the start examined. The examination order is a discovery order, and by `Discovery.DiscoveryOrderUnique` it is the only one. |
| Toggle.OpenDoor | src/main/kotlin/winlyps/openDoors/OpenDoors.kt:140-157 | A door with door data ends open. Only a closed one is written. Every other cell is unchanged. |
| Toggle.CloseDoor | src/main/kotlin/winlyps/openDoors/OpenDoors.kt:159-176 | A door with door data ends closed. Only an open one is written. Every other cell is unchanged. |
| Toggle.Drive | src/main/kotlin/winlyps/openDoors/OpenDoors.kt:75-91 | Opening or closing a door per the target leaves it in the target state and changes nothing else. It is written exactly when it was not already in the target state. |
| Toggle.NeedingChange | src/main/kotlin/winlyps/openDoors/OpenDoors.kt:140-176 | The listed doors with door data that are not yet in the target state. |
| Toggle.ApplyAll | src/main/kotlin/winlyps/openDoors/OpenDoors.kt:75-91 | Every listed door ends in the target state and every other cell keeps its state. The writes are exactly the listed doors not yet in the target, each once, in list order. A list already in the target changes nothing. |
| Toggle.ApplyAllTwice | src/main/kotlin/winlyps/openDoors/OpenDoors.kt:75-91 | A second pass with the same target writes nothing and changes nothing. |
| Interact.ToggleCluster | src/main/kotlin/winlyps/openDoors/OpenDoors.kt:66-92 | Every cluster door ends in the target state, other cells are unchanged, and exactly the cluster doors not yet in the target are written, once each. Repeating with the same target is a no-op. |
| Interact.OpenAdjacentDoors | src/main/kotlin/winlyps/openDoors/OpenDoors.kt:66-78 | The cluster ends open, nothing else changes, and exactly its closed doors are written. |
| Interact.CloseAdjacentDoors | src/main/kotlin/winlyps/openDoors/OpenDoors.kt:80-92 | The cluster ends closed, nothing else changes, and exactly its open doors are written. |
| Interact.OnPlayerInteract | src/main/kotlin/winlyps/openDoors/OpenDoors.kt:24-46 | A cell that is not an eligible door, or that has no door data, changes nothing. Otherwise the cluster is driven to the opposite of the clicked door's state, and a clicked bottom half always flips. |
| Interact.ClickedBottomInCluster | src/main/kotlin/winlyps/openDoors/OpenDoors.kt:66-72 | A clicked eligible door that is its own bottom is in the cluster its click addresses. |
| Interact.ClusterSharedByMembers | src/main/kotlin/winlyps/openDoors/OpenDoors.kt:66-92 | With doors at most two tall, clicking any door of a cluster addresses the same cluster. |
| Scenarios.RowCluster | src/main/kotlin/winlyps/openDoors/OpenDoors.kt:94-126 | Clicking the first of three doors in a row addresses exactly the row and never a door ten cells away. |
| Scenarios.RowOrderForced | src/main/kotlin/winlyps/openDoors/OpenDoors.kt:97-123 | The only duplicate-free discovery order of the row from its west end is west to east. |
| Scenarios.RowSearchOrder | src/main/kotlin/winlyps/openDoors/OpenDoors.kt:94-126 | The search from the west end of a row of three doors returns them west to east. |
| Scenarios.DiagonalNotConnected | src/main/kotlin/winlyps/openDoors/OpenDoors.kt:109-117 | Two doors touching only along an edge are not connected. |
| Scenarios.IronDoorBlocks | src/main/kotlin/winlyps/openDoors/OpenDoors.kt:119-123 | An iron door between two wooden doors is neither included nor passed through. |
| Scenarios.UpperHalfClick | src/main/kotlin/winlyps/openDoors/OpenDoors.kt:128-137 | Clicking the upper half of a two-cell door addresses only its lower half. |

## Left out

- Plugin lifecycle and logging (`onEnable`, `onDisable`, listener registration): host plumbing with no logic.
- The event filter (right-click action, missing clicked block): the model starts from the clicked cell.
- Bukkit's door data: whether a cell carries door data is modelled as membership in the door-state map, and its open flag as the mapped value.
- Door sounds: each is modelled as an entry in the `written` list. Volume, pitch and sound kind are not modelled.
- The host updating a door's other half when one half is written: this happens inside the game engine.
- Chunk loading, concurrency and world changes during a search: the code does not handle them, and the world is a fixed map here.
- Materials: the game's catalog is reduced to the eleven wooden doors, the iron door, air, and one constructor for every other block.
- Search.FindConnectedDoors: the order is stated as the discovery order of a first-in-first-out queue, which fixes it completely. That this order visits cells in layers of increasing distance from the start is not stated.
- Coordinates: Bukkit block coordinates are 32-bit integers, and `getRelative` adds the offsets to them (`OpenDoors.kt` lines 111-116 and 130). Cells here have unbounded coordinates. The two agree because world coordinates stay far below 2^31.
- DoorHalves.DoorBottom: half-awareness (which half of a door a cell is) is not modelled, because the code compares materials only. As a result, doors of one material stacked on each other resolve across door boundaries, and idempotence is proved only for doors at most two tall.
