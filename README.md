# BusJam rules engine, modelled in Dafny

BusJam is a Unity puzzle. Characters of various colours stand on a grid of nodes. Tapping a
character sends it along a shortest free route to row 0, where the active bus waits. When the
character's colour matches the bus it boards and takes a seat; otherwise it parks in the lowest
free slot of a small waiting area, and when no slot is free the waiting area reports that it is
full. A bus that reaches its seat count hands over to the next bus in the queue; when the queue
runs dry, all buses are full and the level is won. A game manager turns these signals, and the
level timer's time-over signal, into `Finished` or `GameOver` and tells its observers. One of
those observers is the level progress, which unlocks the next level.

This project models that rules engine with the Unity plumbing stripped away. It keeps:

- tap resolution and the breadth-first route search (`Character`);
- two variants of grid cell (`GridNode` and the older `GridCell`) and the older `GridManager`;
- the waiting-area slots (`WaitingArea`);
- seat counting and the bus queue (`Bus`, `BusManager`);
- the game state machine with its observers (`GameManager`, plus the timer's running flag);
- the input gate (`InputManager`);
- level selection and unlocking (`CurrentLevelManager`);
- row-major level layout arithmetic (`LevelLoader`).

Each tween completion callback is modelled as a synchronous step at the point where the tween
starts. The one exception is `CheckForMatchingCharacters`, whose completions all run after its
scan (`CompleteReleases`). `Destroy` means that the object leaves the model. A waiting-area
slot that still refers to a destroyed character reads as empty from then on, because Unity's
`==` reports a destroyed object as null (`Forget`). The C# events
(`OnWaitingAreaFull`, the all-buses-full signal) become boolean results that are true exactly
when the event would fire. The game manager's handlers for those signals are separate methods.

Files and modules:

- `wrappers.dfy` (`Wrappers`): `Option` and `Result`.
- `lists.dfy` (`Lists`): the C# `List<T>` idioms "add unless present" and `Remove`.
- `level_data.dfy` (`LevelData`): the level and bus records.
- `level_loader.dfy` (`LevelLoader`): index to coordinates.
- `progression.dfy` (`Progression`): `string.Replace`, `int.Parse`, `CurrentLevelManager`.
- `input.dfy` (`Input`): `InputManager`.
- `buses.dfy` (`Buses`): `Bus` and `BusManager`, and `Ride`, the seat-by-seat specification
  of a run of boardings along the active bus and the queue.
- `game_state.dfy` (`GameStates`): the `GameState` enumeration.
- `routes.dfy` (`Routes`): the reachability and shortest-route specification of the search,
  and the lemmas that carry its proof.
- `board.dfy` (`Board`): `GridNode`, the node lookup, `WaitingArea` and `Character`. They
  refer to each other, so they share one module.
- `legacy_grid.dfy` (`LegacyGrid`): `GridCell` and `GridManager`.
- `game_flow.dfy` (`GameFlow`): `GameManager` and the timer's running flag.

Where the files of the repository disagree with each other, the model makes these choices:

- `Character.cs` calls `GridManager.Instance.GetNode`, which the repository's `GridManager`
  does not have. `NodeGrid.GetNode` is a bounds-checked lookup that returns null off the grid
  or where no node exists.
- `GameManager.cs:25` subscribes to a `BusManager.OnAllBusesFull` event that `BusManager`
  does not declare. The signal is taken to fire where `ActivateNextBus` finds the queue empty
  (`BusManager.cs:44-47`).
- `BusManager.cs:24-25` calls `bus.Init(BusColor)`, but `Bus` only has
  `Initialize(string, int, ColorData)`. Colours are string labels throughout, as
  `Character.cs:84` compares strings, and `CreateBuses` takes colours and seat counts as inputs.
- `Character.cs:26` reads `node.NodeColor`, which `GridNode` does not have. `Initialize` takes
  the character's colour as a parameter instead.
- Nothing in the code sorts buses by their `order` field, so buses are activated in creation
  order.
- `GridManager.cs` reads `cell.gridPosition` and `isOccupied`, while `GridCell` names these
  `GridPosition` and `IsOccupied`. The model reads `GridCell`'s fields.

In these cases the code behaves as follows:

- Seat counts have no cap. Every seat from capacity on asks the manager to advance again.
- A character that taps at row 0, mismatches, and finds no free slot is removed without
  freeing its node.
- `ChangeState` has no guard. A time-over signal after `Finished` yields `GameOver`, and
  observers are told again on every signal.
- The release of matching waiting characters does not stop early. No code shown calls it
  when a bus advances.
- The tap also checks `ColorData.ShouldSpawnCharacter`. This check is a parameter of
  `OnMouseDown`.

## Model

| member | source | states |
|---|---|---|
| Lists.AddIfAbsent | Assets/Scripts/GameManager.cs:33-36 | The result contains `x` and every old element, and adds nothing else. It equals the old list when `x` was present, and otherwise is the old list with `x` appended. It keeps a duplicate-free list duplicate-free. |
| Lists.IndexOf | Assets/Scripts/GameManager.cs:43 | The index of the first occurrence of `x`: it holds `x`, and no earlier element is `x`. |
| Lists.RemoveFirst | Assets/Scripts/GameManager.cs:41-44 | Removal is a no-op when `x` is absent. When `x` is present it cuts out its first occurrence and keeps the elements before and after it. |
| Lists.RemoveFirstKeepsOrder | Assets/Scripts/GameManager.cs:41-44 | After removal, each position holds the element that stood there before the removed one, or the one after it past that point. |
| Lists.RemoveFirstMultiset | Assets/Scripts/GameManager.cs:41-44 | `Remove` takes away exactly one copy of `x` when there is one, and leaves every other element. |
| Lists.RemoveFirstKeepsDistinct | Assets/Scripts/GameManager.cs:39-45 | On a duplicate-free list, removal leaves no copy of `x` and no duplicate. |
| Lists.AddThenRemove | Assets/Scripts/GridManager.cs:137-147 | Adding a new character and then removing it restores the list. |
| LevelLoader.DecodeThenEncode | Assets/Scripts/LevelDAta/LevelLoader.cs:17-18 | The editor's `y * width + x` applied to the decoded `(i % width, i / width)` gives `i` back, for any non-zero width. |
| LevelLoader.DecodeInBounds | Assets/Scripts/LevelDAta/LevelLoader.cs:17-18 | For `width > 0` and `0 <= i < width * height`, the decoded `x` lies in `[0, width)` and `y` in `[0, height)`. |
| LevelLoader.EncodeThenDecode | Assets/Editor/LevelEditorWindow.cs:370 | A cell with `0 <= x < width` that the editor encodes decodes back to itself. |
| LevelLoader.ColoredFrom | Assets/Scripts/LevelDAta/LevelLoader.cs:15-21 | The indices the loop places are exactly those whose colour is neither null nor empty, in ascending order. |
| LevelLoader.LoadLevel | Assets/Scripts/LevelDAta/LevelLoader.cs:10-27 | The load fails with a division by zero exactly when the width is 0 and some index must be decoded. Otherwise its nodes are the coloured indices, in order, each with its decoded coordinates and colour. |
| LevelLoader.LoadedNodeInGrid | Assets/Scripts/LevelDAta/LevelLoader.cs:15-21 | On a `width * height` level, every placed node lies inside the grid. The editor encoding of its coordinates is the index of its non-empty colour. |
| Progression.RemoveAll | Assets/Scripts/Level/CurrentLevelManager.cs:25-26 | `Replace(pat, "")` never lengthens the string and introduces no character. It is the identity when the first character of the pattern does not occur. |
| Progression.RemoveAllLeading | Assets/Scripts/Level/CurrentLevelManager.cs:26 | A leading "Levels/level" (any pattern) is deleted, and the scan continues after it. |
| Progression.TrimWhite | Assets/Scripts/Level/CurrentLevelManager.cs:26 | Trimming keeps every character that is not white space and introduces none. |
| Progression.Unsigned | Assets/Scripts/Level/CurrentLevelManager.cs:26 | A leading sign is split off, and the remaining string is returned whole. |
| Progression.ParseIntRejectsOtherCharacters | Assets/Scripts/Level/CurrentLevelManager.cs:26 | A character that is not a digit, a sign, white space or U+0000 makes `int.Parse` fail. |
| Progression.StripTrailingNuls | Assets/Scripts/Level/CurrentLevelManager.cs:26 | `int.Parse` ignores a trailing run of U+0000: the result is a prefix of the input that does not end in U+0000. |
| Progression.StripTrailingNulsCutsOnlyNuls | Assets/Scripts/Level/CurrentLevelManager.cs:26 | Every character cut off after that prefix is U+0000. |
| Progression.ParseIgnoresTrailingNul | Assets/Scripts/Level/CurrentLevelManager.cs:26 | Appending U+0000 to the text does not change what `int.Parse` returns. |
| Progression.NatToString | Assets/Scripts/UI/LevelButton.cs:75 | Formatting a non-negative `int` gives a non-empty string of digits. |
| Progression.DigitsOfNatToString | Assets/Scripts/UI/LevelButton.cs:75 | The digits of a formatted number read back as that number. |
| Progression.TrimWhiteUntrimmed | Assets/Scripts/Level/CurrentLevelManager.cs:26 | A string without white space at either end is left as it is by the trim. |
| Progression.ParseDigits | Assets/Scripts/Level/CurrentLevelManager.cs:26 | A string of digits parses to its value when that value fits in 32 bits. |
| Progression.ParseNegatedDigits | Assets/Scripts/Level/CurrentLevelManager.cs:26 | A minus sign followed by digits parses to the negated value when it fits in 32 bits. |
| Progression.ParseFormattedInt | Assets/Scripts/Level/CurrentLevelManager.cs:26 | `int.Parse` reads back every 32-bit integer as C# formats it. |
| Progression.ButtonPathRoundTrip | Assets/Scripts/UI/LevelButton.cs:75-76 | For the path "Levels/level" + n that a level button builds, removing ".json" changes nothing, and the parsed level number is n. |
| Progression.LevelNumberRejectsNonNumbers | Assets/Scripts/Level/CurrentLevelManager.cs:26 | A remainder with a character that cannot belong to a number (not a digit, sign, white space or U+0000) makes `SetCurrentLevel` fail at the parse. |
| Progression.CompletedUnlocksNext | Assets/Scripts/Level/CurrentLevelManager.cs:39-41 | Below `Int32.MaxValue`, completing level n never lowers the counter and leaves it above n. It is unchanged when n is already below it. |
| Progression.CompletedIdempotent | Assets/Scripts/Level/CurrentLevelManager.cs:39-41 | Completing the same level twice is the same as completing it once. |
| Progression.CompletedWrapsAtMaxInt | Assets/Scripts/Level/CurrentLevelManager.cs:41 | The unchecked `levelNumber + 1` at `Int32.MaxValue` drops the counter to `Int32.MinValue`. |
| Progression.CurrentLevelManager.constructor | Assets/Scripts/Level/CurrentLevelManager.cs:5-7 | The counter starts at 1, and no path is selected. |
| Progression.CurrentLevelManager.Start | Assets/Scripts/Level/CurrentLevelManager.cs:12-21 | The saved counter is seeded with 1 when absent, and the counter is then loaded from it. |
| Progression.CurrentLevelManager.SetCurrentLevel | Assets/Scripts/Level/CurrentLevelManager.cs:23-27 | The stored path is the input without ".json". The call succeeds exactly when the remainder parses, and the level number is the parsed value. On failure the new path is kept and the old number stays. |
| Progression.CurrentLevelManager.CompleteLevel | Assets/Scripts/Level/CurrentLevelManager.cs:37-46 | The counter becomes `Completed(old, n)`. It is saved only when it was raised. |
| Progression.CurrentLevelManager.OnGameStateChanged | Assets/Scripts/Level/CurrentLevelManager.cs:29-35 | Only `Finished` completes the current level. Any other state leaves the counter and the saved value unchanged. |
| Input.InputManager.constructor | Assets/Scripts/InputManager.cs:5 | Input starts unblocked. |
| Input.InputManager.IsInputBlocked | Assets/Scripts/InputManager.cs:7 | The gate is a pure read of the flag. |
| Input.InputManager.BlockInput | Assets/Scripts/InputManager.cs:9-12 | Afterwards the gate reads as the last value given. Repeating the call changes nothing. |
| Buses.Bus.Initialize | Assets/Scripts/Bus.cs:7-13 | A new bus records its colour and seat count, and has no seat taken. |
| Buses.Bus.OccupySeat | Assets/Scripts/Bus.cs:19-26 | Exactly one more seat is taken. The manager advances exactly when the count reaches the seat count, and is untouched otherwise. |
| Buses.SeatRequests | Assets/Scripts/Bus.cs:21-22 | The i-th of k successive seats requests an advance exactly when the count after it is at least the seat count. |
| Buses.FreshBusAdvancesFromLastSeat | Assets/Scripts/Bus.cs:19-26 | With capacity n, a fresh bus does not advance on its first n - 1 seats. It advances on the n-th and on every seat after it. |
| Buses.RideLeavesSuffix | Assets/Scripts/BusManager.cs:31-49 | The buses still to board are a suffix of the line: buses leave only from its head, in order. |
| Buses.RideCountsSeats | Assets/Scripts/Bus.cs:19-26 | After a ride, every bus has the seats it had at the start plus one per boarder it received. |
| Buses.RideStartsAtActiveBus | Assets/Scripts/WaitingArea.cs:114-119 | The first boarder takes the bus at the head of the line, or no bus when the line is empty. |
| Buses.RideBoardsFromLine | Assets/Scripts/WaitingArea.cs:114-119 | Every boarder who gets a bus gets one from the line. A boarder who gets none finds the line empty. |
| Buses.RideFillsDepartedBuses | Assets/Scripts/Bus.cs:19-26 | A bus that has left the line has at least as many seats taken as it holds. |
| Buses.RideKeepsHead | Assets/Scripts/Bus.cs:19-26 | While the head bus stays below its capacity, the line does not change, every boarder takes the head, and the head gains one seat per boarder. |
| Buses.RideFollowsSeatRequests | Assets/Scripts/Bus.cs:19-26 | The ride agrees with `SeatRequests` for the head bus. Until the first seat that asks for an advance, everyone boards the head and the line stays. At that seat the head takes the boarder and leaves the line. |
| Buses.BusManager.constructor | Assets/Scripts/BusManager.cs:8-9 | The queue is empty and no bus is active. |
| Buses.BusManager.CreateBuses | Assets/Scripts/BusManager.cs:17-29 | `busCount` fresh buses (none when the count is not positive) join the end of the queue in creation order. Each has the given colour and seat count and no seat taken. |
| Buses.BusManager.ActivateNextBus | Assets/Scripts/BusManager.cs:31-49 | The active bus is retired. The head of a non-empty queue becomes active and leaves the queue. With an empty queue no bus is active, and the all-buses-full signal fires exactly then. Buses become active in creation order, none twice. |
| Buses.BusManager.GetActiveBus | Assets/Scripts/BusManager.cs:51-54 | A read of the active bus that changes nothing. |
| Buses.BusManager.BusFull | Assets/Scripts/BusManager.cs:56-60 | Same as `ActivateNextBus`, for a caller with an active bus (the source dereferences it). |
| Buses.BusManager.Start | Assets/Scripts/BusManager.cs:11-15 | From an empty manager with `busCount >= 1`, the first created bus is active with the first colour and no seat taken, and `busCount - 1` buses wait. With no buses, nothing is active and the signal fires. |
| Routes.Neighbours | Assets/Scripts/Character.cs:128-137 | The four cells one step up, down, left and right, in that order. |
| Routes.NoShorterRoute | Assets/Scripts/Character.cs:119-155 | Suppose every cell within k steps is visited and has all its free neighbours visited, and no visited cell is on row 0. Then every route to row 0 is longer than k + 1 steps. |
| Routes.NoRoute | Assets/Scripts/Character.cs:130-155 | From inside a set of cells off row 0 that is closed under free neighbours, no route reaches row 0. |
| Routes.StartExpansion | Assets/Scripts/Character.cs:132-133 | Dequeuing the head keeps the search invariant. Every queued path is a distinct walk through free, visited cells off row 0. Queued paths are sorted by length, with a spread of at most one. Each queued end lies beyond the shorter layers, and every other visited cell is closed. |
| Routes.Enqueue | Assets/Scripts/Character.cs:143-152 | Queueing the path extended by a free, unvisited neighbour off row 0, and marking that neighbour visited, keeps the invariant. |
| Routes.FinishExpansion | Assets/Scripts/Character.cs:135-153 | Once all four neighbours of the dequeued end are settled, the loop-head invariant holds again. |
| Routes.AllDirectionsSettled | Assets/Scripts/Character.cs:135-153 | Trying all four directions leaves the expanded cell closed. |
| Routes.SearchExhausted | Assets/Scripts/Character.cs:130-155 | An empty queue under the invariant means row 0 is unreachable. |
| Routes.ReturnedRoute | Assets/Scripts/Character.cs:143-148 | The returned path leaves out the start and reaches row 0 through free cells. Every cell before its last is off row 0, and no cell repeats. |
| Routes.InnerLayerClosed | Assets/Scripts/Character.cs:130-153 | When a path of length L is dequeued, every cell within L - 2 steps is visited and closed. |
| Routes.NearestAtReturn | Assets/Scripts/Character.cs:143-148 | The first row-0 neighbour found gives a nearest route: no route to row 0 is shorter. |
| Board.GridNode.constructor | Assets/Scripts/GridNode.cs:5-7 | A node has a fixed position, and starts unoccupied with no occupant. |
| Board.GridNode.SetOccupied | Assets/Scripts/GridNode.cs:9-13 | Both fields take the given values, so `SetOccupied(false, c)` keeps `c`. Repeating a call gives the same state. The position is never changed. |
| Board.NodeGrid.GetNode | Assets/Scripts/Character.cs:140 | A node is returned only for its own position inside the grid. Off the grid the result is null. |
| Board.NodeGrid.FreeCells | Assets/Scripts/Character.cs:140-141 | A position is walkable exactly when a node exists there and is unoccupied. |
| Board.NodeGrid.NodesAlong | Assets/Scripts/Character.cs:143 | The nodes of a route are the looked-up nodes at its positions. |
| Board.LowestFree | Assets/Scripts/WaitingArea.cs:57-71 | The result is the lowest empty slot. It is absent exactly when every slot is taken. |
| Board.Store | Assets/Scripts/WaitingArea.cs:73-93 | An in-range index takes the new value. An out-of-range index changes nothing, and no other slot changes. |
| Board.AdmitFillsInOrder | Assets/Scripts/WaitingArea.cs:57-77 | Arrivals fill empty slots in order: after k <= n arrivals, the first k slots hold them in arrival order and the rest are empty. |
| Board.FullAreaAdmitsNothing | Assets/Scripts/WaitingArea.cs:68-70 | Once every slot is taken there is no free slot, and a further arrival changes nothing. |
| Board.Release | Assets/Scripts/WaitingArea.cs:106-112 | Exactly the slots whose occupant has the colour are emptied. Every other slot is untouched. |
| Board.MatchingStep | Assets/Scripts/WaitingArea.cs:106-111 | Scanning one more slot appends its occupant to the released list when it has the colour. |
| Board.ReleaseIdempotent | Assets/Scripts/WaitingArea.cs:106-112 | Releasing twice is releasing once. Afterwards no occupant has the colour. |
| Board.ReleaseAccountsForAll | Assets/Scripts/WaitingArea.cs:106-112 | Each taken slot is either released or still taken: remaining plus released equals the slots taken before. |
| Board.MatchingHaveTheColour | Assets/Scripts/WaitingArea.cs:108-111 | Every released character had the colour and was in a slot. |
| Board.ReleasedLeaveNoSlot | Assets/Scripts/WaitingArea.cs:112-117 | Destroying a released character when its walk ends changes no slot, because the scan already emptied every slot that held it. |
| Board.Forget | Assets/Scripts/WaitingArea.cs:62 | Once a character is destroyed, no slot refers to it: its slots read as empty, and every other slot keeps its occupant. |
| Board.ForgetAbsent | Assets/Scripts/Character.cs:172 | Destroying a character that holds no slot changes no slot. |
| Board.ForgetEmptiesItsSlots | Assets/Scripts/Character.cs:172 | The number of taken slots falls by exactly the number of slots the destroyed character held. |
| Board.ForgetFreesSlot | Assets/Scripts/WaitingArea.cs:57-66 | A waiting area where the destroyed character held a slot has a free slot again. |
| Board.WaitingArea.InitializeWaitingArea | Assets/Scripts/WaitingArea.cs:14-19 | `slotCount == size`, and all `size` slots are empty. |
| Board.WaitingArea.GetAvailableSlot | Assets/Scripts/WaitingArea.cs:57-71 | It returns the lowest empty slot and changes no slot. The full signal fires exactly when it returns none. |
| Board.WaitingArea.OccupySlot | Assets/Scripts/WaitingArea.cs:73-85 | The character is stored at an in-range index. Otherwise, and at every other index, nothing changes. |
| Board.WaitingArea.FreeSlot | Assets/Scripts/WaitingArea.cs:87-93 | An in-range slot is emptied. Otherwise nothing changes. |
| Board.WaitingArea.ForgetDestroyed | Assets/Scripts/Character.cs:172 | The slots become `Forget(old, c)`: each slot that referred to the destroyed character is emptied in place, and the rest are unchanged. |
| Board.WaitingArea.CheckForMatchingCharacters | Assets/Scripts/WaitingArea.cs:104-113 | The slots become `Release(old, colour)`, and the released characters are those with the colour, in ascending slot order. Input is blocked when something was released, and otherwise the gate is unchanged. |
| Board.WaitingArea.CompleteRelease | Assets/Scripts/WaitingArea.cs:114-119 | One seat is taken on the bus active at that moment, if there is one, with that seat's possible advance. Input then reopens. |
| Board.WaitingArea.CompleteReleases | Assets/Scripts/WaitingArea.cs:104-121 | The released characters board in turn along the active bus followed by the queue: their buses are exactly `Ride` of that line and of the seats taken at the start, and the line left is the rest of that ride. Each bus gains exactly as many seats as characters boarded it, and the first boards the bus active at the start. The all-buses-full signal fires exactly when the buses ran out. |
| Board.Character.Initialize | Assets/Scripts/Character.cs:22-28 | The character stands on its node with the given colour, at rest. |
| Board.Character.OnMouseDown | Assets/Scripts/Character.cs:36-54 | A tap is ignored exactly when input is blocked, the character is moving, the colour does not spawn, or no bus is active. Then nothing else changes, including the seats of the active bus. Off row 0 with no route, input reopens and nothing else changes. Otherwise the arrival effect applies with the bus captured at tap time, and a character that boards or is discarded no longer holds any slot. |
| Board.Character.StartMovement | Assets/Scripts/Character.cs:56-80 | Without a route, input reopens and nothing else changes. Otherwise the walk frees the node and the row-0 handling follows: boarding or discarding empties every slot the character held, and parking stores it in the lowest free slot. The character ends at rest with input open. |
| Board.Character.HandleYZeroPosition | Assets/Scripts/Character.cs:82-94 | It boards exactly when the colours match. Otherwise it parks in the lowest free slot, or is removed when no slot is free. Boarding and removal both empty every slot the character still held. |
| Board.Character.MoveToWaitingArea | Assets/Scripts/Character.cs:96-117 | The lowest free slot takes the character, and the node is freed. With no slot the full signal fires and the character is removed: the node stays as it was, and every slot that held the character reads as empty. |
| Board.Character.DestroyCharacter | Assets/Scripts/Character.cs:168-173 | The node is freed, the captured bus takes exactly one seat with that seat's possible advance, and every slot that held the character reads as empty. |
| Board.Character.FindPathToNearestYZero | Assets/Scripts/Character.cs:119-156 | At row 0 the path is empty. Otherwise the result is none exactly when row 0 is unreachable through free cells. A returned path leaves out the start, is a shortest route through existing unoccupied nodes, stops at the first row-0 cell and repeats no cell. |
| Board.Character.ExpandHead | Assets/Scripts/Character.cs:132-153 | One round of the loop either returns a nearest route or restores the invariant. It visits more cells or shortens the queue. |
| Board.Character.TryDirections | Assets/Scripts/Character.cs:135-153 | Trying the four directions either returns a nearest route or leaves the dequeued end closed, with the invariant kept. |
| LegacyGrid.GridCell.constructor | Assets/Scripts/GridCell.cs:5-8 | A fresh cell is unoccupied and holds no character. |
| LegacyGrid.GridCell.Initialize | Assets/Scripts/GridCell.cs:10-15 | The cell records its position and colour, and its occupancy is untouched. |
| LegacyGrid.GridCell.SetOccupied | Assets/Scripts/GridCell.cs:17-21 | `IsOccupied == o`. An occupied cell returns the character passed in, and an unoccupied one returns null. Position and colour are unchanged. |
| LegacyGrid.GridCell.GetCharacter | Assets/Scripts/GridCell.cs:23 | An unoccupied valid cell yields null. |
| LegacyGrid.GridCell.IsEmpty | Assets/Scripts/GridCell.cs:26 | Always equals `!IsOccupied`. |
| LegacyGrid.GridManager.GenerateGrid | Assets/Scripts/GridManager.cs:35-55 | The grid is `rows` by `columns`. The new cell created at (row, col) is stored at `grid[row, col]` with that position, its colour, and no occupant. |
| LegacyGrid.GridManager.CanMoveToBus | Assets/Scripts/GridManager.cs:119-130 | The result is true exactly when every `grid[pos.x, z]` with `pos.y < z < columns` is unoccupied. It is always true in the last column, and it modifies nothing. |
| LegacyGrid.GridManager.IsWaitingAreaFull | Assets/Scripts/GridManager.cs:132-135 | True exactly when four or more characters wait. |
| LegacyGrid.GridManager.AddCharacterToWaitingArea | Assets/Scripts/GridManager.cs:137-141 | Appended unless already present, so no duplicate is ever created. The limit of four is not enforced. |
| LegacyGrid.GridManager.RemoveCharacterFromWaitingArea | Assets/Scripts/GridManager.cs:143-147 | The first occurrence is removed when present, and otherwise nothing changes. |
| GameFlow.Timer.StopTimer | Assets/Scripts/Time/TimeManager.cs:90-93 | The timer stops running. |
| GameFlow.Timer.OnGameStateChanged | Assets/Scripts/Time/TimeManager.cs:72-88 | The running flag follows `TimerAfter`. |
| GameFlow.TimerAfter | Assets/Scripts/Time/TimeManager.cs:72-88 | `Playing` starts the timer, `Finished` and `GameOver` stop it, and `Start` leaves it as it was. |
| GameFlow.TimerAfterIdempotent | Assets/Scripts/Time/TimeManager.cs:72-88 | Hearing the same state twice is hearing it once. |
| GameFlow.Deliveries | Assets/Scripts/GameManager.cs:77-83 | Each observer is told once, with the given state, in list order. |
| GameFlow.GameManager.constructor | Assets/Scripts/GameManager.cs:9-10 | The initial state is `Start`, with no observers. |
| GameFlow.GameManager.RegisterObserver | Assets/Scripts/GameManager.cs:31-37 | An observer is added at the end unless already registered, so the list stays duplicate-free. |
| GameFlow.GameManager.UnregisterObserver | Assets/Scripts/GameManager.cs:39-45 | A present observer is removed and no copy remains. Otherwise nothing changes. |
| GameFlow.GameManager.OnEnable | Assets/Scripts/GameManager.cs:13-16 | The level progress is registered. |
| GameFlow.GameManager.OnDisable | Assets/Scripts/GameManager.cs:18-21 | The level progress is unregistered. |
| GameFlow.GameManager.ChangeState | Assets/Scripts/GameManager.cs:62-76 | The state becomes the new state without a guard. Every observer is then told once, in list order. The level progress completes its level on `Finished`, saving the unlocked level exactly when the current level reached it, the timer follows `TimerAfter`, and nothing else changes. |
| GameFlow.GameManager.NotifyObservers | Assets/Scripts/GameManager.cs:77-83 | Each registered observer hears the current state exactly once, in list order, with the effects above, including the saved unlocked level on `Finished`. |
| GameFlow.GameManager.OnAllBusesFull | Assets/Scripts/GameManager.cs:47-50 | The state becomes `Finished`, and the level progress completes the current level, saving the unlocked level when the current level reached it. Without a registered progress observer, nothing is unlocked or saved. |
| GameFlow.GameManager.OnWaitingAreaFull | Assets/Scripts/GameManager.cs:52-56 | The timer stops, then the state becomes `GameOver`. Progress and the saved level are unchanged. |
| GameFlow.GameManager.OnTimeOver | Assets/Scripts/GameManager.cs:57-60 | The state becomes `GameOver`, even after `Finished`. Progress and the saved level are unchanged. |
| GameFlow.GameManager.Start | Assets/Scripts/GameManager.cs:23-29 | The `Start` state is announced, no observer's state changes, and the saved level stays as it was. |

## Left out

- Animation and tweening (DOTween sequences, `DOMove`, easing, durations) is left out. Each completion callback runs as a synchronous step, so the model has no interleaving of taps with walks in progress.
- World positions and float geometry are left out: `GetWorldPosition`, slot positions, `GetSlotPosition`, `GetBusEntryPosition`, `GetBusPositionForColor` and the character animator.
- The Unity object lifecycle is left out: `Instantiate`, `SetParent`, renderers, materials and colliders. `Destroy` means the object leaves the model and every slot that refers to it reads as empty. `Character.OnDestroy` (killing a running tween) is not modelled.
- Random colours in `GenerateGrid` and `CreateBuses` are left out. Colours and seat counts are parameters.
- `TimeManager` is modelled only as its running flag and its reaction to state changes. Its float countdown and display are left out, and time-over is an external signal into `OnTimeOver`.
- `PlayerPrefs` is left out. The saved value is the field `savedMaxUnlockedLevel`.
- User-interface observers (`GameUIManager`, `UIManager`, `LevelUIManager`) are registered identities, and their reactions are not modelled.
- `ColorData` holds Unity colours only. `ShouldSpawnCharacter` is a parameter of `OnMouseDown`.
- `GridManager.SpawnBuses`, `CreateCharacterOnCell`, `GameOver` and `WinGame` are left out. They are Unity spawning and logging, and `CreateCharacterOnCell` calls a `Character.Initialize(cell)` overload that does not exist.
- The wiring of the C# events to the game manager's handlers is left out: the signals are results, and the handlers are methods.
- `LevelLoadManager`, `LevelEditorWindow` and scene loading are left out. Only the editor's `y * width + x` encoding is used, in the round-trip lemmas.
- Buses.Bus.OccupySeat: the seat counter is an unbounded integer. C#'s 32-bit wrap after 2^31 seats is not modelled, because no level comes near it.
- Board.Character.FindPathToNearestYZero: the contract states a shortest route but does not say which one is returned when several have the same length. The fixed order up, down, left, right settles this in the code.
- Board.WaitingArea.InitializeWaitingArea: the size is a natural number. C# throws on a negative array size, so such a call never completes.
- LegacyGrid.GridManager.CanMoveToBus: the grid must have been generated, and the row must exist whenever there is a cell to check. In C#, the null grid and out-of-range indices throw.
- LegacyGrid.GridManager.GenerateGrid: the character that the source creates on each cell is not modelled. The method also requires `rows >= 0 && columns >= 0`, because `new GridCell[rows, columns]` throws on a negative size, so such a call never completes.
