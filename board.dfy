/**
 * The playing board: grid nodes (Assets/Scripts/GridNode.cs), the node lookup the
 * characters search through, the waiting area (Assets/Scripts/WaitingArea.cs) and the
 * characters themselves (Assets/Scripts/Character.cs). They refer to one another, so they
 * share one module. Tween completions run synchronously, right where the tween starts,
 * except in `CheckForMatchingCharacters`, whose completions all run after its scan.
 */
module Board {
  import opened Wrappers
  import opened Routes
  import opened Input
  import opened Buses

  // ---------------------------------------------------------------- grid nodes

  class GridNode {
    const Position: Pos
    var IsOccupied: bool
    var Occupant: Character?

    /** A node as Unity creates the component: unoccupied, with no occupant. */
    constructor(position: Pos)
      ensures Position == position && !IsOccupied && Occupant == null
    {
      Position := position;
      IsOccupied := false;
      Occupant := null;
    }

    /**
     * `SetOccupied`: both fields take the given values, whatever they are; in particular
     * `SetOccupied(false, c)` keeps `c` as occupant. Repeating a call changes nothing more.
     */
    method SetOccupied(occupied: bool, character: Character?)
      modifies this`IsOccupied, this`Occupant
      ensures IsOccupied == occupied && Occupant == character
    {
      IsOccupied := occupied;
      Occupant := character;
    }
  }

  /** The positions of a list of nodes. */
  function Positions(nodes: seq<GridNode>): (ps: seq<Pos>)
    ensures |ps| == |nodes| && forall i :: 0 <= i < |nodes| ==> ps[i] == nodes[i].Position
  {
    seq(|nodes|, i requires 0 <= i < |nodes| => nodes[i].Position)
  }

  /**
   * The grid of nodes the search walks over (`GridManager.Instance.GetNode`):
   * `cells[x][y]` is the node at `Pos(x, y)`, or null where the level has none.
   */
  class NodeGrid {
    const width: nat
    const height: nat
    const cells: seq<seq<GridNode?>>
    ghost const Repr: set<GridNode>

    ghost predicate Valid() {
      && |cells| == width
      && (forall x :: 0 <= x < width ==> |cells[x]| == height)
      && (forall x, y :: 0 <= x < width && 0 <= y < height && cells[x][y] != null ==>
            cells[x][y].Position == Pos(x, y) && cells[x][y] in Repr)
    }

    constructor(width: nat, height: nat, cells: seq<seq<GridNode?>>)
      requires |cells| == width && forall x :: 0 <= x < width ==> |cells[x]| == height
      requires forall x, y :: 0 <= x < width && 0 <= y < height && cells[x][y] != null ==>
        cells[x][y].Position == Pos(x, y)
      ensures Valid() && this.width == width && this.height == height && this.cells == cells
    {
      this.width := width;
      this.height := height;
      this.cells := cells;
      Repr := set x, y | 0 <= x < width && 0 <= y < height && cells[x][y] != null :: cells[x][y];
    }

    /** `GetNode`: the node at `p`, or null when `p` is off the grid or has no node. */
    function GetNode(p: Pos): (n: GridNode?)
      requires Valid()
      ensures n != null ==> n.Position == p && n in Repr && 0 <= p.x < width && 0 <= p.y < height
      ensures 0 <= p.x < width && 0 <= p.y < height ==> n == cells[p.x][p.y]
    {
      if 0 <= p.x < width && 0 <= p.y < height then cells[p.x][p.y] else null
    }

    /** The positions of existing, unoccupied nodes: the cells a character may walk through. */
    ghost function FreeCells(): (r: set<Pos>)
      requires Valid()
      reads Repr
      ensures forall p :: p in r <==> GetNode(p) != null && !GetNode(p).IsOccupied
    {
      set x, y | 0 <= x < width && 0 <= y < height && cells[x][y] != null && !cells[x][y].IsOccupied :: Pos(x, y)
    }

    /** The nodes at the given positions. */
    function NodesAlong(ps: seq<Pos>): (r: seq<GridNode>)
      requires Valid()
      requires forall i :: 0 <= i < |ps| ==> GetNode(ps[i]) != null
      ensures Positions(r) == ps
      ensures forall i :: 0 <= i < |ps| ==> r[i] == GetNode(ps[i])
    {
      if ps == [] then [] else NodesAlong(ps[..|ps| - 1]) + [GetNode(ps[|ps| - 1])]
    }
  }

  /** A route through free cells, read back as the nodes along it. */
  lemma RouteAlongNodes(grid: NodeGrid, s: Pos, ps: seq<Pos>)
    requires grid.Valid()
    requires NearestRoute(grid.FreeCells(), s, ps)
    requires forall i :: 0 <= i < |ps| ==> ps[i] in grid.FreeCells()
    ensures forall i :: 0 <= i < |ps| ==> grid.GetNode(ps[i]) != null
    ensures NearestRoute(grid.FreeCells(), s, Positions(grid.NodesAlong(ps)))
    ensures forall i :: 0 <= i < |ps| ==>
      var n := grid.NodesAlong(ps)[i]; n == grid.GetNode(n.Position) && !n.IsOccupied
  {
  }

  // ---------------------------------------------------------------- waiting-area slots

  /** `n` empty slots. */
  function EmptySlots(n: nat): (r: seq<Character?>)
    ensures |r| == n && forall i :: 0 <= i < n ==> r[i] == null
  {
    seq(n, _ => null)
  }

  /** The lowest index of an empty slot, or `None` when every slot is taken. */
  function LowestFree(slots: seq<Character?>): (r: Option<nat>)
    ensures r.Some? ==> r.value < |slots| && slots[r.value] == null
    ensures r.Some? ==> forall j :: 0 <= j < r.value ==> slots[j] != null
    ensures r.None? <==> forall j :: 0 <= j < |slots| ==> slots[j] != null
  {
    if slots == [] then None
    else if slots[0] == null then Some(0)
    else match LowestFree(slots[1..]) {
      case None => None
      case Some(i) => Some(i + 1)
    }
  }

  /** A bounds-checked store: slot `i` takes `c` when `0 <= i < |slots|`; nothing else changes. */
  function Store(slots: seq<Character?>, i: int, c: Character?): (r: seq<Character?>)
    ensures |r| == |slots|
    ensures 0 <= i < |slots| ==> r[i] == c
    ensures forall j :: 0 <= j < |slots| && j != i ==> r[j] == slots[j]
  {
    if 0 <= i < |slots| then slots[i := c] else slots
  }

  /** A character arriving at the waiting area takes the lowest free slot, if there is one. */
  function Admit(slots: seq<Character?>, c: Character): seq<Character?> {
    match LowestFree(slots) {
      case None => slots
      case Some(i) => Store(slots, i, c)
    }
  }

  /** The slots after the characters `cs` arrive one after another. */
  function AdmitAll(slots: seq<Character?>, cs: seq<Character>): seq<Character?>
    decreases |cs|
  {
    if cs == [] then slots else AdmitAll(Admit(slots, cs[0]), cs[1..])
  }

  /** Full slots followed by empty ones: the lowest free slot is the first empty one. */
  lemma LowestFreeAfterFull(full: seq<Character>, n: nat)
    requires n > 0
    ensures LowestFree(full + EmptySlots(n)) == Some(|full|)
  {
    var slots: seq<Character?> := full + EmptySlots(n);
    assert slots[|full|] == null;
  }

  /** One arrival takes the first empty slot. */
  lemma AdmitIntoFirstEmpty(full: seq<Character>, n: nat, c: Character)
    requires n > 0
    ensures Admit(full + EmptySlots(n), c) == (full + [c]) + EmptySlots(n - 1)
  {
    LowestFreeAfterFull(full, n);
    var slots: seq<Character?> := full + EmptySlots(n);
    var r := Admit(slots, c);
    assert r == slots[|full| := c];
    assert r == (full + [c]) + EmptySlots(n - 1);
  }

  /**
   * Arrivals fill the slots in order: after `k <= n` arrivals into `n` empty slots the
   * first `k` slots hold the arrivals in order and the rest are empty.
   */
  lemma {:induction false} AdmitFillsInOrder(full: seq<Character>, n: nat, cs: seq<Character>)
    requires |cs| <= n
    ensures AdmitAll(full + EmptySlots(n), cs) == (full + cs) + EmptySlots(n - |cs|)
    decreases |cs|
  {
    if cs != [] {
      calc {
        AdmitAll(full + EmptySlots(n), cs);
        AdmitAll(Admit(full + EmptySlots(n), cs[0]), cs[1..]);
        { AdmitIntoFirstEmpty(full, n, cs[0]); }
        AdmitAll((full + [cs[0]]) + EmptySlots(n - 1), cs[1..]);
        { AdmitFillsInOrder(full + [cs[0]], n - 1, cs[1..]); }
        ((full + [cs[0]]) + cs[1..]) + EmptySlots(n - |cs|);
        { assert (full + [cs[0]]) + cs[1..] == full + cs; }
        (full + cs) + EmptySlots(n - |cs|);
      }
    }
  }

  /** Once the slots are full, a further arrival finds no slot and changes nothing. */
  lemma FullAreaAdmitsNothing(full: seq<Character>, c: Character)
    ensures LowestFree(full) == None
    ensures Admit(full, c) == full
  {
  }

  /**
   * The slots as the game reads them once `c` is destroyed: Unity's `==` reports a
   * destroyed object as null, so every slot that still refers to `c` counts as empty.
   */
  function Forget(slots: seq<Character?>, c: Character): (r: seq<Character?>)
    ensures |r| == |slots| && c !in r
    ensures forall i :: 0 <= i < |slots| && slots[i] == c ==> r[i] == null
    ensures forall i :: 0 <= i < |slots| && slots[i] != c ==> r[i] == slots[i]
  {
    seq(|slots|, i requires 0 <= i < |slots| => if slots[i] == c then null else slots[i])
  }

  /** Destroying a character that holds no slot leaves the slots as they are. */
  lemma ForgetAbsent(slots: seq<Character?>, c: Character)
    requires c !in slots
    ensures Forget(slots, c) == slots
  {
  }

  /** Destroying a character empties exactly the slots it held. */
  lemma {:induction false} ForgetEmptiesItsSlots(slots: seq<Character?>, c: Character)
    ensures Occupied(Forget(slots, c)) + multiset(slots)[c] == Occupied(slots)
  {
    if slots != [] {
      var init := slots[..|slots| - 1];
      ForgetEmptiesItsSlots(init, c);
      assert Forget(slots, c)[..|slots| - 1] == Forget(init, c);
      assert slots == init + [slots[|slots| - 1]];
    }
  }

  /** A full waiting area that held a destroyed character has a free slot again. */
  lemma ForgetFreesSlot(slots: seq<Character?>, c: Character)
    requires c in slots
    ensures LowestFree(Forget(slots, c)).Some?
  {
    var i :| 0 <= i < |slots| && slots[i] == c;
    assert Forget(slots, c)[i] == null;
  }

  /** The slots after `CheckForMatchingCharacters(color)`: every occupant of that colour is gone. */
  function Release(slots: seq<Character?>, color: string): (r: seq<Character?>)
    ensures |r| == |slots|
    ensures forall i :: 0 <= i < |slots| ==>
      r[i] == (if slots[i] != null && slots[i].CharacterColor == color then null else slots[i])
  {
    seq(|slots|, i requires 0 <= i < |slots| =>
      if slots[i] != null && slots[i].CharacterColor == color then null else slots[i])
  }

  /** The occupants of that colour, in ascending slot order. */
  function Matching(slots: seq<Character?>, color: string): seq<Character>
  {
    if slots == [] then []
    else
      var last := slots[|slots| - 1];
      Matching(slots[..|slots| - 1], color) + (if last != null && last.CharacterColor == color then [last] else [])
  }

  /** Scanning one more slot appends its occupant when it has the colour. */
  lemma MatchingStep(slots: seq<Character?>, i: nat, color: string)
    requires i < |slots|
    ensures Matching(slots[..i + 1], color) ==
      Matching(slots[..i], color) + (if slots[i] != null && slots[i].CharacterColor == color then [slots[i]] else [])
  {
    assert slots[..i + 1][..i] == slots[..i];
  }

  /** The number of taken slots. */
  function Occupied(slots: seq<Character?>): nat
  {
    if slots == [] then 0
    else Occupied(slots[..|slots| - 1]) + (if slots[|slots| - 1] != null then 1 else 0)
  }

  /** Releasing twice is releasing once, and afterwards no occupant has the colour. */
  lemma ReleaseIdempotent(slots: seq<Character?>, color: string)
    ensures Release(Release(slots, color), color) == Release(slots, color)
    ensures forall i :: 0 <= i < |slots| && Release(slots, color)[i] != null ==>
      Release(slots, color)[i].CharacterColor != color
  {
  }

  /** Every taken slot is either released (as one of `Matching`) or still taken. */
  lemma {:induction false} ReleaseAccountsForAll(slots: seq<Character?>, color: string)
    ensures Occupied(Release(slots, color)) + |Matching(slots, color)| == Occupied(slots)
  {
    if slots != [] {
      var init := slots[..|slots| - 1];
      ReleaseAccountsForAll(init, color);
      assert Release(slots, color)[..|slots| - 1] == Release(init, color);
    }
  }

  /** Each released character was in a slot and has the colour. */
  lemma {:induction false} MatchingHaveTheColour(slots: seq<Character?>, color: string)
    ensures forall c :: c in Matching(slots, color) ==> c.CharacterColor == color && c in slots
  {
    if slots != [] {
      MatchingHaveTheColour(slots[..|slots| - 1], color);
    }
  }
  /**
   * Destroying a released character at the end of its walk changes no slot: the scan
   * has already emptied every slot that held it.
   */
  lemma ReleasedLeaveNoSlot(slots: seq<Character?>, color: string, c: Character)
    requires c in Matching(slots, color)
    ensures Forget(Release(slots, color), c) == Release(slots, color)
  {
    MatchingHaveTheColour(slots, color);
    ReleaseIdempotent(slots, color);
    ForgetAbsent(Release(slots, color), c);
  }


  /** The waiting area: `slotCount` slots, each empty or holding a character. */
  class WaitingArea {
    var slotCount: int
    var waitingCharacters: array<Character?>

    ghost predicate Valid()
      reads this
    {
      slotCount == waitingCharacters.Length
    }

    /** `InitializeWaitingArea(size)`: `size` empty slots. */
    constructor InitializeWaitingArea(size: nat)
      ensures Valid() && slotCount == size && fresh(waitingCharacters)
      ensures waitingCharacters[..] == EmptySlots(size)
    {
      slotCount := size;
      waitingCharacters := new Character?[size](_ => null);
    }

    /**
     * `GetAvailableSlot`: the lowest empty slot; when there is none, the waiting-area-full
     * signal fires (`waitingAreaFull`). No slot changes.
     */
    method GetAvailableSlot() returns (slot: Option<nat>, waitingAreaFull: bool)
      requires Valid()
      ensures slot == LowestFree(waitingCharacters[..])
      ensures waitingAreaFull <==> slot.None?
    {
      var i := 0;
      while i < waitingCharacters.Length
        invariant 0 <= i <= waitingCharacters.Length
        invariant forall j :: 0 <= j < i ==> waitingCharacters[j] != null
      {
        if waitingCharacters[i] == null {
          return Some(i), false;
        }
        i := i + 1;
      }
      return None, true;
    }

    /** `OccupySlot(i, c)`: stores `c` at `i` when `0 <= i < slotCount`; nothing else changes. */
    method OccupySlot(slotIndex: int, character: Character)
      requires Valid()
      modifies waitingCharacters
      ensures waitingCharacters[..] == Store(old(waitingCharacters[..]), slotIndex, character)
    {
      if 0 <= slotIndex < slotCount {
        waitingCharacters[slotIndex] := character;
      }
    }

    /** `FreeSlot(i)`: empties slot `i` when `0 <= i < slotCount`; nothing else changes. */
    method FreeSlot(slotIndex: int)
      requires Valid()
      modifies waitingCharacters
      ensures waitingCharacters[..] == Store(old(waitingCharacters[..]), slotIndex, null)
    {
      if 0 <= slotIndex < slotCount {
        waitingCharacters[slotIndex] := null;
      }
    }

    /**
     * The effect of `Destroy(c)` on the slots: each slot that still refers to `c` reads as
     * empty from then on.
     */
    method ForgetDestroyed(c: Character)
      requires Valid()
      modifies waitingCharacters
      ensures waitingCharacters[..] == Forget(old(waitingCharacters[..]), c)
    {
      var i := 0;
      while i < waitingCharacters.Length
        invariant 0 <= i <= waitingCharacters.Length
        invariant forall j :: 0 <= j < i ==>
          waitingCharacters[j] == if old(waitingCharacters[j]) == c then null else old(waitingCharacters[j])
        invariant forall j :: i <= j < waitingCharacters.Length ==> waitingCharacters[j] == old(waitingCharacters[j])
      {
        if waitingCharacters[i] == c {
          waitingCharacters[i] := null;
        }
        i := i + 1;
      }
    }

    /**
     * `CheckForMatchingCharacters(busColor)`: the scan frees, in ascending order, every
     * slot whose occupant has the bus colour, blocking input once per match, and does not
     * stop early. `released` lists the freed occupants in that order; each one's walk to
     * the bus ends in `CompleteRelease`.
     */
    method CheckForMatchingCharacters(busColor: string, input: InputManager) returns (released: seq<Character>)
      requires Valid()
      modifies waitingCharacters, input
      ensures waitingCharacters[..] == Release(old(waitingCharacters[..]), busColor)
      ensures released == Matching(old(waitingCharacters[..]), busColor)
      ensures input.inputBlocked == (|released| > 0 || old(input.inputBlocked))
    {
      ghost var before := waitingCharacters[..];
      var i := 0;
      released := [];
      while i < slotCount
        invariant 0 <= i <= slotCount
        invariant forall j :: 0 <= j < i ==> waitingCharacters[j] == Release(before, busColor)[j]
        invariant forall j :: i <= j < slotCount ==> waitingCharacters[j] == before[j]
        invariant released == Matching(before[..i], busColor)
        invariant input.inputBlocked == (|released| > 0 || old(input.inputBlocked))
      {
        MatchingStep(before, i, busColor);
        var occupant := waitingCharacters[i];
        if occupant != null && occupant.CharacterColor == busColor {
          input.BlockInput(true);
          FreeSlot(i);
          released := released + [occupant];
        }
        i := i + 1;
      }
      assert before[..i] == before;
    }

    /**
     * The completion of one released character's walk: a seat is taken on the bus active
     * at that moment (`seated`), if any, and input reopens. The waiting area is untouched.
     */
    static method CompleteRelease(input: InputManager, buses: BusManager) returns (seated: Bus?, allBusesFull: bool)
      requires buses.Valid()
      modifies input, buses`busQueue, buses`activeBus, buses`activated, buses`retired, buses.activeBus
      ensures buses.Valid() && buses.created == old(buses.created)
      ensures seated == old(buses.activeBus) && !input.inputBlocked
      ensures seated == null ==> unchanged(buses) && !allBusesFull
      ensures seated != null ==>
        && seated.occupiedSeats == old(seated.occupiedSeats) + 1
        && (seated.occupiedSeats >= seated.SeatCount ==>
              buses.Advanced(old(buses.busQueue), seated, old(buses.activated), old(buses.retired), allBusesFull))
        && (seated.occupiedSeats < seated.SeatCount ==> unchanged(buses) && !allBusesFull)
    {
      seated := buses.GetActiveBus();
      allBusesFull := false;
      if seated != null {
        var _, full := seated.OccupySeat(buses);
        allBusesFull := full;
      }
      input.BlockInput(false);
    }

    /**
     * After `k` completions of the ride from `line0`, whose buses had `seats0` taken:
     * `seatedOn` are its boardings, the buses left to board are its line, and each bus of
     * `created0` has gained exactly the seats boarded on it.
     */
    static ghost predicate RideSoFar(buses: BusManager, created0: seq<Bus>, line0: seq<Bus>,
                              seats0: map<Bus, int>, k: nat, seatedOn: seq<Bus?>)
      reads buses, set b | b in created0
    {
      && buses.Valid() && buses.created == created0
      && seatedOn == Ride(line0, seats0, k).boarded
      && Line(buses.activeBus, buses.busQueue) == Ride(line0, seats0, k).line
      && (forall b :: b in created0 ==> b.occupiedSeats == Taken(Ride(line0, seats0, k).taken, b))
    }

    /** One `CompleteRelease` as the next step of the ride from `line0`. */
    static method BoardNext(input: InputManager, buses: BusManager, ghost created0: seq<Bus>, ghost line0: seq<Bus>,
                            ghost seats0: map<Bus, int>, ghost k: nat, ghost seatedOn: seq<Bus?>)
      returns (seated: Bus?, allBusesFull: bool)
      requires RideSoFar(buses, created0, line0, seats0, k, seatedOn)
      modifies input, buses`busQueue, buses`activeBus, buses`activated, buses`retired, buses.activeBus
      ensures RideSoFar(buses, created0, line0, seats0, k + 1, seatedOn + [seated])
      ensures seated == old(buses.activeBus) && !input.inputBlocked
      ensures seated == null ==> buses.activeBus == null
      ensures allBusesFull <==> seated != null && buses.activeBus == null
    {
      seated, allBusesFull := CompleteRelease(input, buses);
      if seated != null {
        assert seated in old(buses.activated);
        if old(buses.busQueue) != [] && seated.occupiedSeats >= seated.SeatCount {
          LineOfQueue(old(buses.busQueue));
        }
      }
    }

    /** The completions from the `k`-th to the last of `total`, along the same ride. */
    static method BoardRest(total: nat, input: InputManager, buses: BusManager, ghost created0: seq<Bus>,
                            ghost line0: seq<Bus>, ghost seats0: map<Bus, int>, k: nat, ghost seatedOn: seq<Bus?>)
      returns (ghost ride: seq<Bus?>, allBusesFull: bool)
      requires k <= total && RideSoFar(buses, created0, line0, seats0, k, seatedOn)
      modifies input, buses`busQueue, buses`activeBus, buses`activated, buses`retired
      modifies set b | b in created0
      ensures RideSoFar(buses, created0, line0, seats0, total, ride)
      ensures input.inputBlocked == (if k < total then false else old(input.inputBlocked))
      ensures old(buses.activeBus) == null ==> buses.activeBus == null
      ensures allBusesFull <==> old(buses.activeBus) != null && buses.activeBus == null
      decreases total - k
    {
      if k == total {
        ride, allBusesFull := seatedOn, false;
      } else {
        assert buses.activeBus != null ==> buses.activeBus in buses.activated;
        var bus, full := BoardNext(input, buses, created0, line0, seats0, k, seatedOn);
        var later;
        ride, later := BoardRest(total, input, buses, created0, line0, seats0, k + 1, seatedOn + [bus]);
        allBusesFull := full || later;
      }
    }

    /**
     * The completions of `count` released characters, in release order: `seatedOn` walks
     * the active bus and then the queue, each bus keeping its boarders until its seats reach
     * capacity (`Ride`); each bus gains exactly the seats of the characters that boarded it,
     * and `allBusesFull` fires when the buses ran out.
     */
    static method CompleteReleases(count: nat, input: InputManager, buses: BusManager)
      returns (ghost seatedOn: seq<Bus?>, allBusesFull: bool)
      requires buses.Valid()
      modifies input, buses`busQueue, buses`activeBus, buses`activated, buses`retired
      modifies set b | b in buses.created
      ensures buses.Valid() && buses.created == old(buses.created)
      ensures input.inputBlocked == (if count > 0 then false else old(input.inputBlocked))
      ensures |seatedOn| == count
      ensures count > 0 ==> seatedOn[0] == old(buses.activeBus)
      ensures forall k :: 0 <= k < count && seatedOn[k] != null ==> seatedOn[k] in old(buses.created)
      ensures forall k :: 0 <= k < count && seatedOn[k] == null ==> buses.activeBus == null
      ensures forall b :: b in old(buses.created) ==> b.occupiedSeats == old(b.occupiedSeats) + multiset(seatedOn)[b]
      ensures allBusesFull <==> old(buses.activeBus) != null && buses.activeBus == null
      ensures var ride := Ride(old(Line(buses.activeBus, buses.busQueue)), old(Seats(buses.created)), count);
        seatedOn == ride.boarded && Line(buses.activeBus, buses.busQueue) == ride.line
    {
      ghost var line0 := Line(buses.activeBus, buses.busQueue);
      ghost var seats0 := Seats(buses.created);
      assert forall b :: b in buses.created ==> Taken(seats0, b) == b.occupiedSeats;
      assert forall b :: b in line0 ==> b in buses.created by {
        if buses.activeBus != null {
          assert buses.activeBus in buses.activated;
        }
      }
      ghost var created0 := buses.created;
      seatedOn, allBusesFull := BoardRest(count, input, buses, created0, line0, seats0, 0, []);
      RideBoardsFromLine(line0, seats0, count);
      if count > 0 {
        RideStartsAtActiveBus(line0, seats0, count);
      }
      forall b | b in old(buses.created)
        ensures b.occupiedSeats == old(b.occupiedSeats) + multiset(seatedOn)[b]
      {
        RideCountsSeats(line0, seats0, count, b);
      }
    }
  }

  // ---------------------------------------------------------------- characters

  /** What one tap on a character comes to. */
  datatype TapOutcome =
    | Ignored          // input blocked, already moving, colour not spawnable, or no active bus
    | NoPath           // off row 0 and no free route to row 0
    | Boarded          // colour matches the bus captured at tap time
    | Waiting(slot: nat)  // colour differs; parked in the lowest free slot
    | Discarded        // colour differs and no slot is free

  class Character {
    const currentNode: GridNode
    const CharacterColor: string
    var isMoving: bool
    var bus: Bus?

    /** `Initialize(node, ...)`: the character stands on `node` and has the given colour. */
    constructor Initialize(node: GridNode, color: string)
      ensures currentNode == node && CharacterColor == color && !isMoving && bus == null
    {
      currentNode := node;
      CharacterColor := color;
      isMoving := false;
      bus := null;
    }

    /**
     * `OnMouseDown`: a tap. It is ignored while input is blocked, while the character
     * moves, when its colour is not one that spawns, or when no bus is active (that last
     * check has already stored the missing bus in `bus`). Otherwise input is blocked, the
     * active bus is captured in `bus`, and the character either handles row 0 where it
     * stands or walks there along the search's route; a character off row 0 with no route
     * stays put. Every accepted tap ends with input open again and the character at rest.
     * `shouldSpawn` stands for `ColorData.ShouldSpawnCharacter`.
     */
    method OnMouseDown(grid: NodeGrid, area: WaitingArea, input: InputManager, buses: BusManager,
                       shouldSpawn: string -> bool)
      returns (outcome: TapOutcome, allBusesFull: bool, waitingAreaFull: bool)
      requires grid.Valid() && area.Valid() && buses.Valid()
      modifies this`isMoving, this`bus, input, currentNode`IsOccupied, currentNode`Occupant, area.waitingCharacters
      modifies buses`busQueue, buses`activeBus, buses`activated, buses`retired, buses.activeBus
      ensures buses.Valid()
      ensures outcome.Ignored? <==>
        old(input.inputBlocked) || old(isMoving) || !shouldSpawn(CharacterColor) || old(buses.activeBus) == null
      ensures outcome.Ignored? ==>
        && input.inputBlocked == old(input.inputBlocked) && isMoving == old(isMoving)
        && bus == (if old(input.inputBlocked) || old(isMoving) || !shouldSpawn(CharacterColor) then old(bus) else null)
        && Unmoved(area) && unchanged(buses) && !allBusesFull && !waitingAreaFull
        && (old(buses.activeBus) != null ==> unchanged(old(buses.activeBus)))
      ensures !outcome.Ignored? ==> bus == old(buses.activeBus) && !input.inputBlocked && !isMoving
      ensures outcome.NoPath? <==>
        && !outcome.Ignored? && currentNode.Position.y != 0
        && !RowZeroReachable(old(grid.FreeCells()), currentNode.Position)
      ensures outcome.NoPath? ==>
        && Unmoved(area) && unchanged(buses) && unchanged(old(buses.activeBus)) && !allBusesFull && !waitingAreaFull
      ensures !outcome.Ignored? && !outcome.NoPath? ==>
        Arrived(outcome, area, buses, old(buses.activeBus), currentNode.Position.y == 0, allBusesFull, waitingAreaFull)
    {
      if input.IsInputBlocked() || isMoving {
        return Ignored, false, false;
      }
      if !shouldSpawn(CharacterColor) {
        return Ignored, false, false;
      }
      bus := buses.GetActiveBus();
      if bus == null {
        return Ignored, false, false;
      }
      input.BlockInput(true);
      if currentNode.Position.y == 0 {
        outcome, allBusesFull, waitingAreaFull := HandleYZeroPosition(area, buses);
        input.BlockInput(false);
        return;
      }
      outcome, allBusesFull, waitingAreaFull := StartMovement(grid, area, input, buses);
    }

    /** Nothing of the board changed: the node keeps its occupancy and no slot changed. */
    twostate predicate Unmoved(area: WaitingArea)
      reads this, currentNode, area, area.waitingCharacters
    {
      && unchanged(currentNode)
      && area.waitingCharacters == old(area.waitingCharacters)
      && area.waitingCharacters[..] == old(area.waitingCharacters[..])
    }

    /**
     * The effect of reaching row 0 with the captured bus `b`: a matching colour frees the node and
     * takes one seat on `b`; otherwise the character parks in the lowest free slot and
     * frees its node, or, with every slot taken, the waiting-area-full signal fires, no slot
     * changes and the node is freed only when the character had walked (`standing` is false).
     */
    twostate predicate Arrived(outcome: TapOutcome, area: WaitingArea, buses: BusManager, b: Bus?, standing: bool,
                               allBusesFull: bool, waitingAreaFull: bool)
      reads this, currentNode, area, area.waitingCharacters, buses, b
    {
      && b != null
      && (outcome.Boarded? || outcome.Waiting? || outcome.Discarded?)
      && (outcome.Boarded? <==> b.BusColor == CharacterColor)
      && (waitingAreaFull <==> outcome.Discarded?)
      && area.waitingCharacters == old(area.waitingCharacters)
      && (outcome.Boarded? ==>
            && !currentNode.IsOccupied && currentNode.Occupant == null
            && area.waitingCharacters[..] == Forget(old(area.waitingCharacters[..]), this)
            && b.occupiedSeats == old(b.occupiedSeats) + 1
            && (b.occupiedSeats >= b.SeatCount ==>
                  buses.Advanced(old(buses.busQueue), old(buses.activeBus), old(buses.activated),
                                 old(buses.retired), allBusesFull))
            && (b.occupiedSeats < b.SeatCount ==> unchanged(buses) && !allBusesFull))
      && (!outcome.Boarded? ==> unchanged(buses) && unchanged(b) && !allBusesFull)
      && (outcome.Waiting? ==>
            && LowestFree(old(area.waitingCharacters[..])) == Some(outcome.slot)
            && area.waitingCharacters[..] == Store(old(area.waitingCharacters[..]), outcome.slot, this)
            && !currentNode.IsOccupied && currentNode.Occupant == null)
      && (outcome.Discarded? ==>
            && LowestFree(old(area.waitingCharacters[..])) == None
            && area.waitingCharacters[..] == Forget(old(area.waitingCharacters[..]), this)
            && (standing ==> unchanged(currentNode))
            && (!standing ==> !currentNode.IsOccupied && currentNode.Occupant == null))
    }

    /**
     * `StartMovement`: searches for a route to row 0. With none, input reopens and nothing
     * else changes. Otherwise the character walks it; the walk's completion frees the
     * starting node, handles row 0, puts the character at rest and reopens input.
     */
    method StartMovement(grid: NodeGrid, area: WaitingArea, input: InputManager, buses: BusManager)
      returns (outcome: TapOutcome, allBusesFull: bool, waitingAreaFull: bool)
      requires grid.Valid() && area.Valid() && buses.Valid()
      requires bus != null && currentNode.Position.y != 0
      modifies this`isMoving, input, currentNode`IsOccupied, currentNode`Occupant, area.waitingCharacters
      modifies buses`busQueue, buses`activeBus, buses`activated, buses`retired, bus
      ensures buses.Valid() && bus == old(bus) && !input.inputBlocked
      ensures outcome.NoPath? <==> !RowZeroReachable(old(grid.FreeCells()), currentNode.Position)
      ensures outcome.NoPath? ==>
        Unmoved(area) && unchanged(buses) && unchanged(bus) && isMoving == old(isMoving) && !allBusesFull && !waitingAreaFull
      ensures !outcome.NoPath? ==> !isMoving && Arrived(outcome, area, buses, bus, false, allBusesFull, waitingAreaFull)
    {
      var path := FindPathToNearestYZero(grid);
      if path.None? || |path.value| == 0 {
        input.BlockInput(false);
        return NoPath, false, false;
      }
      isMoving := true;
      // The walk's completion.
      currentNode.SetOccupied(false, null);
      outcome, allBusesFull, waitingAreaFull := HandleYZeroPosition(area, buses);
      isMoving := false;
      input.BlockInput(false);
    }

    /** `HandleYZeroPosition`: board the captured bus on a colour match, else go to the waiting area. */
    method HandleYZeroPosition(area: WaitingArea, buses: BusManager)
      returns (outcome: TapOutcome, allBusesFull: bool, waitingAreaFull: bool)
      requires area.Valid() && buses.Valid() && bus != null
      modifies this`isMoving, currentNode`IsOccupied, currentNode`Occupant, area.waitingCharacters
      modifies buses`busQueue, buses`activeBus, buses`activated, buses`retired, bus
      ensures buses.Valid() && bus == old(bus)
      ensures outcome.Boarded? ==> isMoving == old(isMoving)
      ensures !outcome.Boarded? ==> !isMoving
      ensures Arrived(outcome, area, buses, bus, true, allBusesFull, waitingAreaFull)
    {
      if bus.BusColor == CharacterColor {
        allBusesFull := DestroyCharacter(area, buses);
        return Boarded, allBusesFull, false;
      }
      var slot;
      slot, waitingAreaFull := MoveToWaitingArea(area);
      allBusesFull := false;
      outcome := if slot.Some? then Waiting(slot.value) else Discarded;
    }

    /**
     * `MoveToWaitingArea`: asks for the lowest free slot. With none, the waiting-area-full
     * signal has fired and the character is removed where it is. Otherwise it frees its node
     * and, once it arrives, occupies that slot.
     */
    method MoveToWaitingArea(area: WaitingArea) returns (slot: Option<nat>, waitingAreaFull: bool)
      requires area.Valid()
      modifies this`isMoving, currentNode`IsOccupied, currentNode`Occupant, area.waitingCharacters
      ensures slot == LowestFree(old(area.waitingCharacters[..])) && (waitingAreaFull <==> slot.None?)
      ensures !isMoving
      ensures slot.None? ==>
        unchanged(currentNode) && area.waitingCharacters[..] == Forget(old(area.waitingCharacters[..]), this)
      ensures slot.Some? ==>
        && !currentNode.IsOccupied && currentNode.Occupant == null
        && area.waitingCharacters[..] == Store(old(area.waitingCharacters[..]), slot.value, this)
    {
      slot, waitingAreaFull := area.GetAvailableSlot();
      if slot.None? {
        isMoving := false;
        area.ForgetDestroyed(this);
        return;
      }
      isMoving := true;
      currentNode.SetOccupied(false, null);
      // The walk's completion.
      area.OccupySlot(slot.value, this);
      isMoving := false;
    }

    /**
     * `DestroyCharacter`: frees the node and takes one seat on the captured bus, if any;
     * `allBusesFull` is the signal of the advance that seat may cause.
     */
    method DestroyCharacter(area: WaitingArea, buses: BusManager) returns (allBusesFull: bool)
      requires area.Valid() && buses.Valid()
      modifies currentNode`IsOccupied, currentNode`Occupant, area.waitingCharacters
      modifies buses`busQueue, buses`activeBus, buses`activated, buses`retired, bus
      ensures buses.Valid()
      ensures !currentNode.IsOccupied && currentNode.Occupant == null
      ensures area.waitingCharacters[..] == Forget(old(area.waitingCharacters[..]), this)
      ensures bus == null ==> unchanged(buses) && !allBusesFull
      ensures bus != null ==>
        && bus.occupiedSeats == old(bus.occupiedSeats) + 1
        && (bus.occupiedSeats >= bus.SeatCount ==>
              buses.Advanced(old(buses.busQueue), old(buses.activeBus), old(buses.activated),
                             old(buses.retired), allBusesFull))
        && (bus.occupiedSeats < bus.SeatCount ==> unchanged(buses) && !allBusesFull)
    {
      currentNode.SetOccupied(false, null);
      allBusesFull := false;
      if bus != null {
        var _, full := bus.OccupySeat(buses);
        allBusesFull := full;
      }
      area.ForgetDestroyed(this);
    }

    /**
     * `FindPathToNearestYZero`: breadth-first search from this character's node over
     * free cells, trying neighbours up, down, left, right. The result leaves out the start
     * and is `None` exactly when row 0 cannot be reached; otherwise it is a shortest route
     * that stops at the first row-0 cell and repeats no cell.
     */
    method FindPathToNearestYZero(grid: NodeGrid) returns (path: Option<seq<GridNode>>)
      requires grid.Valid()
      ensures currentNode.Position.y == 0 ==> path == Some([])
      ensures currentNode.Position.y != 0 ==>
        (path.None? <==> !RowZeroReachable(grid.FreeCells(), currentNode.Position))
      ensures currentNode.Position.y != 0 && path.Some? ==>
        && NearestRoute(grid.FreeCells(), currentNode.Position, Positions(path.value))
        && forall i :: 0 <= i < |path.value| ==>
             path.value[i] == grid.GetNode(path.value[i].Position) && !path.value[i].IsOccupied
    {
      var s := currentNode.Position;
      if s.y == 0 {
        return Some([]);
      }
      ghost var free := grid.FreeCells();
      var queue: seq<seq<Pos>> := [[s]];
      var visited: set<Pos> := {s};
      while |queue| > 0
        invariant SearchInvariant(free, s, visited, queue)
        decreases (free + {s}) - visited, |queue|
      {
        var found;
        queue, visited, found := ExpandHead(grid, s, queue, visited);
        if found.Some? {
          return found;
        }
      }
      SearchExhausted(free, s, visited);
      return None;
    }

    /**
     * One round of the search loop: the head of the queue is dequeued and its end
     * expanded. Either a route is found, or the loop-head invariant holds again with more
     * cells visited or a shorter queue.
     */
    static method ExpandHead(grid: NodeGrid, s: Pos, queue0: seq<seq<Pos>>, visited0: set<Pos>)
      returns (queue: seq<seq<Pos>>, visited: set<Pos>, found: Option<seq<GridNode>>)
      requires grid.Valid()
      requires s.y != 0 && SearchInvariant(grid.FreeCells(), s, visited0, queue0) && |queue0| > 0
      ensures found.Some? ==>
        && NearestRoute(grid.FreeCells(), s, Positions(found.value))
        && forall i :: 0 <= i < |found.value| ==>
             found.value[i] == grid.GetNode(found.value[i].Position) && !found.value[i].IsOccupied
      ensures found.None? ==>
        && SearchInvariant(grid.FreeCells(), s, visited, queue)
        && visited0 <= visited
        && (visited == visited0 ==> |queue| < |queue0|)
    {
      ghost var free := grid.FreeCells();
      StartExpansion(free, s, visited0, queue0);
      var cur := queue0[0];
      var route;
      queue, visited, route := TryDirections(grid, free, s, cur, queue0[1..], visited0);
      if route.Some? {
        RouteAlongNodes(grid, s, route.value);
        return queue, visited, Some(grid.NodesAlong(route.value));
      }
      FinishExpansion(free, s, visited, queue, cur);
      found := None;
    }

    /**
     * Trying the four directions from the end of the dequeued path
     * `cur`. A free, unvisited neighbour on row 0 ends the search with the route to it;
     * any other free, unvisited neighbour is marked visited and its path queued.
     */
    static method TryDirections(grid: NodeGrid, ghost free: set<Pos>, s: Pos, cur: seq<Pos>,
                                queue0: seq<seq<Pos>>, visited0: set<Pos>)
      returns (queue: seq<seq<Pos>>, visited: set<Pos>, found: Option<seq<Pos>>)
      requires grid.Valid() && free == grid.FreeCells()
      requires s.y != 0 && ExpansionInvariant(free, s, visited0, queue0, cur)
      ensures found.Some? ==>
        && NearestRoute(free, s, found.value)
        && forall i :: 0 <= i < |found.value| ==> found.value[i] in free
      ensures found.None? ==>
        && ExpansionInvariant(free, s, visited, queue, cur)
        && Closed(free, visited, Last(cur))
        && visited0 <= visited
        && (visited == visited0 ==> queue == queue0)
    {
      queue, visited := queue0, visited0;
      var last := cur[|cur| - 1];
      var j := 0;
      while j < 4
        invariant 0 <= j <= 4
        invariant ExpansionInvariant(free, s, visited, queue, cur)
        invariant visited0 <= visited
        invariant ClosedUpTo(free, visited, last, j)
        invariant visited == visited0 ==> queue == queue0
      {
        var n := Neighbours(last)[j];
        ghost var visitedBefore := visited;
        if n !in visited {
          var node := grid.GetNode(n);
          if node != null && !node.IsOccupied {
            var newPath := cur + [n];
            if n.y == 0 {
              NearestAtReturn(free, s, visited, queue, cur, n);
              return queue, visited, Some(newPath[1..]);
            }
            Enqueue(free, s, visited, queue, cur, n);
            queue := queue + [newPath];
            visited := visited + {n};
          }
        }
        SettleDirection(free, visitedBefore, visited, last, j);
        j := j + 1;
      }
      AllDirectionsSettled(free, visited, last);
      found := None;
    }
  }
}
