/**
 * Seat counting and the bus queue (Assets/Scripts/Bus.cs, Assets/Scripts/BusManager.cs).
 * A bus asks the manager to advance once its seat count reaches capacity; the manager
 * activates buses in the order it created them and has no active bus once its queue runs dry.
 * That moment is where the all-buses-full signal fires; `ActivateNextBus` returns it.
 * Destroying the retired bus's game object is recorded in the ghost log `retired`.
 */
module Buses {
  import Lists

  class Bus {
    const BusColor: string
    const SeatCount: int
    var occupiedSeats: int

    /** `Initialize`: records colour and capacity; a new bus has no occupied seat. */
    constructor Initialize(color: string, seatCount: int)
      ensures BusColor == color && SeatCount == seatCount && occupiedSeats == 0
    {
      BusColor := color;
      SeatCount := seatCount;
      occupiedSeats := 0;
    }

    /**
     * `OccupySeat`: one more seat taken; from capacity on, every call makes `manager`
     * advance (`advanced`), and `allBusesFull` is that advance's signal.
     */
    method OccupySeat(manager: BusManager) returns (advanced: bool, allBusesFull: bool)
      requires manager.Valid()
      modifies this`occupiedSeats, manager`busQueue, manager`activeBus, manager`activated, manager`retired
      ensures manager.Valid()
      ensures occupiedSeats == old(occupiedSeats) + 1
      ensures advanced <==> occupiedSeats >= SeatCount
      ensures advanced ==> manager.Advanced(old(manager.busQueue), old(manager.activeBus),
                                            old(manager.activated), old(manager.retired), allBusesFull)
      ensures !advanced ==> !allBusesFull && unchanged(manager)
    {
      occupiedSeats := occupiedSeats + 1;
      advanced := occupiedSeats >= SeatCount;
      allBusesFull := false;
      if advanced {
        allBusesFull := manager.ActivateNextBus();
      }
    }
  }

  /**
   * The advance flags of `k` successive `OccupySeat` calls on a bus that has `occupied`
   * seats taken and capacity `seatCount`.
   */
  function SeatRequests(occupied: int, seatCount: int, k: nat): (r: seq<bool>)
    ensures |r| == k
    ensures forall i :: 0 <= i < k ==> (r[i] <==> occupied + i + 1 >= seatCount)
    decreases k
  {
    if k == 0 then [] else [occupied + 1 >= seatCount] + SeatRequests(occupied + 1, seatCount, k - 1)
  }

  /**
   * A fresh bus with capacity `n` does not advance on its first `n - 1` seats, advances on
   * the `n`-th, and, since the count has no cap, on every further seat as well.
   */
  lemma FreshBusAdvancesFromLastSeat(n: nat, extra: nat)
    requires n >= 1
    ensures SeatRequests(0, n, n + extra) == seq(n - 1, _ => false) + seq(extra + 1, _ => true)
  {
  }

  /** The buses still to be boarded, the active one first: `activeBus` then the queue, or none. */
  function Line(active: Bus?, queue: seq<Bus>): seq<Bus> {
    if active == null then [] else [active] + queue
  }

  /** A non-empty queue becomes the line once its head is active. */
  lemma LineOfQueue(queue: seq<Bus>)
    requires queue != []
    ensures Line(queue[0], queue[1..]) == queue
  {
  }

  /** The seats taken on each of `buses`. */
  ghost function Seats(buses: seq<Bus>): map<Bus, int>
    reads set b | b in buses
  {
    map b | b in buses :: b.occupiedSeats
  }

  /** The seats `seats` records for `b`, none when it records nothing. */
  function Taken(seats: map<Bus, int>, b: Bus): int {
    if b in seats then seats[b] else 0
  }

  /**
   * A ride so far: who boarded which bus, in order, the line of buses still to board, and
   * the seats taken on each bus.
   */
  datatype RideState = RideState(boarded: seq<Bus?>, line: seq<Bus>, taken: map<Bus, int>)

  /**
   * One more boarder: they take a seat on the head of the line, if there is one, and the
   * head leaves the line once its taken seats, this one included, reach its capacity.
   */
  function Board(st: RideState): RideState {
    if st.line == [] then RideState(st.boarded + [null], st.line, st.taken)
    else
      var b := st.line[0];
      var t := Taken(st.taken, b) + 1;
      RideState(st.boarded + [b], if t >= b.SeatCount then st.line[1..] else st.line, st.taken[b := t])
  }

  /** A boarding either leaves the line as it is or lets its head depart with its seats all taken. */
  lemma BoardLine(st: RideState)
    ensures Board(st).line == st.line
      || (st.line != [] && Board(st).line == st.line[1..] && Taken(Board(st).taken, st.line[0]) >= st.line[0].SeatCount)
  {
  }

  /** A boarding never frees a seat. */
  lemma BoardKeepsSeats(st: RideState, x: Bus)
    ensures Taken(Board(st).taken, x) >= Taken(st.taken, x)
  {
  }

  /** Where `k` successive boarders sit on `line`, whose buses had `seats` taken at the start. */
  function Ride(line: seq<Bus>, seats: map<Bus, int>, k: nat): (r: RideState)
    ensures |r.boarded| == k
    ensures |r.line| <= |line|
    decreases k
  {
    if k == 0 then RideState([], line, seats) else Board(Ride(line, seats, k - 1))
  }

  /** The line left is what remains of `line` after the buses that have departed. */
  lemma {:induction false} RideLeavesSuffix(line: seq<Bus>, seats: map<Bus, int>, k: nat)
    ensures Ride(line, seats, k).line == line[|line| - |Ride(line, seats, k).line|..]
  {
    if k > 0 {
      var prev := Ride(line, seats, k - 1);
      RideLeavesSuffix(line, seats, k - 1);
      BoardLine(prev);
      assert Ride(line, seats, k) == Board(prev);
      if Board(prev).line != prev.line {
        assert prev.line[1..] == line[|line| - |prev.line| + 1..];
      }
    } else {
      assert Ride(line, seats, k).line == line;
    }
  }

  /** The head of the line left is the first bus of `line` that has not departed. */
  lemma RideHeadInLine(line: seq<Bus>, seats: map<Bus, int>, k: nat)
    requires Ride(line, seats, k).line != []
    ensures Ride(line, seats, k).line[0] == line[|line| - |Ride(line, seats, k).line|]
  {
    RideLeavesSuffix(line, seats, k);
  }

  /** A boarding adds a seat to exactly the bus it puts the boarder on. */
  lemma BoardCountsSeat(st: RideState, x: Bus)
    ensures Taken(Board(st).taken, x) - Taken(st.taken, x) == multiset(Board(st).boarded)[x] - multiset(st.boarded)[x]
  {
    var next: Bus? := if st.line == [] then null else st.line[0];
    var step: seq<Bus?> := [next];
    assert Board(st).boarded == st.boarded + step;
    assert multiset(Board(st).boarded)[x] == multiset(st.boarded)[x] + multiset(step)[x];
  }

  /** Each bus has the seats it had at the start plus one for every boarder who took it. */
  lemma {:induction false} RideCountsSeats(line: seq<Bus>, seats: map<Bus, int>, k: nat, x: Bus)
    ensures Taken(Ride(line, seats, k).taken, x) == Taken(seats, x) + multiset(Ride(line, seats, k).boarded)[x]
  {
    if k > 0 {
      RideCountsSeats(line, seats, k - 1, x);
      BoardCountsSeat(Ride(line, seats, k - 1), x);
    } else {
      assert Ride(line, seats, k) == RideState([], line, seats);
    }
  }

  /** The first boarder takes a seat on the head of the line, if there is one. */
  lemma {:induction false} RideStartsAtActiveBus(line: seq<Bus>, seats: map<Bus, int>, k: nat)
    requires k > 0
    ensures Ride(line, seats, k).boarded[0] == if line == [] then null else line[0]
  {
    if k > 1 {
      RideStartsAtActiveBus(line, seats, k - 1);
      assert Ride(line, seats, k).boarded[0] == Ride(line, seats, k - 1).boarded[0];
    }
  }

  /** Every boarder sits on a bus of the line, and one who finds no bus leaves the line empty. */
  lemma {:induction false} RideBoardsFromLine(line: seq<Bus>, seats: map<Bus, int>, k: nat)
    ensures forall i :: 0 <= i < k && Ride(line, seats, k).boarded[i] != null ==> Ride(line, seats, k).boarded[i] in line
    ensures forall i :: 0 <= i < k && Ride(line, seats, k).boarded[i] == null ==> Ride(line, seats, k).line == []
  {
    if k > 0 {
      RideBoardsFromLine(line, seats, k - 1);
      var prev := Ride(line, seats, k - 1);
      var cur := Ride(line, seats, k);
      forall i | 0 <= i < k - 1
        ensures cur.boarded[i] == prev.boarded[i]
      {
      }
      if prev.line != [] {
        RideHeadInLine(line, seats, k - 1);
      }
    }
  }

  /** Every bus that has left the line has at least as many seats taken as it holds. */
  lemma {:induction false} RideFillsDepartedBuses(line: seq<Bus>, seats: map<Bus, int>, k: nat, j: nat)
    requires j < |line| - |Ride(line, seats, k).line|
    ensures Taken(Ride(line, seats, k).taken, line[j]) >= line[j].SeatCount
  {
    var prev := Ride(line, seats, k - 1);
    assert Ride(line, seats, k) == Board(prev);
    if j < |line| - |prev.line| {
      RideFillsDepartedBuses(line, seats, k - 1, j);
      BoardKeepsSeats(prev, line[j]);
    } else {
      BoardLine(prev);
      RideHeadInLine(line, seats, k - 1);
    }
  }

  /** While the head bus stays below capacity, the line stays as it is and the head gains every seat. */
  lemma {:induction false} RideKeepsHead(line: seq<Bus>, seats: map<Bus, int>, k: nat)
    requires line != [] && (k == 0 || Taken(seats, line[0]) + k < line[0].SeatCount)
    ensures Ride(line, seats, k).line == line
    ensures Taken(Ride(line, seats, k).taken, line[0]) == Taken(seats, line[0]) + k
    ensures forall i :: 0 <= i < k ==> Ride(line, seats, k).boarded[i] == line[0]
  {
    if k > 0 {
      RideKeepsHead(line, seats, k - 1);
      var prev := Ride(line, seats, k - 1);
      var cur := Ride(line, seats, k);
      forall i | 0 <= i < k
        ensures cur.boarded[i] == line[0]
      {
        if i < k - 1 {
          assert cur.boarded[i] == prev.boarded[i];
        }
      }
    }
  }

  /**
   * The seat requests of `OccupySeat` decide the ride: while those of the head bus ask for
   * no advance, every boarder takes it and the line stays; on its first request, that
   * boarder takes it too and it leaves the line.
   */
  lemma RideFollowsSeatRequests(line: seq<Bus>, seats: map<Bus, int>, n: nat, k: nat)
    requires line != [] && k < n
    requires forall i :: 0 <= i < k ==> !SeatRequests(Taken(seats, line[0]), line[0].SeatCount, n)[i]
    ensures forall i :: 0 <= i < k ==> Ride(line, seats, k).boarded[i] == line[0]
    ensures Ride(line, seats, k).line == line
    ensures SeatRequests(Taken(seats, line[0]), line[0].SeatCount, n)[k] ==>
      Ride(line, seats, k + 1).boarded[k] == line[0] && Ride(line, seats, k + 1).line == line[1..]
  {
    if k > 0 {
      assert !SeatRequests(Taken(seats, line[0]), line[0].SeatCount, n)[k - 1];
    }
    RideKeepsHead(line, seats, k);
  }

  class BusManager {
    var busCount: int
    var busQueue: seq<Bus>
    var activeBus: Bus?
    /** Every bus `CreateBuses` made, in creation order. */
    ghost var created: seq<Bus>
    /** Every bus that became active, in activation order. */
    ghost var activated: seq<Bus>
    /** Every bus whose game object `ActivateNextBus` destroyed, in that order. */
    ghost var retired: seq<Bus>

    /**
     * Buses are activated in creation order, none twice; all activated buses but the
     * current one have been retired.
     */
    ghost predicate Valid()
      reads this
    {
      && created == activated + busQueue
      && Lists.NoDuplicates(created)
      && (activeBus == null ==> retired == activated)
      && (activeBus != null ==> retired + [activeBus] == activated)
    }

    constructor(busCount: int)
      ensures Valid()
      ensures this.busCount == busCount && busQueue == [] && activeBus == null
      ensures created == [] && activated == [] && retired == []
    {
      this.busCount := busCount;
      busQueue := [];
      activeBus := null;
      created := [];
      activated := [];
      retired := [];
    }

    /**
     * The manager's state after one `ActivateNextBus` from the given old state: the old
     * active bus is retired; with a non-empty queue its head becomes active, otherwise
     * no bus is active and the all-buses-full signal fires.
     */
    ghost predicate Advanced(oldQueue: seq<Bus>, oldActive: Bus?, oldActivated: seq<Bus>,
                             oldRetired: seq<Bus>, allBusesFull: bool)
      reads this
    {
      && retired == (if oldActive != null then oldRetired + [oldActive] else oldRetired)
      && (allBusesFull <==> oldQueue == [])
      && (oldQueue != [] ==> activeBus == oldQueue[0] && busQueue == oldQueue[1..]
                             && activated == oldActivated + [oldQueue[0]])
      && (oldQueue == [] ==> activeBus == null && busQueue == [] && activated == oldActivated)
    }

    /** `CreateBuses`: `busCount` new inactive buses join the queue, the `i`-th coloured `colorOf(i)`. */
    method CreateBuses(colorOf: nat -> string, seatsOf: nat -> int)
      requires Valid()
      modifies this`busQueue, this`created
      ensures Valid()
      ensures var n := if busCount > 0 then busCount else 0;
        && |busQueue| == |old(busQueue)| + n
        && busQueue[..|old(busQueue)|] == old(busQueue)
        && created == old(created) + busQueue[|old(busQueue)|..]
        && forall i :: 0 <= i < n ==>
             var b := busQueue[|old(busQueue)| + i];
             fresh(b) && b.BusColor == colorOf(i) && b.SeatCount == seatsOf(i) && b.occupiedSeats == 0
    {
      var i := 0;
      while i < busCount
        invariant i == 0 || i <= busCount
        invariant Valid()
        invariant |busQueue| == |old(busQueue)| + i
        invariant busQueue[..|old(busQueue)|] == old(busQueue)
        invariant created == old(created) + busQueue[|old(busQueue)|..]
        invariant forall j :: 0 <= j < i ==>
          var b := busQueue[|old(busQueue)| + j];
          fresh(b) && b.BusColor == colorOf(j) && b.SeatCount == seatsOf(j) && b.occupiedSeats == 0
      {
        var bus := new Bus.Initialize(colorOf(i), seatsOf(i));
        assert bus !in created;
        ghost var prev := busQueue;
        busQueue := busQueue + [bus];
        created := created + [bus];
        assert forall j :: 0 <= j < |prev| ==> busQueue[j] == prev[j];
        assert busQueue[|old(busQueue)| + i] == bus;
        i := i + 1;
      }
    }

    /** `ActivateNextBus`: retire the active bus and activate the head of the queue, if any. */
    method ActivateNextBus() returns (allBusesFull: bool)
      requires Valid()
      modifies this`busQueue, this`activeBus, this`activated, this`retired
      ensures Valid()
      ensures Advanced(old(busQueue), old(activeBus), old(activated), old(retired), allBusesFull)
    {
      if activeBus != null {
        retired := retired + [activeBus];
      }
      if |busQueue| > 0 {
        activeBus := busQueue[0];
        busQueue := busQueue[1..];
        activated := activated + [activeBus];
        allBusesFull := false;
      } else {
        activeBus := null;
        allBusesFull := true;
      }
    }

    /** `GetActiveBus`: a read of the active bus. */
    function GetActiveBus(): (b: Bus?)
      reads this
      ensures b == activeBus
    {
      activeBus
    }

    /** `BusFull`: `ActivateNextBus`, for a caller that knows a bus is active. */
    method BusFull() returns (allBusesFull: bool)
      requires Valid() && activeBus != null
      modifies this`busQueue, this`activeBus, this`activated, this`retired
      ensures Valid()
      ensures Advanced(old(busQueue), old(activeBus), old(activated), old(retired), allBusesFull)
    {
      allBusesFull := ActivateNextBus();
    }

    /**
     * `Start`: create the buses and activate the first; with `busCount >= 1` and no
     * earlier buses, the first created bus is active and the other `busCount - 1` wait.
     */
    method Start(colorOf: nat -> string, seatsOf: nat -> int) returns (allBusesFull: bool)
      requires Valid()
      modifies this`busQueue, this`activeBus, this`created, this`activated, this`retired
      ensures Valid()
      ensures old(busQueue) == [] && old(activeBus) == null && busCount >= 1 ==>
        && !allBusesFull
        && activeBus != null && |created| > |old(created)| && activeBus == created[|old(created)|]
        && activeBus.BusColor == colorOf(0) && activeBus.SeatCount == seatsOf(0) && activeBus.occupiedSeats == 0
        && |busQueue| == busCount - 1
      ensures old(busQueue) == [] && busCount < 1 ==> allBusesFull && activeBus == null
    {
      CreateBuses(colorOf, seatsOf);
      allBusesFull := ActivateNextBus();
    }
  }
}
