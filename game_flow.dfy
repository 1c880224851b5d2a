/**
 * The game's state machine (Assets/Scripts/GameManager.cs): the current `GameState`, a
 * duplicate-free list of observers told about every change in list order, and the three
 * signals that end a level. The observers with state of their own are the level progress
 * (`CurrentLevelManager`) and the timer's running flag (Assets/Scripts/Time/TimeManager.cs);
 * the user-interface observers are identities whose reactions are not modelled.
 */
module GameFlow {
  import Lists
  import opened GameStates
  import opened Progression
  import opened Wrappers

  /** A registered `IGameStateObserver`. */
  datatype Observer = LevelProgress | TimerObserver | Interface(id: nat)

  /** The running flag of the level timer; the countdown itself is the time-over signal. */
  class Timer {
    var isTimerRunning: bool

    constructor()
      ensures !isTimerRunning
    {
      isTimerRunning := false;
    }

    /** `StopTimer`. */
    method StopTimer()
      modifies this
      ensures !isTimerRunning
    {
      isTimerRunning := false;
    }

    /** `OnGameStateChanged`: `Playing` starts the timer, `Finished` and `GameOver` stop it. */
    method OnGameStateChanged(newState: GameState)
      modifies this
      ensures isTimerRunning == TimerAfter(old(isTimerRunning), newState)
    {
      match newState {
        case Playing => isTimerRunning := true;
        case Finished => StopTimer();
        case GameOver => StopTimer();
        case Start =>
      }
    }
  }

  /** The timer flag after it hears of `s`; `Start` leaves it as it was. */
  function TimerAfter(running: bool, s: GameState): (r: bool)
    ensures s == Start ==> r == running
    ensures s != Start ==> (r <==> s == Playing)
  {
    match s
    case Playing => true
    case Finished => false
    case GameOver => false
    case Start => running
  }

  /** Hearing the same state again changes nothing more. */
  lemma TimerAfterIdempotent(running: bool, s: GameState)
    ensures TimerAfter(TimerAfter(running, s), s) == TimerAfter(running, s)
  {
  }

  /** The notifications `NotifyObservers` delivers for state `s`: each observer once, in list order. */
  function Deliveries(observers: seq<Observer>, s: GameState): (d: seq<(Observer, GameState)>)
    ensures |d| == |observers|
    ensures forall i :: 0 <= i < |observers| ==> d[i] == (observers[i], s)
  {
    seq(|observers|, i requires 0 <= i < |observers| => (observers[i], s))
  }

  class GameManager {
    var currentState: GameState
    var observers: seq<Observer>
    const progress: CurrentLevelManager
    const timer: Timer
    /** Every notification delivered so far, in order. */
    ghost var delivered: seq<(Observer, GameState)>

    /** No observer is registered twice. */
    ghost predicate Valid()
      reads this
    {
      Lists.NoDuplicates(observers)
    }

    /** A new manager is in state `Start` with no observers. */
    constructor(progress: CurrentLevelManager, timer: Timer)
      ensures Valid() && currentState == GameState.Start && observers == [] && delivered == []
      ensures this.progress == progress && this.timer == timer
    {
      currentState := GameState.Start;
      observers := [];
      this.progress := progress;
      this.timer := timer;
      delivered := [];
    }

    /** `RegisterObserver`: added at the end unless already registered. */
    method RegisterObserver(observer: Observer)
      requires Valid()
      modifies this`observers
      ensures Valid()
      ensures observers == Lists.AddIfAbsent(old(observers), observer)
    {
      if observer !in observers {
        observers := observers + [observer];
      }
    }

    /** `UnregisterObserver`: removed when registered, otherwise nothing changes. */
    method UnregisterObserver(observer: Observer)
      requires Valid()
      modifies this`observers
      ensures Valid() && observer !in observers
      ensures observers == Lists.RemoveFirst(old(observers), observer)
    {
      if observer in observers {
        Lists.RemoveFirstKeepsDistinct(observers, observer);
        observers := Lists.RemoveFirst(observers, observer);
      }
    }

    /** `OnEnable` registers the level progress; `OnDisable` unregisters it. */
    method OnEnable()
      requires Valid()
      modifies this`observers
      ensures Valid() && LevelProgress in observers
      ensures observers == Lists.AddIfAbsent(old(observers), LevelProgress)
    {
      RegisterObserver(LevelProgress);
    }

    method OnDisable()
      requires Valid()
      modifies this`observers
      ensures Valid() && LevelProgress !in observers
      ensures observers == Lists.RemoveFirst(old(observers), LevelProgress)
    {
      UnregisterObserver(LevelProgress);
    }

    /**
     * `ChangeState(s)`: no guard, so a terminal state can be overwritten. The state becomes
     * `s`, then every observer hears of `s` once, in list order: the level progress completes
     * its level on `Finished`, the timer follows `TimerAfter`, and nothing else changes.
     */
    method ChangeState(newState: GameState)
      modifies this`currentState, this`delivered, progress`maxUnlockedLevel, progress`savedMaxUnlockedLevel, timer
      ensures currentState == newState && observers == old(observers)
      ensures delivered == old(delivered) + Deliveries(observers, newState)
      ensures progress.maxUnlockedLevel ==
        if LevelProgress in observers && newState == Finished
        then Completed(old(progress.maxUnlockedLevel), progress.currentLevelNumber)
        else old(progress.maxUnlockedLevel)
      ensures progress.savedMaxUnlockedLevel ==
        if LevelProgress in observers && newState == Finished && progress.currentLevelNumber >= old(progress.maxUnlockedLevel)
        then Some(progress.maxUnlockedLevel)
        else old(progress.savedMaxUnlockedLevel)
      ensures timer.isTimerRunning ==
        if TimerObserver in observers then TimerAfter(old(timer.isTimerRunning), newState) else old(timer.isTimerRunning)
    {
      currentState := newState;
      NotifyObservers();
    }

    /** `NotifyObservers`: each observer, in list order, hears of the current state. */
    method NotifyObservers()
      modifies this`delivered, progress`maxUnlockedLevel, progress`savedMaxUnlockedLevel, timer
      ensures delivered == old(delivered) + Deliveries(observers, currentState)
      ensures progress.maxUnlockedLevel ==
        if LevelProgress in observers && currentState == Finished
        then Completed(old(progress.maxUnlockedLevel), progress.currentLevelNumber)
        else old(progress.maxUnlockedLevel)
      ensures progress.savedMaxUnlockedLevel ==
        if LevelProgress in observers && currentState == Finished && progress.currentLevelNumber >= old(progress.maxUnlockedLevel)
        then Some(progress.maxUnlockedLevel)
        else old(progress.savedMaxUnlockedLevel)
      ensures timer.isTimerRunning ==
        if TimerObserver in observers then TimerAfter(old(timer.isTimerRunning), currentState) else old(timer.isTimerRunning)
    {
      var i := 0;
      while i < |observers|
        invariant 0 <= i <= |observers|
        invariant delivered == old(delivered) + Deliveries(observers[..i], currentState)
        invariant progress.maxUnlockedLevel ==
          if LevelProgress in observers[..i] && currentState == Finished
          then Completed(old(progress.maxUnlockedLevel), progress.currentLevelNumber)
          else old(progress.maxUnlockedLevel)
        invariant progress.savedMaxUnlockedLevel ==
          if LevelProgress in observers[..i] && currentState == Finished
             && progress.currentLevelNumber >= old(progress.maxUnlockedLevel)
          then Some(progress.maxUnlockedLevel)
          else old(progress.savedMaxUnlockedLevel)
        invariant timer.isTimerRunning ==
          if TimerObserver in observers[..i] then TimerAfter(old(timer.isTimerRunning), currentState)
          else old(timer.isTimerRunning)
      {
        var observer := observers[i];
        match observer {
          case LevelProgress => progress.OnGameStateChanged(currentState);
          case TimerObserver => timer.OnGameStateChanged(currentState);
          case Interface(_) =>
        }
        delivered := delivered + [(observer, currentState)];
        assert observers[..i + 1] == observers[..i] + [observer];
        i := i + 1;
      }
      assert observers[..i] == observers;
    }

    /** `OnAllBusesFull`: the level is won. */
    method OnAllBusesFull()
      modifies this`currentState, this`delivered, progress`maxUnlockedLevel, progress`savedMaxUnlockedLevel, timer
      ensures currentState == Finished
      ensures delivered == old(delivered) + Deliveries(observers, Finished)
      ensures LevelProgress in observers ==>
        progress.maxUnlockedLevel == Completed(old(progress.maxUnlockedLevel), progress.currentLevelNumber)
      ensures progress.savedMaxUnlockedLevel ==
        if LevelProgress in observers && progress.currentLevelNumber >= old(progress.maxUnlockedLevel)
        then Some(progress.maxUnlockedLevel)
        else old(progress.savedMaxUnlockedLevel)
      ensures LevelProgress !in observers ==> progress.maxUnlockedLevel == old(progress.maxUnlockedLevel)
      ensures TimerObserver in observers ==> !timer.isTimerRunning
    {
      ChangeState(Finished);
    }

    /** `OnWaitingAreaFull`: the timer stops, then the level is lost. */
    method OnWaitingAreaFull()
      modifies this`currentState, this`delivered, progress`maxUnlockedLevel, progress`savedMaxUnlockedLevel, timer
      ensures currentState == GameOver && !timer.isTimerRunning
      ensures delivered == old(delivered) + Deliveries(observers, GameOver)
      ensures progress.maxUnlockedLevel == old(progress.maxUnlockedLevel)
      ensures progress.savedMaxUnlockedLevel == old(progress.savedMaxUnlockedLevel)
    {
      timer.StopTimer();
      ChangeState(GameOver);
    }

    /** `OnTimeOver`: the level is lost, whatever the state was, `Finished` included. */
    method OnTimeOver()
      modifies this`currentState, this`delivered, progress`maxUnlockedLevel, progress`savedMaxUnlockedLevel, timer
      ensures currentState == GameOver
      ensures delivered == old(delivered) + Deliveries(observers, GameOver)
      ensures progress.maxUnlockedLevel == old(progress.maxUnlockedLevel)
      ensures progress.savedMaxUnlockedLevel == old(progress.savedMaxUnlockedLevel)
      ensures TimerObserver in observers ==> !timer.isTimerRunning
    {
      ChangeState(GameOver);
    }

    /** `Start`: announces the `Start` state, which changes no observer's state. */
    method Start()
      modifies this`currentState, this`delivered, progress`maxUnlockedLevel, progress`savedMaxUnlockedLevel, timer
      ensures currentState == GameState.Start
      ensures delivered == old(delivered) + Deliveries(observers, GameState.Start)
      ensures progress.maxUnlockedLevel == old(progress.maxUnlockedLevel)
      ensures progress.savedMaxUnlockedLevel == old(progress.savedMaxUnlockedLevel)
      ensures timer.isTimerRunning == old(timer.isTimerRunning)
    {
      ChangeState(GameState.Start);
    }
  }
}
