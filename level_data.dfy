/**
 * The level description the game loads from JSON (Assets/Scripts/Level/LevelData.cs).
 * C# strings may be null, so a colour name is an `Option<string>`; the float `levelTime`
 * only feeds the countdown timer and is not part of this model.
 */
module LevelData {
  import opened Wrappers

  /** One bus of the level: its colour label, its seat count and an authoring order key. */
  datatype BusData = BusData(colorName: Option<string>, seatCount: int, order: int)

  /** The level: grid size, row-major node colours, buses and waiting-area size. */
  datatype LevelData = LevelData(
    width: int,
    height: int,
    nodeColors: seq<Option<string>>,
    buses: seq<BusData>,
    waitingAreaSize: int)

  /** Field initialisers of the C# classes. */
  const DefaultSeatCount := 2
  const DefaultWaitingAreaSize := 3

  /** `string.IsNullOrEmpty`. */
  predicate IsNullOrEmpty(s: Option<string>) {
    s.None? || s.value == ""
  }
}
