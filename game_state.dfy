/** The game's state enumeration (`GameState` in Assets/Scripts/GameManager.cs). */
module GameStates {
  datatype GameState = Start | Playing | Finished | GameOver
}
