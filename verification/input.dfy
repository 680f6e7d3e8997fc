/** The input events the game reacts to: a quit request and key presses and
    releases. Only the keys the game distinguishes are named; every other key
    is `KeyOther`, which the game treats alike whatever its code. */
module Input {

  datatype Key =
    | KeyW          // left paddle up
    | KeyS          // left paddle down
    | KeyUp         // right paddle up
    | KeyDown       // right paddle down
    | KeyEscape     // leaves the game
    | KeyOther

  datatype Event =
    | Quit
    | Press(key: Key)
    | Release(key: Key)
}
