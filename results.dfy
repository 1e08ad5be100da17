/** The ways a step of the game can stop instead of producing a value.
    In the program these are thrown strings, a `process.exit()` call, or a
    TypeError raised when no free cell is left for the apple. */
module Results {

  datatype Error =
    | UnsupportedDirection(direction: string)  // "That is a direction we don't support!"
    | Quit                                     // the "c" key: the program exits
    | NoFreeCell                               // the apple has nowhere to go: the program crashes
    | GameOver                                 // "GAME OVER! ..." thrown by the key handler

  /** A failure-compatible result, so that `:-` propagates a thrown error. */
  datatype Result<+T> = Ok(value: T) | Err(error: Error) {
    predicate IsFailure() { Err? }

    function PropagateFailure<U>(): Result<U>
      requires Err?
    {
      Err(error)
    }

    function Extract(): T
      requires Ok?
    {
      value
    }
  }

  datatype Option<+T> = None | Some(value: T)
}
