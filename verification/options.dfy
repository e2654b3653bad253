/** The nullable slots of the game (the active and the buffered piece) as an Option. */
module Options {

  /** `None` stands for the source's `null`. */
  datatype Option<+T> = None | Some(value: T)
}
