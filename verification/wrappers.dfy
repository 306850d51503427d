/** The optional-value datatype the whole model uses for JavaScript slots that
    hold an object, `null` or `undefined`. */
module Wrappers {

  /** `None` stands for both `null` and `undefined`: every test in the game
      reads a slot through truthiness (`!slot`), which treats them alike. */
  datatype Option<+T> = None | Some(value: T)
}
