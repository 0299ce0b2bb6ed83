/** The optional value that stands for Ruby's `nil` throughout the model. */
module Options {

  datatype Option<+T> = None | Some(value: T) {

    /** The value, or `default` when absent (Ruby's `nil.to_f` reads as 0). */
    function GetOr(default: T): T {
      match this
      case Some(v) => v
      case None => default
    }
  }
}
