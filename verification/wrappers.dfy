/** The optional value used wherever the modelled code returns or accepts `null`. */
module Wrappers {

  /** `None` stands for a C# or TypeScript `null` (or `undefined`). */
  datatype Option<+T> = None | Some(value: T) {

    /** The wrapped value, or `default` when there is none (the `??` operator). */
    function GetOr(default: T): T {
      match this
      case Some(v) => v
      case None => default
    }
  }
}
