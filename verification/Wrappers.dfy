module Wrappers {
  datatype Option<+T> = None | Some(value: T)

  /** A setting in which zero stands for the default. */
  function OrDefault(value: int, default: int): int {
    if value == 0 then default else value
  }
}
