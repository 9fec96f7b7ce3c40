/** The optional-value datatype used wherever the Python code returns or tests for None. */
module Wrappers {

  datatype Option<+T> = None | Some(value: T)
  {
    /** `d.get(key, default)`: the value when present, else the default. */
    function GetOr(default: T): T {
      if Some? then value else default
    }
  }
}
