/** The "value or nothing" type used wherever the script gets `None` back
    from a regex search or from `dict.get`. */
module Wrappers {

  datatype Option<T> = None | Some(value: T) {

    /** `d.get(key, default)`: the value when present, the default otherwise. */
    function GetOr(default: T): T
    {
      if Some? then value else default
    }
  }
}
