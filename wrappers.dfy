/** Optional values, standing for Python's `None` next to a present value. */
module Wrappers {

  datatype Option<+T> = None | Some(value: T) {

    /** The value, or `default` when there is none (Python's `d.get(k, default)`). */
    function GetOr(default: T): (r: T)
      ensures this == Some(r) || (this.None? && r == default)
    {
      match this
      case Some(v) => v
      case None => default
    }
  }

  /** Python truthiness of an optional string: present and not empty. */
  predicate Truthy(s: Option<string>) {
    s.Some? && s.value != ""
  }

  /** The only falsy optional strings are `None` and the empty string. */
  lemma TruthyIff(s: Option<string>)
    ensures Truthy(s) <==> s != None && s != Some("")
  {
  }
}
