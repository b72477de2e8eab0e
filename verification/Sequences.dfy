/** A sequence without its last element, that element, and the elements as a set. */
module Sequences {

  function Front<T>(s: seq<T>): seq<T>
    requires s != []
  {
    s[..|s| - 1]
  }

  function Final<T>(s: seq<T>): T
    requires s != []
  {
    s[|s| - 1]
  }

  ghost function NameSet(names: seq<string>): set<string> {
    set n | n in names
  }
}
