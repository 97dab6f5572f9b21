/** Browser storage of the engine's two collections. A stored value is either
    absent (or the empty string), unreadable, or a collection written earlier;
    reading degrades the first two to an empty collection. The text encoding
    itself is not modelled: a collection reads back as it was written. */
module Persistence {

  datatype Stored<T> = Missing | Corrupt | Saved(value: T)

  /** What loading a stored collection yields. */
  function Restore<T>(s: Stored<T>, empty: T): T
  {
    match s
    case Saved(v) => v
    case _ => empty
  }
}
