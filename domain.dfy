/**
  The records the character service works on: the parsed save file (the `d2s.Character`
  produced by the external save parser), the cached character record of the `domain`
  package, and the errors that travel between the service and its collaborators.
*/
module Domain {
  import opened Wrappers

  /** One item of a save file; only the number of socketed items is read by this core. */
  datatype Item = Item(nrOfItemsInSockets: int)

  /**
    The parts of a parsed save file that the metrics projection reads: the header's class
    and level, the four base attributes and the item list. The class is kept as the
    opaque label string the projection writes.
  */
  datatype Save = Save(
    charClass: string,
    level: int,
    strength: int,
    dexterity: int,
    vitality: int,
    energy: int,
    items: seq<Item>)

  /**
    A cached character: its name (`ID`), the parsed save (`D2s`, nil when absent) and the
    time it was last parsed, in nanoseconds since the Unix epoch.
  */
  datatype Character = Character(id: string, save: Option<Save>, lastParsed: int)

  /**
    Errors: the two sentinel errors of the domain package, a duplicate key on insert, and
    any other failure of a collaborator, carried as an opaque description.
  */
  datatype Error = InvalidArgument | NotFound | DuplicateKey | Other(description: string)

  const NanosPerSecond: int := 1_000_000_000

  /**
    The Unix time in whole seconds of a time given in nanoseconds, rounded towards minus
    infinity as Go's `Time.Unix` does (Dafny's `/` is Euclidean, which for a positive
    divisor is floor division).
  */
  function UnixSeconds(nanos: int): (secs: int)
    ensures secs * NanosPerSecond <= nanos < (secs + 1) * NanosPerSecond
  {
    nanos / NanosPerSecond
  }
}
