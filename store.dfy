/**
  The character repository as the service sees it: a collection of character records
  keyed by `id`. `Find` reads one record, `Store` inserts a record as given, and `Update`
  replaces the parsed save and the last-parsed time of the record with the same `id`.
  A failure of the database driver is an input: `fault` holds the driver's description
  of what went wrong, or `None` when the call goes through. Every call, whether it goes
  through or not, is recorded in the shared call log.
*/
module Store {
  import opened Wrappers
  import opened Domain
  import opened Calls

  /** Records are keyed by their own `id`: at most one record per character name. */
  ghost predicate KeyedById(records: map<string, Character>) {
    forall id | id in records :: records[id].id == id
  }

  /** What `Find` answers: the record, `NotFound` when there is none, or the driver's failure. */
  function Lookup(records: map<string, Character>, id: string, fault: Option<string>): (r: Result<Character, Error>)
    ensures fault.Some? ==> r == Err(Other(fault.value))
    ensures fault.None? ==> (r.Ok? <==> id in records)
    ensures fault.None? && id in records ==> r.value == records[id]
    ensures fault.None? && id !in records ==> r.error == NotFound
    ensures KeyedById(records) && r.Ok? ==> r.value.id == id
  {
    match fault
    case Some(description) => Err(Other(description))
    case None => if id in records then Ok(records[id]) else Err(NotFound)
  }

  /**
    The error `Store` reports, if any: the driver's failure, or a duplicate key when a
    record with the same `id` is already there.
  */
  function InsertError(records: map<string, Character>, c: Character, fault: Option<string>): (e: Option<Error>)
    ensures e.None? <==> fault.None? && c.id !in records
  {
    match fault
    case Some(description) => Some(Other(description))
    case None => if c.id in records then Some(DuplicateKey) else None
  }

  /**
    The records after a successful `Update` of `c` at time `now`: the record keyed by
    `c.id`, if there is one, gets `c`'s save and `now` as its last-parsed time; no other
    record and no other field changes, and no record is added.
  */
  function Refreshed(records: map<string, Character>, c: Character, now: int): (r: map<string, Character>)
    ensures r.Keys == records.Keys
    ensures forall id | id in records && id != c.id :: r[id] == records[id]
    ensures c.id in records ==>
      r[c.id] == Character(records[c.id].id, c.save, now)
  {
    if c.id in records then records[c.id := records[c.id].(save := c.save, lastParsed := now)] else records
  }

  /** After an insert of `c`, `Find` answers `c` for its id and what it answered before for any other id. */
  lemma LookupAfterInsert(records: map<string, Character>, c: Character, id: string)
    ensures Lookup(records[c.id := c], c.id, None) == Ok(c)
    ensures id != c.id ==> Lookup(records[c.id := c], id, None) == Lookup(records, id, None)
  {
  }

  /**
    After an update of `c` at time `now`, `Find` answers the stored record with `c`'s save
    and `now` as its last-parsed time, or still `NotFound` when there was no record; any
    other id is answered as before.
  */
  lemma LookupAfterRefresh(records: map<string, Character>, c: Character, now: int, id: string)
    ensures c.id in records ==>
      Lookup(Refreshed(records, c, now), c.id, None) == Ok(Character(records[c.id].id, c.save, now))
    ensures c.id !in records ==> Lookup(Refreshed(records, c, now), c.id, None) == Err(NotFound)
    ensures id != c.id ==> Lookup(Refreshed(records, c, now), id, None) == Lookup(records, id, None)
  {
  }

  /** Refreshing keeps every record under its own key. */
  lemma RefreshedKeyedById(records: map<string, Character>, c: Character, now: int)
    requires KeyedById(records)
    ensures KeyedById(Refreshed(records, c, now))
  {
  }

  /** Inserting keeps every record under its own key. */
  lemma InsertedKeyedById(records: map<string, Character>, c: Character)
    requires KeyedById(records)
    ensures KeyedById(records[c.id := c])
  {
  }

  /** The character collection of the database. */
  class CharacterStore {
    var records: map<string, Character>
    const log: CallLog

    ghost predicate Valid()
      reads this
    {
      KeyedById(records)
    }

    /** A repository over a collection that may already hold records. */
    constructor (initial: map<string, Character>, log: CallLog)
      requires KeyedById(initial)
      ensures Valid() && records == initial && this.log == log
    {
      records := initial;
      this.log := log;
    }

    /** Reads the record whose `id` is the given one. */
    method Find(id: string, fault: Option<string>) returns (r: Result<Character, Error>)
      modifies log
      ensures r == Lookup(records, id, fault)
      ensures Valid() && r.Ok? ==> r.value.id == id
      ensures log.calls == old(log.calls) + [FindCall(id)]
    {
      log.calls := log.calls + [FindCall(id)];
      r := Lookup(records, id, fault);
    }

    /** Inserts `c` as given; on an error nothing is written. */
    method Store(c: Character, fault: Option<string>) returns (e: Option<Error>)
      requires Valid()
      modifies this, log
      ensures Valid()
      ensures log.calls == old(log.calls) + [StoreCall(c)]
      ensures e == InsertError(old(records), c, fault)
      ensures records == if e.None? then old(records)[c.id := c] else old(records)
    {
      log.calls := log.calls + [StoreCall(c)];
      if fault.Some? {
        e := Some(Other(fault.value));
      } else if c.id in records {
        e := Some(DuplicateKey);
      } else {
        records := records[c.id := c];
        e := None;
        InsertedKeyedById(old(records), c);
      }
    }

    /**
      Sets the save of the record keyed by `c.id` to `c`'s save and its last-parsed time
      to `now`. A record that is not there is not created, and that is not an error.
    */
    method Update(c: Character, now: int, fault: Option<string>) returns (e: Option<Error>)
      requires Valid()
      modifies this, log
      ensures Valid()
      ensures log.calls == old(log.calls) + [UpdateCall(c)]
      ensures e == (if fault.Some? then Some(Other(fault.value)) else None)
      ensures records == if e.None? then Refreshed(old(records), c, now) else old(records)
    {
      log.calls := log.calls + [UpdateCall(c)];
      if fault.Some? {
        e := Some(Other(fault.value));
      } else {
        if c.id in records {
          var stored := records[c.id];
          records := records[c.id := stored.(save := c.save, lastParsed := now)];
        }
        e := None;
      }
    }
  }
}
