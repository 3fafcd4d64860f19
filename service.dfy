/**
  The character service: it checks the requested name, reads the cached record, and
  either serves it, or parses the character and stores or refreshes the record,
  depending on how long ago the record was parsed. Every request is counted once under
  its outcome, and a request that yields a character also projects it onto the gauges.

  The save parser and the database are outside the model. What they answer if asked
  during one request is an input (`Replies`); each of them records in a shared call log
  that it was asked, so the log shows which of them a request asked and in which order.
*/
module CharacterService {
  import opened Wrappers
  import opened Domain
  import opened Calls
  import opened Names
  import opened Store
  import opened SaveParsing
  import opened Metrics

  /**
    The answers the collaborators give during one request, if asked: the parser's result
    for the name, and for each repository call the driver's failure (`None` when the
    call goes through).
  */
  datatype Replies = Replies(
    parsed: Result<Character, Error>,
    findFault: Option<string>,
    storeFault: Option<string>,
    updateFault: Option<string>)

  /**
    Everything one request decides: what it returns, the outcome it counts, the records
    afterwards, the collaborator calls it makes, and the character it projects onto the
    gauges, if any.
  */
  datatype Resolution = Resolution(
    result: Result<Character, Error>,
    status: Status,
    records: map<string, Character>,
    calls: seq<Call>,
    projected: Option<Character>)

  /** The record is at least `cacheDuration` old at time `now`, so it is parsed again. */
  predicate Stale(c: Character, now: int, cacheDuration: int) {
    now - c.lastParsed >= cacheDuration
  }

  /** The parser is asked exactly when the name is valid, the read succeeds, and there is no fresh record. */
  ghost predicate ParsesOn(name: string, records: map<string, Character>, now: int, cacheDuration: int, replies: Replies) {
    && ValidName(name)
    && replies.findFault.None?
    && (name !in records || Stale(records[name], now, cacheDuration))
  }

  /** After the repository reported no record for `name`: parse, then insert. */
  function ResolveUnknown(name: string, records: map<string, Character>, replies: Replies): (r: Resolution)
    ensures r.result.Ok? <==> r.status == Success
    ensures r.status != Success ==> r.records == records
    ensures KeyedById(records) ==> KeyedById(r.records)
    ensures |r.calls| > 0 && r.calls[0] == ParseCall(name)
  {
    match replies.parsed
    case Err(pe) =>
      Resolution(Err(pe), ParseError, records, [ParseCall(name)], None)
    case Ok(p) =>
      var calls := [ParseCall(name), StoreCall(p)];
      match InsertError(records, p, replies.storeFault)
      case Some(se) => Resolution(Err(se), StoreError, records, calls, None)
      case None => Resolution(Ok(p), Success, records[p.id := p], calls, Some(p))
  }

  /** After the repository returned a stale record for `name`: parse, then update. */
  function ResolveStale(name: string, records: map<string, Character>, now: int, replies: Replies): (r: Resolution)
    ensures r.result.Ok? <==> r.status == Success
    ensures r.status != Success ==> r.records == records
    ensures KeyedById(records) ==> KeyedById(r.records)
    ensures |r.calls| > 0 && r.calls[0] == ParseCall(name)
  {
    match replies.parsed
    case Err(pe) =>
      Resolution(Err(pe), ParseError, records, [ParseCall(name)], None)
    case Ok(p) =>
      var calls := [ParseCall(name), UpdateCall(p)];
      match replies.updateFault
      case Some(description) => Resolution(Err(Other(description)), UpdateError, records, calls, None)
      case None => Resolution(Ok(p), Success, Refreshed(records, p, now), calls, Some(p))
  }

  /** The same resolution, preceded by one more collaborator call. */
  function After(call: Call, r: Resolution): (later: Resolution) {
    r.(calls := [call] + r.calls)
  }

  /** One request for `name` at time `now` against `records`. */
  function Resolve(name: string, records: map<string, Character>, now: int, cacheDuration: int, replies: Replies): (r: Resolution)
    ensures r.result.Ok? <==> r.status == Success || r.status == Cached
    ensures r.projected == if r.result.Ok? then Some(r.result.value) else None
    ensures r.status != Success ==> r.records == records
    ensures KeyedById(records) ==> KeyedById(r.records)
    ensures ParseCall(name) in r.calls <==> ParsesOn(name, records, now, cacheDuration, replies)
    ensures r.calls == [] <==> !ValidName(name)
    ensures r.status == InvalidName <==> !ValidName(name)
  {
    if !ValidName(name) then
      Resolution(Err(InvalidArgument), InvalidName, records, [], None)
    else
      match Lookup(records, name, replies.findFault)
      case Err(e) =>
        if e == NotFound then
          After(FindCall(name), ResolveUnknown(name, records, replies))
        else
          Resolution(Err(e), DbError, records, [FindCall(name)], None)
      case Ok(c) =>
        if Stale(c, now, cacheDuration) then
          After(FindCall(name), ResolveStale(name, records, now, replies))
        else
          Resolution(Ok(c), Cached, records, [FindCall(name)], Some(c))
  }

  /** An invalid name is rejected before anything else is asked, and nothing is written. */
  lemma InvalidNameRejected(name: string, records: map<string, Character>, now: int, cacheDuration: int, replies: Replies)
    requires !ValidName(name)
    ensures Resolve(name, records, now, cacheDuration, replies)
      == Resolution(Err(InvalidArgument), InvalidName, records, [], None)
  {
  }

  /** A failed read other than "not found" is returned as it is; nothing is parsed or written. */
  lemma FindFailurePropagated(name: string, records: map<string, Character>, now: int, cacheDuration: int, replies: Replies)
    requires ValidName(name) && replies.findFault.Some?
    ensures Resolve(name, records, now, cacheDuration, replies)
      == Resolution(Err(Other(replies.findFault.value)), DbError, records, [FindCall(name)], None)
  {
  }

  /**
    A character with no record is parsed and stored: a parse failure is returned with
    `parse_error`, a failed insert (a driver failure, or a record already kept under the
    parsed character's id) with `store_error`, both without a write; otherwise the parsed
    character is inserted as given and returned with `success`.
  */
  lemma UnknownCharacterParsedAndStored(name: string, records: map<string, Character>, now: int, cacheDuration: int, replies: Replies)
    requires ValidName(name) && replies.findFault.None? && name !in records
    ensures var r := Resolve(name, records, now, cacheDuration, replies);
      match replies.parsed
      case Err(pe) =>
        r == Resolution(Err(pe), ParseError, records, [FindCall(name), ParseCall(name)], None)
      case Ok(p) =>
        && r.calls == [FindCall(name), ParseCall(name), StoreCall(p)]
        && (replies.storeFault.Some? ==> r.result == Err(Other(replies.storeFault.value)) && r.status == StoreError && r.records == records)
        && (replies.storeFault.None? && p.id in records ==> r.result == Err(DuplicateKey) && r.status == StoreError && r.records == records)
        && (replies.storeFault.None? && p.id !in records ==> r.result == Ok(p) && r.status == Success && r.records == records[p.id := p])
  {
  }

  /** A record parsed less than `cacheDuration` ago is returned as stored, without parsing or writing. */
  lemma FreshRecordServedFromCache(name: string, records: map<string, Character>, now: int, cacheDuration: int, replies: Replies)
    requires ValidName(name) && replies.findFault.None? && name in records
    requires !Stale(records[name], now, cacheDuration)
    ensures Resolve(name, records, now, cacheDuration, replies)
      == Resolution(Ok(records[name]), Cached, records, [FindCall(name)], Some(records[name]))
  {
  }

  /**
    A record parsed `cacheDuration` or more ago is parsed again: a parse failure is
    returned with `parse_error`, a failed update with `update_error`, both without a
    write; otherwise the record keyed by the parsed character's name takes the new save
    and `now` as its last-parsed time, and the parsed character is returned with `success`.
  */
  lemma StaleRecordRefreshed(name: string, records: map<string, Character>, now: int, cacheDuration: int, replies: Replies)
    requires ValidName(name) && replies.findFault.None? && name in records
    requires Stale(records[name], now, cacheDuration)
    ensures var r := Resolve(name, records, now, cacheDuration, replies);
      match replies.parsed
      case Err(pe) =>
        r == Resolution(Err(pe), ParseError, records, [FindCall(name), ParseCall(name)], None)
      case Ok(p) =>
        && r.calls == [FindCall(name), ParseCall(name), UpdateCall(p)]
        && (replies.updateFault.Some? ==> r.result == Err(Other(replies.updateFault.value)) && r.status == UpdateError && r.records == records)
        && (replies.updateFault.None? ==> r.result == Ok(p) && r.status == Success && r.records == Refreshed(records, p, now))
  {
  }

  /** With a cache duration of zero or less, a record whose time is not in the future is never served from the cache. */
  lemma NoCacheDurationAlwaysRefreshes(name: string, records: map<string, Character>, now: int, cacheDuration: int, replies: Replies)
    requires cacheDuration <= 0
    requires name in records && records[name].lastParsed <= now
    ensures Resolve(name, records, now, cacheDuration, replies).status != Cached
  {
  }

  /**
    A successful refresh with a positive cache duration moves the stored last-parsed time
    of the character strictly forward.
  */
  lemma RefreshAdvancesLastParsed(name: string, records: map<string, Character>, now: int, cacheDuration: int, replies: Replies)
    requires cacheDuration > 0 && name in records
    requires replies.parsed.Ok? && replies.parsed.value.id == name
    requires Resolve(name, records, now, cacheDuration, replies).status == Success
    ensures var r := Resolve(name, records, now, cacheDuration, replies);
      name in r.records && r.records[name].lastParsed > records[name].lastParsed
  {
  }

  /**
    A first request for "Testchar" against an empty repository, with a three-minute cache
    duration, when the parser answers with a level 42 sorceress of strength 50: the
    character is stored as parsed, its level and strength gauges are set, and the
    request is counted once as a success.
  */
  lemma FirstRequestStoresAndProjects(now: int, registryGauges: map<Series, int>)
    ensures
      var p := Character("Testchar", Some(Save("sorceress", 42, 50, 0, 0, 0, [])), now);
      var r := Resolve("Testchar", map[], now, 180 * NanosPerSecond, Replies(Ok(p), None, None, None));
      var g := Project(registryGauges, r.projected);
      && r.result == Ok(p)
      && r.records == map["Testchar" := p]
      && g[LevelOf("Testchar", "sorceress", "false")] == 42
      && g[StatOf("Testchar", Strength)] == 50
      && Bump(map[], ("Testchar", r.status)) == map[("Testchar", Success) := 1]
  {
    var p := Character("Testchar", Some(Save("sorceress", 42, 50, 0, 0, 0, [])), now);
    var replies := Replies(Ok(p), None, None, None);
    TestcharAccepted();
    UnknownCharacterParsedAndStored("Testchar", map[], now, 180 * NanosPerSecond, replies);
    ProjectedValues(registryGauges, p, p.save.value);
  }

  /** The service holding the save parser, the character repository and the cache duration. */
  class Service {
    const parser: SaveParser
    const characters: CharacterStore
    const cacheDuration: int

    constructor (parser: SaveParser, characters: CharacterStore, cacheDuration: int)
      ensures this.parser == parser && this.characters == characters && this.cacheDuration == cacheDuration
    {
      this.parser := parser;
      this.characters := characters;
      this.cacheDuration := cacheDuration;
    }

    /**
      Resolves the character `name` at time `now`, writing through the repository and
      into the process-wide metrics `registry`. The faults are the driver's failures, if
      any, on the repository calls of this request; the parser and the repository record
      their calls in one log.
    */
    method Parse(name: string, now: int, findFault: Option<string>, storeFault: Option<string>, updateFault: Option<string>, registry: Registry)
      returns (r: Result<Character, Error>)
      requires characters.Valid() && parser.log == characters.log
      modifies characters, characters.log, registry
      ensures characters.Valid()
      ensures var res := Resolve(name, old(characters.records), now, cacheDuration, Replies(parser.answer, findFault, storeFault, updateFault));
        && r == res.result
        && characters.records == res.records
        && characters.log.calls == old(characters.log.calls) + res.calls
        && registry.parses == Bump(old(registry.parses), (name, res.status))
        && registry.gauges == Project(old(registry.gauges), res.projected)
    {
      var replies := Replies(parser.answer, findFault, storeFault, updateFault);
      if !ValidName(name) {
        registry.IncParses(name, InvalidName);
        return Err(InvalidArgument);
      }

      var found := characters.Find(name, findFault);
      ghost var afterFind := characters.log.calls;
      if found.Err? {
        if found.error == NotFound {
          r := ParseAndStore(name, replies, registry);
          assert characters.log.calls == old(characters.log.calls) + ([FindCall(name)] + ResolveUnknown(name, old(characters.records), replies).calls);
          return;
        }

        registry.IncParses(name, DbError);
        return Err(found.error);
      }

      var c := found.value;
      if Stale(c, now, cacheDuration) {
        r := ParseAndUpdate(name, now, replies, registry);
        assert characters.log.calls == old(characters.log.calls) + ([FindCall(name)] + ResolveStale(name, old(characters.records), now, replies).calls);
        return;
      }

      registry.UpdateCharacterMetrics(Some(c));
      registry.IncParses(name, Cached);
      return Ok(c);
    }

    /** The branch of `Parse` for a character without a record. */
    method ParseAndStore(name: string, replies: Replies, registry: Registry) returns (r: Result<Character, Error>)
      requires characters.Valid() && parser.log == characters.log && replies.parsed == parser.answer
      modifies characters, characters.log, registry
      ensures characters.Valid()
      ensures var res := ResolveUnknown(name, old(characters.records), replies);
        && r == res.result
        && characters.records == res.records
        && characters.log.calls == old(characters.log.calls) + res.calls
        && registry.parses == Bump(old(registry.parses), (name, res.status))
        && registry.gauges == Project(old(registry.gauges), res.projected)
    {
      var parsed := parser.Parse(name);
      if parsed.Err? {
        registry.IncParses(name, ParseError);
        return Err(parsed.error);
      }

      var storeError := characters.Store(parsed.value, replies.storeFault);
      if storeError.Some? {
        registry.IncParses(name, StoreError);
        return Err(storeError.value);
      }

      registry.UpdateCharacterMetrics(Some(parsed.value));
      registry.IncParses(name, Success);
      return Ok(parsed.value);
    }

    /** The branch of `Parse` for a stale record. */
    method ParseAndUpdate(name: string, now: int, replies: Replies, registry: Registry) returns (r: Result<Character, Error>)
      requires characters.Valid() && parser.log == characters.log && replies.parsed == parser.answer
      modifies characters, characters.log, registry
      ensures characters.Valid()
      ensures var res := ResolveStale(name, old(characters.records), now, replies);
        && r == res.result
        && characters.records == res.records
        && characters.log.calls == old(characters.log.calls) + res.calls
        && registry.parses == Bump(old(registry.parses), (name, res.status))
        && registry.gauges == Project(old(registry.gauges), res.projected)
    {
      var parsed := parser.Parse(name);
      if parsed.Err? {
        registry.IncParses(name, ParseError);
        return Err(parsed.error);
      }

      var updateError := characters.Update(parsed.value, now, replies.updateFault);
      if updateError.Some? {
        registry.IncParses(name, UpdateError);
        return Err(updateError.value);
      }

      registry.UpdateCharacterMetrics(Some(parsed.value));
      registry.IncParses(name, Success);
      return Ok(parsed.value);
    }
  }
}
