# d2-armory-api character core, modelled in Dafny

The armory API serves parsed Diablo II characters. Its character service checks the
requested name against the rule `^[a-zA-Z]+[_-]?[a-zA-Z]+$`, looks the character up in
the database, and then does one of three things: it parses and stores a character it
has never seen, serves a record parsed less than the cache duration ago, or parses a
stale record again and updates it. Every request is counted once under its outcome
(`invalid_name`, `parse_error`, `store_error`, `db_error`, `update_error`, `success`,
`cached`). A request that yields a character also projects it onto Prometheus gauges:
level, last-parsed time, four base stats and the number of socketed items.

Files (one module each):

- `wrappers.dfy`: `Option` and `Result`.
- `domain.dfy`: the parsed save, the cached character record, the errors, and Unix seconds.
- `calls.dfy`: the calls to the service's collaborators and the log they record them in.
- `parser.dfy`: the save parser as the service sees it. Its answer is a field, and each
  request to it is recorded in the call log.
- `names.dfy`: the name rule. The matcher is a six-state automaton. It is proved equal to
  the pattern's language read part by part, and to a position-by-position description.
- `store.dfy`: the repository contract. `CharacterStore` is a class whose `records` map is
  keyed by character name. `Find`, `Store` and `Update` are methods, and each is tied to a
  function on the map. Each records its own call in the call log.
- `metrics.dfy`: the gauge and counter vectors and the projection. A gauge series is one
  constructor per gauge vector, with that vector's labels as fields. `Registry` is a class
  whose gauge and counter maps are updated in place. `UpdateItemMetrics` counts socketed
  items in a loop.
- `service.dfy`: the request. `Resolve` is a function that states everything one request
  decides. `Service.Parse` is the imperative method, proved to do exactly what `Resolve`
  says. The lemmas state each path's outcome.

Modelling choices:

- Times are integers in nanoseconds since the Unix epoch. `now` is a parameter.
- The save parser's answer and the database failures are inputs. The answer is a field of
  the parser object. Each repository call takes the driver's failure, or none, as a parameter.
  `Replies` gathers them for the spec functions.
- The parser and the repository append each call made to them to one shared ghost log.
  The service never writes that log, so when `Parse`'s contract says which calls were
  made, those are the collaborator methods that actually ran. This is how the contracts
  say the parser was not asked or no write happened.
- The not-found and stale branches of the request are split into two helper methods,
  `ParseAndStore` and `ParseAndUpdate`, each with its own spec function.
- The process-wide metric vectors are a `Registry` object passed to `Parse`.
- Gauge values are integers. The source's float conversion only widens integers.

## Model

| member | source | states |
|---|---|---|
| `Names.RunAcceptsResidual` | internal/character/service.go:37 | From any automaton state, the matcher accepts the rest of a name exactly when the rest fits what that state still needs |
| `Names.ValidNameIffShape` | internal/character/service.go:37 | A name is accepted iff it has at least two characters, starts and ends with a letter, holds only ASCII letters, `_` and `-`, and has at most one separator |
| `Names.ShapeMatchesPattern` | internal/character/service.go:37 | Every name of that shape splits into letters, an optional single `_` or `-`, and letters |
| `Names.PatternHasShape` | internal/character/service.go:37 | Every name in the pattern's language has that shape |
| `Names.ValidNameIffPattern` | internal/character/service.go:37 | The matcher accepts exactly the language of `^[a-zA-Z]+[_-]?[a-zA-Z]+$` |
| `Names.AcceptedNameProperties` | internal/character/service.go:41 | An accepted name has at least two characters, no digit, no leading or trailing separator and no doubled separator |
| `Names.TestUnderscoreNameAccepted` | internal/character/service.go:37 | "Test_name" is accepted |
| `Names.TestcharAccepted` | internal/character/service.go:37 | "Testchar" is accepted |
| `Names.TestDashNameAccepted` | internal/character/service.go:37 | "Test-Name" is accepted |
| `Names.ShortNamesRejected` | internal/character/service.go:37 | "" and "a" are rejected |
| `Names.MisplacedSeparatorsRejected` | internal/character/service.go:37 | "_test", "test_", "te--st" and "te_s-t" are rejected |
| `Names.DigitsRejected` | internal/character/service.go:37 | "test123" is rejected |
| `Domain.UnixSeconds` | internal/metrics/character_metrics.go:91 | The whole Unix seconds of a nanosecond time, rounded down |
| `Store.Lookup` | internal/mgo/characters.go:24-37 | With no driver failure, `Find` returns the record iff one is keyed by the id, and `NotFound` otherwise; a driver failure is returned as the error; over records kept under their own ids, a record found has the requested id |
| `Store.LookupAfterInsert` | internal/mgo/characters.go:24-37 | After an insert, `Find` answers the inserted character for its id and answers every other id as before |
| `Store.LookupAfterRefresh` | internal/mgo/characters.go:39-56 | After an update, `Find` answers the stored record with the new save and last-parsed time, still `NotFound` when there was no record, and every other id as before |
| `Store.InsertError` | internal/mgo/characters.go:58-67 | An insert succeeds iff the driver does not fail and no record has the same id |
| `Store.Refreshed` | internal/mgo/characters.go:39-56 | A successful update changes only the record keyed by the character's id, and only its save and last-parsed time (set to now); it adds no record |
| `Store.InsertedKeyedById` | internal/mgo/characters.go:58-67 | Inserting keeps every record under its own id |
| `Store.RefreshedKeyedById` | internal/mgo/characters.go:39-56 | Updating keeps every record under its own id |
| `Store.CharacterStore.constructor` | internal/mgo/characters.go:69-75 | A new repository is over a collection that may already hold records, each under its own id, and holds exactly those |
| `Store.CharacterStore.Find` | internal/mgo/characters.go:24-37 | Reads without writing records, answers as `Lookup`, and in a valid repository any record it returns has the requested id; it records one find call |
| `Store.CharacterStore.Store` | internal/mgo/characters.go:58-67 | Inserts the character as given on success and writes nothing on error; it records one store call either way |
| `Store.CharacterStore.Update` | internal/mgo/characters.go:39-56 | Returns the driver's failure and writes nothing, or applies `Refreshed` with the given time; it records one update call either way |
| `SaveParsing.SaveParser.Parse` | internal/character/service.go:15-18 | Answers the parser's current answer for the name and records one parse call |
| `Metrics.Series.Name` | internal/metrics/character_metrics.go:10-66 | Every gauge vector is exported under a `d2_character_` name |
| `Metrics.SeriesNamesIdentifyVector` | internal/metrics/character_metrics.go:10-66 | Two series share an exported name iff they belong to the same gauge vector |
| `Metrics.StatLabelsDistinct` | internal/metrics/character_metrics.go:94-97 | The four base stats are set under four different `stat` label values |
| `Metrics.StatusLabelsDistinct` | internal/character/service.go:43-100 | The seven outcomes are counted under seven different label values |
| `Metrics.SocketedCount` | internal/metrics/character_metrics.go:103-117 | The socketed count is between 0 and the number of items. It is 0 iff no item has a socketed item, and equals the item count iff every item does |
| `Metrics.SocketedCountIsCardinality` | internal/metrics/character_metrics.go:109-114 | The socketed count equals the number of positions holding an item with more than zero socketed items |
| `Metrics.Observations` | internal/metrics/character_metrics.go:69-101 | A missing character or a missing save sets nothing. Every series set is labelled with the character's name, and no deaths or item-count series is set |
| `Metrics.ProjectedValues` | internal/metrics/character_metrics.go:76-116 | After projection: the level gauge under (name, class, "false") is the save's level, and the last-parsed gauge is the Unix seconds. Each of strength, dexterity, vitality and energy equals its attribute, and the socketed gauge is the number of socketed items |
| `Metrics.ProjectIsSetsInOrder` | internal/metrics/character_metrics.go:86-116 | Projecting a character equals setting its seven series one after another, in the source's order |
| `Metrics.ProjectIdempotent` | internal/metrics/character_metrics.go:86-116 | Projecting the same character twice leaves the gauges as projecting it once |
| `Metrics.ProjectLeavesOthers` | internal/metrics/character_metrics.go:19-41 | Series of other characters, and all deaths and item-count series keep their values; no series is removed |
| `Metrics.ProjectionsCommute` | internal/metrics/character_metrics.go:86-116 | Projections of two characters with different names can be applied in either order |
| `Metrics.Bump` | internal/metrics/character_metrics.go:51-57 | One increment raises the given (name, status) entry by one (from zero if absent) and changes no other entry |
| `Metrics.Registry.constructor` | internal/metrics/character_metrics.go:10-66 | All gauge and counter vectors start empty |
| `Metrics.Registry.IncParses` | internal/character/service.go:43 | The parse counter is incremented under (name, status) and nothing else changes |
| `Metrics.Registry.UpdateCharacterMetrics` | internal/metrics/character_metrics.go:69-101 | The gauges become the old gauges with every observed series set to its projected value |
| `Metrics.Registry.UpdateItemMetrics` | internal/metrics/character_metrics.go:103-117 | The loop counts the socketed items. Exactly the socketed gauge of the name is set, to that count |
| `CharacterService.ResolveUnknown` | internal/character/service.go:50-66 | After not-found, a character is returned iff the outcome is `success`. Any other outcome leaves the records unchanged, records stay keyed by id, and the parser is asked first |
| `CharacterService.ResolveStale` | internal/character/service.go:77-94 | After a stale record, a character is returned iff the outcome is `success`. Any other outcome leaves the records unchanged, records stay keyed by id, and the parser is asked first |
| `CharacterService.Resolve` | internal/character/service.go:40-102 | A character is returned iff the outcome is `success` or `cached`, and exactly that character is projected. Any other outcome leaves the records unchanged. Records stay keyed by id. The parser is asked iff the name is valid, the read succeeds and no fresh record exists. An invalid name asks no collaborator |
| `CharacterService.InvalidNameRejected` | internal/character/service.go:41-45 | An invalid name returns the invalid-argument error with `invalid_name`, asks no collaborator and writes nothing |
| `CharacterService.FindFailurePropagated` | internal/character/service.go:69-71 | A read failure other than not-found is returned unchanged with `db_error`, after only the read |
| `CharacterService.UnknownCharacterParsedAndStored` | internal/character/service.go:50-66 | For an unknown name: a parse failure gives `parse_error`. An insert failure gives `store_error`, whether it is a driver failure or a duplicate key because a record is already kept under the parsed character's id. Neither writes anything. Otherwise the parsed character is inserted and returned with `success` |
| `CharacterService.FreshRecordServedFromCache` | internal/character/service.go:97-101 | A record younger than the cache duration is returned as stored with `cached`. The parser is not asked and nothing is written |
| `CharacterService.StaleRecordRefreshed` | internal/character/service.go:77-94 | A record at least the cache duration old is parsed again. A parse failure gives `parse_error` and an update failure gives `update_error`, with no write. Otherwise the stored save and last-parsed time are replaced and the parsed character is returned with `success` |
| `CharacterService.NoCacheDurationAlwaysRefreshes` | internal/character/service.go:77 | With a cache duration of zero or less, a record whose time is not in the future is never served from the cache |
| `CharacterService.RefreshAdvancesLastParsed` | internal/character/service.go:77-89 | With a positive cache duration, when the parser answers for the requested name, a successful refresh moves the stored last-parsed time strictly forward |
| `CharacterService.FirstRequestStoresAndProjects` | internal/character/service.go:50-66 | A first request for a new character stores it as parsed, sets its level and strength gauges, and counts one `success` |
| `CharacterService.Service.constructor` | internal/character/service.go:104-111 | The service holds the given parser, repository and cache duration |
| `CharacterService.Service.Parse` | internal/character/service.go:40-102 | Returns `Resolve`'s result and leaves the repository as `Resolve` says. The collaborators record exactly `Resolve`'s calls, in order, in their shared log. It counts exactly one (name, outcome). It projects exactly `Resolve`'s character |
| `CharacterService.Service.ParseAndStore` | internal/character/service.go:52-66 | The not-found branch: returns, writes, has the collaborators record, counts and projects exactly as `ResolveUnknown` says |
| `CharacterService.Service.ParseAndUpdate` | internal/character/service.go:78-94 | The stale branch: returns, writes, has the collaborators record, counts and projects exactly as `ResolveStale` says |

## Left out

- Concurrency is not modelled: two simultaneous requests for one name, joining an in-flight refresh, and per-name locking. The source has no locking. Cancellation through the request context is not modelled either, since the context is only passed through.
- How the save parser fetches and decodes a save is not part of this model. Its answer is a field of the parser object, set from outside. It always yields a character or an error; a nil character with a nil error is not modelled.
- The MongoDB driver and wire format are not part of this model. The failure a driver error is mapped to is an opaque description. `errors.Is` on a wrapped not-found error is modelled as equality.
- Inserting a second record with an id already present fails with a duplicate-key error. The source code does not show this; the model keeps at most one record per name.
- MongoDB stores times with millisecond precision, so a re-read last-parsed time may be truncated. This is not modelled.
- The source reads the clock twice: once for the age test and once inside `Update`. The model uses one `now` for both.
- Time arithmetic is on unbounded integers. Go's saturation of `time.Since` at the limits of a 64-bit duration is not modelled.
- Gauge values are float64 in the source. The model keeps them as integers and does not model rounding of values above 2^53.
- The class label is whatever the Go conversion `string(d2sChar.Header.Class)` yields (internal/metrics/character_metrics.go:76). That depends on the parser library's type for `Class`; an integer-kinded type would give a one-rune string. The model keeps the label as an opaque string.
- Hardcore status is always the label "false". The commented-out bitmask test and the deaths gauge are not implemented in the source, and the item-count-by-quality gauge is declared but never set. None of them is modelled beyond staying untouched.
- The parser and the repository share one call log. `Parse` requires that they do, so the log can show the order of calls across both.
- HTTP routing, CORS, logging, timeouts, the statistics service and its generated mocks, and the stub listing handler are outside the modelled core.
