/**
  The metric vectors of the character service and the projection of one character onto
  them. A gauge vector keeps, per label tuple, the value last `Set`; a counter vector
  keeps, per label tuple, how many times it was incremented. Both are maps here, keyed
  by the series (gauge and label values) or by the label pair of the parse counter.
*/
module Metrics {
  import opened Wrappers
  import opened Domain

  /** The label value of the `stat` label of `d2_character_stats`. */
  datatype Stat = Strength | Dexterity | Vitality | Energy {
    function Label(): (text: string) {
      match this
      case Strength => "strength"
      case Dexterity => "dexterity"
      case Vitality => "vitality"
      case Energy => "energy"
    }
  }

  /**
    One gauge series: a gauge vector of the metrics package and the values of its
    labels. Every vector's first label is the character name.
  */
  datatype Series =
    | LevelOf(character: string, charClass: string, hardcore: string)
    | DeathsOf(character: string, charClass: string, hardcore: string)
    | StatOf(character: string, stat: Stat)
    | ItemCountOf(character: string, quality: string)
    | SocketedItemCountOf(character: string)
    | LastParsedOf(character: string)
  {
    /** The exported metric name of the series' vector. */
    function Name(): (text: string)
      ensures "d2_character_" <= text
    {
      match this
      case LevelOf(_, _, _) => "d2_character_level"
      case DeathsOf(_, _, _) => "d2_character_deaths"
      case StatOf(_, _) => "d2_character_stats"
      case ItemCountOf(_, _) => "d2_character_item_count"
      case SocketedItemCountOf(_) => "d2_character_socketed_item_count"
      case LastParsedOf(_) => "d2_character_last_parsed_timestamp"
    }
  }

  /** The outcome label of the parse counter `d2_character_parses_total`. */
  datatype Status = InvalidName | ParseError | StoreError | DbError | UpdateError | Success | Cached {
    function Label(): (text: string)
      ensures |text| > 0
    {
      match this
      case InvalidName => "invalid_name"
      case ParseError => "parse_error"
      case StoreError => "store_error"
      case DbError => "db_error"
      case UpdateError => "update_error"
      case Success => "success"
      case Cached => "cached"
    }
  }

  /** Series of the same vector, as their constructors say. */
  predicate SameVector(a: Series, b: Series) {
    || (a.LevelOf? && b.LevelOf?)
    || (a.DeathsOf? && b.DeathsOf?)
    || (a.StatOf? && b.StatOf?)
    || (a.ItemCountOf? && b.ItemCountOf?)
    || (a.SocketedItemCountOf? && b.SocketedItemCountOf?)
    || (a.LastParsedOf? && b.LastParsedOf?)
  }

  /** Each gauge vector is exported under a name of its own. */
  lemma SeriesNamesIdentifyVector(a: Series, b: Series)
    ensures a.Name() == b.Name() <==> SameVector(a, b)
  {
  }

  /** The four base stats are set under four different `stat` label values. */
  lemma StatLabelsDistinct(a: Stat, b: Stat)
    requires a != b
    ensures a.Label() != b.Label()
  {
  }

  /** Different outcomes are counted under different label values. */
  lemma StatusLabelsDistinct(a: Status, b: Status)
    requires a != b
    ensures a.Label() != b.Label()
  {
  }

  /** The value of the `hardcore` label; the projection never reads the save's status bits. */
  const NotHardcore: string := "false"

  predicate Socketed(item: Item) {
    item.nrOfItemsInSockets > 0
  }

  /** The number of items with at least one item in their sockets. */
  function SocketedCount(items: seq<Item>): (n: nat)
    ensures n <= |items|
    ensures n == 0 <==> forall i | 0 <= i < |items| :: !Socketed(items[i])
    ensures n == |items| <==> forall i | 0 <= i < |items| :: Socketed(items[i])
  {
    if items == [] then 0
    else
      var init := items[..|items| - 1];
      assert forall i | 0 <= i < |init| :: init[i] == items[i];
      SocketedCount(init) + if Socketed(items[|items| - 1]) then 1 else 0
  }

  /** The positions of the socketed items, an independent statement of what is counted. */
  ghost function SocketedPositions(items: seq<Item>): (positions: set<int>) {
    set i | 0 <= i < |items| && Socketed(items[i])
  }

  lemma {:induction false} SocketedCountIsCardinality(items: seq<Item>)
    ensures SocketedCount(items) == |SocketedPositions(items)|
  {
    if items != [] {
      var last := |items| - 1;
      var init := items[..last];
      SocketedCountIsCardinality(init);
      assert forall i | 0 <= i < last :: init[i] == items[i];
      if Socketed(items[last]) {
        assert SocketedPositions(items) == SocketedPositions(init) + {last};
      } else {
        assert SocketedPositions(items) == SocketedPositions(init);
      }
    }
  }

  /**
    The series one character's projection sets, with their values: the level under
    (name, class, hardcore), the last-parsed time in Unix seconds, the four base stats,
    and the number of socketed items. Nothing is set for a missing character or a
    character without a parsed save.
  */
  function Observations(character: Option<Character>): (obs: map<Series, int>)
    ensures character.None? || character.value.save.None? ==> obs == map[]
    ensures forall s | s in obs :: character.Some? && s.character == character.value.id
    ensures forall s | s in obs :: !s.DeathsOf? && !s.ItemCountOf?
  {
    match character
    case None => map[]
    case Some(c) =>
      match c.save
      case None => map[]
      case Some(d) =>
        map[
          LevelOf(c.id, d.charClass, NotHardcore) := d.level,
          LastParsedOf(c.id) := UnixSeconds(c.lastParsed),
          StatOf(c.id, Strength) := d.strength,
          StatOf(c.id, Dexterity) := d.dexterity,
          StatOf(c.id, Vitality) := d.vitality,
          StatOf(c.id, Energy) := d.energy,
          SocketedItemCountOf(c.id) := SocketedCount(d.items)]
  }

  /** The gauges after projecting `character`: every series it sets takes the new value. */
  function Project(gauges: map<Series, int>, character: Option<Character>): (g: map<Series, int>)
  {
    gauges + Observations(character)
  }

  /** What each gauge holds after the projection of a character with a parsed save. */
  lemma ProjectedValues(gauges: map<Series, int>, c: Character, d: Save)
    requires c.save == Some(d)
    ensures var g := Project(gauges, Some(c));
      && g[LevelOf(c.id, d.charClass, "false")] == d.level
      && g[LastParsedOf(c.id)] == UnixSeconds(c.lastParsed)
      && g[StatOf(c.id, Strength)] == d.strength
      && g[StatOf(c.id, Dexterity)] == d.dexterity
      && g[StatOf(c.id, Vitality)] == d.vitality
      && g[StatOf(c.id, Energy)] == d.energy
      && g[SocketedItemCountOf(c.id)] == |SocketedPositions(d.items)|
  {
    SocketedCountIsCardinality(d.items);
  }

  /** Every write is a `Set`: projecting the same character twice is projecting it once. */
  lemma ProjectIdempotent(gauges: map<Series, int>, character: Option<Character>)
    ensures Project(Project(gauges, character), character) == Project(gauges, character)
  {
  }

  /**
    Only this character's series change: a series that is not labelled with the
    character's name, and every deaths and item-count series, keeps its value.
  */
  lemma ProjectLeavesOthers(gauges: map<Series, int>, character: Option<Character>)
    ensures forall s | s in gauges && (character.None? || s.character != character.value.id) ::
      s in Project(gauges, character) && Project(gauges, character)[s] == gauges[s]
    ensures forall s | s in gauges && (s.DeathsOf? || s.ItemCountOf?) ::
      s in Project(gauges, character) && Project(gauges, character)[s] == gauges[s]
    ensures Project(gauges, character).Keys == gauges.Keys + Observations(character).Keys
  {
  }

  /** Setting the series of two batches with no series in common, in either order, gives the same gauges. */
  lemma DisjointWritesCommute(gauges: map<Series, int>, x: map<Series, int>, y: map<Series, int>)
    requires x.Keys !! y.Keys
    ensures (gauges + x) + y == (gauges + y) + x
  {
  }

  /** Projections of two different characters touch disjoint series, so their order does not matter. */
  lemma ProjectionsCommute(gauges: map<Series, int>, a: Character, b: Character)
    requires a.id != b.id
    ensures Project(Project(gauges, Some(a)), Some(b)) == Project(Project(gauges, Some(b)), Some(a))
  {
    var oa, ob := Observations(Some(a)), Observations(Some(b));
    forall s | s in oa
      ensures s !in ob
    {
      assert s.character == a.id;
    }
    DisjointWritesCommute(gauges, oa, ob);
  }

  /**
    Projecting a character is the same as setting its seven series one after another,
    in the order the source sets them.
  */
  lemma ProjectIsSetsInOrder(gauges: map<Series, int>, c: Character, d: Save)
    requires c.save == Some(d)
    ensures Project(gauges, Some(c)) ==
      gauges[LevelOf(c.id, d.charClass, NotHardcore) := d.level]
            [LastParsedOf(c.id) := UnixSeconds(c.lastParsed)]
            [StatOf(c.id, Strength) := d.strength]
            [StatOf(c.id, Dexterity) := d.dexterity]
            [StatOf(c.id, Vitality) := d.vitality]
            [StatOf(c.id, Energy) := d.energy]
            [SocketedItemCountOf(c.id) := SocketedCount(d.items)]
  {
  }

  /** The parse counter after one increment of `key`: that entry goes up by one, no other changes. */
  function Bump(counter: map<(string, Status), nat>, key: (string, Status)): (r: map<(string, Status), nat>)
    ensures r.Keys == counter.Keys + {key}
    ensures key in counter ==> r[key] == counter[key] + 1
    ensures key !in counter ==> r[key] == 1
    ensures forall k | k in counter && k != key :: r[k] == counter[k]
  {
    counter[key := if key in counter then counter[key] + 1 else 1]
  }

  /** The process-wide metric vectors the character service writes to. */
  class Registry {
    var gauges: map<Series, int>
    var parses: map<(string, Status), nat>

    constructor ()
      ensures gauges == map[] && parses == map[]
    {
      gauges := map[];
      parses := map[];
    }

    /** Counts one parse request for `name` with outcome `status`. */
    method IncParses(name: string, status: Status)
      modifies this`parses
      ensures parses == Bump(old(parses), (name, status))
    {
      var key := (name, status);
      var count := if key in parses then parses[key] else 0;
      parses := parses[key := count + 1];
    }

    /** Sets the gauges of one character from its parsed save. */
    method UpdateCharacterMetrics(character: Option<Character>)
      modifies this`gauges
      ensures gauges == Project(old(gauges), character)
    {
      if character.None? || character.value.save.None? {
        return;
      }
      var c := character.value;
      var d := c.save.value;
      var name := c.id;
      var className := d.charClass;
      var hardcore := NotHardcore;
      gauges := gauges[LevelOf(name, className, hardcore) := d.level];
      gauges := gauges[LastParsedOf(name) := UnixSeconds(c.lastParsed)];
      gauges := gauges[StatOf(name, Strength) := d.strength];
      gauges := gauges[StatOf(name, Dexterity) := d.dexterity];
      gauges := gauges[StatOf(name, Vitality) := d.vitality];
      gauges := gauges[StatOf(name, Energy) := d.energy];
      UpdateItemMetrics(name, d);
      ProjectIsSetsInOrder(old(gauges), c, d);
    }

    /** Counts the socketed items of a save and sets the socketed-item gauge to the count. */
    method UpdateItemMetrics(charName: string, d: Save)
      modifies this`gauges
      ensures gauges == old(gauges)[SocketedItemCountOf(charName) := SocketedCount(d.items)]
    {
      var socketedCount := 0;
      for i := 0 to |d.items|
        invariant socketedCount == SocketedCount(d.items[..i])
      {
        assert d.items[..i + 1][..i] == d.items[..i];
        if d.items[i].nrOfItemsInSockets > 0 {
          socketedCount := socketedCount + 1;
        }
      }
      assert d.items[..|d.items|] == d.items;
      gauges := gauges[SocketedItemCountOf(charName) := socketedCount];
    }
  }
}
