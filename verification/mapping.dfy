/**
 * `MappingManager` (core/mapping.py): the manual-override table, keyed by
 * filename. An entry is either a legacy bare TMDB id or a record with the keys
 * `id`, `season` and `episode`.
 */
module Mapping {
  import opened Wrappers

  /** A value of the table as the JSON file holds it: a legacy integer id, a record,
      or `null`. */
  datatype Stored = LegacyId(id: int) | Record(fields: map<string, int>) | Null

  /** `get_data(filename)` (core/mapping.py:33-41) on the table m: no entry (or a
      `null` one) reads as an empty record, a legacy id n as `{"id": n}`, a record as
      itself. */
  function Lookup(m: map<string, Stored>, filename: string): (d: map<string, int>)
    ensures filename !in m || m[filename].Null? ==> d == map[]
    ensures filename in m && m[filename].LegacyId? ==> d.Keys == {"id"} && d["id"] == m[filename].id
    ensures filename in m && m[filename].Record? ==> d == m[filename].fields
  {
    if filename !in m then map[]
    else match m[filename]
      case Null => map[]
      case LegacyId(n) => map["id" := n]
      case Record(fields) => fields
  }

  /** The update's argument for key is given. */
  predicate Sets(key: string, tmdbId: Option<int>, season: Option<int>, episode: Option<int>) {
    (key == "id" && tmdbId.Some?) || (key == "season" && season.Some?) || (key == "episode" && episode.Some?)
  }

  /** The changes of `update` (core/mapping.py:47-52) to a record: each argument that
      is given is stored under its key; every other key keeps its value. */
  function Merge(current: map<string, int>, tmdbId: Option<int>, season: Option<int>, episode: Option<int>)
    : (r: map<string, int>)
    ensures r.Keys == current.Keys
      + (if tmdbId.Some? then {"id"} else {})
      + (if season.Some? then {"season"} else {})
      + (if episode.Some? then {"episode"} else {})
    ensures tmdbId.Some? ==> r["id"] == tmdbId.value
    ensures season.Some? ==> r["season"] == season.value
    ensures episode.Some? ==> r["episode"] == episode.value
    ensures forall key :: key in current && !Sets(key, tmdbId, season, episode) ==> r[key] == current[key]
  {
    var withId := if tmdbId.Some? then current["id" := tmdbId.value] else current;
    var withSeason := if season.Some? then withId["season" := season.value] else withId;
    if episode.Some? then withSeason["episode" := episode.value] else withSeason
  }

  /** The table after `update(filename, tmdb_id, season, episode)`. */
  function Updated(m: map<string, Stored>, filename: string, tmdbId: Option<int>, season: Option<int>, episode: Option<int>)
    : (r: map<string, Stored>)
    ensures r.Keys == m.Keys + {filename}
    ensures forall f :: f in m && f != filename ==> r[f] == m[f]
    ensures r[filename] == Record(Merge(Lookup(m, filename), tmdbId, season, episode))
    ensures forall key :: key in Lookup(m, filename) && !Sets(key, tmdbId, season, episode) ==>
      key in r[filename].fields && r[filename].fields[key] == Lookup(m, filename)[key]
  {
    m[filename := Record(Merge(Lookup(m, filename), tmdbId, season, episode))]
  }

  class MappingManager {
    var mappings: map<string, Stored>

    /** The table starts with what `_load` read, which is a parameter here. */
    constructor (initial: map<string, Stored>)
      ensures mappings == initial
    {
      mappings := initial;
    }

    /** `get_data(filename)` */
    function GetData(filename: string): (d: map<string, int>)
      reads this
      ensures filename !in mappings || mappings[filename].Null? ==> d == map[]
      ensures filename in mappings && mappings[filename].LegacyId? ==> d == map["id" := mappings[filename].id]
      ensures filename in mappings && mappings[filename].Record? ==> d == mappings[filename].fields
    {
      Lookup(mappings, filename)
    }

    /** `update(filename, tmdb_id, season, episode)`: fetch the entry as a record, set
        the given fields one by one and store the record back. */
    method Update(filename: string, tmdbId: Option<int>, season: Option<int>, episode: Option<int>)
      modifies this
      ensures mappings == Updated(old(mappings), filename, tmdbId, season, episode)
    {
      var current := GetData(filename);
      if tmdbId.Some? {
        current := current["id" := tmdbId.value];
      }
      if season.Some? {
        current := current["season" := season.value];
      }
      if episode.Some? {
        current := current["episode" := episode.value];
      }
      mappings := mappings[filename := Record(current)];
    }
  }

  // ---------------------------------------------------------------------------
  // Properties of update
  // ---------------------------------------------------------------------------

  /** After an update, reading the entry gives every argument that was given under
      its key, and the keys the update did not set keep the values they had. */
  lemma UpdateThenLookup(m: map<string, Stored>, filename: string, tmdbId: Option<int>, season: Option<int>, episode: Option<int>)
    ensures var d := Lookup(Updated(m, filename, tmdbId, season, episode), filename);
      && (tmdbId.Some? ==> "id" in d && d["id"] == tmdbId.value)
      && (season.Some? ==> "season" in d && d["season"] == season.value)
      && (episode.Some? ==> "episode" in d && d["episode"] == episode.value)
      && (tmdbId.None? ==> ("id" in d <==> "id" in Lookup(m, filename)))
      && (season.None? ==> ("season" in d <==> "season" in Lookup(m, filename)))
      && (episode.None? ==> ("episode" in d <==> "episode" in Lookup(m, filename)))
      && (forall key :: key in Lookup(m, filename) && !Sets(key, tmdbId, season, episode)
            ==> key in d && d[key] == Lookup(m, filename)[key])
      && (forall key :: key in d ==> key in Lookup(m, filename) || Sets(key, tmdbId, season, episode))
  {
  }

  /** Other filenames read the same before and after an update. */
  lemma UpdateLeavesOthers(m: map<string, Stored>, filename: string, other: string,
                           tmdbId: Option<int>, season: Option<int>, episode: Option<int>)
    requires other != filename
    ensures Lookup(Updated(m, filename, tmdbId, season, episode), other) == Lookup(m, other)
  {
  }

  /** An update with no arguments stores the entry in record form: a legacy id n
      becomes `{"id": n}`, a missing entry becomes `{}`. */
  lemma UpdateNormalises(m: map<string, Stored>, filename: string)
    ensures filename in m && m[filename].LegacyId? ==>
      Updated(m, filename, None, None, None)[filename] == Record(map["id" := m[filename].id])
    ensures filename !in m ==> Updated(m, filename, None, None, None)[filename] == Record(map[])
    ensures filename in m && m[filename].Record? ==> Updated(m, filename, None, None, None) == m
  {
    var d := Lookup(m, filename);
    assert Merge(d, None, None, None) == d;
  }

  /** Applying the same update twice leaves the table it leaves once. */
  lemma UpdateIdempotent(m: map<string, Stored>, filename: string, tmdbId: Option<int>, season: Option<int>, episode: Option<int>)
    ensures var once := Updated(m, filename, tmdbId, season, episode);
      Updated(once, filename, tmdbId, season, episode) == once
  {
    var once := Updated(m, filename, tmdbId, season, episode);
    var d := Merge(Lookup(m, filename), tmdbId, season, episode);
    assert Lookup(once, filename) == d;
    assert Merge(d, tmdbId, season, episode) == d;
  }
}
