/** The local store: the rows of its five tables and the key and UNIQUE
    constraints their CREATE TABLE statements declare. SQLite treats NULLs as
    distinct in a UNIQUE column and, for these ordinary rowid tables, lets a
    TEXT PRIMARY KEY hold NULL; so each constraint below speaks only of the
    non-NULL values. */
module Schema {
  import opened Common

  /** A decoded JSON document, as `response.json()` returns it. */
  datatype Json =
    | JNull
    | JBool(b: bool)
    | JNumber(n: real)
    | JString(s: string)
    | JArray(elems: seq<Json>)
    | JObject(members: map<string, Json>)

  /** A row of `raw_spotify_data`: one play event. */
  datatype SpotifyRow = SpotifyRow(
    playedAt: Option<string>,
    date: string,
    songName: Option<string>,
    mainArtist: string,
    featuredArtists: string,
    albumName: Option<string>,
    artistGenre: string,
    releaseDate: Option<string>,
    durationSec: int,
    trackId: string,
    artistId: Option<string>,
    spotifyUrl: Option<string>,
    isrc: Option<string>)

  /** The seven feature columns shared by `raw_acousticbrainz_data` and
      `raw_data`. A value is whatever JSON the feature API put at that path. */
  datatype Features = Features(
    danceability: Option<Json>,
    instrumentality: Option<Json>,
    instrumentalityProb: Option<Json>,
    gender: Option<Json>,
    genderProb: Option<Json>,
    timbre: Option<Json>,
    tonality: Option<Json>)

  const NullFeatures := Features(None, None, None, None, None, None, None)

  /** A row of `raw_acousticbrainz_data`. */
  datatype FeatureRow = FeatureRow(isrc: string, mbid: string, features: Features)

  /** A row of `failed_isrcs`. */
  datatype FailedRow = FailedRow(isrc: string, lastAttempt: string)

  /** A row of `invalid_mbids`. */
  datatype InvalidRow = InvalidRow(mbid: string, isrc: string, lastAttempt: string)

  /** A row of `raw_data`: the play-event columns followed by the columns of
      the matching feature row, `mbid` first. */
  datatype RawRow = RawRow(play: SpotifyRow, mbid: Option<string>, features: Features)

  /** `played_at TEXT PRIMARY KEY` of `raw_spotify_data`. */
  predicate SpotifyKeyed(rows: seq<SpotifyRow>)
  {
    forall i, j :: 0 <= i < j < |rows| && rows[i].playedAt.Some? ==> rows[i].playedAt != rows[j].playedAt
  }

  /** `isrc TEXT PRIMARY KEY NOT NULL` and `mbid TEXT UNIQUE` of `raw_acousticbrainz_data`. */
  predicate FeaturesKeyed(rows: seq<FeatureRow>)
  {
    forall i, j :: 0 <= i < j < |rows| ==> rows[i].isrc != rows[j].isrc && rows[i].mbid != rows[j].mbid
  }

  /** `isrc TEXT PRIMARY KEY` of `failed_isrcs`. */
  predicate FailedKeyed(rows: seq<FailedRow>)
  {
    forall i, j :: 0 <= i < j < |rows| ==> rows[i].isrc != rows[j].isrc
  }

  /** `mbid TEXT PRIMARY KEY` of `invalid_mbids`. */
  predicate InvalidKeyed(rows: seq<InvalidRow>)
  {
    forall i, j :: 0 <= i < j < |rows| ==> rows[i].mbid != rows[j].mbid
  }

  /** Two `raw_data` rows that the table's constraints forbid side by side:
      the same non-NULL `played_at` (PRIMARY KEY) or the same non-NULL `mbid`
      (UNIQUE). */
  predicate Clash(r: RawRow, c: RawRow)
  {
    (c.play.playedAt.Some? && r.play.playedAt == c.play.playedAt) || (c.mbid.Some? && r.mbid == c.mbid)
  }

  /** `played_at TEXT PRIMARY KEY` and `mbid TEXT UNIQUE` of `raw_data`. */
  predicate RawKeyed(rows: seq<RawRow>)
  {
    forall i, j :: 0 <= i < j < |rows| ==> !Clash(rows[i], rows[j])
  }

  /** The SQLite file: one field per table, each the table's rows in rowid order. */
  class Database {
    var spotify: seq<SpotifyRow>
    var features: seq<FeatureRow>
    var failed: seq<FailedRow>
    var invalid: seq<InvalidRow>
    var raw: seq<RawRow>

    /** Every table satisfies its declared constraints. */
    ghost predicate Valid()
      reads this
    {
      SpotifyKeyed(spotify) && FeaturesKeyed(features) && FailedKeyed(failed)
      && InvalidKeyed(invalid) && RawKeyed(raw)
    }

    /** A fresh file after `initialize_database`, `initialize_databases` and
        `initialise_large_table`: every table exists and is empty. */
    constructor ()
      ensures Valid()
      ensures spotify == [] && features == [] && failed == [] && invalid == [] && raw == []
    {
      spotify, features, failed, invalid, raw := [], [], [], [], [];
    }
  }
}
