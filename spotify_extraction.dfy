/** The play-history stage: `process_data` flattens the recently-played items
    into thirteen parallel columns, and `upload_data` appends the rows newer
    than the stored watermark to `raw_spotify_data`, sorted by play time, after
    `validate_data` has accepted them. */
module SpotifyExtraction {
  import opened Common
  import opened Text
  import opened Schema

  // ---------------------------------------------------------------------
  // The API items, as far as `process_data` reads them. A key the item
  // lacks is None; an absent `track`, `album`, `external_urls` or
  // `external_ids` object is one whose every member is absent.
  // ---------------------------------------------------------------------

  datatype Artist = Artist(name: string, id: Option<string>)

  datatype Album = Album(name: Option<string>, releaseDate: Option<string>)

  datatype Track = Track(
    id: Option<string>,
    name: Option<string>,
    album: Album,
    durationMs: Option<int>,
    spotifyUrl: Option<string>,
    isrc: Option<string>,
    artists: seq<Artist>)

  datatype PlayItem = PlayItem(track: Track, playedAt: Option<string>)

  /** An entry of the `sp.artists(...)["artists"]` answer. */
  datatype ArtistInfo = ArtistInfo(id: string, genres: seq<string>)

  /** The `data` dictionary handed to `pd.DataFrame`: one list per column. */
  datatype Columns = Columns(
    playedAt: seq<Option<string>>,
    date: seq<string>,
    songName: seq<Option<string>>,
    mainArtist: seq<string>,
    featuredArtists: seq<string>,
    albumName: seq<Option<string>>,
    artistGenre: seq<string>,
    releaseDate: seq<Option<string>>,
    durationSec: seq<int>,
    trackId: seq<string>,
    artistId: seq<Option<string>>,
    spotifyUrl: seq<Option<string>>,
    isrc: seq<Option<string>>)

  // ---------------------------------------------------------------------
  // process_data: the value of each column
  // ---------------------------------------------------------------------

  /** The items `process_data` keeps: those with a truthy track id, in order. */
  function Kept(items: seq<PlayItem>): (r: seq<PlayItem>)
    ensures |r| <= |items|
    ensures forall k :: 0 <= k < |r| ==> Truthy(r[k].track.id)
  {
    if |items| == 0 then []
    else
      var init := Kept(items[..|items| - 1]);
      var last := items[|items| - 1];
      if Truthy(last.track.id) then init + [last] else init
  }

  /** An item is kept exactly when it has a truthy track id. */
  lemma {:induction false} KeptMembership(items: seq<PlayItem>, x: PlayItem)
    ensures x in Kept(items) <==> x in items && Truthy(x.track.id)
  {
    if |items| > 0 {
      var init := items[..|items| - 1];
      KeptMembership(init, x);
      assert items == init + [items[|items| - 1]];
    }
  }

  /** Filtering commutes with concatenation, so the kept items keep their
      input order and nothing is reordered across the skipped ones. */
  lemma {:induction false} KeptAppend(a: seq<PlayItem>, b: seq<PlayItem>)
    ensures Kept(a + b) == Kept(a) + Kept(b)
    decreases |b|
  {
    if |b| == 0 {
      assert a + b == a;
    } else {
      var b' := b[..|b| - 1];
      assert (a + b)[..|a + b| - 1] == a + b';
      KeptAppend(a, b');
    }
  }

  /** `song.get("played_at", "").split("T")[0]`. */
  function PlayedDate(playedAt: Option<string>): string
  {
    BeforeFirst(if playedAt.Some? then playedAt.value else "", 'T')
  }

  /** The date column is the part of `played_at` before the first "T". */
  lemma PlayedDateIsPrefix(playedAt: string)
    ensures var d := PlayedDate(Some(playedAt));
      d == playedAt[..|d|] && 'T' !in d && (|d| == |playedAt| || playedAt[|d|] == 'T')
  {
  }

  /** Python's `round(ms / 1000)`: to the nearest whole second, a tie going to
      the even neighbour. */
  function RoundHalfEven(ms: int): (r: int)
    ensures -500 <= ms - 1000 * r <= 500
    ensures (ms - 1000 * r == 500 || ms - 1000 * r == -500) ==> r % 2 == 0
  {
    var q := ms / 1000;
    var rest := ms % 1000;
    if rest < 500 then q
    else if rest > 500 then q + 1
    else if q % 2 == 0 then q
    else q + 1
  }

  /** The two properties of RoundHalfEven single out one integer. */
  lemma RoundHalfEvenUnique(ms: int, r: int)
    requires -500 <= ms - 1000 * r <= 500
    requires (ms - 1000 * r == 500 || ms - 1000 * r == -500) ==> r % 2 == 0
    ensures r == RoundHalfEven(ms)
  {
    var s := RoundHalfEven(ms);
    var d := r - s;
    assert 1000 * d == (ms - 1000 * s) - (ms - 1000 * r);
    assert -1000 <= 1000 * d <= 1000;
    if d == 1 || d == -1 {
      assert (r - s) % 2 != 0;
    }
  }

  /** `round(track.get("duration_ms", 0) / 1000)`. */
  function DurationSec(durationMs: Option<int>): int
  {
    RoundHalfEven(if durationMs.Some? then durationMs.value else 0)
  }

  /** A play without `played_at` gets the empty date, a track without
      `duration_ms` a duration of 0 seconds, and a present duration is rounded
      to the nearest second. */
  lemma MissingFieldDefaults(ms: int)
    ensures PlayedDate(None) == "" && DurationSec(None) == 0
    ensures -500 <= ms - 1000 * DurationSec(Some(ms)) <= 500
  {
  }

  function ArtistNames(artists: seq<Artist>): (names: seq<string>)
    ensures |names| == |artists|
    ensures forall k :: 0 <= k < |artists| ==> names[k] == artists[k].name
  {
    seq(|artists|, k requires 0 <= k < |artists| => artists[k].name)
  }

  /** `artist_names[0] if artist_names else ""`. */
  function MainArtist(artists: seq<Artist>): string
  {
    if |artists| > 0 then artists[0].name else ""
  }

  /** `", ".join(artist_names[1:]) if len(artist_names) > 1 else ""`. */
  function FeaturedArtists(artists: seq<Artist>): string
  {
    if |artists| > 1 then Join(ArtistNames(artists[1..]), ", ") else ""
  }

  /** `artists[0].get("id") if artists else ""`. */
  function FirstArtistId(artists: seq<Artist>): Option<string>
  {
    if |artists| > 0 then artists[0].id else Some("")
  }

  /** The artist columns of any track: the main artist is the first credited
      name and, followed by the featured artists, gives the whole credit list
      joined with ", "; with one artist there are no featured ones, and with
      none the name columns are empty and the id is "". */
  lemma ArtistColumns(artists: seq<Artist>)
    ensures |artists| > 0 ==> MainArtist(artists) == artists[0].name && FirstArtistId(artists) == artists[0].id
    ensures |artists| == 1 ==> FeaturedArtists(artists) == "" && MainArtist(artists) == Join(ArtistNames(artists), ", ")
    ensures |artists| > 1 ==> MainArtist(artists) + ", " + FeaturedArtists(artists) == Join(ArtistNames(artists), ", ")
    ensures |artists| == 0 ==> MainArtist(artists) == "" && FeaturedArtists(artists) == "" && FirstArtistId(artists) == Some("")
  {
    if |artists| > 1 {
      assert ArtistNames(artists)[1..] == ArtistNames(artists[1..]);
    }
  }

  /** `{artist["id"]: artist for artist in artist_info_list}`: a later entry
      with the same id replaces an earlier one. */
  function ArtistIndex(infos: seq<ArtistInfo>): map<string, ArtistInfo>
  {
    if |infos| == 0 then map[]
    else ArtistIndex(infos[..|infos| - 1])[infos[|infos| - 1].id := infos[|infos| - 1]]
  }

  /** The ids the artist lookup returned, in order. */
  function InfoIds(infos: seq<ArtistInfo>): (ids: seq<string>)
    ensures |ids| == |infos|
    ensures forall k :: 0 <= k < |infos| ==> ids[k] == infos[k].id
  {
    seq(|infos|, k requires 0 <= k < |infos| => infos[k].id)
  }

  /** The dictionary holds exactly the returned ids. */
  lemma {:induction false} ArtistIndexKeys(infos: seq<ArtistInfo>)
    ensures forall id :: id in ArtistIndex(infos) <==> id in InfoIds(infos)
  {
    if |infos| > 0 {
      var n := |infos| - 1;
      ArtistIndexKeys(infos[..n]);
      assert InfoIds(infos) == InfoIds(infos[..n]) + [infos[n].id];
    }
  }

  /** Each id maps to the last entry that carries it. */
  lemma {:induction false} ArtistIndexLastWins(infos: seq<ArtistInfo>, k: nat)
    requires k < |infos| && LastOfId(infos, k)
    ensures infos[k].id in ArtistIndex(infos) && ArtistIndex(infos)[infos[k].id] == infos[k]
  {
    var n := |infos| - 1;
    if k < n {
      var init := infos[..n];
      assert infos[n].id != infos[k].id;
      assert init[k] == infos[k];
      assert LastOfId(init, k);
      ArtistIndexLastWins(init, k);
    }
  }

  /** No later entry carries the id of entry k. */
  predicate LastOfId(infos: seq<ArtistInfo>, k: nat)
    requires k < |infos|
  {
    forall l :: k < l < |infos| ==> infos[l].id != infos[k].id
  }

  /** The genre column entry for an artist id: the ", "-joined genres of the
      artist the lookup returned, "" when it returned none. */
  function GenreOf(id: Option<string>, index: map<string, ArtistInfo>): (g: string)
    ensures id.None? || id.value !in index ==> g == ""
  {
    if id.Some? && id.value in index then Join(index[id.value].genres, ", ") else ""
  }

  /** The genre entry of a returned artist splits back, under the hourly
      report's `,\s*` split, into that artist's genres; an artist without
      genres, and an id that is missing or was not returned, get "", which
      the report skips. */
  lemma GenreOfSplitsBack(id: Option<string>, index: map<string, ArtistInfo>)
    ensures id.None? || id.value !in index ==> GenreOf(id, index) == ""
    ensures id.Some? && id.value in index && index[id.value].genres == [] ==> GenreOf(id, index) == ""
    ensures id.Some? && id.value in index && |index[id.value].genres| >= 1 && Splittable(index[id.value].genres) ==>
      SplitGenres(GenreOf(id, index)) == index[id.value].genres
  {
    if id.Some? && id.value in index && |index[id.value].genres| >= 1 && Splittable(index[id.value].genres) {
      SplitJoinRoundTrip(index[id.value].genres);
    }
  }

  /** `[id for id in set(artist_id_list) if id]`, as the set sent to `sp.artists`. */
  function UniqueArtistIds(ids: seq<Option<string>>): (s: set<string>)
    ensures forall x :: x in s <==> x != "" && Some(x) in ids
  {
    set k | 0 <= k < |ids| && Truthy(ids[k]) :: ids[k].value
  }

  /** The complete row `process_data` produces for one kept item. */
  function ProjectRow(item: PlayItem, index: map<string, ArtistInfo>): SpotifyRow
  {
    var t := item.track;
    SpotifyRow(
      playedAt := item.playedAt,
      date := PlayedDate(item.playedAt),
      songName := t.name,
      mainArtist := MainArtist(t.artists),
      featuredArtists := FeaturedArtists(t.artists),
      albumName := t.album.name,
      artistGenre := GenreOf(FirstArtistId(t.artists), index),
      releaseDate := t.album.releaseDate,
      durationSec := DurationSec(t.durationMs),
      trackId := if t.id.Some? then t.id.value else "",
      artistId := FirstArtistId(t.artists),
      spotifyUrl := t.spotifyUrl,
      isrc := t.isrc)
  }

  /** The artist-id column of the kept items. */
  function ArtistIdColumn(kept: seq<PlayItem>): (ids: seq<Option<string>>)
    ensures |ids| == |kept|
    ensures forall k :: 0 <= k < |kept| ==> ids[k] == FirstArtistId(kept[k].track.artists)
  {
    seq(|kept|, k requires 0 <= k < |kept| => FirstArtistId(kept[k].track.artists))
  }

  /** The artist dictionary `process_data` builds from the lookup's answer;
      empty when the lookup raised. */
  function GenreIndex(items: seq<PlayItem>, lookup: set<string> -> Option<seq<ArtistInfo>>): map<string, ArtistInfo>
  {
    var answer := lookup(UniqueArtistIds(ArtistIdColumn(Kept(items))));
    if answer.Some? then ArtistIndex(answer.value) else map[]
  }

  /** A failed artist lookup leaves the genre of every row empty. */
  lemma FailedLookupEmptiesGenres(items: seq<PlayItem>, lookup: set<string> -> Option<seq<ArtistInfo>>, k: nat)
    requires lookup(UniqueArtistIds(ArtistIdColumn(Kept(items)))).None?
    requires k < |Kept(items)|
    ensures ProjectRow(Kept(items)[k], GenreIndex(items, lookup)).artistGenre == ""
  {
  }

  // ---------------------------------------------------------------------
  // process_data: the two loops over parallel lists
  // ---------------------------------------------------------------------

  /** After the first loop: twelve columns of one entry per kept item, the
      genre column still empty. */
  ghost predicate FirstPassDone(c: Columns, kept: seq<PlayItem>)
  {
    var n := |kept|;
    && |c.playedAt| == n && |c.date| == n && |c.songName| == n && |c.mainArtist| == n
    && |c.featuredArtists| == n && |c.albumName| == n && |c.releaseDate| == n
    && |c.durationSec| == n && |c.trackId| == n && |c.artistId| == n
    && |c.spotifyUrl| == n && |c.isrc| == n && c.artistGenre == []
    && forall k :: 0 <= k < n ==>
      var item := kept[k];
      var t := item.track;
      && c.playedAt[k] == item.playedAt
      && c.date[k] == PlayedDate(item.playedAt)
      && c.songName[k] == t.name
      && c.mainArtist[k] == MainArtist(t.artists)
      && c.featuredArtists[k] == FeaturedArtists(t.artists)
      && c.albumName[k] == t.album.name
      && c.releaseDate[k] == t.album.releaseDate
      && c.durationSec[k] == DurationSec(t.durationMs)
      && Some(c.trackId[k]) == t.id
      && c.artistId[k] == FirstArtistId(t.artists)
      && c.spotifyUrl[k] == t.spotifyUrl
      && c.isrc[k] == t.isrc
  }

  /** The first loop's body for a kept item: one entry on each of the twelve
      lists it fills. */
  function AppendEntries(c: Columns, song: PlayItem): Columns
    requires Truthy(song.track.id)
  {
    var track := song.track;
    var artists := track.artists;
    c.(
      trackId := c.trackId + [track.id.value],
      playedAt := c.playedAt + [song.playedAt],
      date := c.date + [PlayedDate(song.playedAt)],
      songName := c.songName + [track.name],
      albumName := c.albumName + [track.album.name],
      durationSec := c.durationSec + [DurationSec(track.durationMs)],
      releaseDate := c.releaseDate + [track.album.releaseDate],
      spotifyUrl := c.spotifyUrl + [track.spotifyUrl],
      isrc := c.isrc + [track.isrc],
      mainArtist := c.mainArtist + [MainArtist(artists)],
      featuredArtists := c.featuredArtists + [FeaturedArtists(artists)],
      artistId := c.artistId + [FirstArtistId(artists)])
  }

  lemma FirstPassStep(c: Columns, kept: seq<PlayItem>, song: PlayItem)
    requires FirstPassDone(c, kept) && Truthy(song.track.id)
    ensures FirstPassDone(AppendEntries(c, song), kept + [song])
  {
    var c' := AppendEntries(c, song);
    var kept' := kept + [song];
    forall k | 0 <= k < |kept|
      ensures kept'[k] == kept[k] && c'.playedAt[k] == c.playedAt[k] && c'.date[k] == c.date[k]
      ensures c'.songName[k] == c.songName[k] && c'.mainArtist[k] == c.mainArtist[k]
      ensures c'.featuredArtists[k] == c.featuredArtists[k] && c'.albumName[k] == c.albumName[k]
      ensures c'.releaseDate[k] == c.releaseDate[k] && c'.durationSec[k] == c.durationSec[k]
      ensures c'.trackId[k] == c.trackId[k] && c'.artistId[k] == c.artistId[k]
      ensures c'.spotifyUrl[k] == c.spotifyUrl[k] && c'.isrc[k] == c.isrc[k]
    {
    }
  }

  /** All thirteen columns have the same length. */
  predicate Aligned(c: Columns)
  {
    var n := |c.playedAt|;
    && |c.date| == n && |c.songName| == n && |c.mainArtist| == n
    && |c.featuredArtists| == n && |c.albumName| == n && |c.artistGenre| == n
    && |c.releaseDate| == n && |c.durationSec| == n && |c.trackId| == n
    && |c.artistId| == n && |c.spotifyUrl| == n && |c.isrc| == n
  }

  /** `pd.DataFrame(data)`: row k holds entry k of every column. */
  function Frame(c: Columns): (df: seq<SpotifyRow>)
    requires Aligned(c)
    ensures |df| == |c.playedAt|
  {
    seq(|c.playedAt|, k requires 0 <= k < |c.playedAt| =>
      SpotifyRow(c.playedAt[k], c.date[k], c.songName[k], c.mainArtist[k], c.featuredArtists[k],
                 c.albumName[k], c.artistGenre[k], c.releaseDate[k], c.durationSec[k],
                 c.trackId[k], c.artistId[k], c.spotifyUrl[k], c.isrc[k]))
  }

  /** `process_data`: one row per item with a truthy track id, in input order,
      each the projection of its item; the artist lookup is asked once, for the
      distinct truthy first-artist ids. */
  method ProcessData(items: seq<PlayItem>, lookup: set<string> -> Option<seq<ArtistInfo>>)
    returns (df: seq<SpotifyRow>)
    ensures |df| == |Kept(items)|
    ensures forall k :: 0 <= k < |df| ==> df[k] == ProjectRow(Kept(items)[k], GenreIndex(items, lookup))
  {
    var c := CollectColumns(items);
    ghost var kept := Kept(items);
    assert c.artistId == ArtistIdColumn(kept);

    // second artist call: genres by artist id
    var answer := lookup(UniqueArtistIds(c.artistId));
    var index := if answer.Some? then ArtistIndex(answer.value) else map[];
    var genres := [];
    var j := 0;
    while j < |c.artistId|
      invariant 0 <= j <= |c.artistId|
      invariant |genres| == j
      invariant forall k :: 0 <= k < j ==> genres[k] == GenreOf(c.artistId[k], index)
    {
      genres := genres + [GenreOf(c.artistId[j], index)];
      j := j + 1;
    }
    c := c.(artistGenre := genres);
    df := Frame(c);
    FrameOfPasses(c, kept, index);
  }

  /** The first loop of `process_data`: skip items whose track id is falsy,
      and push one entry per kept item onto each of twelve lists. */
  method CollectColumns(items: seq<PlayItem>) returns (c: Columns)
    ensures FirstPassDone(c, Kept(items))
  {
    c := Columns([], [], [], [], [], [], [], [], [], [], [], [], []);
    var i := 0;
    while i < |items|
      invariant 0 <= i <= |items|
      invariant FirstPassDone(c, Kept(items[..i]))
    {
      var song := items[i];
      assert items[..i + 1][..i] == items[..i];
      if Truthy(song.track.id) {
        FirstPassStep(c, Kept(items[..i]), song);
        c := AppendEntries(c, song);
      }
      i := i + 1;
    }
    assert items[..|items|] == items;
  }

  /** Once the genre column is filled from the artist index, `pd.DataFrame`
      gives each kept item its projected row. */
  lemma FrameOfPasses(c: Columns, kept: seq<PlayItem>, index: map<string, ArtistInfo>)
    requires FirstPassDone(c.(artistGenre := []), kept)
    requires |c.artistGenre| == |kept|
    requires forall k :: 0 <= k < |kept| ==> c.artistGenre[k] == GenreOf(c.artistId[k], index)
    ensures Aligned(c)
    ensures |Frame(c)| == |kept|
    ensures forall k :: 0 <= k < |kept| ==> Frame(c)[k] == ProjectRow(kept[k], index)
  {
  }

  // ---------------------------------------------------------------------
  // upload_data and validate_data
  // ---------------------------------------------------------------------

  function PlayedAts(rows: seq<SpotifyRow>): (ps: seq<Option<string>>)
    ensures |ps| == |rows|
    ensures forall k :: 0 <= k < |rows| ==> ps[k] == rows[k].playedAt
  {
    seq(|rows|, k requires 0 <= k < |rows| => rows[k].playedAt)
  }

  /** `SELECT played_at FROM raw_spotify_data ORDER BY played_at DESC LIMIT 1`. */
  function Watermark(stored: seq<SpotifyRow>): Option<string>
  {
    Greatest(PlayedAts(stored))
  }

  /** What `pd.to_datetime` makes of a `played_at` value: a point in time,
      standing here for its (fixed-format ISO 8601) text, or NaT (None) for a
      missing or empty value. */
  function PlayTime(playedAt: Option<string>): Option<string>
  {
    if Truthy(playedAt) then playedAt else None
  }

  /** The order of `sort_values(by="datetime", ascending=True)`: earlier
      first, NaT last. */
  predicate TimeLe(a: Option<string>, b: Option<string>)
  {
    b.None? || (a.Some? && LessEq(a.value, b.value))
  }

  lemma TimeLeTotal(a: Option<string>, b: Option<string>)
    ensures TimeLe(a, b) || TimeLe(b, a)
  {
    if a.Some? && b.Some? {
      LessTrichotomy(a.value, b.value);
    }
  }

  predicate SortedByTime(rows: seq<SpotifyRow>)
  {
    forall i, j :: 0 <= i < j < |rows| ==> TimeLe(PlayTime(rows[i].playedAt), PlayTime(rows[j].playedAt))
  }

  /** Insert one row into a batch already in play order, after every row
      that plays strictly before it. */
  function InsertByTime(r: SpotifyRow, rows: seq<SpotifyRow>): seq<SpotifyRow>
  {
    if |rows| == 0 then [r]
    else if TimeLe(PlayTime(r.playedAt), PlayTime(rows[0].playedAt)) then [r] + rows
    else [rows[0]] + InsertByTime(r, rows[1..])
  }

  lemma {:induction false} InsertByTimeMultiset(r: SpotifyRow, rows: seq<SpotifyRow>)
    ensures multiset(InsertByTime(r, rows)) == multiset(rows) + multiset{r}
  {
    if |rows| > 0 && !TimeLe(PlayTime(r.playedAt), PlayTime(rows[0].playedAt)) {
      InsertByTimeMultiset(r, rows[1..]);
      assert rows == [rows[0]] + rows[1..];
    }
  }

  lemma {:induction false} InsertByTimeSorted(r: SpotifyRow, rows: seq<SpotifyRow>)
    requires SortedByTime(rows)
    ensures SortedByTime(InsertByTime(r, rows))
  {
    if |rows| == 0 {
    } else if TimeLe(PlayTime(r.playedAt), PlayTime(rows[0].playedAt)) {
      forall j | 0 < j < |rows|
        ensures TimeLe(PlayTime(r.playedAt), PlayTime(rows[j].playedAt))
      {
        TimeLeTransitive(PlayTime(r.playedAt), PlayTime(rows[0].playedAt), PlayTime(rows[j].playedAt));
      }
      SortedCons(r, rows);
    } else {
      TimeLeTotal(PlayTime(r.playedAt), PlayTime(rows[0].playedAt));
      assert SortedByTime(rows[1..]);
      InsertByTimeSorted(r, rows[1..]);
      var rest := InsertByTime(r, rows[1..]);
      InsertByTimeMultiset(r, rows[1..]);
      forall j | 0 <= j < |rest|
        ensures TimeLe(PlayTime(rows[0].playedAt), PlayTime(rest[j].playedAt))
      {
        var x := rest[j];
        assert x in multiset(rest);
        if x != r {
          assert x in multiset(rows[1..]);
          var i :| 0 <= i < |rows[1..]| && rows[1..][i] == x;
          assert rows[i + 1] == x;
        }
      }
      SortedCons(rows[0], rest);
    }
  }

  /** A row that plays no later than every row of a sorted batch may lead it. */
  lemma SortedCons(r: SpotifyRow, rows: seq<SpotifyRow>)
    requires SortedByTime(rows)
    requires forall j :: 0 <= j < |rows| ==> TimeLe(PlayTime(r.playedAt), PlayTime(rows[j].playedAt))
    ensures SortedByTime([r] + rows)
  {
    var s := [r] + rows;
    forall i, j | 0 <= i < j < |s|
      ensures TimeLe(PlayTime(s[i].playedAt), PlayTime(s[j].playedAt))
    {
      assert s[j] == rows[j - 1];
      if i > 0 {
        assert s[i] == rows[i - 1];
      }
    }
  }

  lemma TimeLeTransitive(a: Option<string>, b: Option<string>, c: Option<string>)
    requires TimeLe(a, b) && TimeLe(b, c)
    ensures TimeLe(a, c)
  {
    if c.Some? {
      LessEqTransitive(a.value, b.value, c.value);
    }
  }

  /** `new_data.sort_values(by="datetime", ascending=True)`: the same rows,
      in play order. */
  function SortByTime(rows: seq<SpotifyRow>): (s: seq<SpotifyRow>)
    ensures SortedByTime(s)
    ensures multiset(s) == multiset(rows)
  {
    if |rows| == 0 then []
    else
      var rest := SortByTime(rows[1..]);
      assert rows == [rows[0]] + rows[1..];
      InsertByTimeSorted(rows[0], rest);
      InsertByTimeMultiset(rows[0], rest);
      InsertByTime(rows[0], rest)
  }

  /** The rows played after the watermark `w` (`df[df['datetime'] > latest]`). */
  function PlayedAfter(df: seq<SpotifyRow>, w: string): seq<SpotifyRow>
  {
    if |df| == 0 then []
    else
      var init := PlayedAfter(df[..|df| - 1], w);
      var last := df[|df| - 1];
      if Truthy(last.playedAt) && Less(w, last.playedAt.value) then init + [last] else init
  }

  /** A row survives the filter exactly when it is played after `w`; NaT
      (a missing or empty `played_at`) never is. */
  lemma {:induction false} PlayedAfterMembers(df: seq<SpotifyRow>, w: string, x: SpotifyRow)
    ensures x in PlayedAfter(df, w) <==> x in df && Truthy(x.playedAt) && Less(w, x.playedAt.value)
  {
    if |df| > 0 {
      PlayedAfterMembers(df[..|df| - 1], w, x);
      assert df == df[..|df| - 1] + [df[|df| - 1]];
    }
  }

  /** The rows `upload_data` goes on with: all of them when the table has no
      truthy watermark, else only those played after it; in play order. */
  function NewBatch(stored: seq<SpotifyRow>, df: seq<SpotifyRow>): seq<SpotifyRow>
  {
    var latest := Watermark(stored);
    SortByTime(if Truthy(latest) then PlayedAfter(df, latest.value) else df)
  }

  datatype Validation = Validated | NoSongs | PrimaryKeyNotUnique

  /** `validate_data`: False for an empty frame, an exception when two rows
      share a `played_at` (pandas counts two missing values as equal), True
      otherwise. A validated frame can be stored under the primary key. */
  function ValidateData(df: seq<SpotifyRow>): (v: Validation)
    ensures v == NoSongs <==> |df| == 0
    ensures v == PrimaryKeyNotUnique <==> |df| > 0 && exists i, j :: 0 <= i < j < |df| && df[i].playedAt == df[j].playedAt
    ensures v == Validated ==> SpotifyKeyed(df)
  {
    if |df| == 0 then NoSongs
    else if Distinct(PlayedAts(df)) then Validated
    else
      ghost var ps := PlayedAts(df);
      assert exists i, j :: 0 <= i < j < |ps| && ps[i] == ps[j];
      PrimaryKeyNotUnique
  }

  datatype UploadOutcome =
    | EmptyFrame               // `df.empty` at the start: nothing to do
    | FailedValidation         // no row newer than the watermark
    | DuplicatePlayedAt        // validate_data raised; caught by upload_data
    | KeyViolation             // to_sql hit the primary key; caught, rolled back
    | Uploaded(batch: seq<SpotifyRow>)

  /** What `upload_data` decides for a frame against the stored rows: an
      empty frame, a batch with nothing newer than the watermark, or one that
      repeats a `played_at` (inside itself or against the primary key) is not
      uploaded; otherwise the batch is the newer rows in play order. */
  function UploadPlan(stored: seq<SpotifyRow>, df: seq<SpotifyRow>): UploadOutcome
  {
    if |df| == 0 then EmptyFrame
    else
      var batch := NewBatch(stored, df);
      match ValidateData(batch)
      case NoSongs => FailedValidation
      case PrimaryKeyNotUnique => DuplicatePlayedAt
      case Validated => if SpotifyKeyed(stored + batch) then Uploaded(batch) else KeyViolation
  }

  /** Each outcome of the plan, in terms of the frame and the filtered batch. */
  lemma UploadPlanCases(stored: seq<SpotifyRow>, df: seq<SpotifyRow>)
    ensures var o := UploadPlan(stored, df);
      var batch := NewBatch(stored, df);
      && (o.EmptyFrame? <==> |df| == 0)
      && (o.FailedValidation? <==> |df| > 0 && |batch| == 0)
      && (o.DuplicatePlayedAt? <==>
            (|df| > 0 && |batch| > 0 && exists i, j :: 0 <= i < j < |batch| && batch[i].playedAt == batch[j].playedAt))
      && (o.KeyViolation? <==> |df| > 0 && ValidateData(batch) == Validated && !SpotifyKeyed(stored + batch))
      && (o.Uploaded? <==> |df| > 0 && ValidateData(batch) == Validated && SpotifyKeyed(stored + batch))
      && (o.Uploaded? ==> o.batch == batch && SpotifyKeyed(batch))
  {
  }

  /** `upload_data`: read the watermark inside a transaction, filter, sort,
      validate, then append; the append goes through the engine, so it runs
      on a connection and in a transaction of its own. Exactly the rows UploadPlan chooses are appended,
      after the stored ones, and no other table is touched. */
  method UploadData(db: Database, df: seq<SpotifyRow>) returns (outcome: UploadOutcome)
    requires db.Valid()
    modifies db
    ensures db.Valid()
    ensures db.features == old(db.features) && db.failed == old(db.failed)
    ensures db.invalid == old(db.invalid) && db.raw == old(db.raw)
    ensures outcome == UploadPlan(old(db.spotify), df)
    ensures db.spotify == old(db.spotify) + (if outcome.Uploaded? then outcome.batch else [])
  {
    if |df| == 0 {
      return EmptyFrame;
    }
    var latest := Watermark(db.spotify);
    var newData := if Truthy(latest) then PlayedAfter(df, latest.value) else df;
    newData := SortByTime(newData);
    assert newData == NewBatch(db.spotify, df);
    var verdict := ValidateData(newData);
    if verdict == NoSongs {
      outcome := FailedValidation;
    } else if verdict == PrimaryKeyNotUnique {
      outcome := DuplicatePlayedAt;
    } else if !SpotifyKeyed(db.spotify + newData) {
      outcome := KeyViolation;
    } else {
      db.spotify := db.spotify + newData;
      outcome := Uploaded(newData);
    }
  }

  /** Above a truthy watermark the primary key can never be hit: every stored
      `played_at` is at most the watermark and every uploaded one is later. */
  lemma {:induction false} NoKeyViolationAboveWatermark(stored: seq<SpotifyRow>, df: seq<SpotifyRow>)
    requires SpotifyKeyed(stored)
    requires Truthy(Watermark(stored))
    requires ValidateData(NewBatch(stored, df)) == Validated
    ensures SpotifyKeyed(stored + NewBatch(stored, df))
  {
    var w := Watermark(stored).value;
    var after := PlayedAfter(df, w);
    var batch := NewBatch(stored, df);
    assert multiset(batch) == multiset(after);
    var all := stored + batch;
    forall i, j | 0 <= i < j < |all| && all[i].playedAt.Some?
      ensures all[i].playedAt != all[j].playedAt
    {
      if j >= |stored| && i < |stored| {
        var b := all[j];
        assert b == batch[j - |stored|];
        assert b in multiset(after);
        PlayedAfterMembers(df, w, b);
        assert PlayedAts(stored)[i] == all[i].playedAt;
        assert LessEq(all[i].playedAt.value, w);
        if all[i].playedAt == b.playedAt {
          LessAsymmetric(w, b.playedAt.value);
          LessIrreflexive(w);
        }
      } else if i >= |stored| {
        assert all[i] == batch[i - |stored|] && all[j] == batch[j - |stored|];
      }
    }
  }
}
