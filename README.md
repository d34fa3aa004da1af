# spotify-to-pbi, modelled in Dafny

This project models the data path of the spotify-to-pbi pipeline. The pipeline
collects a listener's recently played Spotify tracks into a local SQLite file,
enriches them with AcousticBrainz high-level features, merges both into one
wide table and reports the most common genre per hour of the day. The model
covers three stages:

- **Play history** (`spotify_extraction.dfy`, module `SpotifyExtraction`).
  `process_data` flattens the API items into thirteen parallel columns in two
  loops. `upload_data` appends the rows newer than the stored watermark, in
  play order, after `validate_data` has accepted them.
- **Enrichment** (`acousticbrainz_extraction.dfy`, module
  `AcousticBrainzExtraction`).
  - `get_missing_isrc` is an anti-join over four tables.
  - `isrc_to_mbid` and `extract_data` are retry loops over per-key HTTP
    answers.
  - `process_data` projects nested JSON payloads onto the seven feature
    columns.
  - `upload_data` appends to three tables in one transaction.
  - `run` sequences the four steps.
- **Merge and report** (`sql_operations.dfy`, module `SqlOperations`).
  - `update_large_table` reads `MAX(played_at)` and runs `INSERT OR IGNORE`
    over the `LEFT JOIN` of play events and feature rows. It then reports
    `changes()`.
  - The genre split, count and argmax of `create_hourly_sheet`, plus the hour
    shift that sheet applies.

Shared pieces:

- `schema.dfy` (module `Schema`) holds the row types and the key and UNIQUE
  constraints of the five tables. It also holds the `Database` class, which has
  one `seq` field per table.
- `text.dfy` (module `Text`) holds the string semantics the code relies on:
  - code-point order, which SQLite's BINARY collation and Python both use;
  - `MAX`;
  - `", ".join`;
  - `split("T")[0]`;
  - the regular-expression split `,\s*`.
- `common.dfy` (module `Common`) holds `Option`, Python truthiness for
  optional strings, and a method that turns a set into a duplicate-free list.

The methods keep the source's loops:

- the two loops of `process_data`;
- the `while True` loops, whose termination measure is the position of the
  first answer that is not a 429;
- the row-by-row `INSERT OR IGNORE`;
- the invalid-mbid loop of `upload_data`.

Each method is proved equal to a pure function of its inputs, except where
the code builds a list from a Python set (`list(set(...))`), whose order the
model leaves open. Those lists are stated up to order only: duplicate-free,
with exactly the expected elements. This applies to `Common.ListOfSet`, to
`AcousticBrainzExtraction.GetMissingIsrc`, to the `invalid` result of
`AcousticBrainzExtraction.ExtractData`, and to `AcousticBrainzExtraction.Run`,
which returns its two such lists and is stated in terms of them. The lemmas
state what the source promises about those functions.

External services are parameters:

- The Spotify artist lookup is a function from the asked ids to an optional
  answer. None stands for the `SpotifyException`.
- The MusicBrainz and AcousticBrainz services are answer sequences, one per
  key.
- `pd.Timestamp.utcnow()` is a `now` argument.
- The order in which SQLite produces the SELECT's rows is an `order`
  argument. It may be any permutation of the candidate positions.

Three behaviours of the code that a reader might not expect, which the model
follows:

- `mbid_list` holds only the ids of successful lookups, so its positions do
  not line up with the ISRC list; `ExtractData` skips a falsy id, as the code
  does.
- An mbid whose high-level request ended with a status other than 200, 404
  or 429 still gets a feature row, with every feature NULL
  (`AcousticBrainzExtraction.AbandonedGivesNullRow`).
- `raw_data.mbid` is UNIQUE, so `INSERT OR IGNORE` drops a later play of an
  enriched song that is already merged
  (`SqlOperations.ReplayOfEnrichedSongIsDropped`).

## Model

| member | source | states |
|---|---|---|
| SpotifyExtraction.Kept | spotify_extraction.py:74-80 | the kept items are no more than the input and each has a truthy track id |
| SpotifyExtraction.KeptMembership | spotify_extraction.py:74-80 | an item is kept if and only if it is in the input and its track id is truthy |
| SpotifyExtraction.KeptAppend | spotify_extraction.py:74-81 | filtering commutes with concatenation, so kept items keep their input order |
| SpotifyExtraction.PlayedDateIsPrefix | spotify_extraction.py:83 | the date is the prefix of `played_at` up to, not including, its first "T" |
| SpotifyExtraction.MissingFieldDefaults | spotify_extraction.py:82-86 | a missing `played_at` gives the empty date; a missing `duration_ms` gives 0 seconds; a present one is within half a second of the result |
| SpotifyExtraction.RoundHalfEven | spotify_extraction.py:86 | the result is within 500 ms of the input, and a tie goes to the even neighbour |
| SpotifyExtraction.RoundHalfEvenUnique | spotify_extraction.py:86 | those two properties determine the rounded value uniquely |
| SpotifyExtraction.ArtistColumns | spotify_extraction.py:92-96 | for any artist list: the main artist is the first name and the artist id the first id; the main artist, ", " and the featured artists make up the whole list joined by ", "; one artist has no featured artists; without artists both names are "" and the id is "" |
| SpotifyExtraction.UniqueArtistIds | spotify_extraction.py:101 | the set asked for is exactly the non-empty ids on the artist-id column |
| SpotifyExtraction.ArtistIndexKeys | spotify_extraction.py:104 | the artist dictionary holds exactly the returned ids |
| SpotifyExtraction.ArtistIndexLastWins | spotify_extraction.py:104 | each id maps to the last returned entry that carries it |
| SpotifyExtraction.GenreOfSplitsBack | spotify_extraction.py:109-112 | the genre entry of a returned artist splits back under `,\s*` into that artist's genres; an artist without genres, and an id that is missing or was not returned, get "" |
| SpotifyExtraction.FailedLookupEmptiesGenres | spotify_extraction.py:102-112 | when the artist lookup raises, every row's genre is "" |
| SpotifyExtraction.FirstPassStep | spotify_extraction.py:81-96 | one kept item appends one entry to each of the twelve lists and leaves earlier entries alone |
| SpotifyExtraction.CollectColumns | spotify_extraction.py:74-96 | after the first loop, the twelve lists hold entry k of kept item k, and the genre list is still empty |
| SpotifyExtraction.FrameOfPasses | spotify_extraction.py:109-131 | with the genre list built from the artist-id list, the thirteen columns are aligned and row k is the projection of kept item k |
| SpotifyExtraction.ProcessData | spotify_extraction.py:63-132 | one row per item with a truthy track id, in input order, each the full projection of its item with its genre from the lookup |
| SpotifyExtraction.TimeLeTotal | spotify_extraction.py:193 | any two play times are comparable under the sort order, with NaT last |
| SpotifyExtraction.TimeLeTransitive | spotify_extraction.py:193 | the sort order is transitive |
| SpotifyExtraction.InsertByTimeMultiset | spotify_extraction.py:193 | inserting a row adds exactly that row |
| SpotifyExtraction.InsertByTimeSorted | spotify_extraction.py:193 | inserting into a batch in play order keeps it in play order |
| SpotifyExtraction.SortedCons | spotify_extraction.py:193 | a row no later than every row of a sorted batch may lead it |
| SpotifyExtraction.SortByTime | spotify_extraction.py:193 | the result is in ascending play order, NaT last, and is a permutation of the input |
| SpotifyExtraction.PlayedAfterMembers | spotify_extraction.py:184-186 | a row survives the watermark filter if and only if it has a truthy `played_at` strictly after the watermark |
| SpotifyExtraction.ValidateData | spotify_extraction.py:205-222 | False exactly for an empty batch; the exception exactly when two rows share a `played_at`; a validated batch satisfies the primary key |
| SpotifyExtraction.UploadPlanCases | spotify_extraction.py:170-202 | gives each outcome's exact condition: empty frame; nothing newer than the watermark; a duplicate `played_at` in the batch; a key clash with stored rows; or upload of the sorted newer rows |
| SpotifyExtraction.UploadData | spotify_extraction.py:170-202 | appends exactly the planned batch after the stored rows, or nothing; keeps the table's key; touches no other table |
| SpotifyExtraction.NoKeyViolationAboveWatermark | spotify_extraction.py:178-199 | above a truthy watermark a validated batch cannot violate the `played_at` primary key |
| AcousticBrainzExtraction.Settle | acousticbrainz_extraction.py:82-98 | the retry loop stops at the first answer that is not a 429; every answer before it is a 429 |
| AcousticBrainzExtraction.MissingIsrcsMeaning | acousticbrainz_extraction.py:57-67 | an ISRC is selected if and only if some play event carries it and no feature, failed or invalid row has it |
| AcousticBrainzExtraction.GetMissingIsrc | acousticbrainz_extraction.py:54-70 | returns exactly the selected ISRCs, without repetitions |
| AcousticBrainzExtraction.Convert | acousticbrainz_extraction.py:79-105 | every ISRC ends in exactly one list: the mbid count plus the failure count is the ISRC count |
| AcousticBrainzExtraction.IsrcToMbid | acousticbrainz_extraction.py:73-105 | the two for-and-retry loops compute Convert of the ISRCs and their answers |
| AcousticBrainzExtraction.ConvertFailed | acousticbrainz_extraction.py:92-102 | an ISRC is failed if and only if its settled answer is a 200 without recordings or a status other than 200 and 429 |
| AcousticBrainzExtraction.ConvertMbids | acousticbrainz_extraction.py:85-91 | the mbid list holds exactly the first recording ids of the successful lookups; the reverse map's keys are exactly those ids |
| AcousticBrainzExtraction.ConvertLastWins | acousticbrainz_extraction.py:89-91 | `mbid_to_isrc[mbid]` is the ISRC whose lookup produced it, the last one when several do |
| AcousticBrainzExtraction.ExtractData | acousticbrainz_extraction.py:108-141 | computes the payloads of Extract and a duplicate-free list of the same invalid mbids |
| AcousticBrainzExtraction.ExtractPayloads | acousticbrainz_extraction.py:113-126 | a payload is stored exactly for the truthy mbids whose request settled on a 200 |
| AcousticBrainzExtraction.ExtractPayloadLastWins | acousticbrainz_extraction.py:113-126 | the payload stored for an mbid is the body of the 200 that settled the last of its requests answered 200; later 404s and abandoned requests leave it alone |
| AcousticBrainzExtraction.ExtractInvalid | acousticbrainz_extraction.py:130-133 | an mbid is invalid exactly when it is truthy and its request settled on a 404 |
| AcousticBrainzExtraction.AbandonedInNeither | acousticbrainz_extraction.py:134-136 | an mbid abandoned on every request, or a falsy one, is in neither result |
| AcousticBrainzExtraction.Get | acousticbrainz_extraction.py:158-168 | the `.get` chain succeeds exactly when every value on the path is an object, and then yields the value at the path, None when a key is missing or the value is null |
| AcousticBrainzExtraction.Project | acousticbrainz_extraction.py:158-169 | the seven features are read from their fixed paths; the projection fails exactly when one path meets a non-object |
| AcousticBrainzExtraction.Selected | acousticbrainz_extraction.py:147-156 | every selected mbid is truthy, not invalid, and mapped to a truthy ISRC |
| AcousticBrainzExtraction.SelectedMembership | acousticbrainz_extraction.py:147-156 | an mbid is selected if and only if it is in the input and is wanted |
| AcousticBrainzExtraction.SelectedAppend | acousticbrainz_extraction.py:147-156 | selection commutes with concatenation, so order is kept |
| AcousticBrainzExtraction.RowsBuiltStep | acousticbrainz_extraction.py:159-171 | appending the row of a wanted mbid extends the rows built so far by that mbid |
| AcousticBrainzExtraction.SelectedAt | acousticbrainz_extraction.py:147-171 | a wanted mbid at position i is the next selected one after those before i |
| AcousticBrainzExtraction.ProcessData | acousticbrainz_extraction.py:144-174 | gives one row per selected mbid, in order, with ISRC `mbid_to_isrc[mbid]` and the projected features; it fails exactly when one selected payload cannot be projected |
| AcousticBrainzExtraction.AbandonedGivesNullRow | acousticbrainz_extraction.py:158 | an mbid without a payload still gets a row whose features are all NULL |
| AcousticBrainzExtraction.FreshFeaturesMembers | acousticbrainz_extraction.py:186 | a row passes the filter exactly when its mbid is not stored yet; duplicates inside the batch stay |
| AcousticBrainzExtraction.FreshFeaturesAppend | acousticbrainz_extraction.py:186 | the filter keeps the batch order |
| AcousticBrainzExtraction.InvalidLog | acousticbrainz_extraction.py:201-210 | every invalid row is for an invalid mbid present in `mbid_to_isrc`, with that ISRC and the upload time |
| AcousticBrainzExtraction.InvalidLogComplete | acousticbrainz_extraction.py:203-210 | every invalid mbid present in `mbid_to_isrc` is logged |
| AcousticBrainzExtraction.InvalidData | acousticbrainz_extraction.py:202-210 | the loop builds one invalid row per invalid mbid that `mbid_to_isrc` maps, in list order |
| AcousticBrainzExtraction.UploadData | acousticbrainz_extraction.py:177-214 | the three appends commit together exactly when every fresh feature value can be bound (no object or array) and all three tables keep their keys; a commit appends exactly the fresh feature rows, the failed rows and the invalid rows; otherwise nothing changes |
| AcousticBrainzExtraction.NestedValueRollsBack | acousticbrainz_extraction.py:186-188 | a fresh feature row holding a JSON object as a value makes the upload roll back |
| AcousticBrainzExtraction.DuplicateMbidInBatchAborts | acousticbrainz_extraction.py:186-188 | two batch rows with the same new mbid roll the whole upload back |
| AcousticBrainzExtraction.AppendedIsrcsLeaveSelection | acousticbrainz_extraction.py:57-67 | rows added to the enrichment tables remove exactly their ISRCs from the next selection |
| AcousticBrainzExtraction.CommitRetiresIsrcs | acousticbrainz_extraction.py:193-214 | after a commit, a failed ISRC and the ISRC of a mapped invalid mbid are no longer selected |
| AcousticBrainzExtraction.SelectedSameElements | acousticbrainz_extraction.py:149-150 | which mbids are selected depends only on the set of invalid mbids, not on the order or repetitions of their list |
| AcousticBrainzExtraction.Run | acousticbrainz_extraction.py:217-232 | works on exactly the missing ISRCs without repetitions; does nothing if and only if there are none; crashes exactly when the composed conversion, extraction and projection fails; otherwise commits exactly when the upload's conditions hold for the composed rows, failures and a duplicate-free list of the invalid mbids, appending exactly those rows; leaves the enrichment tables unchanged unless it commits; never touches the play or merged tables |
| SqlOperations.Matches | sql_operations.py:55 | every matched feature row is from the table and has the play event's ISRC |
| SqlOperations.Joined | sql_operations.py:47-55 | a play event yields at least one joined row, each carrying its own columns |
| SqlOperations.CandidatesMembers | sql_operations.py:46-56 | a row is a candidate exactly when it is a joined row of a play event past the watermark |
| SqlOperations.CandidateHasEvent | sql_operations.py:54-56 | every candidate comes from a play event past the watermark |
| SqlOperations.CandidateFromEvent | sql_operations.py:54-56 | every joined row of a play event past the watermark is a candidate |
| SqlOperations.JoinedUnderKey | sql_operations.py:55 | under the feature table's key, a play event yields one row: its columns, then the matching feature row's |
| SqlOperations.MatchesUnderKey | sql_operations.py:55 | under the feature table's key, exactly one feature row matches an ISRC it holds |
| SqlOperations.NoMatches | sql_operations.py:55 | an ISRC no feature row has matches nothing |
| SqlOperations.UnmatchedGetsNullFeatures | sql_operations.py:52-55 | a play event without a feature row gets one row with NULL feature columns |
| SqlOperations.Reorder | sql_operations.py:46-56 | the rows in the order SQLite produces them: the same multiset of rows |
| SqlOperations.PermutedMultiset | sql_operations.py:46-56 | picking rows through a permutation of their positions keeps each row's multiplicity |
| SqlOperations.InsertOrIgnore | sql_operations.py:46 | the existing rows stay first and unchanged; every added row is a candidate; the keys of `raw_data` are kept |
| SqlOperations.InsertRows | sql_operations.py:46-60 | the row-by-row insert computes InsertOrIgnore and counts the rows it added |
| SqlOperations.InsertStep | sql_operations.py:46 | one more candidate is appended exactly when the table so far admits it |
| SqlOperations.UpdateLargeTable | sql_operations.py:40-61 | `raw_data` becomes the insert-or-ignore of the reordered candidates; the reported count is the number of rows added; no other table changes |
| SqlOperations.SkippedRowsClash | sql_operations.py:46 | a candidate that did not end up in the table clashes with a row of the table |
| SqlOperations.InsertNothingWhenAllClash | sql_operations.py:46 | when every candidate clashes with the table, nothing is inserted |
| SqlOperations.AfterHigherWatermark | sql_operations.py:43-56 | a play event past a watermark is past any lower one |
| SqlOperations.SecondRunInsertsNothing | sql_operations.py:43-61 | with no new play events, a second run inserts nothing, when every play event has a `played_at` or the first run leaves a non-NULL `MAX` |
| SqlOperations.CandidateAlreadyBlocked | sql_operations.py:43-57 | under the same condition, every candidate of a second run is refused by the table the first run left |
| SqlOperations.SecondRunReinsertsNullPlayedAt | sql_operations.py:43-56 | without that condition a second run is not idempotent: a play event with a NULL `played_at`, over a `raw_data` whose `MAX` is NULL, is inserted again |
| SqlOperations.ReplayOfEnrichedSongIsDropped | sql_operations.py:27 | a later play of a song already merged with its mbid is the only candidate yet is not inserted |
| SqlOperations.HourOf | sql_operations.py:129 | the hour is between 0 and 23; it is the two-digit field at positions 11-12 of an ISO-8601 timestamp, and there is none for a NULL or malformed timestamp |
| SqlOperations.HourOfIsoTimestamp | sql_operations.py:129 | a timestamp `YYYY-MM-DDTHH…` gives hour HH when HH is below 24, and no hour otherwise |
| SqlOperations.RowGenresMembers | sql_operations.py:121-129 | an entry comes from a row exactly when the row's genre list is not empty, the row has the entry's hour, and the entry's genre is a piece of the `,\s*` split |
| SqlOperations.GenreEntriesMembers | sql_operations.py:121-129 | the exploded frame holds exactly the (hour, genre) pairs that some row gives |
| SqlOperations.BestAmong | sql_operations.py:130-131 | the chosen genre appears among the candidates at that hour and no candidate beats it; None exactly when the hour has none |
| SqlOperations.NotBeatenPasses | sql_operations.py:131 | "not beaten by" carries over to a genre that beats the current choice |
| SqlOperations.MostCommonGenre | sql_operations.py:130-132 | the reported genre of an hour has the maximal count and is the first in sort order among equals; None for an hour without genres |
| SqlOperations.MostCommonGenreUnique | sql_operations.py:130-131 | the most common genre of an hour is uniquely determined |
| SqlOperations.ReportedHourDoesNotWrap | sql_operations.py:141 | the hour as written is shifted by 2 without wrapping: 22 becomes 24, 23 becomes 25 |
| SqlOperations.LocalHour | sql_operations.py:141 | the shift the comment intends stays on the 24-hour clock |
| SqlOperations.ReportedHourAgreesBelow22 | sql_operations.py:141 | the shift as written and the intended one agree if and only if the hour is below 22 |
| Text.Greatest | sql_operations.py:43 | `MAX` is NULL exactly for an all-NULL column; otherwise it is one of the values and at least every other value |
| Text.GreatestMonotone | sql_operations.py:43 | adding rows never lowers the `MAX` |
| Text.BeforeFirst | spotify_extraction.py:83 | `split(c)[0]` is the longest prefix without `c` |
| Text.SkipSpace | sql_operations.py:127 | `\s*` drops a prefix made only of white space, and what is left does not start with white space |
| Text.IndexOf | sql_operations.py:127 | the first comma's position |
| Text.SplitGenres | sql_operations.py:127 | the `,\s*` split yields at least one piece and no piece holds a comma |
| Text.SplitJoinRoundTrip | sql_operations.py:127 | a genre list joined with ", " splits back into the same list when no genre holds a comma or, after the first, starts with white space |
| Common.ListOfSet | acousticbrainz_extraction.py:138 | `list(set(...))`: a list without repetitions holding exactly the set's members |
| Schema.Database.constructor | acousticbrainz_extraction.py:22-51 | on a fresh file, after the three initialisers' `CREATE TABLE IF NOT EXISTS` (here for the enrichment tables, and at spotify_extraction.py:147-168 and sql_operations.py:10-37 for the play and merged tables), every table is empty and satisfies its constraints |

## Left out

- OAuth, the token cache, the browser and the local redirect server, and
  reading the configuration files: these are I/O and external libraries.
- `extract_spotify_data` and `get_database_tracks` are not modelled.
  `extract_spotify_data` is an API call over a wall-clock window.
  `get_database_tracks` is never called, and it reads a column the table
  does not have.
- HTTP requests, their timeouts and exceptions, the `time.sleep` pacing,
  `tqdm` and every `print` are left out. Answers are inputs.
- A lookup whose JSON lacks `recordings[0]["id"]` would raise a `KeyError`.
  The model reduces a MusicBrainz answer to its list of recording ids, so
  that `KeyError` is not modelled. A non-string recording id in the JSON is
  not modelled either.
- Run: the services are modelled as answering the same key the same way each
  time it is asked (one answer sequence per key). Run also requires every key
  to end its retries eventually; the code would loop for ever otherwise.
- `pd.Timestamp.utcnow()` is not a clock in the model. It is the `now`
  argument, one value for the whole upload.
- Timestamps are compared as strings in code-point order. This matches
  `pd.to_datetime` order for the fixed ISO-8601 form the API returns;
  time-zone parsing and other formats are not modelled.
- Schema.Database.constructor: models a fresh file only. On an existing
  file `CREATE TABLE IF NOT EXISTS` keeps the stored rows; every other
  operation therefore starts from any database that satisfies `Valid`.
- SqlOperations.HourOf: `pd.to_datetime` raises on a `played_at` it cannot
  parse, and then no sheet is written. The model instead drops such a row
  from the genre count. It reads the hour from characters 11-12 of the
  ISO-8601 form.
- SqlOperations.SecondRunInsertsNothing holds only when every play event has
  a `played_at` or the first run leaves a non-NULL `MAX(played_at)`. SQLite
  treats NULLs as distinct under PRIMARY KEY and UNIQUE, so otherwise a play
  event with a NULL `played_at` is inserted again on every run
  (SqlOperations.SecondRunReinsertsNullPlayedAt).
- SpotifyExtraction.SortByTime: pandas' default sort is not stable. The model
  keeps input order among rows with the same play time. The stated order and
  permutation properties do not depend on that choice.
- SpotifyExtraction.ProcessData: artist names are required strings. A
  missing name would make `", ".join` raise, which the model does not
  capture. A `track`, `album`, `played_at` or `duration_ms` that is present
  with the value JSON null (rather than absent) is not modelled either.
- SQLite type affinity, the `TIMESTAMP DEFAULT CURRENT_TIMESTAMP` columns
  that are overwritten anyway, and the `NOT NULL` on an ISRC column that the
  code never leaves NULL are not modelled.
- The SQL DDL is not modelled as text. Only the resulting key and UNIQUE
  constraints are, as `Database.Valid`.
- `create_hourly_sheet`: the `AVG`/`ROUND` scores are floating point and are
  not modelled. Nor is the merge of those scores with the genres, nor the
  Excel export. Only the genre split, count and argmax, and the hour shift,
  are modelled.
- `create_large_sheet` and `template_db_query` (whose SQL is empty) are Excel
  exports and are not modelled.
- `main.py` and the play-history `run` are not modelled. `main.py` calls
  the play-history `run` and then the enrichment `run`. The play-history
  `run` connects, extracts, processes and uploads in turn. Neither adds
  logic of its own.
- Nothing calls `sql_operations.run` (`initialise_large_table` followed by
  `update_large_table`). `main.py` never invokes it, so the merge stage is
  modelled as a stand-alone operation.

## Findings

| source | as written | input that shows it | evidently intended | confidence | as-written member | corrected member |
|---|---|---|---|---|---|---|
| sql_operations.py:141 | `hour_of_day + 2 % 24` parses as `hour_of_day + (2 % 24)`, so the hour is shifted by 2 and never wraps | `hour_of_day` 22 is reported as 24, 23 as 25 | `(hour_of_day + 2) % 24`, a two-hour shift on the 24-hour clock as the comment says | not executed; high, operator precedence | SqlOperations.ReportedHourDoesNotWrap | SqlOperations.LocalHour |
