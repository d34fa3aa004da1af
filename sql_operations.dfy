/** The merge stage and the hourly genre report. `update_large_table` copies
    the play events newer than `MAX(raw_data.played_at)`, each joined with its
    feature row, into `raw_data` with `INSERT OR IGNORE`, then reports how many
    rows the statement added. `create_hourly_sheet` splits the genre column,
    counts genres per hour of play and keeps the most common one. */
module SqlOperations {
  import opened Common
  import opened Text
  import opened Schema

  // ---------------------------------------------------------------------
  // update_large_table: watermark and candidate rows
  // ---------------------------------------------------------------------

  function RawPlayedAts(raw: seq<RawRow>): (ps: seq<Option<string>>)
    ensures |ps| == |raw|
    ensures forall k :: 0 <= k < |raw| ==> ps[k] == raw[k].play.playedAt
  {
    seq(|raw|, k requires 0 <= k < |raw| => raw[k].play.playedAt)
  }

  /** `SELECT MAX(played_at) FROM raw_data`. */
  function LargeWatermark(raw: seq<RawRow>): Option<string>
  {
    Greatest(RawPlayedAts(raw))
  }

  /** `:latest IS NULL or s.played_at > :latest`: with a watermark, a NULL
      `played_at` makes the comparison NULL and the row is left out. */
  predicate AfterWatermark(s: SpotifyRow, latest: Option<string>)
  {
    latest.None? || (s.playedAt.Some? && Less(latest.value, s.playedAt.value))
  }

  /** The feature rows the join condition `s.isrc = a.isrc` pairs with an
      ISRC; none for a NULL one. */
  function Matches(features: seq<FeatureRow>, isrc: Option<string>): (ms: seq<FeatureRow>)
    ensures forall k :: 0 <= k < |ms| ==> isrc == Some(ms[k].isrc) && ms[k] in features
  {
    if |features| == 0 then []
    else
      var init := Matches(features[..|features| - 1], isrc);
      var a := features[|features| - 1];
      if isrc == Some(a.isrc) then init + [a] else init
  }

  /** The LEFT JOIN rows of one play event: one per matching feature row, or
      a single row with NULL feature columns when nothing matches. */
  function Joined(s: SpotifyRow, features: seq<FeatureRow>): (rows: seq<RawRow>)
    ensures |rows| >= 1
    ensures forall k :: 0 <= k < |rows| ==> rows[k].play == s
  {
    var ms := Matches(features, s.isrc);
    if |ms| == 0 then [RawRow(s, None, NullFeatures)]
    else seq(|ms|, k requires 0 <= k < |ms| => RawRow(s, Some(ms[k].mbid), ms[k].features))
  }

  /** The SELECT of `update_large_table`: the joined rows of every play event
      past the watermark. */
  function Candidates(spotify: seq<SpotifyRow>, features: seq<FeatureRow>, latest: Option<string>): seq<RawRow>
  {
    if |spotify| == 0 then []
    else
      var s := spotify[|spotify| - 1];
      Candidates(spotify[..|spotify| - 1], features, latest) + (if AfterWatermark(s, latest) then Joined(s, features) else [])
  }

  /** The row is a joined row of a play event past the watermark. */
  predicate JoinedPast(s: SpotifyRow, features: seq<FeatureRow>, latest: Option<string>, c: RawRow)
  {
    AfterWatermark(s, latest) && c in Joined(s, features)
  }

  /** A row is a candidate exactly when it is a joined row of a play event
      past the watermark. */
  lemma CandidatesMembers(spotify: seq<SpotifyRow>, features: seq<FeatureRow>,
                          latest: Option<string>, c: RawRow)
    ensures c in Candidates(spotify, features, latest) <==>
      exists k :: 0 <= k < |spotify| && JoinedPast(spotify[k], features, latest, c)
  {
    if c in Candidates(spotify, features, latest) {
      CandidateHasEvent(spotify, features, latest, c);
    }
    if exists k :: 0 <= k < |spotify| && JoinedPast(spotify[k], features, latest, c) {
      var k :| 0 <= k < |spotify| && JoinedPast(spotify[k], features, latest, c);
      CandidateFromEvent(spotify, features, latest, c, k);
    }
  }

  lemma {:induction false} CandidateHasEvent(spotify: seq<SpotifyRow>, features: seq<FeatureRow>,
                                             latest: Option<string>, c: RawRow)
    requires c in Candidates(spotify, features, latest)
    ensures exists k :: 0 <= k < |spotify| && JoinedPast(spotify[k], features, latest, c)
  {
    var n := |spotify| - 1;
    var init := spotify[..n];
    var last := if AfterWatermark(spotify[n], latest) then Joined(spotify[n], features) else [];
    assert Candidates(spotify, features, latest) == Candidates(init, features, latest) + last;
    if c in Candidates(init, features, latest) {
      CandidateHasEvent(init, features, latest, c);
      var k :| 0 <= k < n && JoinedPast(init[k], features, latest, c);
      assert init[k] == spotify[k];
      assert JoinedPast(spotify[k], features, latest, c);
    } else {
      assert JoinedPast(spotify[n], features, latest, c);
    }
  }

  lemma {:induction false} CandidateFromEvent(spotify: seq<SpotifyRow>, features: seq<FeatureRow>,
                                              latest: Option<string>, c: RawRow, k: nat)
    requires k < |spotify| && JoinedPast(spotify[k], features, latest, c)
    ensures c in Candidates(spotify, features, latest)
  {
    var n := |spotify| - 1;
    var init := spotify[..n];
    var last := if AfterWatermark(spotify[n], latest) then Joined(spotify[n], features) else [];
    assert Candidates(spotify, features, latest) == Candidates(init, features, latest) + last;
    if k < n {
      assert init[k] == spotify[k];
      CandidateFromEvent(init, features, latest, c, k);
    }
  }

  /** Under the primary key of `raw_acousticbrainz_data` at most one feature
      row matches, so a play event yields one candidate: its own columns
      followed by the matching row's, or by NULLs. */
  lemma {:induction false} JoinedUnderKey(s: SpotifyRow, features: seq<FeatureRow>, k: nat)
    requires FeaturesKeyed(features)
    requires k < |features| && s.isrc == Some(features[k].isrc)
    ensures Joined(s, features) == [RawRow(s, Some(features[k].mbid), features[k].features)]
  {
    MatchesUnderKey(features, s.isrc, k);
  }

  lemma {:induction false} MatchesUnderKey(features: seq<FeatureRow>, isrc: Option<string>, k: nat)
    requires FeaturesKeyed(features)
    requires k < |features| && isrc == Some(features[k].isrc)
    ensures Matches(features, isrc) == [features[k]]
  {
    var n := |features| - 1;
    var init := features[..n];
    assert FeaturesKeyed(init) by {
      assert forall i :: 0 <= i < n ==> init[i] == features[i];
    }
    if k < n {
      assert init[k] == features[k];
      MatchesUnderKey(init, isrc, k);
    } else {
      NoMatches(init, isrc);
    }
  }

  lemma {:induction false} NoMatches(features: seq<FeatureRow>, isrc: Option<string>)
    requires forall i :: 0 <= i < |features| ==> isrc != Some(features[i].isrc)
    ensures Matches(features, isrc) == []
  {
    if |features| > 0 {
      var n := |features| - 1;
      assert forall i :: 0 <= i < n ==> features[..n][i] == features[i];
      NoMatches(features[..n], isrc);
    }
  }

  /** A play event no feature row joins with yields one row of NULL features. */
  lemma UnmatchedGetsNullFeatures(s: SpotifyRow, features: seq<FeatureRow>)
    requires forall i :: 0 <= i < |features| ==> s.isrc != Some(features[i].isrc)
    ensures Joined(s, features) == [RawRow(s, None, NullFeatures)]
  {
    NoMatches(features, s.isrc);
  }

  // ---------------------------------------------------------------------
  // update_large_table: INSERT OR IGNORE
  // ---------------------------------------------------------------------

  /** The order SQLite produces the SELECT's rows in: a permutation of the
      n candidate positions. */
  predicate IsOrdering(order: seq<nat>, n: nat)
  {
    && |order| == n
    && (forall k :: 0 <= k < n ==> order[k] < n)
    && (forall i, j :: 0 <= i < j < n ==> order[i] != order[j])
    && (forall j :: 0 <= j < n ==> j in order)
  }

  /** The candidates as the INSERT sees them: the same rows, each as often. */
  function Reorder(rows: seq<RawRow>, order: seq<nat>): (r: seq<RawRow>)
    requires IsOrdering(order, |rows|)
    ensures |r| == |rows|
    ensures multiset(r) == multiset(rows)
    ensures forall c :: c in r <==> c in rows
  {
    PermutedMultiset(rows, order);
    assert forall c :: c in Pick(rows, order) <==> c in multiset(Pick(rows, order));
    Pick(rows, order)
  }

  /** The k-th row tried is the candidate at position order[k]. */
  function Pick(rows: seq<RawRow>, order: seq<nat>): (r: seq<RawRow>)
    requires |order| == |rows| && forall k :: 0 <= k < |order| ==> order[k] < |rows|
    ensures |r| == |rows| && forall k :: 0 <= k < |r| ==> r[k] == rows[order[k]]
  {
    seq(|rows|, k requires 0 <= k < |rows| => rows[order[k]])
  }

  /** Picking the rows through a permutation of their positions keeps the
      multiset of rows: the position of the last row is taken out of the
      permutation and the rest is one shorter. */
  lemma {:induction false} PermutedMultiset(rows: seq<RawRow>, order: seq<nat>)
    requires IsOrdering(order, |rows|)
    ensures multiset(Pick(rows, order)) == multiset(rows)
  {
    var n := |rows|;
    if n > 0 {
      var m := n - 1;
      assert m in order;
      var p :| 0 <= p < n && order[p] == m;
      DropAtOrdering(order, p);
      PermutedMultiset(rows[..m], DropAt(order, p));
      PickAroundLast(rows, order, p);
      PutBackLastMultiset(rows, Pick(rows, order), Pick(rows[..m], DropAt(order, p)), p);
    }
  }

  /** If r is r' with the last element of s put back at position p, and r'
      holds the other elements of s, then r holds exactly the elements of s. */
  lemma PutBackLastMultiset<T>(s: seq<T>, r: seq<T>, r': seq<T>, p: nat)
    requires |s| > 0 && p <= |r'| && r == r'[..p] + [s[|s| - 1]] + r'[p..]
    requires multiset(r') == multiset(s[..|s| - 1])
    ensures multiset(r) == multiset(s)
  {
    PutBackMultiset(r, r', s[|s| - 1], p);
    SplitMultiset(s, |s| - 1);
    LastMultiset(s);
  }

  /** Putting an element back into a sequence adds it to the multiset. */
  lemma PutBackMultiset<T>(r: seq<T>, r': seq<T>, x: T, p: nat)
    requires p <= |r'| && r == r'[..p] + [x] + r'[p..]
    ensures multiset(r) == multiset(r') + multiset([x])
  {
    SplitMultiset(r', p);
  }

  lemma LastMultiset<T>(s: seq<T>)
    requires |s| > 0
    ensures multiset(s[|s| - 1..]) == multiset([s[|s| - 1]])
  {
    assert s[|s| - 1..] == [s[|s| - 1]];
  }

  lemma SplitMultiset<T>(s: seq<T>, p: nat)
    requires p <= |s|
    ensures multiset(s) == multiset(s[..p]) + multiset(s[p..])
  {
    assert s == s[..p] + s[p..];
  }

  /** The rows picked through a permutation are those picked through the
      shorter one, with the last row put back at its position p. */
  lemma PickAroundLast(rows: seq<RawRow>, order: seq<nat>, p: nat)
    requires |rows| > 0 && |order| == |rows| && forall k :: 0 <= k < |order| ==> order[k] < |rows|
    requires p < |order| && order[p] == |rows| - 1
    requires forall k :: 0 <= k < |order| - 1 ==> DropAt(order, p)[k] < |rows| - 1
    ensures var r' := Pick(rows[..|rows| - 1], DropAt(order, p));
      Pick(rows, order) == r'[..p] + [rows[|rows| - 1]] + r'[p..]
  {
    var m := |rows| - 1;
    var d := DropAt(order, p);
    var r, r' := Pick(rows, order), Pick(rows[..m], d);
    var t := r'[..p] + [rows[m]] + r'[p..];
    assert |t| == |r|;
    forall k | 0 <= k < |rows| ensures r[k] == t[k] {
      if k < p {
        assert t[k] == r'[k] == rows[d[k]];
      } else if k > p {
        assert t[k] == r'[k - 1] == rows[d[k - 1]];
      }
    }
  }

  /** The sequence without its element at position p. */
  function DropAt(order: seq<nat>, p: nat): (d: seq<nat>)
    requires p < |order|
    ensures |d| == |order| - 1
    ensures forall k :: 0 <= k < p ==> d[k] == order[k]
    ensures forall k :: p <= k < |d| ==> d[k] == order[k + 1]
  {
    order[..p] + order[p + 1..]
  }

  /** Taking the last position out of a permutation of n positions leaves a
      permutation of n - 1. */
  lemma DropAtOrdering(order: seq<nat>, p: nat)
    requires |order| > 0 && IsOrdering(order, |order|)
    requires p < |order| && order[p] == |order| - 1
    ensures IsOrdering(DropAt(order, p), |order| - 1)
  {
    var n, d := |order|, DropAt(order, p);
    forall k | 0 <= k < n - 1 ensures d[k] < n - 1 {
      if k < p { assert order[k] != order[p]; } else { assert order[k + 1] != order[p]; }
    }
    forall i, j | 0 <= i < j < n - 1 ensures d[i] != d[j] {
      var i', j' := if i < p then i else i + 1, if j < p then j else j + 1;
      assert d[i] == order[i'] && d[j] == order[j'] && i' < j';
    }
    forall j | 0 <= j < n - 1 ensures j in d {
      assert j in order;
      var q :| 0 <= q < n && order[q] == j;
      assert q != p;
      assert d[if q < p then q else q - 1] == j;
    }
  }

  /** The row can be inserted: it clashes with no row of the table. */
  predicate Admits(raw: seq<RawRow>, row: RawRow)
  {
    forall k :: 0 <= k < |raw| ==> !Clash(raw[k], row)
  }

  /** `INSERT OR IGNORE`: the rows are tried one after another; a row that
      would break the `played_at` key or the `mbid` UNIQUE constraint against
      the table so far is skipped. Existing rows are never touched. */
  function InsertOrIgnore(raw: seq<RawRow>, rows: seq<RawRow>): (r: seq<RawRow>)
    ensures |raw| <= |r| && r[..|raw|] == raw
    ensures forall j :: |raw| <= j < |r| ==> r[j] in rows
    ensures RawKeyed(raw) ==> RawKeyed(r)
  {
    if |rows| == 0 then raw
    else
      var t := InsertOrIgnore(raw, rows[..|rows| - 1]);
      var c := rows[|rows| - 1];
      assert forall x :: x in rows[..|rows| - 1] ==> x in rows;
      if Admits(t, c) then t + [c] else t
  }

  /** `update_large_table`: read the watermark, try every candidate in the
      given order, and report `changes()`, the number of rows the INSERT added. */
  method UpdateLargeTable(db: Database, order: seq<nat>) returns (insertionCount: nat)
    requires db.Valid()
    requires IsOrdering(order, |Candidates(db.spotify, db.features, LargeWatermark(db.raw))|)
    modifies db
    ensures db.Valid()
    ensures db.spotify == old(db.spotify) && db.features == old(db.features)
    ensures db.failed == old(db.failed) && db.invalid == old(db.invalid)
    ensures db.raw == InsertOrIgnore(old(db.raw),
                                     Reorder(Candidates(old(db.spotify), old(db.features), LargeWatermark(old(db.raw))), order))
    ensures insertionCount == |db.raw| - |old(db.raw)|
  {
    var latest := LargeWatermark(db.raw);
    var rows := Reorder(Candidates(db.spotify, db.features, latest), order);
    var raw;
    raw, insertionCount := InsertRows(db.raw, rows);
    db.raw := raw;
  }

  /** The INSERT's scan: each row is appended when the table so far admits
      it; the count is the number appended. */
  method InsertRows(raw0: seq<RawRow>, rows: seq<RawRow>) returns (raw: seq<RawRow>, insertionCount: nat)
    ensures raw == InsertOrIgnore(raw0, rows)
    ensures insertionCount == |raw| - |raw0|
  {
    raw := raw0;
    insertionCount := 0;
    for i := 0 to |rows|
      invariant raw == InsertOrIgnore(raw0, rows[..i])
      invariant insertionCount == |raw| - |raw0|
    {
      InsertStep(raw0, rows, i);
      var row := rows[i];
      if Admits(raw, row) {
        raw := raw + [row];
        insertionCount := insertionCount + 1;
      }
    }
    assert rows[..|rows|] == rows;
  }

  /** One more row tried by the INSERT. */
  lemma InsertStep(raw: seq<RawRow>, rows: seq<RawRow>, i: nat)
    requires i < |rows|
    ensures var t := InsertOrIgnore(raw, rows[..i]);
      InsertOrIgnore(raw, rows[..i + 1]) == if Admits(t, rows[i]) then t + [rows[i]] else t
  {
    assert rows[..i + 1][..i] == rows[..i];
  }

  /** A candidate that does not end in the table was skipped because some row
      of the table clashes with it. */
  lemma {:induction false} SkippedRowsClash(raw: seq<RawRow>, rows: seq<RawRow>, k: nat)
    requires k < |rows|
    ensures var r := InsertOrIgnore(raw, rows);
      rows[k] in r || !Admits(r, rows[k])
  {
    var n := |rows| - 1;
    var t := InsertOrIgnore(raw, rows[..n]);
    var r := InsertOrIgnore(raw, rows);
    assert |t| <= |r| && t == r[..|t|];
    if k < n {
      assert rows[..n][k] == rows[k];
      SkippedRowsClash(raw, rows[..n], k);
      if rows[k] in t {
        assert rows[k] in r;
      } else {
        var j :| 0 <= j < |t| && Clash(t[j], rows[k]);
        assert r[j] == t[j];
      }
    }
  }

  /** When every row clashes with the table, the INSERT adds nothing. */
  lemma {:induction false} InsertNothingWhenAllClash(raw: seq<RawRow>, rows: seq<RawRow>)
    requires forall k :: 0 <= k < |rows| ==> !Admits(raw, rows[k])
    ensures InsertOrIgnore(raw, rows) == raw
  {
    if |rows| > 0 {
      var init := rows[..|rows| - 1];
      assert forall k :: 0 <= k < |init| ==> init[k] == rows[k];
      InsertNothingWhenAllClash(raw, init);
    }
  }

  /** A play event that passes a watermark passes any lower one. */
  lemma AfterHigherWatermark(s: SpotifyRow, lower: seq<RawRow>, more: seq<RawRow>)
    requires AfterWatermark(s, LargeWatermark(lower + more))
    ensures AfterWatermark(s, LargeWatermark(lower))
  {
    assert RawPlayedAts(lower + more) == RawPlayedAts(lower) + RawPlayedAts(more);
    if LargeWatermark(lower).Some? {
      GreatestMonotone(RawPlayedAts(lower), RawPlayedAts(more));
      var w0, w1 := LargeWatermark(lower).value, LargeWatermark(lower + more).value;
      if w0 != w1 {
        LessTransitive(w0, w1, s.playedAt.value);
      }
    }
  }

  /** Run again with no new play event, `update_large_table` inserts nothing
      and reports 0, provided every play event has a `played_at` or the first
      run leaves a non-NULL watermark (see SecondRunReinsertsNullPlayedAt for
      the remaining case). */
  lemma SecondRunInsertsNothing(spotify: seq<SpotifyRow>, features: seq<FeatureRow>, raw: seq<RawRow>,
                                first: seq<nat>, second: seq<nat>)
    requires IsOrdering(first, |Candidates(spotify, features, LargeWatermark(raw))|)
    requires var after := InsertOrIgnore(raw, Reorder(Candidates(spotify, features, LargeWatermark(raw)), first));
      (forall k :: 0 <= k < |spotify| ==> spotify[k].playedAt.Some?) || LargeWatermark(after).Some?
    requires var after := InsertOrIgnore(raw, Reorder(Candidates(spotify, features, LargeWatermark(raw)), first));
      IsOrdering(second, |Candidates(spotify, features, LargeWatermark(after))|)
    ensures var after := InsertOrIgnore(raw, Reorder(Candidates(spotify, features, LargeWatermark(raw)), first));
      InsertOrIgnore(after, Reorder(Candidates(spotify, features, LargeWatermark(after)), second)) == after
  {
    var rows1 := Reorder(Candidates(spotify, features, LargeWatermark(raw)), first);
    var after := InsertOrIgnore(raw, rows1);
    var rows2 := Reorder(Candidates(spotify, features, LargeWatermark(after)), second);
    forall k | 0 <= k < |rows2| ensures !Admits(after, rows2[k]) {
      CandidateAlreadyBlocked(spotify, features, raw, rows1, rows2[k]);
    }
    InsertNothingWhenAllClash(after, rows2);
  }

  /** A candidate of the second run was a candidate of the first; it is now
      in the table or was skipped for a clash, and either way the table
      refuses it. */
  lemma CandidateAlreadyBlocked(spotify: seq<SpotifyRow>, features: seq<FeatureRow>, raw: seq<RawRow>,
                                rows1: seq<RawRow>, c: RawRow)
    requires forall x :: x in rows1 <==> x in Candidates(spotify, features, LargeWatermark(raw))
    requires (forall k :: 0 <= k < |spotify| ==> spotify[k].playedAt.Some?)
          || LargeWatermark(InsertOrIgnore(raw, rows1)).Some?
    requires c in Candidates(spotify, features, LargeWatermark(InsertOrIgnore(raw, rows1)))
    ensures !Admits(InsertOrIgnore(raw, rows1), c)
  {
    var after := InsertOrIgnore(raw, rows1);
    assert after == raw + after[|raw|..];
    CandidatesMembers(spotify, features, LargeWatermark(after), c);
    var p :| 0 <= p < |spotify| && JoinedPast(spotify[p], features, LargeWatermark(after), c);
    AfterHigherWatermark(spotify[p], raw, after[|raw|..]);
    CandidatesMembers(spotify, features, LargeWatermark(raw), c);
    var q :| 0 <= q < |rows1| && rows1[q] == c;
    SkippedRowsClash(raw, rows1, q);
    if c in after {
      var j :| 0 <= j < |after| && after[j] == c;
      assert c.play == spotify[p];
      assert Clash(after[j], c);
    }
  }

  /** The case the watermark cannot guard: a play event without `played_at`
      and a `raw_data` with no `played_at` at all. `MAX` is NULL on both runs,
      the event is a candidate both times, and since NULLs never clash under
      the key or the UNIQUE constraint its row is inserted again. */
  lemma SecondRunReinsertsNullPlayedAt()
    ensures var s := SpotifyRow(None, "", None, "", "", None, "", None, 0, "t", None, None, None);
      var row := RawRow(s, None, NullFeatures);
      var after := InsertOrIgnore([], Candidates([s], [], LargeWatermark([])));
      && after == [row]
      && LargeWatermark(after).None?
      && InsertOrIgnore(after, Candidates([s], [], LargeWatermark(after))) == [row, row]
  {
    var s := SpotifyRow(None, "", None, "", "", None, "", None, 0, "t", None, None, None);
    var row := RawRow(s, None, NullFeatures);
    assert Matches([], s.isrc) == [];
    assert Candidates([s], [], None) == [row] by {
      assert [s][..0] == [];
    }
    assert LargeWatermark([]) == None;
    assert [row][..0] == [];
    assert InsertOrIgnore([], [row]) == [row];
    assert LargeWatermark([row]) == None by {
      assert RawPlayedAts([row]) == [None];
    }
    assert !Clash(row, row);
  }

  /** Because `raw_data.mbid` is UNIQUE, a later play of a song already merged
      with its features is silently dropped: here the second play, at "10",
      of the song first merged at "09". */
  lemma ReplayOfEnrichedSongIsDropped()
    ensures var features := [FeatureRow("ISRC1", "MBID1", NullFeatures)];
      var first := SpotifyRow(Some("09"), "", None, "", "", None, "", None, 0, "t", None, None, Some("ISRC1"));
      var second := first.(playedAt := Some("10"));
      var raw := [RawRow(first, Some("MBID1"), NullFeatures)];
      var candidates := Candidates([first, second], features, LargeWatermark(raw));
      && candidates == [RawRow(second, Some("MBID1"), NullFeatures)]
      && InsertOrIgnore(raw, candidates) == raw
  {
    var features := [FeatureRow("ISRC1", "MBID1", NullFeatures)];
    var first := SpotifyRow(Some("09"), "", None, "", "", None, "", None, 0, "t", None, None, Some("ISRC1"));
    var second := first.(playedAt := Some("10"));
    var raw := [RawRow(first, Some("MBID1"), NullFeatures)];
    assert LargeWatermark(raw) == Some("09") by {
      assert RawPlayedAts(raw) == [Some("09")];
    }
    assert !AfterWatermark(first, Some("09")) by {
      LessIrreflexive("09");
    }
    assert AfterWatermark(second, Some("09"));
    assert [first, second][..1] == [first] && [first][..0] == [];
    assert Candidates([first], features, Some("09")) == [];
    JoinedUnderKey(second, features, 0);
    assert Joined(second, features) == [RawRow(second, Some("MBID1"), NullFeatures)];
    assert Candidates([first, second], features, Some("09")) == [RawRow(second, Some("MBID1"), NullFeatures)];
    var c := RawRow(second, Some("MBID1"), NullFeatures);
    assert Clash(raw[0], c);
    assert [c][..0] == [];
  }

  // ---------------------------------------------------------------------
  // create_hourly_sheet: most common genre per hour
  // ---------------------------------------------------------------------

  /** One row of the exploded genre frame: the hour of play and one genre. */
  datatype GenreEntry = GenreEntry(hour: int, genre: string)

  predicate IsDigit(c: char)
  {
    '0' <= c <= '9'
  }

  /** The timestamp has two digits where the ISO-8601 form
      `YYYY-MM-DDTHH:MM:SS...` puts the hour. */
  predicate HourForm(t: string)
  {
    |t| >= 13 && IsDigit(t[11]) && IsDigit(t[12])
  }

  /** The two-digit number at positions 11-12. */
  function HourField(t: string): (n: int)
    requires HourForm(t)
    ensures 0 <= n < 100
  {
    10 * (t[11] as int - '0' as int) + (t[12] as int - '0' as int)
  }

  /** `pd.to_datetime(played_at).dt.hour` for the ISO-8601 form the play
      history uses: an hour of the day. None for a NULL timestamp (the hour is
      NaN and `groupby` drops it) and for one that is not of that form. */
  function HourOf(playedAt: Option<string>): (h: Option<int>)
    ensures h.Some? ==> 0 <= h.value < 24
    ensures h.Some? <==> playedAt.Some? && HourForm(playedAt.value) && HourField(playedAt.value) < 24
    ensures h.Some? ==> h.value == HourField(playedAt.value)
  {
    if playedAt.Some? && HourForm(playedAt.value) && HourField(playedAt.value) < 24
    then Some(HourField(playedAt.value))
    else None
  }

  /** A timestamp `YYYY-MM-DDTHH...` has hour HH when HH is a valid hour of
      the day, and no hour otherwise, whatever the date and the rest say. */
  lemma HourOfIsoTimestamp(date: string, h1: char, h2: char, rest: string)
    requires |date| == 10 && '0' <= h1 <= '9' && '0' <= h2 <= '9'
    ensures var hh := 10 * (h1 as int - '0' as int) + (h2 as int - '0' as int);
      HourOf(Some(date + "T" + [h1, h2] + rest)) == if hh < 24 then Some(hh) else None
  {
    var t := date + "T" + [h1, h2] + rest;
    assert t[11] == h1 && t[12] == h2;
  }

  /** The exploded entries of one row: none when `artist_genre` is '' (the
      WHERE clause) or the hour is missing, else one per piece of
      `str.split(',\s*')`. */
  function RowGenres(r: RawRow): (es: seq<GenreEntry>)
    ensures r.play.artistGenre != "" && HourOf(r.play.playedAt).Some? ==>
      var pieces := SplitGenres(r.play.artistGenre);
      |es| == |pieces| && forall k :: 0 <= k < |es| ==> es[k] == GenreEntry(HourOf(r.play.playedAt).value, pieces[k])
    ensures r.play.artistGenre == "" || HourOf(r.play.playedAt).None? ==> es == []
  {
    var h := HourOf(r.play.playedAt);
    if r.play.artistGenre == "" || h.None? then []
    else
      var pieces := SplitGenres(r.play.artistGenre);
      seq(|pieces|, k requires 0 <= k < |pieces| => GenreEntry(h.value, pieces[k]))
  }

  /** `df_genres.explode('artist_genre')` with the hour column added: the
      entries of every row, row after row. */
  function GenreEntries(raw: seq<RawRow>): seq<GenreEntry>
  {
    Flatten(seq(|raw|, k requires 0 <= k < |raw| => RowGenres(raw[k])))
  }

  function Flatten<T>(xss: seq<seq<T>>): seq<T>
  {
    if |xss| == 0 then [] else Flatten(xss[..|xss| - 1]) + xss[|xss| - 1]
  }

  /** Entry e comes from row r: r has a genre list and an hour, the hour is
      e's, and e's genre is one piece of the split list. */
  predicate Explodes(r: RawRow, e: GenreEntry)
  {
    && r.play.artistGenre != ""
    && HourOf(r.play.playedAt) == Some(e.hour)
    && e.genre in SplitGenres(r.play.artistGenre)
  }

  /** The exploded frame holds exactly the (hour, genre) pairs some row with
      a non-empty genre list gives. */
  lemma GenreEntriesMembers(raw: seq<RawRow>, e: GenreEntry)
    ensures e in GenreEntries(raw) <==> exists k :: 0 <= k < |raw| && Explodes(raw[k], e)
  {
    var xss := seq(|raw|, k requires 0 <= k < |raw| => RowGenres(raw[k]));
    FlattenMembers(xss, e);
    if e in GenreEntries(raw) {
      var k :| 0 <= k < |xss| && e in xss[k];
      RowGenresMembers(raw[k], e);
    }
    if exists k :: 0 <= k < |raw| && Explodes(raw[k], e) {
      var k :| 0 <= k < |raw| && Explodes(raw[k], e);
      RowGenresMembers(raw[k], e);
      assert e in xss[k];
    }
  }

  lemma {:induction false} FlattenMembers<T>(xss: seq<seq<T>>, e: T)
    ensures e in Flatten(xss) <==> exists k :: 0 <= k < |xss| && e in xss[k]
  {
    if |xss| > 0 {
      var n := |xss| - 1;
      FlattenMembers(xss[..n], e);
      assert forall k :: 0 <= k < n ==> xss[..n][k] == xss[k];
    }
  }

  lemma RowGenresMembers(r: RawRow, e: GenreEntry)
    ensures e in RowGenres(r) <==> Explodes(r, e)
  {
    if Explodes(r, e) {
      var pieces := SplitGenres(r.play.artistGenre);
      var k :| 0 <= k < |pieces| && pieces[k] == e.genre;
      assert RowGenres(r)[k] == e;
    }
  }

  /** `groupby(['hour', 'artist_genre']).size()` for one group. */
  function GenreCount(entries: seq<GenreEntry>, h: int, g: string): nat
  {
    if |entries| == 0 then 0
    else GenreCount(entries[..|entries| - 1], h, g) + (if entries[|entries| - 1] == GenreEntry(h, g) then 1 else 0)
  }

  /** Genre g displaces b as the choice for hour h: it is counted more often,
      or as often and sorts first (the groupby key order `idxmax` breaks ties by). */
  predicate Beats(entries: seq<GenreEntry>, h: int, g: string, b: string)
  {
    GenreCount(entries, h, g) > GenreCount(entries, h, b)
    || (GenreCount(entries, h, g) == GenreCount(entries, h, b) && Less(g, b))
  }

  /** The best genre of hour h among the candidate entries, counted over all
      entries. */
  function BestAmong(entries: seq<GenreEntry>, h: int, cands: seq<GenreEntry>): (r: Option<string>)
    ensures r.None? <==> forall k :: 0 <= k < |cands| ==> cands[k].hour != h
    ensures r.Some? ==> GenreEntry(h, r.value) in cands
    ensures r.Some? ==> forall k :: 0 <= k < |cands| && cands[k].hour == h ==> !Beats(entries, h, cands[k].genre, r.value)
  {
    if |cands| == 0 then None
    else
      var n := |cands| - 1;
      var b := BestAmong(entries, h, cands[..n]);
      var c := cands[n];
      assert forall k :: 0 <= k < n ==> cands[..n][k] == cands[k];
      if c.hour != h then b
      else if b.None? then
        (LessIrreflexive(c.genre);
         Some(c.genre))
      else if Beats(entries, h, c.genre, b.value) then
        (forall k | 0 <= k < n && cands[k].hour == h ensures !Beats(entries, h, cands[k].genre, c.genre) {
           NotBeatenPasses(entries, h, cands[k].genre, b.value, c.genre);
         }
         LessIrreflexive(c.genre);
         Some(c.genre))
      else b
  }

  /** If b is not beaten by g and c beats b, c is not beaten by g either. */
  lemma NotBeatenPasses(entries: seq<GenreEntry>, h: int, g: string, b: string, c: string)
    requires !Beats(entries, h, g, b) && Beats(entries, h, c, b)
    ensures !Beats(entries, h, g, c)
  {
    if GenreCount(entries, h, g) == GenreCount(entries, h, c) {
      LessTrichotomy(g, b);
      if g != b {
        LessTransitive(c, b, g);
      }
      LessAsymmetric(c, g);
    }
  }

  /** `most_common_genre` of hour h: a genre counted most often in that hour,
      the first in sort order among equals; None when the hour has no genre. */
  function MostCommonGenre(entries: seq<GenreEntry>, h: int): (r: Option<string>)
    ensures r.None? <==> forall k :: 0 <= k < |entries| ==> entries[k].hour != h
    ensures r.Some? ==> GenreEntry(h, r.value) in entries
    ensures r.Some? ==> forall k :: 0 <= k < |entries| && entries[k].hour == h ==>
      && GenreCount(entries, h, entries[k].genre) <= GenreCount(entries, h, r.value)
      && (GenreCount(entries, h, entries[k].genre) == GenreCount(entries, h, r.value) ==> LessEq(r.value, entries[k].genre))
  {
    var r := BestAmong(entries, h, entries);
    if r.Some? then
      (forall k | 0 <= k < |entries| && entries[k].hour == h
         ensures GenreCount(entries, h, entries[k].genre) == GenreCount(entries, h, r.value) ==> LessEq(r.value, entries[k].genre) {
         LessTrichotomy(r.value, entries[k].genre);
       }
       r)
    else r
  }

  /** The three properties pin the genre down: any genre of hour h that is
      counted most often and sorts first among equals is the one reported. */
  lemma MostCommonGenreUnique(entries: seq<GenreEntry>, h: int, g: string)
    requires GenreEntry(h, g) in entries
    requires forall k :: 0 <= k < |entries| && entries[k].hour == h ==>
      && GenreCount(entries, h, entries[k].genre) <= GenreCount(entries, h, g)
      && (GenreCount(entries, h, entries[k].genre) == GenreCount(entries, h, g) ==> LessEq(g, entries[k].genre))
    ensures MostCommonGenre(entries, h) == Some(g)
  {
    var r := MostCommonGenre(entries, h);
    var i :| 0 <= i < |entries| && entries[i] == GenreEntry(h, g);
    var j :| 0 <= j < |entries| && entries[j] == GenreEntry(h, r.value);
    LessEqAntisymmetric(g, r.value);
  }

  /** `df_final['hour_of_day'] + 2 % 24` as written: `%` binds tighter than
      `+`, so the hour is shifted by 2 and never wraps. */
  function ReportedHour(h: int): int
  {
    h + 2 % 24
  }

  /** Plays at 22 and 23 UTC are labelled 24 and 25. */
  lemma ReportedHourDoesNotWrap()
    ensures ReportedHour(22) == 24 && ReportedHour(23) == 25
    ensures forall h :: 0 <= h < 24 ==> ReportedHour(h) == h + 2
  {
  }

  /** The shift the comment asks for: two hours later on a 24-hour clock. */
  function LocalHour(h: int): (r: int)
    requires 0 <= h < 24
    ensures 0 <= r < 24
    ensures r == h + 2 || r == h + 2 - 24
  {
    (h + 2) % 24
  }

  /** The written shift and the wrapped one agree except for the last two hours. */
  lemma ReportedHourAgreesBelow22(h: int)
    requires 0 <= h < 24
    ensures ReportedHour(h) == LocalHour(h) <==> h < 22
  {
  }
}
