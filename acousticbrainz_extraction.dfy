/** The enrichment stage: pick the ISRCs no table has seen yet, turn each into a
    MusicBrainz recording id, fetch that recording's high-level acoustic
    features, flatten them onto the seven feature columns and write features,
    failed ISRCs and invalid MBIDs in one transaction.

    The two web services are inputs: for every key, the sequence of answers it
    would get if asked again and again. The `while True` loops of the source
    stop at the first answer that is not a 429, so they end whenever such an
    answer exists (`Settles`). */
module AcousticBrainzExtraction {
  import opened Common
  import opened Schema

  // ---------------------------------------------------------------------
  // HTTP answers and the retry loop
  // ---------------------------------------------------------------------

  const Ok := 200
  const NotFound := 404
  const RateLimited := 429

  /** One HTTP answer: its status code and its decoded body. */
  datatype Response<B> = Response(status: int, body: B)

  /** A MusicBrainz recording search answer, reduced to the ids of the
      `recordings` it lists, in order. */
  type LookupResponse = Response<seq<string>>

  /** An AcousticBrainz high-level answer: the decoded JSON document. */
  type FetchResponse = Response<Json>

  /** Some answer is not a 429, so the retry loop on this key ends. */
  predicate Settles<B>(rs: seq<Response<B>>)
  {
    exists i :: 0 <= i < |rs| && rs[i].status != RateLimited
  }

  /** The answer the retry loop stops at: the first one that is not a 429. */
  function Settle<B>(rs: seq<Response<B>>): (k: nat)
    requires Settles(rs)
    ensures k < |rs| && rs[k].status != RateLimited
    ensures forall j :: 0 <= j < k ==> rs[j].status == RateLimited
  {
    if rs[0].status != RateLimited then 0
    else
      assert Settles(rs[1..]) by {
        var i :| 0 <= i < |rs| && rs[i].status != RateLimited;
        assert rs[1..][i - 1] == rs[i];
      }
      var k := Settle(rs[1..]);
      assert forall j :: 1 <= j < k + 1 ==> rs[j] == rs[1..][j - 1];
      k + 1
  }

  predicate AllSettle<B>(rss: seq<seq<Response<B>>>)
  {
    forall k :: 0 <= k < |rss| ==> Settles(rss[k])
  }

  // ---------------------------------------------------------------------
  // get_missing_isrc
  // ---------------------------------------------------------------------

  /** The ISRCs some enrichment table already records. */
  function KnownIsrcs(features: seq<FeatureRow>, failed: seq<FailedRow>, invalid: seq<InvalidRow>): set<string>
  {
    (set r | r in features :: r.isrc) + (set r | r in failed :: r.isrc) + (set r | r in invalid :: r.isrc)
  }

  /** The anti-join of `get_missing_isrc`: the distinct non-NULL ISRCs of
      `raw_spotify_data` that none of the three enrichment tables holds. */
  function MissingIsrcs(spotify: seq<SpotifyRow>, features: seq<FeatureRow>, failed: seq<FailedRow>,
                        invalid: seq<InvalidRow>): set<string>
  {
    set r | r in spotify && r.isrc.Some? && r.isrc.value !in KnownIsrcs(features, failed, invalid) :: r.isrc.value
  }

  /** Row by row: an ISRC is selected exactly when some play event carries it
      and no row of `raw_acousticbrainz_data`, `failed_isrcs` or
      `invalid_mbids` joins with it. */
  lemma MissingIsrcsMeaning(spotify: seq<SpotifyRow>, features: seq<FeatureRow>, failed: seq<FailedRow>,
                            invalid: seq<InvalidRow>, x: string)
    ensures x in MissingIsrcs(spotify, features, failed, invalid) <==>
      && (exists k :: 0 <= k < |spotify| && spotify[k].isrc == Some(x))
      && (forall k :: 0 <= k < |features| ==> features[k].isrc != x)
      && (forall k :: 0 <= k < |failed| ==> failed[k].isrc != x)
      && (forall k :: 0 <= k < |invalid| ==> invalid[k].isrc != x)
  {
    var known := KnownIsrcs(features, failed, invalid);
    if x in MissingIsrcs(spotify, features, failed, invalid) {
      var r :| r in spotify && r.isrc == Some(x) && x !in known;
      var k :| 0 <= k < |spotify| && spotify[k] == r;
      forall k | 0 <= k < |features| ensures features[k].isrc != x {
        assert features[k] in features;
      }
      forall k | 0 <= k < |failed| ensures failed[k].isrc != x {
        assert failed[k] in failed;
      }
      forall k | 0 <= k < |invalid| ensures invalid[k].isrc != x {
        assert invalid[k] in invalid;
      }
    }
  }

  /** `get_missing_isrc`: the selected ISRCs as a list without repetitions. */
  method GetMissingIsrc(db: Database) returns (isrcs: seq<string>)
    ensures Distinct(isrcs)
    ensures Elements(isrcs) == MissingIsrcs(db.spotify, db.features, db.failed, db.invalid)
  {
    var newIsrc := MissingIsrcs(db.spotify, db.features, db.failed, db.invalid);
    isrcs := ListOfSet(newIsrc);
  }

  // ---------------------------------------------------------------------
  // isrc_to_mbid
  // ---------------------------------------------------------------------

  /** How the retry loop of one ISRC ends. */
  datatype Resolution = Resolved(mbid: string) | Unresolved

  /** A 200 listing recordings resolves to the first one's id; a 200 listing
      none, or any status other than 200 and 429, leaves the ISRC unresolved. */
  function Resolve(rs: seq<LookupResponse>): Resolution
    requires Settles(rs)
  {
    var r := rs[Settle(rs)];
    if r.status == Ok && |r.body| > 0 then Resolved(r.body[0]) else Unresolved
  }

  /** The three results of `isrc_to_mbid`. */
  datatype Conversion = Conversion(mbids: seq<string>, failed: seq<string>, mbidToIsrc: map<string, string>)

  /** What `isrc_to_mbid` returns after the first |isrcs| keys. Every ISRC
      ends in exactly one of the two lists. */
  function Convert(isrcs: seq<string>, lookups: seq<seq<LookupResponse>>): (c: Conversion)
    requires |lookups| == |isrcs| && AllSettle(lookups)
    ensures |c.mbids| + |c.failed| == |isrcs|
  {
    if |isrcs| == 0 then Conversion([], [], map[])
    else
      var n := |isrcs| - 1;
      var c := Convert(isrcs[..n], lookups[..n]);
      match Resolve(lookups[n])
      case Resolved(m) => Conversion(c.mbids + [m], c.failed, c.mbidToIsrc[m := isrcs[n]])
      case Unresolved => Conversion(c.mbids, c.failed + [isrcs[n]], c.mbidToIsrc)
  }

  /** `isrc_to_mbid`: one lookup per ISRC, repeated while it answers 429. */
  method IsrcToMbid(isrcs: seq<string>, lookups: seq<seq<LookupResponse>>)
    returns (mbids: seq<string>, failed: seq<string>, mbidToIsrc: map<string, string>)
    requires |lookups| == |isrcs| && AllSettle(lookups)
    ensures Conversion(mbids, failed, mbidToIsrc) == Convert(isrcs, lookups)
  {
    mbids, failed, mbidToIsrc := [], [], map[];
    for i := 0 to |isrcs|
      invariant Conversion(mbids, failed, mbidToIsrc) == Convert(isrcs[..i], lookups[..i])
    {
      assert isrcs[..i + 1][..i] == isrcs[..i] && lookups[..i + 1][..i] == lookups[..i];
      var isrc := isrcs[i];
      var rs := lookups[i];
      var a := 0;
      while true
        invariant a <= Settle(rs)
        invariant Conversion(mbids, failed, mbidToIsrc) == Convert(isrcs[..i], lookups[..i])
        decreases Settle(rs) - a
      {
        var response := rs[a];
        if response.status == Ok {
          if |response.body| > 0 {
            var mbid := response.body[0];
            mbids := mbids + [mbid];
            mbidToIsrc := mbidToIsrc[mbid := isrc];
          } else {
            failed := failed + [isrc];
          }
          break;
        }
        if response.status == RateLimited {
          a := a + 1;
        } else {
          failed := failed + [isrc];
          break;
        }
      }
    }
    assert isrcs[..|isrcs|] == isrcs && lookups[..|lookups|] == lookups;
  }

  /** The failed list holds exactly the ISRCs whose lookup ended unresolved. */
  lemma {:induction false} ConvertFailed(isrcs: seq<string>, lookups: seq<seq<LookupResponse>>, x: string)
    requires |lookups| == |isrcs| && AllSettle(lookups)
    ensures x in Convert(isrcs, lookups).failed <==>
      exists k :: 0 <= k < |isrcs| && isrcs[k] == x && Resolve(lookups[k]).Unresolved?
  {
    if |isrcs| > 0 {
      var n := |isrcs| - 1;
      ConvertFailed(isrcs[..n], lookups[..n], x);
      assert forall k :: 0 <= k < n ==> isrcs[..n][k] == isrcs[k] && lookups[..n][k] == lookups[k];
    }
  }

  /** The mbid list holds exactly the ids some lookup resolved to, and the
      reverse map has exactly those ids as keys. */
  lemma {:induction false} ConvertMbids(isrcs: seq<string>, lookups: seq<seq<LookupResponse>>, m: string)
    requires |lookups| == |isrcs| && AllSettle(lookups)
    ensures m in Convert(isrcs, lookups).mbids <==> exists k :: 0 <= k < |isrcs| && Resolve(lookups[k]) == Resolved(m)
    ensures m in Convert(isrcs, lookups).mbidToIsrc <==> m in Convert(isrcs, lookups).mbids
  {
    if |isrcs| > 0 {
      var n := |isrcs| - 1;
      ConvertMbids(isrcs[..n], lookups[..n], m);
      assert forall k :: 0 <= k < n ==> lookups[..n][k] == lookups[k];
    }
  }

  /** `mbid_to_isrc[mbid]` is the ISRC that produced the mbid; when two ISRCs
      resolve to the same mbid, the later one wins. */
  lemma {:induction false} ConvertLastWins(isrcs: seq<string>, lookups: seq<seq<LookupResponse>>, k: nat)
    requires |lookups| == |isrcs| && AllSettle(lookups)
    requires k < |isrcs| && Resolve(lookups[k]).Resolved?
    requires forall l :: k < l < |isrcs| ==> Resolve(lookups[l]) != Resolve(lookups[k])
    ensures var m := Resolve(lookups[k]).mbid;
      m in Convert(isrcs, lookups).mbidToIsrc && Convert(isrcs, lookups).mbidToIsrc[m] == isrcs[k]
  {
    var n := |isrcs| - 1;
    if k < n {
      assert lookups[..n][k] == lookups[k] && isrcs[..n][k] == isrcs[k];
      assert forall l :: k < l < n ==> lookups[..n][l] == lookups[l];
      ConvertLastWins(isrcs[..n], lookups[..n], k);
    }
  }

  // ---------------------------------------------------------------------
  // extract_data
  // ---------------------------------------------------------------------

  /** How the retry loop of one mbid ends: a 200 delivers the payload, a 404
      marks the mbid invalid, any other status abandons it. */
  datatype Fetch = Fetched(payload: Json) | Invalid | Abandoned

  function FetchOf(rs: seq<FetchResponse>): Fetch
    requires Settles(rs)
  {
    var r := rs[Settle(rs)];
    if r.status == Ok then Fetched(r.body)
    else if r.status == NotFound then Invalid
    else Abandoned
  }

  /** The loop asks only about truthy mbids, so only those need to settle. */
  predicate FetchesSettle(mbids: seq<string>, fetches: seq<seq<FetchResponse>>)
  {
    |fetches| == |mbids| && forall k :: 0 <= k < |mbids| && mbids[k] != "" ==> Settles(fetches[k])
  }

  /** `ab_data` and `invalid_mbids` before the final `list(set(...))`. */
  datatype Extraction = Extraction(abData: map<string, Json>, invalid: seq<string>)

  function Extract(mbids: seq<string>, fetches: seq<seq<FetchResponse>>): Extraction
    requires FetchesSettle(mbids, fetches)
  {
    if |mbids| == 0 then Extraction(map[], [])
    else
      var n := |mbids| - 1;
      assert FetchesSettle(mbids[..n], fetches[..n]) by {
        assert forall k :: 0 <= k < n ==> mbids[..n][k] == mbids[k] && fetches[..n][k] == fetches[k];
      }
      var e := Extract(mbids[..n], fetches[..n]);
      var m := mbids[n];
      if m == "" then e
      else
        match FetchOf(fetches[n])
        case Fetched(p) => Extraction(e.abData[m := p], e.invalid)
        case Invalid => Extraction(e.abData, e.invalid + [m])
        case Abandoned => e
  }

  /** `extract_data`: one high-level request per truthy mbid, repeated while it
      answers 429; the invalid list comes back without repetitions. */
  method ExtractData(mbids: seq<string>, fetches: seq<seq<FetchResponse>>)
    returns (abData: map<string, Json>, invalid: seq<string>)
    requires FetchesSettle(mbids, fetches)
    ensures abData == Extract(mbids, fetches).abData
    ensures Distinct(invalid)
    ensures Elements(invalid) == Elements(Extract(mbids, fetches).invalid)
  {
    abData := map[];
    var found := [];
    for i := 0 to |mbids|
      invariant FetchesSettle(mbids[..i], fetches[..i])
      invariant Extraction(abData, found) == Extract(mbids[..i], fetches[..i])
    {
      assert mbids[..i + 1][..i] == mbids[..i] && fetches[..i + 1][..i] == fetches[..i];
      assert FetchesSettle(mbids[..i + 1], fetches[..i + 1]) by {
        assert forall k :: 0 <= k < i + 1 ==> mbids[..i + 1][k] == mbids[k] && fetches[..i + 1][k] == fetches[k];
      }
      var mbid := mbids[i];
      if mbid == "" {
        continue;
      }
      var rs := fetches[i];
      var a := 0;
      while true
        invariant a <= Settle(rs)
        invariant Extraction(abData, found) == Extract(mbids[..i], fetches[..i])
        decreases Settle(rs) - a
      {
        var res := rs[a];
        if res.status == Ok {
          abData := abData[mbid := res.body];
          break;
        } else if res.status == RateLimited {
          a := a + 1;
        } else if res.status == NotFound {
          found := found + [mbid];
          break;
        } else {
          break;
        }
      }
    }
    assert mbids[..|mbids|] == mbids && fetches[..|fetches|] == fetches;
    invalid := ListOfSet(Elements(found));
  }

  /** A payload is kept exactly for the truthy mbids some request answered 200. */
  lemma {:induction false} ExtractPayloads(mbids: seq<string>, fetches: seq<seq<FetchResponse>>, m: string)
    requires FetchesSettle(mbids, fetches)
    ensures m in Extract(mbids, fetches).abData <==>
      exists k :: 0 <= k < |mbids| && mbids[k] == m && m != "" && FetchOf(fetches[k]).Fetched?
  {
    if |mbids| > 0 {
      var n := |mbids| - 1;
      assert forall k :: 0 <= k < n ==> mbids[..n][k] == mbids[k] && fetches[..n][k] == fetches[k];
      ExtractPayloads(mbids[..n], fetches[..n], m);
    }
  }

  /** The payload kept for an mbid is the body of the last 200 answered for
      it: a later 200 for the same mbid overwrites an earlier one, and a later
      404 or abandoned request leaves it alone. */
  lemma {:induction false} ExtractPayloadLastWins(mbids: seq<string>, fetches: seq<seq<FetchResponse>>, k: nat)
    requires FetchesSettle(mbids, fetches)
    requires k < |mbids| && mbids[k] != "" && FetchOf(fetches[k]).Fetched?
    requires forall l :: k < l < |mbids| && mbids[l] == mbids[k] ==> !FetchOf(fetches[l]).Fetched?
    ensures mbids[k] in Extract(mbids, fetches).abData
    ensures Extract(mbids, fetches).abData[mbids[k]] == fetches[k][Settle(fetches[k])].body
  {
    var n := |mbids| - 1;
    assert forall j :: 0 <= j < n ==> mbids[..n][j] == mbids[j] && fetches[..n][j] == fetches[j];
    if k < n {
      ExtractPayloadLastWins(mbids[..n], fetches[..n], k);
    }
  }

  /** An mbid is listed invalid exactly when some request for it answered 404. */
  lemma {:induction false} ExtractInvalid(mbids: seq<string>, fetches: seq<seq<FetchResponse>>, m: string)
    requires FetchesSettle(mbids, fetches)
    ensures m in Extract(mbids, fetches).invalid <==>
      exists k :: 0 <= k < |mbids| && mbids[k] == m && m != "" && FetchOf(fetches[k]).Invalid?
  {
    if |mbids| > 0 {
      var n := |mbids| - 1;
      assert forall k :: 0 <= k < n ==> mbids[..n][k] == mbids[k] && fetches[..n][k] == fetches[k];
      ExtractInvalid(mbids[..n], fetches[..n], m);
    }
  }

  /** An mbid abandoned on every request ends in neither result, and a falsy
      mbid is never looked at. */
  lemma AbandonedInNeither(mbids: seq<string>, fetches: seq<seq<FetchResponse>>, m: string)
    requires FetchesSettle(mbids, fetches)
    requires m == "" || forall k :: 0 <= k < |mbids| && mbids[k] == m ==> FetchOf(fetches[k]).Abandoned?
    ensures m !in Extract(mbids, fetches).abData && m !in Extract(mbids, fetches).invalid
  {
    ExtractPayloads(mbids, fetches, m);
    ExtractInvalid(mbids, fetches, m);
  }

  // ---------------------------------------------------------------------
  // process_data
  // ---------------------------------------------------------------------

  /** `v.get(p0, {}).get(p1, {}) ... .get(last)` on a decoded JSON value. The
      outer None is the AttributeError raised when a step meets a value that is
      not an object; the inner None is Python's None, which is also what a
      JSON null becomes. */
  function Get(j: Json, path: seq<string>): (r: Option<Option<Json>>)
    ensures r.Some? <==> Traversable(j, path)
    ensures r.Some? ==> r.value == PathValue(j, path)
    decreases |path|
  {
    if |path| == 0 then Some(if j.JNull? then None else Some(j))
    else if !j.JObject? then None
    else if path[0] in j.members then Get(j.members[path[0]], path[1..])
    else if |path| == 1 then Some(None)
    else Get(JObject(map[]), path[1..])
  }

  /** Every value the chain of `.get` calls meets on its way is an object. */
  predicate Traversable(j: Json, path: seq<string>)
    decreases |path|
  {
    |path| == 0 || (j.JObject? && (path[0] in j.members ==> Traversable(j.members[path[0]], path[1..])))
  }

  /** The value at the end of the path, None when a key is missing or the
      value found is a JSON null. */
  function PathValue(j: Json, path: seq<string>): Option<Json>
    decreases |path|
  {
    if |path| == 0 then (if j.JNull? then None else Some(j))
    else if j.JObject? && path[0] in j.members then PathValue(j.members[path[0]], path[1..])
    else None
  }

  /** Where each feature column is read from in a high-level document. */
  const FeaturePaths: seq<seq<string>> := [
    ["highlevel", "danceability", "value"],
    ["highlevel", "voice_instrumental", "value"],
    ["highlevel", "voice_instrumental", "probability"],
    ["highlevel", "gender", "value"],
    ["highlevel", "gender", "probability"],
    ["highlevel", "timbre", "value"],
    ["highlevel", "tonal_atonal", "value"]]

  /** The feature columns in the order of FeaturePaths. */
  function Fields(f: Features): seq<Option<Json>>
  {
    [f.danceability, f.instrumentality, f.instrumentalityProb, f.gender, f.genderProb, f.timbre, f.tonality]
  }

  /** The feature columns of one payload; None when a lookup raises. */
  function Project(payload: Json): (r: Option<Features>)
    ensures r.Some? <==> forall k :: 0 <= k < |FeaturePaths| ==> Traversable(payload, FeaturePaths[k])
    ensures r.Some? ==> forall k :: 0 <= k < |FeaturePaths| ==> Fields(r.value)[k] == PathValue(payload, FeaturePaths[k])
  {
    var g := seq(|FeaturePaths|, k requires 0 <= k < |FeaturePaths| => Get(payload, FeaturePaths[k]));
    if forall k :: 0 <= k < |g| ==> g[k].Some? then
      var f := Features(g[0].value, g[1].value, g[2].value, g[3].value, g[4].value, g[5].value, g[6].value);
      assert Fields(f) == seq(7, k requires 0 <= k < 7 => g[k].value);
      Some(f)
    else None
  }

  /** `input_data.get(mbid, {})`. */
  function PayloadOf(input: map<string, Json>, m: string): Json
  {
    if m in input then input[m] else JObject(map[])
  }

  /** An mbid `process_data` turns into a row: truthy, not invalid, and mapped
      to a truthy ISRC. */
  predicate Wanted(m: string, invalid: seq<string>, mbidToIsrc: map<string, string>)
  {
    m != "" && m !in invalid && m in mbidToIsrc && mbidToIsrc[m] != ""
  }

  /** The wanted mbids, in input order. */
  function Selected(mbids: seq<string>, invalid: seq<string>, mbidToIsrc: map<string, string>): (s: seq<string>)
    ensures forall k :: 0 <= k < |s| ==> Wanted(s[k], invalid, mbidToIsrc)
  {
    if |mbids| == 0 then []
    else
      var init := Selected(mbids[..|mbids| - 1], invalid, mbidToIsrc);
      var m := mbids[|mbids| - 1];
      if Wanted(m, invalid, mbidToIsrc) then init + [m] else init
  }

  /** Selection commutes with concatenation: wanted mbids keep their order. */
  lemma {:induction false} SelectedAppend(a: seq<string>, b: seq<string>, invalid: seq<string>,
                                          mbidToIsrc: map<string, string>)
    ensures Selected(a + b, invalid, mbidToIsrc) == Selected(a, invalid, mbidToIsrc) + Selected(b, invalid, mbidToIsrc)
    decreases |b|
  {
    if |b| == 0 {
      assert a + b == a;
    } else {
      var b' := b[..|b| - 1];
      assert (a + b)[..|a + b| - 1] == a + b';
      SelectedAppend(a, b', invalid, mbidToIsrc);
    }
  }

  /** Exactly the wanted mbids of the input are selected. */
  lemma {:induction false} SelectedMembership(mbids: seq<string>, invalid: seq<string>,
                                              mbidToIsrc: map<string, string>, m: string)
    ensures m in Selected(mbids, invalid, mbidToIsrc) <==> m in mbids && Wanted(m, invalid, mbidToIsrc)
  {
    if |mbids| > 0 {
      var init := mbids[..|mbids| - 1];
      SelectedMembership(init, invalid, mbidToIsrc, m);
      assert mbids == init + [mbids[|mbids| - 1]];
    }
  }

  /** The row of one selected mbid. */
  function RowOf(input: map<string, Json>, mbidToIsrc: map<string, string>, m: string): FeatureRow
    requires m in mbidToIsrc && Project(PayloadOf(input, m)).Some?
  {
    FeatureRow(mbidToIsrc[m], m, Project(PayloadOf(input, m)).value)
  }

  /** `process_data`: one row per selected mbid, in order, its ISRC taken from
      `mbid_to_isrc`; None when some selected payload has a value that is not
      an object where the lookups expect one (the AttributeError). */
  method ProcessData(input: map<string, Json>, mbids: seq<string>, invalid: seq<string>,
                     mbidToIsrc: map<string, string>)
    returns (df: Option<seq<FeatureRow>>)
    ensures var sel := Selected(mbids, invalid, mbidToIsrc);
      df.Some? <==> forall k :: 0 <= k < |sel| ==> Project(PayloadOf(input, sel[k])).Some?
    ensures var sel := Selected(mbids, invalid, mbidToIsrc);
      df.Some? ==> |df.value| == |sel| && forall k :: 0 <= k < |sel| ==> df.value[k] == RowOf(input, mbidToIsrc, sel[k])
  {
    var output: seq<FeatureRow> := [];
    for i := 0 to |mbids|
      invariant RowsBuilt(output, Selected(mbids[..i], invalid, mbidToIsrc), input, mbidToIsrc)
    {
      assert mbids[..i + 1][..i] == mbids[..i];
      var mbid := mbids[i];
      if mbid == "" {
        continue;
      }
      if mbid in invalid {
        continue;
      }
      var isrc := if mbid in mbidToIsrc then Some(mbidToIsrc[mbid]) else None;
      if !Truthy(isrc) {
        continue;
      }
      var features := Project(PayloadOf(input, mbid));
      if features.None? {
        SelectedAt(mbids, i, invalid, mbidToIsrc);
        return None;
      }
      RowsBuiltStep(output, Selected(mbids[..i], invalid, mbidToIsrc), mbid, input, mbidToIsrc);
      output := output + [FeatureRow(isrc.value, mbid, features.value)];
    }
    assert mbids[..|mbids|] == mbids;
    df := Some(output);
  }

  /** The loop so far: one row per selected mbid, in order. */
  ghost predicate RowsBuilt(output: seq<FeatureRow>, sel: seq<string>, input: map<string, Json>,
                            mbidToIsrc: map<string, string>)
  {
    && |output| == |sel|
    && (forall k :: 0 <= k < |sel| ==> Wanted(sel[k], [], mbidToIsrc) && Project(PayloadOf(input, sel[k])).Some?)
    && (forall k :: 0 <= k < |sel| ==> output[k] == RowOf(input, mbidToIsrc, sel[k]))
  }

  lemma RowsBuiltStep(output: seq<FeatureRow>, sel: seq<string>, m: string, input: map<string, Json>,
                      mbidToIsrc: map<string, string>)
    requires RowsBuilt(output, sel, input, mbidToIsrc)
    requires Wanted(m, [], mbidToIsrc) && Project(PayloadOf(input, m)).Some?
    ensures RowsBuilt(output + [RowOf(input, mbidToIsrc, m)], sel + [m], input, mbidToIsrc)
  {
  }

  /** A wanted mbid at position i is the selected mbid that follows those
      selected from the positions before it. */
  lemma SelectedAt(mbids: seq<string>, i: nat, invalid: seq<string>, mbidToIsrc: map<string, string>)
    requires i < |mbids| && Wanted(mbids[i], invalid, mbidToIsrc)
    ensures var n := |Selected(mbids[..i], invalid, mbidToIsrc)|;
      n < |Selected(mbids, invalid, mbidToIsrc)| && Selected(mbids, invalid, mbidToIsrc)[n] == mbids[i]
  {
    assert mbids[..i + 1][..i] == mbids[..i];
    SelectedAppend(mbids[..i + 1], mbids[i + 1..], invalid, mbidToIsrc);
    assert mbids[..i + 1] + mbids[i + 1..] == mbids;
  }

  /** An mbid whose request was abandoned has no payload, yet still gets a
      row: every feature column is NULL. */
  lemma AbandonedGivesNullRow(input: map<string, Json>, m: string)
    requires m !in input
    ensures Project(PayloadOf(input, m)) == Some(NullFeatures)
  {
    var e := JObject(map[]);
    assert forall k :: 0 <= k < |FeaturePaths| ==> FeaturePaths[k][0] !in e.members;
  }

  // ---------------------------------------------------------------------
  // upload_data
  // ---------------------------------------------------------------------

  function StoredMbids(rows: seq<FeatureRow>): set<string>
  {
    set r | r in rows :: r.mbid
  }

  /** `df[~df['mbid'].isin(uploaded_mbids)]`: the rows whose mbid is not
      stored yet, in order; duplicates inside the batch stay. */
  function FreshFeatures(stored: seq<FeatureRow>, df: seq<FeatureRow>): seq<FeatureRow>
  {
    if |df| == 0 then []
    else
      var init := FreshFeatures(stored, df[..|df| - 1]);
      var r := df[|df| - 1];
      if r.mbid in StoredMbids(stored) then init else init + [r]
  }

  lemma {:induction false} FreshFeaturesMembers(stored: seq<FeatureRow>, df: seq<FeatureRow>, r: FeatureRow)
    ensures r in FreshFeatures(stored, df) <==> r in df && r.mbid !in StoredMbids(stored)
  {
    if |df| > 0 {
      var init := df[..|df| - 1];
      FreshFeaturesMembers(stored, init, r);
      assert df == init + [df[|df| - 1]];
    }
  }

  lemma {:induction false} FreshFeaturesAppend(stored: seq<FeatureRow>, a: seq<FeatureRow>, b: seq<FeatureRow>)
    ensures FreshFeatures(stored, a + b) == FreshFeatures(stored, a) + FreshFeatures(stored, b)
    decreases |b|
  {
    if |b| == 0 {
      assert a + b == a;
    } else {
      var b' := b[..|b| - 1];
      assert (a + b)[..|a + b| - 1] == a + b';
      FreshFeaturesAppend(stored, a, b');
    }
  }

  /** One `failed_isrcs` row per failed ISRC, all stamped `now`. */
  function FailedLog(failed: seq<string>, now: string): (rows: seq<FailedRow>)
    ensures |rows| == |failed|
    ensures forall k :: 0 <= k < |rows| ==> rows[k].isrc == failed[k] && rows[k].lastAttempt == now
  {
    seq(|failed|, k requires 0 <= k < |failed| => FailedRow(failed[k], now))
  }

  /** The `invalid_mbids` rows: one per invalid mbid that `mbid_to_isrc` maps,
      paired with that ISRC and stamped `now`. */
  function InvalidLog(invalid: seq<string>, mbidToIsrc: map<string, string>, now: string): (rows: seq<InvalidRow>)
    ensures forall k :: 0 <= k < |rows| ==>
      && rows[k].mbid in invalid && rows[k].mbid in mbidToIsrc
      && rows[k].isrc == mbidToIsrc[rows[k].mbid] && rows[k].lastAttempt == now
  {
    if |invalid| == 0 then []
    else
      var init := InvalidLog(invalid[..|invalid| - 1], mbidToIsrc, now);
      var m := invalid[|invalid| - 1];
      if m in mbidToIsrc then init + [InvalidRow(m, mbidToIsrc[m], now)] else init
  }

  /** Every mapped invalid mbid is logged. */
  lemma {:induction false} InvalidLogComplete(invalid: seq<string>, mbidToIsrc: map<string, string>, now: string, m: string)
    requires m in invalid && m in mbidToIsrc
    ensures InvalidRow(m, mbidToIsrc[m], now) in InvalidLog(invalid, mbidToIsrc, now)
  {
    var n := |invalid| - 1;
    if invalid[n] != m {
      assert m in invalid[..n] by {
        var k :| 0 <= k < |invalid| && invalid[k] == m;
        assert invalid[..n][k] == m;
      }
      InvalidLogComplete(invalid[..n], mbidToIsrc, now, m);
    }
  }

  /** Whether the transaction around the three appends committed. */
  datatype Commit = Committed | RolledBack

  /** A value the SQLite driver can bind to a column: a JSON object or array
      decodes to a dict or list, which `to_sql` cannot bind. */
  predicate Scalar(j: Json)
  {
    !j.JObject? && !j.JArray?
  }

  /** Every feature column of the row is NULL or a bindable value. */
  predicate Bindable(r: FeatureRow)
  {
    forall k :: 0 <= k < |Fields(r.features)| && Fields(r.features)[k].Some? ==> Scalar(Fields(r.features)[k].value)
  }

  /** The appends of `upload_data` all go through: every fresh feature row can
      be bound, and the three grown tables still satisfy their keys. */
  predicate UploadCommits(stored: seq<FeatureRow>, failedRows: seq<FailedRow>, invalidRows: seq<InvalidRow>,
                          df: seq<FeatureRow>, failed: seq<string>, invalid: seq<string>,
                          mbidToIsrc: map<string, string>, now: string)
  {
    var added := FreshFeatures(stored, df);
    && (forall k :: 0 <= k < |added| ==> Bindable(added[k]))
    && FeaturesKeyed(stored + added)
    && FailedKeyed(failedRows + FailedLog(failed, now))
    && InvalidKeyed(invalidRows + InvalidLog(invalid, mbidToIsrc, now))
  }

  /** `upload_data`: the fresh feature rows, the failed ISRCs and the mapped
      invalid mbids are appended inside one transaction. A row the driver
      cannot bind or a broken key raises inside it, and then nothing changes. */
  method UploadData(db: Database, df: seq<FeatureRow>, failed: seq<string>, invalid: seq<string>,
                    mbidToIsrc: map<string, string>, now: string)
    returns (c: Commit)
    requires db.Valid()
    modifies db
    ensures db.Valid()
    ensures db.spotify == old(db.spotify) && db.raw == old(db.raw)
    ensures c == Committed <==>
      UploadCommits(old(db.features), old(db.failed), old(db.invalid), df, failed, invalid, mbidToIsrc, now)
    ensures c == Committed ==>
      && db.features == old(db.features) + FreshFeatures(old(db.features), df)
      && db.failed == old(db.failed) + FailedLog(failed, now)
      && db.invalid == old(db.invalid) + InvalidLog(invalid, mbidToIsrc, now)
    ensures c == RolledBack ==>
      db.features == old(db.features) && db.failed == old(db.failed) && db.invalid == old(db.invalid)
  {
    var features := db.features;
    var failedRows := db.failed;
    var invalidRows := db.invalid;
    var newDf := [];
    if |df| > 0 {
      newDf := FreshFeatures(db.features, df);
      if |newDf| > 0 {
        features := features + newDf;
      }
    }
    if |failed| > 0 {
      failedRows := failedRows + FailedLog(failed, now);
    }
    if |invalid| > 0 {
      var invalidData := InvalidData(invalid, mbidToIsrc, now);
      if |invalidData| > 0 {
        invalidRows := invalidRows + invalidData;
      }
    }
    assert newDf == FreshFeatures(db.features, df);
    assert features == db.features + newDf;
    assert failedRows == db.failed + FailedLog(failed, now);
    assert invalidRows == db.invalid + InvalidLog(invalid, mbidToIsrc, now);
    // The INSERTs raise, and the transaction rolls back, unless every row binds
    // and every key holds.
    if UploadCommits(db.features, db.failed, db.invalid, df, failed, invalid, mbidToIsrc, now) {
      db.features, db.failed, db.invalid := features, failedRows, invalidRows;
      c := Committed;
    } else {
      c := RolledBack;
    }
  }

  /** The loop building `invalid_mbid_data`: a row for each invalid mbid
      `mbid_to_isrc` maps, in list order. */
  method InvalidData(invalid: seq<string>, mbidToIsrc: map<string, string>, now: string)
    returns (invalidData: seq<InvalidRow>)
    ensures invalidData == InvalidLog(invalid, mbidToIsrc, now)
  {
    invalidData := [];
    for i := 0 to |invalid|
      invariant invalidData == InvalidLog(invalid[..i], mbidToIsrc, now)
    {
      assert invalid[..i + 1][..i] == invalid[..i];
      var mbid := invalid[i];
      if mbid in mbidToIsrc {
        invalidData := invalidData + [InvalidRow(mbid, mbidToIsrc[mbid], now)];
      }
    }
    assert invalid[..|invalid|] == invalid;
  }

  /** A feature value that is itself a JSON object (a path that stops one
      level short of a leaf) rolls the whole upload back. */
  lemma NestedValueRollsBack(stored: seq<FeatureRow>, failedRows: seq<FailedRow>, invalidRows: seq<InvalidRow>,
                             df: seq<FeatureRow>, failed: seq<string>, invalid: seq<string>,
                             mbidToIsrc: map<string, string>, now: string, i: nat)
    requires i < |df| && df[i].mbid !in StoredMbids(stored) && df[i].features.danceability.Some?
    requires df[i].features.danceability.value.JObject?
    ensures !UploadCommits(stored, failedRows, invalidRows, df, failed, invalid, mbidToIsrc, now)
  {
    FreshFeaturesMembers(stored, df, df[i]);
    var added := FreshFeatures(stored, df);
    var p :| 0 <= p < |added| && added[p] == df[i];
    assert Fields(added[p].features)[0] == df[i].features.danceability;
  }

  /** Two rows of the batch with the same new mbid both reach the INSERT, so
      the UNIQUE constraint on `mbid` rolls the whole upload back. */
  lemma DuplicateMbidInBatchAborts(stored: seq<FeatureRow>, df: seq<FeatureRow>, i: nat, j: nat)
    requires i < j < |df| && df[i].mbid == df[j].mbid && df[i].mbid !in StoredMbids(stored)
    ensures !FeaturesKeyed(stored + FreshFeatures(stored, df))
  {
    var a, b := df[..j], df[j..];
    assert df == a + b;
    FreshFeaturesAppend(stored, a, b);
    assert b == [df[j]] + b[1..];
    FreshFeaturesAppend(stored, [df[j]], b[1..]);
    assert FreshFeatures(stored, [df[j]]) == [df[j]] by {
      assert [df[j]][..0] == [];
    }
    assert df[i] in a;
    FreshFeaturesMembers(stored, a, df[i]);
    var fa := FreshFeatures(stored, a);
    var p :| 0 <= p < |fa| && fa[p] == df[i];
    var all := stored + FreshFeatures(stored, df);
    assert all[|stored| + p] == df[i];
    assert all[|stored| + |fa|] == df[j];
  }

  /** Rows appended to the enrichment tables take their ISRCs out of the next
      selection, and nothing else changes in it. */
  lemma AppendedIsrcsLeaveSelection(spotify: seq<SpotifyRow>, features: seq<FeatureRow>, failed: seq<FailedRow>,
                                    invalid: seq<InvalidRow>, newFeatures: seq<FeatureRow>,
                                    newFailed: seq<FailedRow>, newInvalid: seq<InvalidRow>)
    ensures MissingIsrcs(spotify, features + newFeatures, failed + newFailed, invalid + newInvalid)
         == MissingIsrcs(spotify, features, failed, invalid) - KnownIsrcs(newFeatures, newFailed, newInvalid)
  {
    assert KnownIsrcs(features + newFeatures, failed + newFailed, invalid + newInvalid)
        == KnownIsrcs(features, failed, invalid) + KnownIsrcs(newFeatures, newFailed, newInvalid);
  }

  /** After a commit, neither a failed ISRC nor the ISRC of a mapped invalid
      mbid is selected again. */
  lemma CommitRetiresIsrcs(spotify: seq<SpotifyRow>, features: seq<FeatureRow>, failedRows: seq<FailedRow>,
                           invalidRows: seq<InvalidRow>, batch: seq<FeatureRow>, failed: seq<string>,
                           invalid: seq<string>, mbidToIsrc: map<string, string>, now: string, x: string)
    requires x in failed || exists m :: m in invalid && m in mbidToIsrc && mbidToIsrc[m] == x
    ensures x !in MissingIsrcs(spotify, features + batch, failedRows + FailedLog(failed, now),
                               invalidRows + InvalidLog(invalid, mbidToIsrc, now))
  {
    var fl := FailedLog(failed, now);
    var il := InvalidLog(invalid, mbidToIsrc, now);
    AppendedIsrcsLeaveSelection(spotify, features, failedRows, invalidRows, batch, fl, il);
    if x in failed {
      var k :| 0 <= k < |failed| && failed[k] == x;
      assert fl[k] in fl;
    } else {
      var m :| m in invalid && m in mbidToIsrc && mbidToIsrc[m] == x;
      InvalidLogComplete(invalid, mbidToIsrc, now, m);
    }
  }

  // ---------------------------------------------------------------------
  // run
  // ---------------------------------------------------------------------

  datatype RunOutcome =
    | NothingToDo        // no ISRC to process: no request, no write
    | Crashed            // process_data raised; the handler swallowed it
    | Finished(commit: Commit)

  /** The answers a service gives to each key of the list, in order. */
  function Asked<B>(keys: seq<string>, service: string -> seq<Response<B>>): (rss: seq<seq<Response<B>>>)
    ensures |rss| == |keys| && forall k :: 0 <= k < |keys| ==> rss[k] == service(keys[k])
  {
    seq(|keys|, k requires 0 <= k < |keys| => service(keys[k]))
  }

  /** What `run` computes from its ISRC list before `upload_data`: the
      conversion, the extraction (its invalid list before deduplication) and
      the rows of `process_data`, None when it raises. */
  datatype Enrichment = Enrichment(conversion: Conversion, extraction: Extraction, rows: Option<seq<FeatureRow>>)

  function Enrich(isrcs: seq<string>, lookup: string -> seq<LookupResponse>, fetch: string -> seq<FetchResponse>)
    : (en: Enrichment)
    requires forall x :: Settles(lookup(x))
    requires forall x :: x != "" ==> Settles(fetch(x))
  {
    var c := Convert(isrcs, Asked(isrcs, lookup));
    var e := Extract(c.mbids, Asked(c.mbids, fetch));
    var sel := Selected(c.mbids, e.invalid, c.mbidToIsrc);
    var rows :=
      if forall k :: 0 <= k < |sel| ==> Project(PayloadOf(e.abData, sel[k])).Some?
      then Some(seq(|sel|, k requires 0 <= k < |sel| => RowOf(e.abData, c.mbidToIsrc, sel[k])))
      else None;
    Enrichment(c, e, rows)
  }

  /** Selection only asks whether an mbid is invalid, so the order and the
      repetitions of the invalid list do not matter. */
  lemma {:induction false} SelectedSameElements(mbids: seq<string>, a: seq<string>, b: seq<string>,
                                                mbidToIsrc: map<string, string>)
    requires Elements(a) == Elements(b)
    ensures Selected(mbids, a, mbidToIsrc) == Selected(mbids, b, mbidToIsrc)
  {
    if |mbids| > 0 {
      var m := mbids[|mbids| - 1];
      SelectedSameElements(mbids[..|mbids| - 1], a, b, mbidToIsrc);
      assert m in a <==> m in Elements(a);
      assert m in b <==> m in Elements(b);
    }
  }

  /** `run`: the four steps in sequence on an initialised store, the services
      asked by key. Besides the outcome it returns the two lists it built
      from sets, in the order Python's set iteration gave them: the ISRCs and
      the invalid mbids. */
  method Run(db: Database, lookup: string -> seq<LookupResponse>, fetch: string -> seq<FetchResponse>, now: string)
    returns (outcome: RunOutcome, isrcs: seq<string>, invalidMbids: seq<string>)
    requires db.Valid()
    requires forall x :: Settles(lookup(x))
    requires forall x :: x != "" ==> Settles(fetch(x))
    modifies db
    ensures db.Valid()
    ensures db.spotify == old(db.spotify) && db.raw == old(db.raw)
    ensures Distinct(isrcs) && Elements(isrcs) == MissingIsrcs(old(db.spotify), old(db.features), old(db.failed), old(db.invalid))
    ensures outcome == NothingToDo <==> isrcs == []
    ensures outcome == Crashed <==> isrcs != [] && Enrich(isrcs, lookup, fetch).rows.None?
    ensures outcome.Finished? ==>
      var en := Enrich(isrcs, lookup, fetch);
      && en.rows.Some?
      && Distinct(invalidMbids) && Elements(invalidMbids) == Elements(en.extraction.invalid)
      && (outcome.commit == Committed <==>
            UploadCommits(old(db.features), old(db.failed), old(db.invalid), en.rows.value,
                          en.conversion.failed, invalidMbids, en.conversion.mbidToIsrc, now))
      && (outcome.commit == Committed ==>
            && db.features == old(db.features) + FreshFeatures(old(db.features), en.rows.value)
            && db.failed == old(db.failed) + FailedLog(en.conversion.failed, now)
            && db.invalid == old(db.invalid) + InvalidLog(invalidMbids, en.conversion.mbidToIsrc, now))
    ensures !outcome.Finished? || outcome.commit == RolledBack ==>
      db.features == old(db.features) && db.failed == old(db.failed) && db.invalid == old(db.invalid)
  {
    invalidMbids := [];
    isrcs := GetMissingIsrc(db);
    if |isrcs| == 0 {
      return NothingToDo, isrcs, invalidMbids;
    }
    var lookups := Asked(isrcs, lookup);
    var mbid, failedIsrc, mbidToIsrc := IsrcToMbid(isrcs, lookups);
    var fetches := Asked(mbid, fetch);
    var data;
    data, invalidMbids := ExtractData(mbid, fetches);
    ghost var en := Enrich(isrcs, lookup, fetch);
    SelectedSameElements(mbid, invalidMbids, en.extraction.invalid, mbidToIsrc);
    var df := ProcessData(data, mbid, invalidMbids, mbidToIsrc);
    if df.None? {
      return Crashed, isrcs, invalidMbids;
    }
    assert df.value == en.rows.value;
    var c := UploadData(db, df.value, failedIsrc, invalidMbids, mbidToIsrc, now);
    outcome := Finished(c);
  }
}
