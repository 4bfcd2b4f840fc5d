/** The boundary exporter (exporter/export-zcta-geojson.js): it reads the
    ledger, asks the TIGERweb ZCTA layer for the polygons of its ZIPs 25 at
    a time, keeps only a `zip` property on each feature, and writes one
    FeatureCollection, reporting the ZIPs that got no polygon. The web
    service is a parameter: a function from the query sent to the response
    received, or to nothing when the request itself fails. */
module ZctaExport {
  import opened Results
  import opened JsText
  import opened JsValue
  import opened ZipCodes
  import opened ZipLedger

  /** `ZIP_CHUNK_SIZE`: how many ZIPs one query asks for. */
  const ZipChunkSize: nat := 25

  // ----- Chunks -----

  /** The slices `s.slice(i, i + size)` for `i = 0, size, 2 * size, ...`
      while `i < |s|`. */
  function Chunks<T>(s: seq<T>, size: nat): (cs: seq<seq<T>>)
    requires size > 0
    ensures forall k :: 0 <= k < |cs| ==> 0 < |cs[k]| <= size
    decreases |s|
  {
    if s == [] then [] else [s[..Min(size, |s|)]] + Chunks(s[Min(size, |s|)..], size)
  }

  /** All chunks laid end to end. */
  function Flatten<T>(cs: seq<seq<T>>): seq<T> {
    if cs == [] then [] else cs[0] + Flatten(cs[1..])
  }

  /** Chunking loses and reorders nothing. */
  lemma {:induction false} ChunksFlatten<T>(s: seq<T>, size: nat)
    requires size > 0
    ensures Flatten(Chunks(s, size)) == s
    decreases |s|
  {
    if s != [] {
      var m := Min(size, |s|);
      ChunksFlatten(s[m..], size);
      assert Chunks(s, size)[1..] == Chunks(s[m..], size);
      assert s == s[..m] + s[m..];
    }
  }

  /** Chunk `k` is the slice starting at `25 * k`; every chunk is non-empty
      and holds 25 ZIPs except possibly the last. */
  lemma {:induction false} ChunkAt<T>(s: seq<T>, k: nat)
    requires k < |Chunks(s, ZipChunkSize)|
    ensures ZipChunkSize * k < |s|
    ensures Chunks(s, ZipChunkSize)[k] == s[ZipChunkSize * k..Min(ZipChunkSize * (k + 1), |s|)]
    ensures 0 < |Chunks(s, ZipChunkSize)[k]| <= ZipChunkSize
    ensures k < |Chunks(s, ZipChunkSize)| - 1 ==> |Chunks(s, ZipChunkSize)[k]| == ZipChunkSize
    decreases k
  {
    var cs := Chunks(s, ZipChunkSize);
    var m := Min(ZipChunkSize, |s|);
    if k == 0 {
      assert cs[0] == s[..m];
    } else {
      var t := s[m..];
      assert cs[1..] == Chunks(t, ZipChunkSize);
      ChunkAt(t, k - 1);
      assert |t| > 0 && m == ZipChunkSize;
      SliceOfSuffix(s, m, ZipChunkSize * (k - 1), Min(ZipChunkSize * k, |t|));
    }
  }

  lemma SliceOfSuffix<T>(s: seq<T>, m: nat, lo: nat, hi: nat)
    requires m <= |s| && lo <= hi <= |s| - m
    ensures s[m..][lo..hi] == s[m + lo..m + hi]
  {
  }

  /** There are ceil(|s| / 25) chunks. */
  lemma {:induction false} ChunksCount<T>(s: seq<T>)
    ensures |Chunks(s, ZipChunkSize)| == (|s| + ZipChunkSize - 1) / ZipChunkSize
    decreases |s|
  {
    if s != [] {
      var m := Min(ZipChunkSize, |s|);
      ChunksCount(s[m..]);
    }
  }

  // ----- The query -----

  /** The parameters of one query to the ZCTA layer. */
  datatype Query = Query(
    where: string,
    outFields: string,
    returnGeometry: string,
    outSR: string,
    f: string)

  /** A ZIP in single quotes. */
  function Quote(z: Zip): string {
    "'" + z + "'"
  }

  /** `zipChunk.map((z) => `'${z}'`)`. */
  function QuotedZips(zs: seq<Zip>): (r: seq<string>)
    ensures |r| == |zs|
  {
    seq(|zs|, i requires 0 <= i < |zs| => Quote(zs[i]))
  }

  /** `ZCTA5 IN ('z1','z2',...)`. */
  function WhereClause(chunk: seq<Zip>): string {
    "ZCTA5 IN (" + JoinComma(QuotedZips(chunk)) + ")"
  }

  /** The query for one chunk: the filter, the ZCTA5 field only, polygons in
      WGS 84 (EPSG:4326), encoded as GeoJSON. */
  function QueryFor(chunk: seq<Zip>): (q: Query)
    ensures q.where == WhereClause(chunk)
    ensures q.outFields == "ZCTA5" && q.returnGeometry == "true"
    ensures q.outSR == "4326" && q.f == "geojson"
  {
    Query(WhereClause(chunk), "ZCTA5", "true", "4326", "geojson")
  }

  /** Reads back a comma-separated list of quoted ZIPs. */
  function ParseQuotedZips(s: string): Option<seq<Zip>>
    decreases |s|
  {
    if |s| < 7 || s[0] != '\'' || s[6] != '\'' || !IsZip(s[1..6]) then None
    else if |s| == 7 then Some([s[1..6]])
    else if s[7] != ',' then None
    else
      match ParseQuotedZips(s[8..])
      case None => None
      case Some(rest) => Some([s[1..6]] + rest)
  }

  /** Reads back a where-clause: the ZIPs it asks for, in order. */
  function ParseWhereClause(w: string): Option<seq<Zip>> {
    if |w| < 11 || w[..10] != "ZCTA5 IN (" || w[|w| - 1] != ')' then None
    else if |w| == 11 then Some([])
    else ParseQuotedZips(w[10..|w| - 1])
  }

  lemma {:induction false} QuotedZipsRoundTrip(zs: seq<Zip>)
    requires zs != []
    ensures |JoinComma(QuotedZips(zs))| == 8 * |zs| - 1
    ensures ParseQuotedZips(JoinComma(QuotedZips(zs))) == Some(zs)
    decreases |zs|
  {
    var q := QuotedZips(zs);
    var u := JoinComma(q);
    if |zs| == 1 {
      assert u == Quote(zs[0]);
      assert |u| == 7 && u[0] == '\'' && u[6] == '\'';
      assert u[1..6] == zs[0];
      assert zs == [zs[0]];
    } else {
      var tail := zs[1..];
      assert QuotedZips(tail) == q[1..];
      QuotedZipsRoundTrip(tail);
      var v := JoinComma(q[1..]);
      assert u == Quote(zs[0]) + "," + v;
      assert u[1..6] == zs[0];
      assert u[8..] == v;
      assert zs == [zs[0]] + tail;
    }
  }

  /** The where-clause names exactly the chunk's ZIPs, in order, each in
      eight characters (seven for the last) after the ten of `ZCTA5 IN (`. */
  lemma WhereClauseRoundTrip(chunk: seq<Zip>)
    ensures ParseWhereClause(WhereClause(chunk)) == Some(chunk)
    ensures |WhereClause(chunk)| == if chunk == [] then 11 else 8 * |chunk| + 10
  {
    var w := WhereClause(chunk);
    var u := JoinComma(QuotedZips(chunk));
    assert w[..10] == "ZCTA5 IN (";
    if chunk != [] {
      QuotedZipsRoundTrip(chunk);
      assert w[10..|w| - 1] == u;
    }
  }

  /** Different chunks give different where-clauses. */
  lemma WhereClauseInjective(a: seq<Zip>, b: seq<Zip>)
    requires WhereClause(a) == WhereClause(b)
    ensures a == b
  {
    WhereClauseRoundTrip(a);
    WhereClauseRoundTrip(b);
  }

  // ----- The response -----

  /** What `fetch` resolves to: the status line, the body as text (`None`
      when reading it fails) and the body parsed as JSON (`None` when it is
      not JSON). */
  datatype Response = Response(
    ok: bool,
    status: int,
    statusText: string,
    body: Option<string>,
    json: Option<Json>)

  /** Why fetching one chunk fails. `NetworkError` is a rejected `fetch`:
      no response arrived. */
  datatype FetchError =
    | NetworkError
    | HttpError(status: int, statusText: string, bodyStart: string)
    | InvalidJson
    | NotFeatureCollection
    | FeaturesNotArray

  /** `s.slice(0, n)`. */
  function Prefix(s: string, n: nat): (r: string)
    ensures |r| == Min(n, |s|) && r == s[..|r|]
  {
    s[..Min(n, |s|)]
  }

  /** `String(f?.properties?.ZCTA5 || "").trim()`. */
  function FeatureZip(f: Json): string {
    Trim(StringOrEmpty(Get(Get(Some(f), "properties"), "ZCTA5")))
  }

  /** `{ ...f }`: the own fields of an object; other values spread to no
      fields here. */
  function SpreadFields(f: Json): map<string, Json> {
    if f.JObj? then f.fields else map[]
  }

  /** `{ ...fields, properties }`: a later key replaces an earlier one. */
  function WithProperties(fields: map<string, Json>, properties: Json): (g: Json)
    ensures g.JObj? && g.fields.Keys == fields.Keys + {"properties"}
    ensures g.fields["properties"] == properties
    ensures forall k :: k in fields && k != "properties" ==> g.fields[k] == fields[k]
  {
    JObj(fields["properties" := properties])
  }

  /** `{ ...f, properties: { zip } }`. */
  function NormalizeFeature(f: Json): (g: Json)
    ensures g.JObj?
    ensures g.fields.Keys == SpreadFields(f).Keys + {"properties"}
    ensures g.fields["properties"] == JObj(map["zip" := JStr(FeatureZip(f))])
    ensures forall k :: k in SpreadFields(f) && k != "properties" ==> g.fields[k] == SpreadFields(f)[k]
  {
    WithProperties(SpreadFields(f), JObj(map["zip" := JStr(FeatureZip(f))]))
  }

  /** `features.map(...)` with `NormalizeFeature`. */
  function NormalizeFeatures(fs: seq<Json>): (gs: seq<Json>)
    ensures |gs| == |fs|
  {
    seq(|fs|, i requires 0 <= i < |fs| => NormalizeFeature(fs[i]))
  }

  /** `fetchGeoJsonForZipChunk` after the request: the normalised features,
      or why the response is rejected. */
  function FetchChunk(res: Response): Result<seq<Json>, FetchError> {
    if !res.ok then
      var body := if res.body.Some? then res.body.value else "";
      Failure(HttpError(res.status, res.statusText, Prefix(body, 200)))
    else if res.json.None? then Failure(InvalidJson)
    else
      var geojson := Some(res.json.value);
      if !Truthy(geojson) || Get(geojson, "type") != Some(JStr("FeatureCollection")) then
        Failure(NotFeatureCollection)
      else
        var features := Get(geojson, "features");
        if !Truthy(features) then Success([])
        else if features.value.JArr? then Success(NormalizeFeatures(features.value.items))
        else Failure(FeaturesNotArray)
  }

  /** A response is accepted exactly when it is ok, parses as a JSON object
      whose `type` is `"FeatureCollection"`, and `features` is absent,
      falsy or an array; then there is one normalised feature per feature
      sent, each with exactly `{ zip }` as its properties. */
  lemma FetchChunkAccepts(res: Response)
    ensures FetchChunk(res).Success? <==>
      res.ok && res.json.Some? && res.json.value.JObj?
      && Get(res.json, "type") == Some(JStr("FeatureCollection"))
      && (!Truthy(Get(res.json, "features")) || Get(res.json, "features").value.JArr?)
    ensures (FetchChunk(res).Success? && Get(res.json, "features").Some?
      && Get(res.json, "features").value.JArr?) ==>
        var items := Get(res.json, "features").value.items;
        var fs := FetchChunk(res).value;
        |fs| == |items|
        && forall i :: 0 <= i < |fs| ==>
          fs[i].JObj? && fs[i].fields["properties"] == JObj(map["zip" := JStr(FeatureZip(items[i]))])
  {
  }

  /** The reasons for rejecting a response, in the order the code checks
      them; a response that did arrive is never a network failure. */
  lemma FetchChunkErrors(res: Response)
    ensures !res.ok ==>
      FetchChunk(res) == Failure(HttpError(res.status, res.statusText,
        Prefix(if res.body.Some? then res.body.value else "", 200)))
    ensures res.ok && res.json.None? ==> FetchChunk(res) == Failure(InvalidJson)
    ensures res.ok && res.json.Some? && Get(res.json, "type") != Some(JStr("FeatureCollection"))
      ==> FetchChunk(res) == Failure(NotFeatureCollection)
    ensures FetchChunk(res) != Failure(NetworkError)
  {
  }

  /** A feature whose `ZCTA5` is already a ZIP keeps exactly that ZIP. */
  lemma FeatureZipOfZip(f: Json, z: Zip)
    requires Get(Get(Some(f), "properties"), "ZCTA5") == Some(JStr(z))
    ensures FeatureZip(f) == z
  {
    assert !IsJsSpace(z[0]) && !IsJsSpace(z[4]);
    assert TrimStart(z) == z;
    assert TrimEnd(z) == z;
  }

  // ----- Accumulation -----

  /** Fetching one chunk: the features it yields, or why it failed. */
  type Fetcher = seq<Zip> -> Result<seq<Json>, FetchError>

  /** `fetchGeoJsonForZipChunk` against a given service; `None` from the
      service is a `fetch` that rejects. */
  function Attempt(service: Query -> Option<Response>): Fetcher {
    c => match service(QueryFor(c))
         case None => Failure(NetworkError)
         case Some(res) => FetchChunk(res)
  }

  /** A chunk whose request gets no response fails with `NetworkError`;
      otherwise its response alone decides, through `FetchChunk`. */
  lemma AttemptCases(service: Query -> Option<Response>, c: seq<Zip>)
    ensures service(QueryFor(c)).None? <==> Attempt(service)(c) == Failure(NetworkError)
    ensures service(QueryFor(c)).Some? ==> Attempt(service)(c) == FetchChunk(service(QueryFor(c)).value)
  {
    if service(QueryFor(c)).Some? {
      FetchChunkErrors(service(QueryFor(c)).value);
    }
  }

  /** The chunks fetched one after another: the first rejected chunk decides
      the error; otherwise the features of all chunks in chunk order. */
  function FetchAll(attempt: Fetcher, cs: seq<seq<Zip>>): Result<seq<Json>, FetchError> {
    if cs == [] then Success([])
    else
      match FetchAll(attempt, cs[..|cs| - 1])
      case Failure(e) => Failure(e)
      case Success(acc) =>
        match attempt(cs[|cs| - 1])
        case Failure(e) => Failure(e)
        case Success(fs) => Success(acc + fs)
  }

  /** The features fetched for each chunk, each chunk being accepted. */
  function Accepted(attempt: Fetcher, c: seq<Zip>): seq<Json>
    requires attempt(c).Success?
  {
    attempt(c).value
  }

  function AllAccepted(attempt: Fetcher, cs: seq<seq<Zip>>): seq<Json>
    requires forall k :: 0 <= k < |cs| ==> attempt(cs[k]).Success?
  {
    if cs == [] then [] else AllAccepted(attempt, cs[..|cs| - 1]) + Accepted(attempt, cs[|cs| - 1])
  }

  /** The run succeeds exactly when every chunk is accepted, and then its
      features are those of the chunks laid end to end. */
  lemma {:induction false} FetchAllSucceeds(attempt: Fetcher, cs: seq<seq<Zip>>)
    ensures FetchAll(attempt, cs).Success? <==>
      forall k :: 0 <= k < |cs| ==> attempt(cs[k]).Success?
    ensures FetchAll(attempt, cs).Success? ==> FetchAll(attempt, cs).value == AllAccepted(attempt, cs)
  {
    if cs != [] {
      var init := cs[..|cs| - 1];
      FetchAllSucceeds(attempt, init);
      assert forall k :: 0 <= k < |init| ==> init[k] == cs[k];
    }
  }

  /** Once a prefix of the chunks fails, the whole run fails the same way. */
  lemma {:induction false} FailurePersists(attempt: Fetcher, cs: seq<seq<Zip>>, m: nat)
    requires m <= |cs|
    requires FetchAll(attempt, cs[..m]).Failure?
    ensures FetchAll(attempt, cs) == FetchAll(attempt, cs[..m])
    decreases |cs| - m
  {
    if m < |cs| {
      assert cs[..|cs| - 1][..m] == cs[..m];
      FailurePersists(attempt, cs[..|cs| - 1], m);
    } else {
      assert cs[..m] == cs;
    }
  }

  /** The first rejected chunk decides the error. */
  lemma FirstErrorWins(attempt: Fetcher, cs: seq<seq<Zip>>, k: nat)
    requires k < |cs|
    requires forall j :: 0 <= j < k ==> attempt(cs[j]).Success?
    requires attempt(cs[k]).Failure?
    ensures FetchAll(attempt, cs) == Failure(attempt(cs[k]).error)
  {
    var p := cs[..k];
    assert forall j :: 0 <= j < |p| ==> p[j] == cs[j];
    FetchAllSucceeds(attempt, p);
    assert FetchAll(attempt, p).Success?;
    FetchAllStep(attempt, cs, k, FetchAll(attempt, p).value);
  }

  /** `f?.properties?.zip`, when truthy, is what `returnedZipSet` records. */
  function ReturnedZip(f: Json): set<Json> {
    var zip := Get(Get(Some(f), "properties"), "zip");
    if Truthy(zip) then {zip.value} else {}
  }

  /** `returnedZipSet` after seeing `fs`. */
  function ReturnedZips(fs: seq<Json>): set<Json> {
    if fs == [] then {} else ReturnedZips(fs[..|fs| - 1]) + ReturnedZip(fs[|fs| - 1])
  }

  lemma ReturnedZipsSnoc(fs: seq<Json>, f: Json)
    ensures ReturnedZips(fs + [f]) == ReturnedZips(fs) + ReturnedZip(f)
  {
    assert (fs + [f])[..|fs|] == fs;
  }

  /** A normalised feature is recorded under its non-empty ZIP. */
  lemma ReturnedZipOfNormalized(f: Json)
    ensures ReturnedZip(NormalizeFeature(f)) == if FeatureZip(f) == "" then {} else {JStr(FeatureZip(f))}
  {
    var g := NormalizeFeature(f);
    ZipPropertyOf(g, FeatureZip(f));
  }

  lemma ZipPropertyOf(g: Json, z: string)
    requires g.JObj? && "properties" in g.fields && g.fields["properties"] == JObj(map["zip" := JStr(z)])
    ensures ReturnedZip(g) == if z == "" then {} else {JStr(z)}
  {
    assert Get(Some(g), "properties") == Some(JObj(map["zip" := JStr(z)]));
    assert Get(Get(Some(g), "properties"), "zip") == Some(JStr(z));
  }

  /** The values recorded for `fs` are those of its features. */
  lemma {:induction false} ReturnedZipsMembers(fs: seq<Json>, v: Json)
    ensures v in ReturnedZips(fs) <==> exists i :: 0 <= i < |fs| && v in ReturnedZip(fs[i])
  {
    if fs != [] {
      var init := fs[..|fs| - 1];
      ReturnedZipsMembers(init, v);
      if i :| 0 <= i < |init| && v in ReturnedZip(init[i]) {
        assert fs[i] == init[i];
      }
      if i :| 0 <= i < |fs| && v in ReturnedZip(fs[i]) {
        if i < |init| {
          assert init[i] == fs[i];
        }
      }
    }
  }

  /** `zipList.filter((z) => !returnedZipSet.has(z))`. */
  function Missing(zipList: seq<Zip>, returned: set<Json>): seq<Zip> {
    if zipList == [] then []
    else (if JStr(zipList[0]) in returned then [] else [zipList[0]]) + Missing(zipList[1..], returned)
  }

  /** The ZIPs of `zipList` that some feature did return. */
  function Found(zipList: seq<Zip>, returned: set<Json>): seq<Zip> {
    if zipList == [] then []
    else (if JStr(zipList[0]) in returned then [zipList[0]] else []) + Found(zipList[1..], returned)
  }

  /** A ZIP is missing exactly when it was asked for and not returned. */
  lemma {:induction false} MissingMembers(zipList: seq<Zip>, returned: set<Json>, z: Zip)
    ensures z in Missing(zipList, returned) <==> z in zipList && JStr(z) !in returned
    ensures z in Found(zipList, returned) <==> z in zipList && JStr(z) in returned
  {
    if zipList != [] {
      MissingMembers(zipList[1..], returned, z);
      assert zipList == [zipList[0]] + zipList[1..];
    }
  }

  /** Missing and found ZIPs split the list between them. */
  lemma {:induction false} MissingPartition(zipList: seq<Zip>, returned: set<Json>)
    ensures multiset(Missing(zipList, returned)) + multiset(Found(zipList, returned)) == multiset(zipList)
  {
    if zipList != [] {
      MissingPartition(zipList[1..], returned);
      assert zipList == [zipList[0]] + zipList[1..];
    }
  }

  /** Filtering keeps the order: an increasing list stays increasing. */
  lemma {:induction false} MissingIncreasing(zipList: seq<Zip>, returned: set<Json>)
    requires Increasing(zipList)
    ensures Increasing(Missing(zipList, returned))
  {
    if zipList != [] {
      var tail := zipList[1..];
      MissingIncreasing(tail, returned);
      var m := Missing(tail, returned);
      forall z | z in m ensures ZipValue(zipList[0]) < ZipValue(z) {
        MissingMembers(tail, returned, z);
        var j :| 0 <= j < |tail| && tail[j] == z;
        assert zipList[j + 1] == z;
      }
    }
  }

  /** `{ type: "FeatureCollection", features: allFeatures }`. */
  function FeatureCollection(features: seq<Json>): Json {
    JObj(map["type" := JStr("FeatureCollection"), "features" := JArr(features)])
  }

  /** How a run ends: no ledger file, an error before anything is written,
      or the written collection and the ZIPs with no polygon. */
  datatype RunOutcome =
    | MissingInput
    | Failed(error: FetchError)
    | Written(output: Json, missing: seq<Zip>)

  /** What a run over `zipList` produces. */
  function Outcome(attempt: Fetcher, zipList: seq<Zip>): RunOutcome {
    match FetchAll(attempt, Chunks(zipList, ZipChunkSize))
    case Failure(e) => Failed(e)
    case Success(fs) => Written(FeatureCollection(fs), Missing(zipList, ReturnedZips(fs)))
  }

  /** A run writes its output exactly when every chunk is accepted; the
      output is a FeatureCollection of all accepted features, and a ZIP is
      reported missing exactly when no feature carries it. */
  lemma OutcomeWritten(attempt: Fetcher, zipList: seq<Zip>)
    ensures Outcome(attempt, zipList).Written? <==>
      forall c :: c in Chunks(zipList, ZipChunkSize) ==> attempt(c).Success?
    ensures Outcome(attempt, zipList).Written? ==>
      var fs := AllAccepted(attempt, Chunks(zipList, ZipChunkSize));
      Outcome(attempt, zipList).output == FeatureCollection(fs)
      && forall z: Zip :: z in Outcome(attempt, zipList).missing <==>
        z in zipList && forall i :: 0 <= i < |fs| ==> JStr(z) !in ReturnedZip(fs[i])
  {
    var cs := Chunks(zipList, ZipChunkSize);
    FetchAllSucceeds(attempt, cs);
    if Outcome(attempt, zipList).Written? {
      var fs := AllAccepted(attempt, cs);
      forall z: Zip ensures z in Outcome(attempt, zipList).missing <==>
        z in zipList && forall i :: 0 <= i < |fs| ==> JStr(z) !in ReturnedZip(fs[i])
      {
        MissingMembers(zipList, ReturnedZips(fs), z);
        ReturnedZipsMembers(fs, JStr(z));
      }
    }
  }

  /** The chunks from position `i` on. */
  function Rest<T>(s: seq<T>, i: nat): seq<T> {
    if i < |s| then s[i..] else []
  }

  lemma ChunksStep<T>(s: seq<T>, i: nat)
    requires i < |s|
    ensures Chunks(Rest(s, i), ZipChunkSize)
      == [s[i..Min(i + ZipChunkSize, |s|)]] + Chunks(Rest(s, i + ZipChunkSize), ZipChunkSize)
  {
    var t := s[i..];
    var m := Min(ZipChunkSize, |t|);
    assert t[..m] == s[i..Min(i + ZipChunkSize, |s|)];
    if i + ZipChunkSize < |s| {
      assert t[m..] == s[i + ZipChunkSize..];
    } else {
      assert t[m..] == [];
    }
  }

  /** One pass of the chunk loop: the chunk taken at `i` is chunk `k`, and
      the chunks after it are those of the list from `i + 25` on. */
  lemma ChunkLoopStep(zipList: seq<Zip>, cs: seq<seq<Zip>>, i: nat, k: nat)
    requires i < |zipList| && k <= |cs|
    requires cs == cs[..k] + Chunks(Rest(zipList, i), ZipChunkSize)
    ensures k < |cs| && cs[k] == zipList[i..Min(i + ZipChunkSize, |zipList|)]
    ensures cs == cs[..k + 1] + Chunks(Rest(zipList, i + ZipChunkSize), ZipChunkSize)
  {
    ChunksStep(zipList, i);
    ConsAfterPrefix(cs, k, zipList[i..Min(i + ZipChunkSize, |zipList|)],
      Chunks(Rest(zipList, i + ZipChunkSize), ZipChunkSize));
  }

  lemma ConsAfterPrefix<T>(cs: seq<T>, k: nat, x: T, rest: seq<T>)
    requires k <= |cs| && cs == cs[..k] + ([x] + rest)
    ensures k < |cs| && cs[k] == x && cs == cs[..k + 1] + rest
  {
    assert cs[..k + 1] == cs[..k] + [x];
  }

  /** Fetching one more chunk: its failure is the run's failure, its
      features extend the accumulated ones. */
  lemma FetchAllStep(attempt: Fetcher, cs: seq<seq<Zip>>, k: nat, acc: seq<Json>)
    requires k < |cs| && FetchAll(attempt, cs[..k]) == Success(acc)
    ensures attempt(cs[k]).Failure? ==> FetchAll(attempt, cs) == Failure(attempt(cs[k]).error)
    ensures attempt(cs[k]).Success? ==> FetchAll(attempt, cs[..k + 1]) == Success(acc + attempt(cs[k]).value)
  {
    assert cs[..k + 1][..k] == cs[..k];
    if attempt(cs[k]).Failure? {
      FailurePersists(attempt, cs, k + 1);
    }
  }

  lemma TakeOneMore<T>(s: seq<T>, j: nat)
    requires j < |s|
    ensures s[..j + 1] == s[..j] + [s[j]]
  {
  }

  /** Adds the features of one accepted chunk to `allFeatures` and their
      ZIPs to `returnedZipSet`. */
  method Accumulate(allFeatures: seq<Json>, returned: set<Json>, features: seq<Json>)
    returns (all': seq<Json>, returned': set<Json>)
    requires returned == ReturnedZips(allFeatures)
    ensures all' == allFeatures + features
    ensures returned' == ReturnedZips(all')
  {
    all' := allFeatures;
    returned' := returned;
    var j := 0;
    while j < |features|
      invariant 0 <= j <= |features|
      invariant all' == allFeatures + features[..j]
      invariant returned' == ReturnedZips(all')
    {
      var f := features[j];
      ReturnedZipsSnoc(all', f);
      all' := all' + [f];
      var zip := Get(Get(Some(f), "properties"), "zip");
      if Truthy(zip) {
        returned' := returned' + {zip.value};
      }
      TakeOneMore(features, j);
      j := j + 1;
    }
    assert features[..j] == features;
  }

  /** The chunk loop of `run`, from the first query to the output. */
  method FetchAndCollect(attempt: Fetcher, zipList: seq<Zip>) returns (outcome: RunOutcome)
    ensures outcome == Outcome(attempt, zipList)
  {
    ghost var cs := Chunks(zipList, ZipChunkSize);
    var allFeatures: seq<Json> := [];
    var returned: set<Json> := {};
    var i := 0;
    ghost var k := 0;
    while i < |zipList|
      invariant k <= |cs|
      invariant cs == cs[..k] + Chunks(Rest(zipList, i), ZipChunkSize)
      invariant FetchAll(attempt, cs[..k]) == Success(allFeatures)
      invariant returned == ReturnedZips(allFeatures)
      decreases |zipList| - i
    {
      var chunk := zipList[i..Min(i + ZipChunkSize, |zipList|)];
      ChunkLoopStep(zipList, cs, i, k);
      FetchAllStep(attempt, cs, k, allFeatures);
      var r := attempt(chunk);
      if r.Failure? {
        return Failed(r.error);
      }
      allFeatures, returned := Accumulate(allFeatures, returned, r.value);
      i := i + ZipChunkSize;
      k := k + 1;
    }
    assert cs[..k] == cs;
    outcome := Written(FeatureCollection(allFeatures), Missing(zipList, returned));
  }

  /** `run`: the ZIP list of the ledger, and how the run ends. */
  method Run(inputExists: bool, raw: string, service: Query -> Option<Response>)
    returns (zipList: seq<Zip>, outcome: RunOutcome)
    ensures !inputExists ==> outcome == MissingInput && zipList == []
    ensures inputExists ==> Increasing(zipList) && forall z :: z in zipList <==> z in LedgerZips(raw)
    ensures inputExists ==> outcome == Outcome(Attempt(service), zipList)
  {
    if !inputExists {
      return [], MissingInput;
    }
    zipList := ExtractZips(raw);
    outcome := FetchAndCollect(Attempt(service), zipList);
  }

  /** A FeatureCollection holding one feature whose `ZCTA5` is the ZIP `z`
      is accepted as that one feature, normalised to `{ zip: z }`. */
  lemma OneFeatureResponse(res: Response, feature: Json, z: Zip)
    requires feature == JObj(map["properties" := JObj(map["ZCTA5" := JStr(z)])])
    requires res == Response(true, 200, "OK", None,
      Some(JObj(map["type" := JStr("FeatureCollection"), "features" := JArr([feature])])))
    ensures FetchChunk(res) == Success([NormalizeFeature(feature)])
    ensures FeatureZip(feature) == z
  {
    FeatureZipOfZip(feature, z);
    var gj := res.json;
    assert Get(gj, "type") == Some(JStr("FeatureCollection"));
    assert Get(gj, "features") == Some(JArr([feature]));
    assert NormalizeFeatures([feature]) == [NormalizeFeature(feature)];
  }

  /** ZIPs 43085 and 43201 go out in one query; the service returns one
      feature, recorded under 43201, so the run writes that feature and
      reports 43085 as missing. */
  lemma OneChunkExample(attempt: Fetcher, g: Json, a: Zip, b: Zip)
    requires a == "43085" && b == "43201"
    requires ReturnedZip(g) == {JStr(b)}
    requires attempt([a, b]) == Success([g])
    ensures Chunks([a, b], ZipChunkSize) == [[a, b]]
    ensures Outcome(attempt, [a, b]) == Written(FeatureCollection([g]), [a])
  {
    var zl := [a, b];
    assert Min(ZipChunkSize, |zl|) == 2;
    assert zl[..2] == zl && zl[2..] == [];
    assert Chunks(zl, ZipChunkSize) == [zl];
    var empty: seq<seq<Zip>> := [];
    assert FetchAll(attempt, empty) == Success([]);
    assert [zl][..0] == empty;
    assert [] + [g] == [g];
    assert FetchAll(attempt, [zl]) == Success([g]);
    assert [g][..0] == [];
    assert ReturnedZips([g]) == {JStr(b)};
    assert zl[1..] == [b] && zl[1..][1..] == [];
    assert JStr(a) != JStr(b) by {
      assert a[4] != b[4];
    }
    var r := {JStr(b)};
    assert Missing([b], r) == [];
    assert Missing(zl, r) == [a];
  }

  /** The same run seen from the service: one FeatureCollection response
      with a single feature for 43201. */
  lemma OneChunkServiceExample(service: Query -> Option<Response>, feature: Json, a: Zip, b: Zip)
    requires a == "43085" && b == "43201"
    requires feature == JObj(map["properties" := JObj(map["ZCTA5" := JStr(b)])])
    requires service(QueryFor([a, b])) == Some(Response(true, 200, "OK", None,
      Some(JObj(map["type" := JStr("FeatureCollection"), "features" := JArr([feature])]))))
    ensures Outcome(Attempt(service), [a, b]) == Written(FeatureCollection([NormalizeFeature(feature)]), [a])
  {
    OneFeatureResponse(service(QueryFor([a, b])).value, feature, b);
    ReturnedZipOfNormalized(feature);
    OneChunkExample(Attempt(service), NormalizeFeature(feature), a, b);
  }
}
