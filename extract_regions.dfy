/**
 * The regions job's names: the GISCO NUTS GeoJSON file name, the URL it is
 * fetched from, the local paths it and the transformed table are written to,
 * and the object keys the two files are uploaded under.
 */
module ExtractRegions {
  import opened Optional
  import opened Decimal
  import opened HelperFunctions
  import WeatherData

  const DownloadDir := "./tmp"
  const BaseUrl := "https://gisco-services.ec.europa.eu/distribution/v2/nuts/geojson/"
  const GeoJsonSuffix := ".geojson"
  const RawBucket := "raw-data-td1313"
  const StagingBucket := "staging-data-td1313"
  const RegionsPrefix := "regions"

  /** The arguments of `download_file`, each with the default the source gives it. */
  datatype NutsRequest = NutsRequest(
    theme: string,
    spatialType: string,
    resolution: string,
    year: string,
    projection: string,
    level: int)

  const DefaultRequest := NutsRequest("NUTS", "LB", "01M", "2024", "4326", 2)

  /** The optional segment: `_resolution`, except for label points (`LB`), which have none. */
  function ResolutionSegment(spatialType: string, resolution: string): string {
    if spatialType != "LB" then "_" + resolution else ""
  }

  /** The file name GISCO publishes the requested NUTS layer under. */
  function NutsFileName(r: NutsRequest): (name: string)
    ensures |name| >= |GeoJsonSuffix| && name[|name| - |GeoJsonSuffix|..] == GeoJsonSuffix
    ensures |name| > |r.theme| + |r.spatialType| && name[..|r.theme| + 1 + |r.spatialType|] == r.theme + "_" + r.spatialType
  {
    var name := r.theme + "_" + r.spatialType + ResolutionSegment(r.spatialType, r.resolution)
      + "_" + r.year + "_" + r.projection + "_LEVL_" + IntToString(r.level) + GeoJsonSuffix;
    assert name[..|r.theme| + 1 + |r.spatialType|] == r.theme + "_" + r.spatialType;
    name
  }

  /** For label points the name has no resolution segment, whatever resolution is asked for. */
  lemma LabelPointsName(r: NutsRequest)
    requires r.spatialType == "LB"
    ensures NutsFileName(r) == r.theme + "_LB_" + r.year + "_" + r.projection + "_LEVL_" + IntToString(r.level) + ".geojson"
    ensures forall res :: NutsFileName(r.(resolution := res)) == NutsFileName(r)
  {
  }

  /** For any other spatial type `_resolution` comes right after the spatial type. */
  lemma ResolutionInserted(r: NutsRequest)
    requires r.spatialType != "LB"
    ensures NutsFileName(r)
            == r.theme + "_" + r.spatialType + "_" + r.resolution + "_" + r.year + "_" + r.projection
               + "_LEVL_" + IntToString(r.level) + ".geojson"
  {
  }

  /** Two strings that differ only in their middle parts differ. */
  lemma MiddleDiffers(p: string, a: string, b: string, q: string)
    requires a != b
    ensures p + a + q != p + b + q
  {
    var na, nb := p + a + q, p + b + q;
    if |a| == |b| {
      assert na[|p|..|p| + |a|] == a;
      assert nb[|p|..|p| + |b|] == b;
    } else {
      assert |na| != |nb|;
    }
  }

  /** For any other spatial type, two different resolutions give two different names. */
  lemma ResolutionDistinguishes(r: NutsRequest, a: string, b: string)
    requires r.spatialType != "LB" && a != b
    ensures NutsFileName(r.(resolution := a)) != NutsFileName(r.(resolution := b))
  {
    var p := r.theme + "_" + r.spatialType + "_";
    var q := "_" + r.year + "_" + r.projection + "_LEVL_" + IntToString(r.level) + ".geojson";
    forall res | true ensures NutsFileName(r.(resolution := res)) == p + res + q {
      ResolutionInserted(r.(resolution := res));
    }
    MiddleDiffers(p, a, b, q);
  }

  /** With every argument left at its default the name is `NUTS_LB_2024_4326_LEVL_2.geojson`. */
  lemma DefaultFileName()
    ensures NutsFileName(DefaultRequest) == "NUTS_LB_2024_4326_LEVL_2.geojson"
  {
    assert IntToString(2) == "2";
    LabelPointsName(DefaultRequest);
  }

  /** The request `download_file` makes and the path it writes the response to. */
  datatype DownloadTarget = DownloadTarget(url: string, outputFile: string)

  function NutsDownloadTarget(r: NutsRequest): (t: DownloadTarget)
    ensures t.url == BaseUrl + NutsFileName(r)
    ensures t.outputFile == DownloadDir + "/" + NutsFileName(r)
    ensures t.url[|BaseUrl|..] == t.outputFile[|DownloadDir| + 1..] == NutsFileName(r)
  {
    var name := NutsFileName(r);
    DownloadTarget(BaseUrl + name, DownloadDir + "/" + name)
  }

  /**
   * How the fetch-and-save inside `download_file` ends: the response is saved,
   * the request raises a `RequestException` (the GET itself or
   * `raise_for_status`), or creating the directory or writing the file raises
   * an `OSError`, which the handler does not catch.
   */
  datatype RequestOutcome = Saved | RequestFailed | WriteFailed

  /** What a call of `download_file` comes to: a returned value, or an escaping exception. */
  datatype DownloadResult = ReturnedPath(path: Option<string>) | RaisedOSError

  /**
   * `download_file`: the local path `./tmp/<file name>` once the response is
   * saved, `None` on a request error, and an escaping exception on a write error.
   */
  function DownloadFile(r: NutsRequest, outcome: RequestOutcome): (d: DownloadResult)
    ensures d.RaisedOSError? <==> outcome == WriteFailed
    ensures d == ReturnedPath(None) <==> outcome == RequestFailed
    ensures d.ReturnedPath? && d.path.Some? ==>
              var p := d.path.value;
              |p| > |DownloadDir| + 1 && p[..|DownloadDir| + 1] == "./tmp/" && p[|DownloadDir| + 1..] == NutsFileName(r)
  {
    match outcome
    case Saved =>
      var p := NutsDownloadTarget(r).outputFile;
      assert p[..|DownloadDir| + 1] == DownloadDir + "/";
      ReturnedPath(Some(p))
    case RequestFailed => ReturnedPath(None)
    case WriteFailed => RaisedOSError
  }

  /**
   * The `__main__` link: the path `download_file` returns is the file the raw
   * upload puts at `regions/<file name>`.
   */
  lemma DownloadedFileRawKey(r: NutsRequest)
    requires FreeOfSlashes(r)
    ensures DownloadFile(r, Saved).ReturnedPath? && DownloadFile(r, Saved).path.Some?
    ensures UploadKey(RegionsPrefix, DownloadFile(r, Saved).path.value) == "regions/" + NutsFileName(r)
  {
    RawUploadKey(r);
  }

  /** Where `transform_file` writes the region table. */
  const TransformedFile := DownloadDir + "/dim_regions.csv"

  /** No argument holds a `/`, so neither does the file name. */
  predicate FreeOfSlashes(r: NutsRequest) {
    '/' !in r.theme + r.spatialType + r.resolution + r.year + r.projection
  }

  /** A file name built from arguments free of `/` holds no `/` either. */
  lemma NameFreeOfSlashes(r: NutsRequest)
    requires FreeOfSlashes(r)
    ensures '/' !in NutsFileName(r)
  {
    var level := IntToString(r.level);
    forall i | 0 <= i < |level| ensures level[i] != '/' {
      if r.level < 0 && i > 0 {
        assert level[i] == level[1..][i - 1];
      }
    }
    assert '/' !in ResolutionSegment(r.spatialType, r.resolution);
  }

  /** The object the raw GeoJSON goes to: the `./tmp/` directory is dropped. */
  lemma RawUploadKey(r: NutsRequest)
    requires FreeOfSlashes(r)
    ensures UploadKey(RegionsPrefix, NutsDownloadTarget(r).outputFile) == "regions/" + NutsFileName(r)
  {
    var name := NutsFileName(r);
    NameFreeOfSlashes(r);
    assert NutsDownloadTarget(r).outputFile == DownloadDir + "/" + name;
    BasenameAfterSlash(DownloadDir, name);
    BlobKeyOfCleanPrefix(RegionsPrefix, name);
  }

  /**
   * The raw GeoJSON upload with the helper's defaults (three attempts, local
   * clean-up on success): every write goes to `raw-data-td1313` at
   * `regions/<file name>`, at most three of them, True exactly when an
   * attempt is verified after retried failures only, and the local file
   * removed only then.
   */
  lemma RawUpload(r: NutsRequest, env: Env)
    requires FreeOfSlashes(r) && DefaultMaxRetries <= |env.attempts|
    ensures var t := Upload(NutsDownloadTarget(r).outputFile, RawBucket, RegionsPrefix,
                            DefaultMaxRetries, DefaultRemoveOnSuccess, env);
      && (forall j :: 0 <= j < |t.writes| ==> t.writes[j] == BlobRef(RawBucket, "regions/" + NutsFileName(r)))
      && |t.writes| <= 3
      && (t.result == Returned(true) <==> env.fileExists && SucceedsWithin(env, 0, 3))
      && (t.removed <==> t.result == Returned(true) && env.removeSucceeds)
  {
    var path := NutsDownloadTarget(r).outputFile;
    RawUploadKey(r);
    UploadSucceedsIff(path, RawBucket, RegionsPrefix, DefaultMaxRetries, DefaultRemoveOnSuccess, env);
    if env.fileExists {
      var blob := BlobRef(RawBucket, UploadKey(RegionsPrefix, path));
      UploadOfExistingFile(path, RawBucket, RegionsPrefix, DefaultMaxRetries, DefaultRemoveOnSuccess, env);
      AttemptsShape(blob, 0, 3, DefaultRemoveOnSuccess, env);
    }
  }

  /** With the default arguments the raw file lands at `regions/NUTS_LB_2024_4326_LEVL_2.geojson`. */
  lemma DefaultRawUploadKey()
    ensures UploadKey(RegionsPrefix, NutsDownloadTarget(DefaultRequest).outputFile)
            == RegionsPrefix + "/" + NutsFileName(DefaultRequest)
    ensures NutsFileName(DefaultRequest) == "NUTS_LB_2024_4326_LEVL_2.geojson"
  {
    RawUploadKey(DefaultRequest);
    DefaultFileName();
  }

  /**
   * The transformed table is uploaded to the staging bucket at
   * `regions/dim_regions.csv`, the very object the weather job downloads.
   */
  lemma TransformedUploadFeedsWeatherJob(outcome: FetchOutcome)
    ensures BlobRef(StagingBucket, UploadKey(RegionsPrefix, TransformedFile))
            == WeatherData.RegionsDownload(outcome).source
  {
    assert TransformedFile == "./tmp" + "/" + "dim_regions.csv";
    BasenameAfterSlash("./tmp", "dim_regions.csv");
  }

}
