# tourism-data extract jobs: a Dafny model of the storage helpers and the naming logic

The extract jobs fetch statistical, geospatial and weather data, reshape it and
move files in and out of cloud object storage. This project models the parts of
them that hold checkable logic, and proves properties of that model:

- **The storage helpers** (`HelperFunctions`, `helper_functions.dfy`). This covers the object-key
  rule (`rstrip('/')` on the prefix, a `/`, then the name: the POSIX base name of
  the local path for the upload, the given object name as it is for the download) and the
  fail-closed existence check. It covers the upload as a method whose loop makes
  up to `max_retries` write/verify attempts. After every attempt that fails in a
  way the loop catches (a `GoogleAPIError` from the write, or an existence check
  that does not confirm the object) it sleeps `2^attempt`; a write that raises any
  other exception ends the call with no sleep. After a verified upload it removes the
  local file, on a best-effort basis, if asked to. It also covers the single-shot download.
  The storage SDK is replaced by an oracle (`Env`). The oracle says whether the
  local file exists, gives one outcome per attempt (the write raises `GoogleAPIError`,
  the write raises something else, or the write returns and the existence check
  answers present, absent or API error), and says whether removing the file succeeds.
  The upload records the writes and checks it issues, its sleep durations, its
  result and whether the file was removed (`UploadTrace`). The method
  `UploadToGcs` is proved equal to the recursive specification `Upload`, and the
  lemmas state the properties of `Upload`.
- **The weather job's reporting window** (`WeatherData`, `weather_data.dfy`,
  built on `Calendar` in `calendar.dfy` and `Decimal` in `decimal.dfy`). From a run date the job takes the
  first day of the run month. It steps one day back and takes the first day of that
  month. Both bounds are rendered as `YYYY-MM-DD`. Dates follow
  Python's `datetime.date`: proleptic Gregorian, years 1 to 9999, and an overflow
  error when stepping below 0001-01-01. The module also covers the job's download
  of the regions table.
- **The regions job's names** (`ExtractRegions`, `extract_regions.dfy`). This covers the GISCO NUTS file
  name, with its resolution segment left out for label points (`LB`). It covers the download
  URL and local path, and the object keys the raw and the transformed files are
  uploaded under. One of these keys is the key the weather job downloads.

`optional.dfy` holds the `Option` datatype.

Two points of the code's behaviour that the model keeps:

- The code sleeps after every caught failure, the last attempt included, so a
  run that gives up after one or more attempts ends with a sleep.
- Apart from the `OSError` of the best-effort removal, which is logged and
  still ends in True, the write and the fetch are guarded only against
  `GoogleAPIError`, so any other exception they raise leaves the upload and the
  download. The model has an explicit `Raised` result for a write or fetch that
  raises something else.

## Model

| member | source | states |
|---|---|---|
| `HelperFunctions.RStripSlashes` | extract-jobs/helper_functions.py:68 | the result is a prefix of the input that does not end in `/`, and only slashes were removed |
| `HelperFunctions.Basename` | extract-jobs/helper_functions.py:68 | the result is a suffix of the path that holds no `/` and is preceded by `/` or by nothing: the part after the last slash |
| `HelperFunctions.BasenameAfterSlash` | extract-jobs/helper_functions.py:68 | any directory part before the last `/` is dropped from the name that reaches the key |
| `HelperFunctions.BasenameOfPlainName` | extract-jobs/helper_functions.py:68 | a path without `/` is its own base name |
| `HelperFunctions.RStripIgnoresSlashes` | extract-jobs/helper_functions.py:68 | appending any run of slashes to a prefix does not change what `rstrip('/')` leaves |
| `HelperFunctions.BlobKeyIgnoresTrailingSlashes` | extract-jobs/helper_functions.py:68 | a prefix with or without trailing slashes gives the same object key |
| `HelperFunctions.BlobKeyShape` | extract-jobs/helper_functions.py:68 | `BlobKey`: the key is a leading part of the prefix that does not end in `/`, then `/`, then the name, and only slashes of the prefix are left out |
| `HelperFunctions.UploadKeyShape` | extract-jobs/helper_functions.py:68 | `UploadKey`: the key's last segment is the base name of the local path, and the key begins with the cleaned prefix and `/` |
| `HelperFunctions.UploadKeyInDirectory` | extract-jobs/helper_functions.py:68 | a file `name` in any local directory goes to `prefix/name` under a prefix that does not end in `/` |
| `HelperFunctions.BlobKeyOfCleanPrefix` | extract-jobs/helper_functions.py:129 | for a prefix not ending in `/` the key is `prefix + "/" + name` |
| `HelperFunctions.FolderKeyExamples` | extract-jobs/helper_functions.py:68 | `folder`, `folder/` and `folder//` all put `name.csv` at `folder/name.csv` |
| `HelperFunctions.VerifyGcsUpload` | extract-jobs/helper_functions.py:29-39 | true exactly when the store answers that the object exists; an API error reads as absent (fails closed) |
| `HelperFunctions.NumAttempts` | extract-jobs/helper_functions.py:72 | `range(max_retries)` makes `max_retries` passes, and none when `max_retries` is zero or less |
| `HelperFunctions.Pow2` | extract-jobs/helper_functions.py:100 | the back-off duration `2 ** attempt` is at least 1 |
| `HelperFunctions.Backoffs` | extract-jobs/helper_functions.py:99-100 | the sleeps of `k` failed attempts are `k` values, the `i`-th being `2^i` |
| `HelperFunctions.Upload` | extract-jobs/helper_functions.py:42-103 | the specification of `upload_to_gcs`: a missing file gives False with no write, no sleep and no removal; otherwise at most `max_retries` writes, no more checks than writes, and removal only after a True result, with `remove_on_success` and a successful remove |
| `HelperFunctions.UploadToGcs` | extract-jobs/helper_functions.py:42-103 | the method's trace equals the specification `Upload`; a missing file gives False with no write, no sleep and no removal |
| `HelperFunctions.AttemptLoop` | extract-jobs/helper_functions.py:72-103 | the `for` loop, writing the computed object each pass, has exactly the trace of the recursive run `AttemptsFrom` from attempt 0 |
| `HelperFunctions.AttemptsShape` | extract-jobs/helper_functions.py:72-100 | at most one write per remaining attempt and no more checks than writes; giving up means every attempt was made with a sleep after each one, and any other end means a sleep after all but the last; removal only after a verified upload, and then exactly when asked for and successful |
| `HelperFunctions.AttemptsTargetOneBlob` | extract-jobs/helper_functions.py:68-81 | every write and every existence check of the loop goes to the one computed object |
| `HelperFunctions.AttemptsSleepDoubling` | extract-jobs/helper_functions.py:99-100 | the sleeps from attempt `i` on are `2^i, 2^(i+1), ...` in order |
| `HelperFunctions.SleepsAreBackoffs` | extract-jobs/helper_functions.py:99-100 | sleeps that double from 1 are exactly the schedule `[1, 2, ..., 2^(k-1)]` |
| `HelperFunctions.RetriedPrefix` | extract-jobs/helper_functions.py:72-100 | a run of retried attempts adds one write and one sleep each, and one check per returned write, and then the loop carries on unchanged |
| `HelperFunctions.AttemptsSucceedAt` | extract-jobs/helper_functions.py:72-92 | `AttemptsFrom` reaching a verified attempt `k` after retried failures: True, `k+1` writes, sleeps `[1..2^(k-1)]`, one check per returned write, removal exactly when asked for and successful |
| `HelperFunctions.AttemptsGiveUp` | extract-jobs/helper_functions.py:96-103 | `AttemptsFrom` meeting only retried failures: False, one write and one sleep `2^i` per attempt, no removal |
| `HelperFunctions.AttemptsRaiseAt` | extract-jobs/helper_functions.py:72-77 | `AttemptsFrom` reaching an uncaught write exception at attempt `k`: `Raised`, `k+1` writes, `k` sleeps, no removal |
| `HelperFunctions.UploadSucceedsAt` | extract-jobs/helper_functions.py:72-92 | when attempt `k` is the first verified one after retried failures: True, `k+1` writes, sleeps `[1..2^(k-1)]`, one check per returned write, removal exactly when asked for and successful |
| `HelperFunctions.UploadGivesUp` | extract-jobs/helper_functions.py:96-103 | when every attempt fails in a caught way: False, `max_retries` writes, sleeps `[1, 2, ..., 2^(max_retries-1)]`, the local file kept |
| `HelperFunctions.UploadRaisesAt` | extract-jobs/helper_functions.py:72-77 | an uncaught exception from the write at attempt `k` ends the call after `k+1` writes and `k` sleeps, with no removal |
| `HelperFunctions.AttemptsSucceedIff` | extract-jobs/helper_functions.py:72-94 | the loop from any attempt returns True if and only if some later attempt is verified and every one before it was a retried failure |
| `HelperFunctions.UploadSucceedsIff` | extract-jobs/helper_functions.py:62-103 | True if and only if the file exists and an attempt within `max_retries` is verified after retried failures; at most `max_retries` writes, all to the computed key; removal implies success and `remove_on_success` |
| `HelperFunctions.UploadWithNoRetries` | extract-jobs/helper_functions.py:72-103 | with `max_retries <= 0` there is no write and no sleep, and the result is False |
| `HelperFunctions.FailTwiceThenSucceed` | extract-jobs/helper_functions.py:62-103 | two failed writes then a verified one, for `regions.csv` in any local directory: three writes to `regions/regions.csv`, one check, sleeps `[1, 2]`, True, file removed |
| `HelperFunctions.DownloadFromGcs` | extract-jobs/helper_functions.py:124-143 | one fetch of `rstrip('/')` prefix + `/` + name; True exactly when the fetch completes, False exactly on `GoogleAPIError`, an escaping exception otherwise |
| `HelperFunctions.DownloadFindsUpload` | extract-jobs/helper_functions.py:129 | downloading a file's base name under the same prefix, with any trailing slashes, reads the object the upload wrote |
| `Calendar.FirstOfMonth` | extract-jobs/weather-data.py:20 | `replace(day=1)` keeps year and month, gives a valid date, and never moves later |
| `Calendar.PreviousDay` | extract-jobs/weather-data.py:21 | one day back is a valid earlier date whose next day is the start date, so from day 1 it is the last day of the previous month; it overflows exactly at 0001-01-01 |
| `Calendar.NextDay` | extract-jobs/weather-data.py:21 | one day forward is a valid later date; it overflows exactly at 9999-12-31 |
| `Calendar.NextOfPrevious` | extract-jobs/weather-data.py:21 | stepping back one day and then forward one day returns to the start |
| `Calendar.PreviousOfNext` | extract-jobs/weather-data.py:21 | stepping forward one day and then back one day returns to the start |
| `Calendar.IsoFormat` | extract-jobs/weather-data.py:24-25 | `isoformat()` is 10 characters: four digits, `-`, two digits, `-`, two digits |
| `Calendar.IsoRoundTrip` | extract-jobs/weather-data.py:24-25 | parsing the rendered string gives back the same date |
| `Decimal.Padded` | extract-jobs/weather-data.py:24-25 | a zero-padded field has exactly the requested width and only digits |
| `Decimal.ValuePadded` | extract-jobs/weather-data.py:24-25 | a zero-padded field reads back as the number rendered |
| `Decimal.NatToString` | extract-jobs/extract-regions.py:13 | `str(n)` is non-empty, all digits, starts with `0` only for zero, and is exactly `"0"` for zero |
| `Decimal.ValueNatToString` | extract-jobs/extract-regions.py:13 | `str(n)` reads back as `n` |
| `Decimal.IntToString` | extract-jobs/extract-regions.py:13 | `str(i)` is the digits of `i`, after a `-` when `i` is negative, with no leading zero, and exactly `"0"` for zero |
| `WeatherData.PreviousMonthWindow` | extract-jobs/weather-data.py:17-22 | a window exists unless the run falls in January of year 1, and then both bounds are valid dates |
| `WeatherData.WindowIsPreviousMonth` | extract-jobs/weather-data.py:20-22 | start is day 1 and end is the last day of the month before the run month, in the same year and month, and start is not after end |
| `WeatherData.WindowEndsBeforeRunMonth` | extract-jobs/weather-data.py:20-22 | the day after the window's end is day 1 of the run month |
| `WeatherData.JanuaryRollsBackYear` | extract-jobs/weather-data.py:20-22 | a January run reports 1 to 31 December of the previous year |
| `WeatherData.MarchRunEndsOnLastOfFebruary` | extract-jobs/weather-data.py:20-21 | a March run ends the window on 29 February in a leap year and on the 28th otherwise |
| `WeatherData.WindowIgnoresRunDay` | extract-jobs/weather-data.py:20 | any two run dates in one month give the same window |
| `WeatherData.WindowBounds` | extract-jobs/weather-data.py:24-25 | `start_date` and `end_date` exist exactly when the window does, and read back as the window's start and end |
| `WeatherData.LeapFebruaryExample` | extract-jobs/weather-data.py:17-25 | a run on 2024-03-15 gives `2024-02-01` and `2024-02-29` |
| `WeatherData.RegionsDownload` | extract-jobs/weather-data.py:72 | the regions table is read from `staging-data-td1313` at `regions/dim_regions.csv` into `./tmp/dim_regions.csv`, with True exactly when the fetch completes |
| `ExtractRegions.NutsFileName` | extract-jobs/extract-regions.py:13 | the name starts with `theme_spatialType` and ends in `.geojson` |
| `ExtractRegions.LabelPointsName` | extract-jobs/extract-regions.py:13 | for `LB` the name is `theme_LB_year_projection_LEVL_level.geojson`, whatever the resolution |
| `ExtractRegions.ResolutionInserted` | extract-jobs/extract-regions.py:13 | for any other spatial type, `_resolution` follows the spatial type |
| `ExtractRegions.ResolutionDistinguishes` | extract-jobs/extract-regions.py:13 | for any other spatial type, two different resolutions give two different names |
| `ExtractRegions.DefaultFileName` | extract-jobs/extract-regions.py:11-13 | with default arguments the name is `NUTS_LB_2024_4326_LEVL_2.geojson` |
| `ExtractRegions.NutsDownloadTarget` | extract-jobs/extract-regions.py:12-17 | the URL is the base URL plus the name and the local path is `./tmp/` plus the name, so both end in the same file name |
| `ExtractRegions.DownloadFile` | extract-jobs/extract-regions.py:11-34 | `None` exactly on a `RequestException`, an escaping exception exactly when creating the directory or writing the file fails, and otherwise the path `./tmp/<file name>` |
| `ExtractRegions.DownloadedFileRawKey` | extract-jobs/extract-regions.py:63-68 | the path `download_file` returns after saving is the file the raw upload puts at `regions/<file name>` |
| `ExtractRegions.NameFreeOfSlashes` | extract-jobs/extract-regions.py:13 | arguments without `/` give a file name without `/` |
| `ExtractRegions.RawUploadKey` | extract-jobs/extract-regions.py:68 | with no `/` in the arguments, the raw GeoJSON is uploaded at `regions/<file name>`: basename drops `./tmp/` |
| `ExtractRegions.RawUpload` | extract-jobs/extract-regions.py:67-68 | the raw upload with the defaults `max_retries=3` and `remove_on_success=True`: every write goes to `raw-data-td1313` at `regions/<file name>`, at most three, True exactly when an attempt is verified after retried failures, the local file removed exactly on True with a successful remove |
| `ExtractRegions.DefaultRawUploadKey` | extract-jobs/extract-regions.py:68 | with default arguments the raw file goes to `regions/NUTS_LB_2024_4326_LEVL_2.geojson` |
| `ExtractRegions.TransformedUploadFeedsWeatherJob` | extract-jobs/extract-regions.py:59-70 | `./tmp/dim_regions.csv` uploaded with prefix `regions` to the staging bucket is the object the weather job downloads |

## Left out

- The storage SDK (`storage.Client`, `bucket`, `blob`, `upload_from_filename`, `exists`, `download_to_filename`) is foreign code. Its answers come from the `Env` oracle and from `FetchOutcome`, and the bytes moved are not modelled.
- `UploadToGcs`, `AttemptLoop` and `Upload` require the oracle to supply an outcome for every attempt the loop may make (`NumAttempts(maxRetries) <= |env.attempts|`). The source demands nothing like this: it is the shape of the oracle.
- In `upload_to_gcs`, `storage.Client()` (extract-jobs/helper_functions.py:67) runs outside the `try`, so any exception it raises escapes; `Env` has no outcome for it, and no exception from that line is modelled. Exceptions other than `GoogleAPIError` from `exists()` are not modelled either. Only non-`GoogleAPIError` exceptions from the write and the fetch are, as `Raised`; in `download_from_gcs` a `GoogleAPIError` from client creation is covered by the `FetchApiError` outcome, since the same handler returns False.
- Logging is a side channel with no effect on results, and is not modelled.
- `time.sleep` does not wait in the model: the durations are recorded in `sleeps`. The trailing `time.sleep(60)` of the weather job is not modelled.
- The run date string is parsed by `pd.to_datetime`, which is not part of this model. The model takes a `Date`. That parser only accepts years 1677 to 2262, so the overflow case for January of year 1 cannot arise in the job itself.
- The Open-Meteo requests, cached and retrying sessions, per-row DataFrame building and the parquet write are network, floating-point and third-party-library work, and are not modelled.
- The GISCO HTTP request, the file write, GeoJSON parsing, the pandas column work and `country_converter` are not modelled. `DownloadFile` reduces the fetch and the save to a `RequestOutcome`: saved, a request error, or a write error.
- `eurostat_data.py` is not part of this model: it is a script with one network read and one CSV write.
- The `__main__` flow of `extract-regions.py` calls `transform_file(None)` when the download fails. That path crashes, and it is not modelled. The two upload keys it uses are modelled.
- `sys.argv` handling and the module-level `os.makedirs` are not modelled.
- Path handling is POSIX only: `Basename` splits on `/`, and other separators are not modelled.
- `NutsFileName` takes `level` as an int and every other argument as a string. Other argument types that an f-string would also format are not modelled.
