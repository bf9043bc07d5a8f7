/**
 * The storage helpers shared by the extract jobs: the object-key rule, the
 * fail-closed existence check, the upload with verify/retry/backoff and
 * optional local clean-up, and the single-shot download.
 *
 * The storage SDK is not modelled. What it would answer is supplied as an
 * oracle: whether the local file exists, one outcome per upload attempt, and
 * whether removing the local file succeeds. The model records what the code
 * would do against those answers: the writes and existence checks it issues,
 * the back-off sleeps, the result and whether the local file was removed.
 */
module HelperFunctions {

  // ---------------------------------------------------------------------------
  // Object keys
  // ---------------------------------------------------------------------------

  predicate AllSlashes(s: string) {
    forall i :: 0 <= i < |s| ==> s[i] == '/'
  }

  /** `s.rstrip('/')`: `s` without its run of trailing slashes. */
  function RStripSlashes(s: string): (r: string)
    ensures |r| <= |s| && r == s[..|r|]
    ensures AllSlashes(s[|r|..])
    ensures r == [] || r[|r| - 1] != '/'
  {
    if s != [] && s[|s| - 1] == '/' then
      var r := RStripSlashes(s[..|s| - 1]);
      assert s[|r|..] == s[..|s| - 1][|r|..] + ['/'];
      r
    else s
  }

  /** `os.path.basename(p)` on POSIX: what follows the last `/`. */
  function Basename(p: string): (r: string)
    ensures |r| <= |p| && r == p[|p| - |r|..]
    ensures '/' !in r
    ensures |r| == |p| || p[|p| - |r| - 1] == '/'
  {
    if p == [] || p[|p| - 1] == '/' then [] else Basename(p[..|p| - 1]) + [p[|p| - 1]]
  }

  /** The key both helpers use: the prefix without trailing slashes, a `/`, then the name. */
  function BlobKey(prefix: string, name: string): string {
    RStripSlashes(prefix) + "/" + name
  }

  /** The key `upload_to_gcs` writes `filePath` to. */
  function UploadKey(prefix: string, filePath: string): string {
    BlobKey(prefix, Basename(filePath))
  }

  /** A directory part, however long, does not reach the key: only what follows the last `/` does. */
  lemma {:induction false} BasenameAfterSlash(dir: string, name: string)
    requires '/' !in name
    ensures Basename(dir + "/" + name) == name
  {
    if name == [] {
    } else {
      var p := dir + "/" + name;
      assert p[..|p| - 1] == dir + "/" + name[..|name| - 1];
      BasenameAfterSlash(dir, name[..|name| - 1]);
      assert name == name[..|name| - 1] + [name[|name| - 1]];
    }
  }

  /** Appending slashes to a prefix does not change what `rstrip('/')` leaves. */
  lemma {:induction false} RStripIgnoresSlashes(prefix: string, slashes: string)
    requires AllSlashes(slashes)
    ensures RStripSlashes(prefix + slashes) == RStripSlashes(prefix)
  {
    if slashes != [] {
      var s := prefix + slashes;
      assert s[|s| - 1] == slashes[|slashes| - 1] == '/';
      assert s[..|s| - 1] == prefix + slashes[..|slashes| - 1];
      assert RStripSlashes(s) == RStripSlashes(s[..|s| - 1]);
      RStripIgnoresSlashes(prefix, slashes[..|slashes| - 1]);
    } else {
      assert prefix + slashes == prefix;
    }
  }

  /** A prefix given with or without trailing slashes names the same object. */
  lemma BlobKeyIgnoresTrailingSlashes(prefix: string, slashes: string, name: string)
    requires AllSlashes(slashes)
    ensures BlobKey(prefix + slashes, name) == BlobKey(prefix, name)
  {
    RStripIgnoresSlashes(prefix, slashes);
  }

  /** When the prefix ends in something other than `/`, the key is the plain join. */
  lemma {:induction false} BlobKeyOfCleanPrefix(prefix: string, name: string)
    requires prefix == [] || prefix[|prefix| - 1] != '/'
    ensures BlobKey(prefix, name) == prefix + "/" + name
  {
  }

  /** A path without any `/` is its own base name. */
  lemma BasenameOfPlainName(name: string)
    requires '/' !in name
    ensures Basename(name) == name
  {
  }

  /** A file in a directory goes to `prefix/name` under a prefix that does not end in `/`. */
  lemma UploadKeyInDirectory(prefix: string, dir: string, name: string)
    requires '/' !in name && (prefix == [] || prefix[|prefix| - 1] != '/')
    ensures UploadKey(prefix, dir + "/" + name) == prefix + "/" + name
  {
    BasenameAfterSlash(dir, name);
    BlobKeyOfCleanPrefix(prefix, name);
  }

  /**
   * The key is a leading part of the prefix that does not end in `/`, then `/`,
   * then the name, and only slashes of the prefix are left out.
   */
  lemma BlobKeyShape(prefix: string, name: string)
    ensures var k := BlobKey(prefix, name);
      && |k| >= |name| + 1 && k[|k| - |name|..] == name && k[|k| - |name| - 1] == '/'
      && |k| - |name| - 1 <= |prefix| && k[..|k| - |name| - 1] == prefix[..|k| - |name| - 1]
      && AllSlashes(prefix[|k| - |name| - 1..])
      && (|k| == |name| + 1 || k[|k| - |name| - 2] != '/')
  {
    var r := RStripSlashes(prefix);
    var k := BlobKey(prefix, name);
    assert k[..|r|] == r && k[|r|] == '/' && k[|r| + 1..] == name;
  }

  /**
   * The upload key's last segment is the base name of the local path, and the
   * key begins with the cleaned prefix and a `/`.
   */
  lemma UploadKeyShape(prefix: string, filePath: string)
    ensures Basename(UploadKey(prefix, filePath)) == Basename(filePath)
    ensures var r := RStripSlashes(prefix); var k := UploadKey(prefix, filePath);
      |k| > |r| && k[..|r| + 1] == r + "/"
  {
    BasenameAfterSlash(RStripSlashes(prefix), Basename(filePath));
  }

  /** "folder", "folder/" and "folder//" all put `name.csv` at `folder/name.csv`. */
  lemma FolderKeyExamples()
    ensures UploadKey("folder", "name.csv") == "folder/name.csv"
    ensures UploadKey("folder/", "name.csv") == "folder/name.csv"
    ensures UploadKey("folder//", "name.csv") == "folder/name.csv"
  {
    var folder, name := "folder", "name.csv";
    assert '/' !in name;
    BasenameOfPlainName(name);
    BlobKeyOfCleanPrefix(folder, name);
    assert AllSlashes("/") && AllSlashes("//");
    BlobKeyIgnoresTrailingSlashes(folder, "/", name);
    BlobKeyIgnoresTrailingSlashes(folder, "//", name);
    assert folder + "/" == "folder/" && folder + "//" == "folder//";
    assert folder + "/" + name == "folder/name.csv";
  }

  // ---------------------------------------------------------------------------
  // What the store answers
  // ---------------------------------------------------------------------------

  /** An object in a bucket. */
  datatype BlobRef = BlobRef(bucket: string, name: string)

  /** What `blob.exists()` does: answer yes, answer no, or raise `GoogleAPIError`. */
  datatype ExistsAnswer = Present | Absent | ExistsApiError

  /**
   * What one upload attempt meets: the write raises `GoogleAPIError`, the write
   * raises some other exception (which nothing catches), or the write returns
   * and the existence check answers.
   */
  datatype AttemptOutcome = WriteApiError | WriteFatal | Written(check: ExistsAnswer)

  /** How a helper call ends: it returns a boolean, or an uncaught exception leaves it. */
  datatype CallResult = Returned(success: bool) | Raised

  /** Everything outside the code that an upload depends on. */
  datatype Env = Env(fileExists: bool, attempts: seq<AttemptOutcome>, removeSucceeds: bool)

  /** What an upload did: its result, the writes and checks it issued, its sleeps, and the clean-up. */
  datatype UploadTrace = UploadTrace(
    result: CallResult,
    writes: seq<BlobRef>,
    verifies: seq<BlobRef>,
    sleeps: seq<nat>,
    removed: bool)

  // ---------------------------------------------------------------------------
  // verify_gcs_upload
  // ---------------------------------------------------------------------------

  /** `verify_gcs_upload`: an API error reads as "not there". */
  function VerifyGcsUpload(answer: ExistsAnswer): (found: bool)
    ensures found <==> answer == Present
    ensures answer == ExistsApiError ==> !found
  {
    match answer
    case Present => true
    case Absent => false
    case ExistsApiError => false
  }

  // ---------------------------------------------------------------------------
  // upload_to_gcs
  // ---------------------------------------------------------------------------

  /** `max_retries` and `remove_on_success` when the caller leaves them out. */
  const DefaultMaxRetries := 3
  const DefaultRemoveOnSuccess := true

  /** The number of passes `range(maxRetries)` makes: none for a count of zero or less. */
  function NumAttempts(maxRetries: int): (n: nat)
    ensures maxRetries >= 0 ==> n == maxRetries
    ensures maxRetries <= 0 ==> n == 0
  {
    if maxRetries < 0 then 0 else maxRetries
  }

  /** `2 ** k`. */
  function Pow2(k: nat): (r: nat)
    ensures r >= 1
  {
    if k == 0 then 1 else 2 * Pow2(k - 1)
  }

  /** The sleeps of `k` consecutive failed attempts: `[1, 2, ..., 2^(k-1)]`. */
  function Backoffs(k: nat): (s: seq<nat>)
    ensures |s| == k
    ensures forall i :: 0 <= i < k ==> s[i] == Pow2(i)
  {
    if k == 0 then [] else Backoffs(k - 1) + [Pow2(k - 1)]
  }

  /** The attempt ended in a verified upload. */
  predicate Verified(o: AttemptOutcome) {
    o.Written? && VerifyGcsUpload(o.check)
  }

  /** The attempt failed in a way the loop catches, so it backs off and tries again. */
  predicate Retried(o: AttemptOutcome) {
    o.WriteApiError? || (o.Written? && !VerifyGcsUpload(o.check))
  }

  /** `t` with the given writes, checks and sleeps happening first. */
  function Prefixed(w: seq<BlobRef>, v: seq<BlobRef>, s: seq<nat>, t: UploadTrace): UploadTrace {
    UploadTrace(t.result, w + t.writes, v + t.verifies, s + t.sleeps, t.removed)
  }

  /**
   * The attempts from index `i` on, out of `n`, all writing `blob`. The
   * properties of a run are stated by the lemmas below.
   */
  function AttemptsFrom(blob: BlobRef, i: nat, n: nat, removeOnSuccess: bool, env: Env): UploadTrace
    requires i <= n <= |env.attempts|
    decreases n - i
  {
    if i == n then UploadTrace(Returned(false), [], [], [], false)
    else
      match env.attempts[i]
      case WriteFatal => UploadTrace(Raised, [blob], [], [], false)
      case WriteApiError => Prefixed([blob], [], [Pow2(i)], AttemptsFrom(blob, i + 1, n, removeOnSuccess, env))
      case Written(check) =>
        if VerifyGcsUpload(check) then
          UploadTrace(Returned(true), [blob], [blob], [], removeOnSuccess && env.removeSucceeds)
        else
          Prefixed([blob], [blob], [Pow2(i)], AttemptsFrom(blob, i + 1, n, removeOnSuccess, env))
  }

  /**
   * What `upload_to_gcs` does, as a function of its arguments and the oracle.
   * A missing file gives False and nothing else; otherwise there are at most
   * `max_retries` writes, and the file is removed only after success.
   */
  function Upload(filePath: string, bucketName: string, bucketPrefix: string,
                  maxRetries: int, removeOnSuccess: bool, env: Env): (t: UploadTrace)
    requires NumAttempts(maxRetries) <= |env.attempts|
    ensures !env.fileExists ==> t.result == Returned(false) && t.writes == [] && t.sleeps == [] && !t.removed
    ensures |t.verifies| <= |t.writes| <= NumAttempts(maxRetries)
    ensures t.removed ==> t.result == Returned(true) && removeOnSuccess && env.removeSucceeds
  {
    if !env.fileExists then UploadTrace(Returned(false), [], [], [], false)
    else
      var blob := BlobRef(bucketName, UploadKey(bucketPrefix, filePath));
      AttemptsShape(blob, 0, NumAttempts(maxRetries), removeOnSuccess, env);
      AttemptsFrom(blob, 0, NumAttempts(maxRetries), removeOnSuccess, env)
  }

  /**
   * The whole run equals the `writes`, `verifies` and `sleeps` issued before
   * attempt `i`, followed by the run from attempt `i` on.
   */
  ghost predicate SplitsAt(blob: BlobRef, i: nat, n: nat, removeOnSuccess: bool, env: Env,
                           writes: seq<BlobRef>, verifies: seq<BlobRef>, sleeps: seq<nat>)
    requires i <= n <= |env.attempts|
  {
    var whole := AttemptsFrom(blob, 0, n, removeOnSuccess, env);
    var rest := AttemptsFrom(blob, i, n, removeOnSuccess, env);
    && whole.result == rest.result
    && whole.removed == rest.removed
    && whole.writes == writes + rest.writes
    && whole.verifies == verifies + rest.verifies
    && whole.sleeps == sleeps + rest.sleeps
  }

  /** `upload_to_gcs`: existence check, key construction, then the write/verify/back-off loop. */
  method UploadToGcs(filePath: string, bucketName: string, bucketPrefix: string,
                     maxRetries: int, removeOnSuccess: bool, env: Env)
    returns (t: UploadTrace)
    requires NumAttempts(maxRetries) <= |env.attempts|
    ensures t == Upload(filePath, bucketName, bucketPrefix, maxRetries, removeOnSuccess, env)
    ensures !env.fileExists ==> t.result == Returned(false) && t.writes == [] && t.sleeps == [] && !t.removed
  {
    if !env.fileExists {
      return UploadTrace(Returned(false), [], [], [], false);
    }
    var blob := BlobRef(bucketName, UploadKey(bucketPrefix, filePath));
    t := AttemptLoop(blob, maxRetries, removeOnSuccess, env);
  }

  /**
   * The `for attempt in range(max_retries)` loop of `upload_to_gcs`, writing
   * `blob` each pass: its trace is the run of `AttemptsFrom` from attempt 0.
   */
  method AttemptLoop(blob: BlobRef, maxRetries: int, removeOnSuccess: bool, env: Env)
    returns (t: UploadTrace)
    requires NumAttempts(maxRetries) <= |env.attempts|
    ensures t == AttemptsFrom(blob, 0, NumAttempts(maxRetries), removeOnSuccess, env)
  {
    ghost var n := NumAttempts(maxRetries);
    ghost var whole := AttemptsFrom(blob, 0, n, removeOnSuccess, env);
    var writes: seq<BlobRef> := [];
    var verifies: seq<BlobRef> := [];
    var sleeps: seq<nat> := [];
    var attempt: nat := 0;
    assert [] + whole.writes == whole.writes && [] + whole.verifies == whole.verifies && [] + whole.sleeps == whole.sleeps;
    while attempt < maxRetries
      decreases maxRetries - attempt
      invariant attempt <= n
      invariant SplitsAt(blob, attempt, n, removeOnSuccess, env, writes, verifies, sleeps)
    {
      SplitStep(blob, attempt, n, removeOnSuccess, env, writes, verifies, sleeps);
      writes := writes + [blob];
      match env.attempts[attempt] {
        case WriteFatal =>
          return UploadTrace(Raised, writes, verifies, sleeps, false);
        case WriteApiError =>
        case Written(check) =>
          verifies := verifies + [blob];
          if VerifyGcsUpload(check) {
            var removed := false;
            if removeOnSuccess {
              removed := env.removeSucceeds;
            }
            return UploadTrace(Returned(true), writes, verifies, sleeps, removed);
          }
      }
      sleeps := sleeps + [Pow2(attempt)];
      attempt := attempt + 1;
    }
    SplitEnd(blob, n, removeOnSuccess, env, writes, verifies, sleeps);
    t := UploadTrace(Returned(false), writes, verifies, sleeps, false);
  }

  /** One pass of the loop: a retried attempt moves the split point on; any other attempt ends the run. */
  lemma SplitStep(blob: BlobRef, i: nat, n: nat, removeOnSuccess: bool, env: Env,
                  writes: seq<BlobRef>, verifies: seq<BlobRef>, sleeps: seq<nat>)
    requires i < n <= |env.attempts|
    requires SplitsAt(blob, i, n, removeOnSuccess, env, writes, verifies, sleeps)
    ensures var o := env.attempts[i];
            var whole := AttemptsFrom(blob, 0, n, removeOnSuccess, env);
            var verifies' := if o.Written? then verifies + [blob] else verifies;
      && (Retried(o) ==>
            SplitsAt(blob, i + 1, n, removeOnSuccess, env, writes + [blob], verifies', sleeps + [Pow2(i)]))
      && (o == WriteFatal ==> whole == UploadTrace(Raised, writes + [blob], verifies, sleeps, false))
      && (Verified(o) ==>
            whole == UploadTrace(Returned(true), writes + [blob], verifies', sleeps,
                                 removeOnSuccess && env.removeSucceeds))
  {
    var rest := AttemptsFrom(blob, i + 1, n, removeOnSuccess, env);
    var o := env.attempts[i];
    if Retried(o) {
      assert writes + ([blob] + rest.writes) == (writes + [blob]) + rest.writes;
      assert verifies + ((if o.Written? then [blob] else []) + rest.verifies)
             == (if o.Written? then verifies + [blob] else verifies) + rest.verifies;
      assert sleeps + ([Pow2(i)] + rest.sleeps) == (sleeps + [Pow2(i)]) + rest.sleeps;
    }
  }

  /** When the loop runs out of attempts the run is what was issued so far, and the result is False. */
  lemma SplitEnd(blob: BlobRef, n: nat, removeOnSuccess: bool, env: Env,
                 writes: seq<BlobRef>, verifies: seq<BlobRef>, sleeps: seq<nat>)
    requires n <= |env.attempts|
    requires SplitsAt(blob, n, n, removeOnSuccess, env, writes, verifies, sleeps)
    ensures AttemptsFrom(blob, 0, n, removeOnSuccess, env) == UploadTrace(Returned(false), writes, verifies, sleeps, false)
  {
    assert writes + [] == writes && verifies + [] == verifies && sleeps + [] == sleeps;
  }

  /**
   * The counts of every run of the loop from attempt `i`: there are at most
   * `n - i` writes; a run that gives up has made all of them and slept after
   * every one, the last included, and a run that stops early has slept after
   * every attempt but the last; the local file is removed only after a
   * verified upload, and then exactly when removal was asked for and succeeded.
   */
  lemma {:induction false} AttemptsShape(blob: BlobRef, i: nat, n: nat, removeOnSuccess: bool, env: Env)
    requires i <= n <= |env.attempts|
    ensures var t := AttemptsFrom(blob, i, n, removeOnSuccess, env);
      && |t.writes| <= n - i
      && (i < n ==> |t.writes| >= 1)
      && |t.verifies| <= |t.writes|
      && (t.result == Returned(false) ==> |t.sleeps| == |t.writes| == n - i)
      && (t.result != Returned(false) ==> |t.sleeps| + 1 == |t.writes|)
      && (t.removed ==> t.result == Returned(true))
      && (t.result == Returned(true) ==> (t.removed <==> removeOnSuccess && env.removeSucceeds))
    decreases n - i
  {
    if i < n {
      AttemptsShape(blob, i + 1, n, removeOnSuccess, env);
    }
  }

  /** Every element of `s` is `blob`. */
  predicate AllTo(s: seq<BlobRef>, blob: BlobRef) {
    forall j :: 0 <= j < |s| ==> s[j] == blob
  }

  /** `s` is `2^e, 2^(e+1), ...`. */
  predicate DoublesFrom(s: seq<nat>, e: nat) {
    forall j :: 0 <= j < |s| ==> s[j] == Pow2(e + j)
  }

  lemma DoublesFromCons(e: nat, rest: seq<nat>)
    requires DoublesFrom(rest, e + 1)
    ensures DoublesFrom([Pow2(e)] + rest, e)
  {
    var s := [Pow2(e)] + rest;
    forall j | 0 <= j < |s| ensures s[j] == Pow2(e + j) {
      if j > 0 {
        assert s[j] == rest[j - 1];
        assert e + 1 + (j - 1) == e + j;
      }
    }
  }

  /** Every write and every existence check of a run goes to the one object. */
  lemma {:induction false} AttemptsTargetOneBlob(blob: BlobRef, i: nat, n: nat, removeOnSuccess: bool, env: Env)
    requires i <= n <= |env.attempts|
    ensures AllTo(AttemptsFrom(blob, i, n, removeOnSuccess, env).writes, blob)
    ensures AllTo(AttemptsFrom(blob, i, n, removeOnSuccess, env).verifies, blob)
    decreases n - i
  {
    if i < n {
      AttemptsTargetOneBlob(blob, i + 1, n, removeOnSuccess, env);
      var rest := AttemptsFrom(blob, i + 1, n, removeOnSuccess, env);
      var t := AttemptsFrom(blob, i, n, removeOnSuccess, env);
      if Retried(env.attempts[i]) {
        assert t.writes == [blob] + rest.writes;
        assert t.verifies == rest.verifies || t.verifies == [blob] + rest.verifies;
      } else {
        assert t.writes == [blob];
        assert t.verifies == [] || t.verifies == [blob];
      }
    }
  }

  /** The sleeps of a run from attempt `i` are `2^i, 2^(i+1), ...`, one per failed attempt, in order. */
  lemma {:induction false} AttemptsSleepDoubling(blob: BlobRef, i: nat, n: nat, removeOnSuccess: bool, env: Env)
    requires i <= n <= |env.attempts|
    ensures DoublesFrom(AttemptsFrom(blob, i, n, removeOnSuccess, env).sleeps, i)
    decreases n - i
  {
    if i < n {
      AttemptsSleepDoubling(blob, i + 1, n, removeOnSuccess, env);
      var rest := AttemptsFrom(blob, i + 1, n, removeOnSuccess, env);
      var t := AttemptsFrom(blob, i, n, removeOnSuccess, env);
      if Retried(env.attempts[i]) {
        assert t.sleeps == [Pow2(i)] + rest.sleeps;
        DoublesFromCons(i, rest.sleeps);
      } else {
        assert t.sleeps == [];
      }
    }
  }

  /** Sleeps that double from 1 are the back-off schedule. */
  lemma SleepsAreBackoffs(sleeps: seq<nat>, k: nat)
    requires |sleeps| == k && DoublesFrom(sleeps, 0)
    ensures sleeps == Backoffs(k)
  {
    forall j | 0 <= j < k ensures sleeps[j] == Backoffs(k)[j] {
      assert sleeps[j] == Pow2(0 + j);
    }
  }

  /** The attempts `i` to `k - 1` all failed and were retried. */
  predicate RetriedUpTo(env: Env, i: nat, k: nat)
    requires i <= k <= |env.attempts|
  {
    forall j :: i <= j < k ==> Retried(env.attempts[j])
  }

  /**
   * When attempts `i` to `k - 1` are all retried failures, the run from `i` is
   * those `k - i` writes with their sleeps, followed by the run from `k`.
   */
  lemma {:induction false} RetriedPrefix(blob: BlobRef, i: nat, k: nat, n: nat, removeOnSuccess: bool, env: Env)
    requires i <= k <= n <= |env.attempts|
    requires RetriedUpTo(env, i, k)
    ensures var t := AttemptsFrom(blob, i, n, removeOnSuccess, env);
            var u := AttemptsFrom(blob, k, n, removeOnSuccess, env);
      && t.result == u.result && t.removed == u.removed
      && |t.writes| == (k - i) + |u.writes|
      && |t.verifies| == CountWritten(env.attempts[i..k]) + |u.verifies|
      && |t.sleeps| == (k - i) + |u.sleeps|
    decreases k - i
  {
    if i < k {
      RetriedPrefix(blob, i + 1, k, n, removeOnSuccess, env);
      assert env.attempts[i..k] == [env.attempts[i]] + env.attempts[i + 1..k];
    }
  }

  /** How many of the outcomes got as far as a returned write (and so an existence check). */
  function CountWritten(s: seq<AttemptOutcome>): nat {
    if s == [] then 0 else (if s[0].Written? then 1 else 0) + CountWritten(s[1..])
  }

  /** A verified attempt ends the loop: True, with clean-up as asked for and as it went. */
  lemma VerifiedStops(blob: BlobRef, k: nat, n: nat, removeOnSuccess: bool, env: Env)
    requires k < n <= |env.attempts| && Verified(env.attempts[k])
    ensures AttemptsFrom(blob, k, n, removeOnSuccess, env)
            == UploadTrace(Returned(true), [blob], [blob], [], removeOnSuccess && env.removeSucceeds)
  {
  }

  /** An uncaught exception from the write ends the loop after that one write. */
  lemma FatalStops(blob: BlobRef, k: nat, n: nat, removeOnSuccess: bool, env: Env)
    requires k < n <= |env.attempts| && env.attempts[k] == WriteFatal
    ensures AttemptsFrom(blob, k, n, removeOnSuccess, env) == UploadTrace(Raised, [blob], [], [], false)
  {
  }

  /** The loop reaches a verified attempt `k` after retried failures only. */
  lemma AttemptsSucceedAt(blob: BlobRef, n: nat, removeOnSuccess: bool, env: Env, k: nat)
    requires k < n <= |env.attempts|
    requires RetriedUpTo(env, 0, k) && Verified(env.attempts[k])
    ensures var t := AttemptsFrom(blob, 0, n, removeOnSuccess, env);
      && t.result == Returned(true)
      && |t.writes| == k + 1
      && |t.verifies| == CountWritten(env.attempts[..k]) + 1
      && t.sleeps == Backoffs(k)
      && (t.removed <==> removeOnSuccess && env.removeSucceeds)
  {
    var t := AttemptsFrom(blob, 0, n, removeOnSuccess, env);
    RetriedPrefix(blob, 0, k, n, removeOnSuccess, env);
    VerifiedStops(blob, k, n, removeOnSuccess, env);
    assert env.attempts[0..k] == env.attempts[..k];
    AttemptsSleepDoubling(blob, 0, n, removeOnSuccess, env);
    SleepsAreBackoffs(t.sleeps, k);
  }

  /** The loop meets only retried failures and runs out of attempts. */
  lemma AttemptsGiveUp(blob: BlobRef, n: nat, removeOnSuccess: bool, env: Env)
    requires n <= |env.attempts| && RetriedUpTo(env, 0, n)
    ensures var t := AttemptsFrom(blob, 0, n, removeOnSuccess, env);
      && t.result == Returned(false)
      && |t.writes| == n
      && |t.verifies| == CountWritten(env.attempts[..n])
      && t.sleeps == Backoffs(n)
      && !t.removed
  {
    var t := AttemptsFrom(blob, 0, n, removeOnSuccess, env);
    RetriedPrefix(blob, 0, n, n, removeOnSuccess, env);
    assert env.attempts[0..n] == env.attempts[..n];
    AttemptsSleepDoubling(blob, 0, n, removeOnSuccess, env);
    SleepsAreBackoffs(t.sleeps, n);
  }

  /** The loop reaches a write at attempt `k` that raises an uncaught exception. */
  lemma AttemptsRaiseAt(blob: BlobRef, n: nat, removeOnSuccess: bool, env: Env, k: nat)
    requires k < n <= |env.attempts|
    requires RetriedUpTo(env, 0, k) && env.attempts[k] == WriteFatal
    ensures var t := AttemptsFrom(blob, 0, n, removeOnSuccess, env);
      && t.result == Raised
      && |t.writes| == k + 1
      && t.sleeps == Backoffs(k)
      && !t.removed
  {
    var t := AttemptsFrom(blob, 0, n, removeOnSuccess, env);
    RetriedPrefix(blob, 0, k, n, removeOnSuccess, env);
    FatalStops(blob, k, n, removeOnSuccess, env);
    AttemptsSleepDoubling(blob, 0, n, removeOnSuccess, env);
    SleepsAreBackoffs(t.sleeps, k);
  }

  /**
   * Success exactly when some attempt is verified and every earlier one was a
   * retried failure: the upload returns True at the first such attempt, after
   * `k + 1` writes, `k` sleeps and one existence check per returned write.
   */
  lemma UploadSucceedsAt(filePath: string, bucketName: string, bucketPrefix: string,
                         maxRetries: int, removeOnSuccess: bool, env: Env, k: nat)
    requires NumAttempts(maxRetries) <= |env.attempts|
    requires env.fileExists && k < NumAttempts(maxRetries)
    requires RetriedUpTo(env, 0, k) && Verified(env.attempts[k])
    ensures var t := Upload(filePath, bucketName, bucketPrefix, maxRetries, removeOnSuccess, env);
      && t.result == Returned(true)
      && |t.writes| == k + 1
      && |t.verifies| == CountWritten(env.attempts[..k]) + 1
      && t.sleeps == Backoffs(k)
      && (t.removed <==> removeOnSuccess && env.removeSucceeds)
  {
    UploadOfExistingFile(filePath, bucketName, bucketPrefix, maxRetries, removeOnSuccess, env);
    AttemptsSucceedAt(BlobRef(bucketName, UploadKey(bucketPrefix, filePath)),
                      NumAttempts(maxRetries), removeOnSuccess, env, k);
  }

  /**
   * When every attempt is a retried failure the upload gives up: it returns
   * False after `max_retries` writes, sleeping `[1, 2, ..., 2^(max_retries-1)]`,
   * and leaves the local file alone.
   */
  lemma UploadGivesUp(filePath: string, bucketName: string, bucketPrefix: string,
                      maxRetries: int, removeOnSuccess: bool, env: Env)
    requires NumAttempts(maxRetries) <= |env.attempts|
    requires env.fileExists && RetriedUpTo(env, 0, NumAttempts(maxRetries))
    ensures var t := Upload(filePath, bucketName, bucketPrefix, maxRetries, removeOnSuccess, env);
      && t.result == Returned(false)
      && |t.writes| == NumAttempts(maxRetries)
      && |t.verifies| == CountWritten(env.attempts[..NumAttempts(maxRetries)])
      && t.sleeps == Backoffs(NumAttempts(maxRetries))
      && !t.removed
  {
    UploadOfExistingFile(filePath, bucketName, bucketPrefix, maxRetries, removeOnSuccess, env);
    AttemptsGiveUp(BlobRef(bucketName, UploadKey(bucketPrefix, filePath)),
                   NumAttempts(maxRetries), removeOnSuccess, env);
  }

  /**
   * An exception other than `GoogleAPIError` from the write at attempt `k`
   * leaves the call after `k + 1` writes and `k` sleeps, with no clean-up.
   */
  lemma UploadRaisesAt(filePath: string, bucketName: string, bucketPrefix: string,
                       maxRetries: int, removeOnSuccess: bool, env: Env, k: nat)
    requires NumAttempts(maxRetries) <= |env.attempts|
    requires env.fileExists && k < NumAttempts(maxRetries)
    requires RetriedUpTo(env, 0, k) && env.attempts[k] == WriteFatal
    ensures var t := Upload(filePath, bucketName, bucketPrefix, maxRetries, removeOnSuccess, env);
      && t.result == Raised
      && |t.writes| == k + 1
      && t.sleeps == Backoffs(k)
      && !t.removed
  {
    UploadOfExistingFile(filePath, bucketName, bucketPrefix, maxRetries, removeOnSuccess, env);
    AttemptsRaiseAt(BlobRef(bucketName, UploadKey(bucketPrefix, filePath)),
                    NumAttempts(maxRetries), removeOnSuccess, env, k);
  }

  /** Some attempt before `n` is verified, and all attempts before it were retried. */
  predicate SucceedsWithin(env: Env, i: nat, n: nat)
    requires i <= n <= |env.attempts|
  {
    exists k :: i <= k < n && Verified(env.attempts[k]) && RetriedUpTo(env, i, k)
  }

  lemma {:induction false} AttemptsSucceedIff(blob: BlobRef, i: nat, n: nat, removeOnSuccess: bool, env: Env)
    requires i <= n <= |env.attempts|
    ensures AttemptsFrom(blob, i, n, removeOnSuccess, env).result == Returned(true)
            <==> SucceedsWithin(env, i, n)
    decreases n - i
  {
    if i < n {
      AttemptsSucceedIff(blob, i + 1, n, removeOnSuccess, env);
      var o := env.attempts[i];
      if Verified(o) {
        assert RetriedUpTo(env, i, i);
      } else if Retried(o) {
        if SucceedsWithin(env, i + 1, n) {
          var k :| i + 1 <= k < n && Verified(env.attempts[k]) && RetriedUpTo(env, i + 1, k);
          assert RetriedUpTo(env, i, k);
        }
        if SucceedsWithin(env, i, n) {
          var k :| i <= k < n && Verified(env.attempts[k]) && RetriedUpTo(env, i, k);
          assert k != i;
          assert RetriedUpTo(env, i + 1, k);
        }
      }
    }
  }

  /**
   * The upload returns True exactly when the file exists and, within
   * `max_retries` attempts, one write returned and was verified with every
   * earlier attempt a retried failure; it never makes more than `max_retries`
   * writes, all to the same object.
   */
  lemma UploadSucceedsIff(filePath: string, bucketName: string, bucketPrefix: string,
                          maxRetries: int, removeOnSuccess: bool, env: Env)
    requires NumAttempts(maxRetries) <= |env.attempts|
    ensures var t := Upload(filePath, bucketName, bucketPrefix, maxRetries, removeOnSuccess, env);
      && (t.result == Returned(true) <==> env.fileExists && SucceedsWithin(env, 0, NumAttempts(maxRetries)))
      && |t.writes| <= NumAttempts(maxRetries)
      && (forall j :: 0 <= j < |t.writes| ==> t.writes[j] == BlobRef(bucketName, UploadKey(bucketPrefix, filePath)))
      && (t.removed ==> t.result == Returned(true) && removeOnSuccess)
  {
    if env.fileExists {
      var blob := BlobRef(bucketName, UploadKey(bucketPrefix, filePath));
      AttemptsSucceedIff(blob, 0, NumAttempts(maxRetries), removeOnSuccess, env);
      AttemptsShape(blob, 0, NumAttempts(maxRetries), removeOnSuccess, env);
      AttemptsTargetOneBlob(blob, 0, NumAttempts(maxRetries), removeOnSuccess, env);
    }
  }

  /** With `max_retries` zero or less, an existing file is never written and the result is False. */
  lemma UploadWithNoRetries(filePath: string, bucketName: string, bucketPrefix: string,
                            maxRetries: int, removeOnSuccess: bool, env: Env)
    requires maxRetries <= 0
    ensures var t := Upload(filePath, bucketName, bucketPrefix, maxRetries, removeOnSuccess, env);
      t.result == Returned(false) && t.writes == [] && t.sleeps == [] && !t.removed
  {
  }

  /** For a file that exists, the upload is the attempt loop on the computed object. */
  lemma UploadOfExistingFile(filePath: string, bucketName: string, bucketPrefix: string,
                             maxRetries: int, removeOnSuccess: bool, env: Env)
    requires NumAttempts(maxRetries) <= |env.attempts| && env.fileExists
    ensures Upload(filePath, bucketName, bucketPrefix, maxRetries, removeOnSuccess, env)
            == AttemptsFrom(BlobRef(bucketName, UploadKey(bucketPrefix, filePath)), 0,
                            NumAttempts(maxRetries), removeOnSuccess, env)
  {
  }

  /** The attempts of the fail-twice scenario, for any object written. */
  lemma FailTwiceRun(blob: BlobRef, env: Env)
    requires env.removeSucceeds
    requires env.attempts == [WriteApiError, WriteApiError, Written(Present)]
    ensures AttemptsFrom(blob, 0, 3, true, env)
            == UploadTrace(Returned(true), [blob, blob, blob], [blob], [1, 2], true)
  {
    var last := UploadTrace(Returned(true), [blob], [blob], [], true);
    assert AttemptsFrom(blob, 2, 3, true, env) == last;
    assert AttemptsFrom(blob, 1, 3, true, env) == Prefixed([blob], [], [2], last);
  }

  /** `regions.csv` in any local directory goes to `regions/regions.csv` under the prefix `regions`. */
  lemma RegionsCsvKey(dir: string)
    ensures UploadKey("regions", dir + "/regions.csv") == "regions/regions.csv"
  {
    assert dir + "/regions.csv" == dir + "/" + "regions.csv";
    assert "regions" + "/" + "regions.csv" == "regions/regions.csv";
    UploadKeyInDirectory("regions", dir, "regions.csv");
  }

  /**
   * Two failed writes, then a write that is verified, with three attempts
   * allowed, for `regions.csv` in any local directory: three writes to
   * `regions/regions.csv`, one existence check, sleeps of 1 and 2, True, and
   * the local file removed.
   */
  lemma FailTwiceThenSucceed(dir: string, env: Env)
    requires env.fileExists && env.removeSucceeds
    requires env.attempts == [WriteApiError, WriteApiError, Written(Present)]
    ensures var t := Upload(dir + "/regions.csv", "staging", "regions", 3, true, env);
      && t.result == Returned(true)
      && |t.writes| == 3
      && (forall j :: 0 <= j < 3 ==> t.writes[j] == BlobRef("staging", "regions/regions.csv"))
      && |t.verifies| == 1
      && t.sleeps == [1, 2]
      && t.removed
  {
    RegionsCsvKey(dir);
    var blob := BlobRef("staging", "regions/regions.csv");
    assert Upload(dir + "/regions.csv", "staging", "regions", 3, true, env)
           == UploadTrace(Returned(true), [blob, blob, blob], [blob], [1, 2], true) by {
      UploadOfExistingFile(dir + "/regions.csv", "staging", "regions", 3, true, env);
      assert NumAttempts(3) == 3;
      FailTwiceRun(blob, env);
    }
  }

  // ---------------------------------------------------------------------------
  // download_from_gcs
  // ---------------------------------------------------------------------------

  /** What `blob.download_to_filename` does: finish, raise `GoogleAPIError`, or raise something else. */
  datatype FetchOutcome = Fetched | FetchApiError | FetchFatal

  /** What a download did: the one object it asked for, where it wrote it, and how the call ended. */
  datatype DownloadTrace = DownloadTrace(source: BlobRef, destination: string, result: CallResult)

  /** `download_from_gcs`: one fetch of `prefix/sourceBlobName`, with no retry. */
  function DownloadFromGcs(bucketName: string, bucketPrefix: string, sourceBlobName: string,
                           destinationFileName: string, outcome: FetchOutcome): (d: DownloadTrace)
    ensures d.source == BlobRef(bucketName, BlobKey(bucketPrefix, sourceBlobName))
    ensures d.destination == destinationFileName
    ensures d.result == Returned(true) <==> outcome == Fetched
    ensures d.result == Returned(false) <==> outcome == FetchApiError
    ensures d.result == Raised <==> outcome == FetchFatal
  {
    var source := BlobRef(bucketName, BlobKey(bucketPrefix, sourceBlobName));
    match outcome
    case Fetched => DownloadTrace(source, destinationFileName, Returned(true))
    case FetchApiError => DownloadTrace(source, destinationFileName, Returned(false))
    case FetchFatal => DownloadTrace(source, destinationFileName, Raised)
  }

  /**
   * Upload and download share the key rule: a file uploaded under a prefix is
   * found by downloading its base name under the same prefix, whatever
   * trailing slashes either side writes.
   */
  lemma DownloadFindsUpload(bucketName: string, prefix: string, slashes: string, filePath: string,
                            destination: string, outcome: FetchOutcome)
    requires AllSlashes(slashes)
    ensures DownloadFromGcs(bucketName, prefix + slashes, Basename(filePath), destination, outcome).source
            == BlobRef(bucketName, UploadKey(prefix, filePath))
  {
    BlobKeyIgnoresTrailingSlashes(prefix, slashes, Basename(filePath));
  }

}
