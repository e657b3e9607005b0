/**
 * The realtime JSON downloader (src/apps/import/import_realtime_renfe.py):
 * minimal request headers, the timestamped file name, and the bounded retry
 * loop of `download_json`.
 *
 * The HTTP server is a function from the attempt number (0-based) to the
 * reply that attempt gets; the random User-Agent strings are a function of
 * the attempt number too; the clock reading used by the save is a parameter.
 * Saving appends one entry to the list of written files.
 */
module RealtimeRenfe {
  import opened Common
  import opened Clock
  import PosixPath

  type Headers = map<string, string>

  /** `build_headers`: the User-Agent header and nothing else. */
  function BuildHeaders(userAgent: string): (h: Headers)
    ensures h.Keys == {"User-Agent"}
    ensures h["User-Agent"] == userAgent
  {
    map["User-Agent" := userAgent]
  }

  /** The file name `save_json_to_file` writes: the UTC timestamp followed by `-renfe.json`. */
  function FileName(now: DateTime): (name: string)
    requires now.Valid()
    ensures |name| == 30
  {
    StampText(now) + "-renfe.json"
  }

  /** The regular expression `^\d{4}-\d{2}-\d{2}-\d{2}-\d{2}-\d{2}-renfe\.json$`. */
  predicate MatchesSavedName(name: string)
  {
    |name| == 30 && IsStampText(name[..19]) && name[19..] == "-renfe.json"
  }

  /** Reads the timestamp back out of a saved file name. */
  function StampOf(name: string): Option<DateTime>
  {
    if MatchesSavedName(name) then ParseStamp(name[..19]) else None
  }

  lemma FileNameShape(now: DateTime)
    requires now.Valid()
    ensures MatchesSavedName(FileName(now))
    ensures StampOf(FileName(now)) == Some(now)
  {
    var name := FileName(now);
    assert name[..19] == StampText(now);
    assert name[19..] == "-renfe.json";
    StampTextShape(now);
    StampRoundTrip(now);
  }

  /** One written file: its path and the JSON document stored in it. */
  datatype SavedFile = SavedFile(path: string, data: string)

  /**
   * What one attempt gets back: a response with a status code and the body
   * decoded as JSON (`None` when `resp.json()` raises ValueError), or a
   * RequestException raised by `requests.get`.
   */
  datatype Reply = Response(status: int, json: Option<string>) | RequestFailed

  /** A 200 response whose body parses: the success path. */
  predicate Accepted(r: Reply) { r.Response? && r.status == 200 && r.json.Some? }

  /** A 401 or 403 response: the abort path. */
  predicate Denied(r: Reply) { r.Response? && (r.status == 401 || r.status == 403) }

  /** Everything else costs one attempt and the loop goes on. */
  predicate Retryable(r: Reply) { !Accepted(r) && !Denied(r) }

  /** The observable result of `download_json`: its return value, the number of requests made, the files written. */
  datatype Download = Download(ok: bool, calls: nat, saved: seq<SavedFile>)

  /** The loop of `download_json`, from attempt number `attempt` on. */
  function Run(server: nat -> Reply, maxAttempts: int, dir: string, now: DateTime, attempt: nat): Download
    requires now.Valid()
    decreases maxAttempts - attempt
  {
    if attempt >= maxAttempts then Download(false, attempt, [])
    else
      var r := server(attempt);
      if Accepted(r) then Download(true, attempt + 1, [SavedFile(PosixPath.Join(dir, FileName(now)), r.json.value)])
      else if Denied(r) then Download(false, attempt + 1, [])
      else Run(server, maxAttempts, dir, now, attempt + 1)
  }

  /** `download_json(url, save_dir, logger, max_attempts)`. */
  method DownloadJson(server: nat -> Reply, userAgents: nat -> string, saveDir: string, maxAttempts: int, now: DateTime)
    returns (ok: bool, calls: nat, saved: seq<SavedFile>, sent: seq<Headers>)
    requires now.Valid()
    ensures Download(ok, calls, saved) == Run(server, maxAttempts, saveDir, now, 0)
    ensures |sent| == calls && forall i :: 0 <= i < calls ==> sent[i] == BuildHeaders(userAgents(i))
  {
    var attempt: nat := 0;
    sent := [];
    while attempt < maxAttempts
      invariant |sent| == attempt && forall i :: 0 <= i < attempt ==> sent[i] == BuildHeaders(userAgents(i))
      invariant Run(server, maxAttempts, saveDir, now, 0) == Run(server, maxAttempts, saveDir, now, attempt)
      decreases maxAttempts - attempt
    {
      attempt := attempt + 1;
      var headers := BuildHeaders(userAgents(attempt - 1));
      sent := sent + [headers];
      var resp := server(attempt - 1);
      if resp.Response? {
        if resp.status == 200 {
          if resp.json.Some? {
            var path := PosixPath.Join(saveDir, FileName(now));
            return true, attempt, [SavedFile(path, resp.json.value)], sent;
          }
          // resp.json() raised ValueError: caught, the loop goes on
        } else if resp.status == 401 || resp.status == 403 {
          return false, attempt, [], sent;
        }
      }
    }
    return false, attempt, [], sent;
  }

  // ---------------------------------------------------------------------
  // Properties of the retry loop
  // ---------------------------------------------------------------------

  /** The number of requests never exceeds `max_attempts` (nor is it below the starting attempt). */
  lemma {:induction false} CallsBounded(server: nat -> Reply, maxAttempts: int, dir: string, now: DateTime, attempt: nat)
    requires now.Valid()
    ensures var d := Run(server, maxAttempts, dir, now, attempt);
      && (attempt < maxAttempts ==> attempt < d.calls <= maxAttempts)
      && (attempt >= maxAttempts ==> d.calls == attempt)
    decreases maxAttempts - attempt
  {
    if attempt < maxAttempts && Retryable(server(attempt)) {
      CallsBounded(server, maxAttempts, dir, now, attempt + 1);
    }
  }

  /** A file is written exactly on the success path: false means nothing was written, true means one file. */
  lemma {:induction false} WritesOnlyOnSuccess(server: nat -> Reply, maxAttempts: int, dir: string, now: DateTime, attempt: nat)
    requires now.Valid()
    ensures var d := Run(server, maxAttempts, dir, now, attempt);
      && (!d.ok <==> d.saved == [])
      && (d.ok ==> d.calls >= 1 && Accepted(server(d.calls - 1))
                   && d.saved == [SavedFile(PosixPath.Join(dir, FileName(now)), server(d.calls - 1).json.value)])
    decreases maxAttempts - attempt
  {
    if attempt < maxAttempts && Retryable(server(attempt)) {
      WritesOnlyOnSuccess(server, maxAttempts, dir, now, attempt + 1);
    }
  }

  /** Every reply before the last request was retryable: the loop stops at the first decisive reply. */
  lemma {:induction false} StopsAtFirstDecisive(server: nat -> Reply, maxAttempts: int, dir: string, now: DateTime, attempt: nat)
    requires now.Valid()
    ensures var d := Run(server, maxAttempts, dir, now, attempt);
      && (forall i :: attempt <= i < d.calls - 1 ==> Retryable(server(i)))
      && (d.calls > attempt && !Retryable(server(d.calls - 1)) ==> d.ok == Accepted(server(d.calls - 1)))
      && (d.calls > attempt && Retryable(server(d.calls - 1)) ==> !d.ok && d.calls == maxAttempts)
    decreases maxAttempts - attempt
  {
    if attempt < maxAttempts && Retryable(server(attempt)) {
      StopsAtFirstDecisive(server, maxAttempts, dir, now, attempt + 1);
      CallsBounded(server, maxAttempts, dir, now, attempt + 1);
    }
  }

  /** k retryable failures followed by an accepted reply: true after exactly k+1 requests, one file with that body. */
  lemma {:induction false} RetriesThenSuccess(server: nat -> Reply, maxAttempts: int, dir: string, now: DateTime, attempt: nat, k: nat)
    requires now.Valid()
    requires attempt <= k < maxAttempts
    requires forall i :: attempt <= i < k ==> Retryable(server(i))
    requires Accepted(server(k))
    ensures Run(server, maxAttempts, dir, now, attempt)
         == Download(true, k + 1, [SavedFile(PosixPath.Join(dir, FileName(now)), server(k).json.value)])
    decreases k - attempt
  {
    if attempt < k {
      RetriesThenSuccess(server, maxAttempts, dir, now, attempt + 1, k);
    }
  }

  /** k retryable failures followed by 401 or 403: false after exactly k+1 requests, nothing written. */
  lemma {:induction false} RetriesThenDenied(server: nat -> Reply, maxAttempts: int, dir: string, now: DateTime, attempt: nat, k: nat)
    requires now.Valid()
    requires attempt <= k < maxAttempts
    requires forall i :: attempt <= i < k ==> Retryable(server(i))
    requires Denied(server(k))
    ensures Run(server, maxAttempts, dir, now, attempt) == Download(false, k + 1, [])
    decreases k - attempt
  {
    if attempt < k {
      RetriesThenDenied(server, maxAttempts, dir, now, attempt + 1, k);
    }
  }

  /** When every attempt is retryable, exactly `max_attempts` requests are made and false is returned. */
  lemma {:induction false} AllAttemptsFail(server: nat -> Reply, maxAttempts: int, dir: string, now: DateTime, attempt: nat)
    requires now.Valid()
    requires attempt <= maxAttempts
    requires forall i :: attempt <= i < maxAttempts ==> Retryable(server(i))
    ensures Run(server, maxAttempts, dir, now, attempt) == Download(false, maxAttempts, [])
    decreases maxAttempts - attempt
  {
    if attempt < maxAttempts {
      AllAttemptsFail(server, maxAttempts, dir, now, attempt + 1);
    }
  }

  /** A 200 with a parseable body on the first request: one request, one file, true. */
  lemma FirstReplyAccepted(server: nat -> Reply, maxAttempts: int, dir: string, now: DateTime)
    requires now.Valid() && maxAttempts >= 1 && Accepted(server(0))
    ensures Run(server, maxAttempts, dir, now, 0)
         == Download(true, 1, [SavedFile(PosixPath.Join(dir, FileName(now)), server(0).json.value)])
  {
    RetriesThenSuccess(server, maxAttempts, dir, now, 0, 0);
  }

  /** A 401 or 403 on the first request: one request, nothing written, false, whatever `max_attempts` is. */
  lemma FirstReplyDenied(server: nat -> Reply, maxAttempts: int, dir: string, now: DateTime)
    requires now.Valid() && maxAttempts >= 1 && Denied(server(0))
    ensures Run(server, maxAttempts, dir, now, 0) == Download(false, 1, [])
  {
    RetriesThenDenied(server, maxAttempts, dir, now, 0, 0);
  }

  /** A non-positive `max_attempts` makes no request at all. */
  lemma NoAttempts(server: nat -> Reply, maxAttempts: int, dir: string, now: DateTime)
    requires now.Valid() && maxAttempts <= 0
    ensures Run(server, maxAttempts, dir, now, 0) == Download(false, 0, [])
  {
  }
}
