/**
 * The large GTFS downloader (src/apps/imports/import_gtfs_renfe.py): the
 * dated output paths, the resume bookkeeping of `stream_download` (Range
 * header, accepted statuses, append or write mode, byte counter, bounded
 * attempts), the choice of the newest dated file in a directory, and the
 * missing-file branch of the day-to-day checksum comparison.
 *
 * The filesystem is a map from path to file contents; the server is a
 * function from (attempt number, Range offset requested, 0 for none) to the
 * reply; directory listings and SHA-256 digests are functions given as
 * parameters.
 */
module GtfsRenfe {
  import opened Common
  import opened Clock
  import opened PosixPath
  import RealtimeRenfe

  newtype byte = x: int | 0 <= x < 256

  type Bytes = seq<byte>

  type Headers = map<string, string>

  type Disk = map<string, Bytes>

  // ---------------------------------------------------------------------
  // Output paths
  // ---------------------------------------------------------------------

  /** `<dirname(out)>/<YYYY-MM-DD>`. */
  function DatedDir(out: string, today: DateTime): string
    requires today.Valid()
  {
    Join(Dirname(out), DateText(today))
  }

  /** `<dirname(out)>/<YYYY-MM-DD>/<YYYY-MM-DD>_<basename(out)>`. */
  function FinalPath(out: string, today: DateTime): string
    requires today.Valid()
  {
    Join(DatedDir(out, today), DateText(today) + "_" + Basename(out))
  }

  /** The final path with `.partial` appended. */
  function PartialPath(out: string, today: DateTime): (p: string)
    requires today.Valid()
    ensures p != FinalPath(out, today) && p == FinalPath(out, today) + ".partial"
  {
    FinalPath(out, today) + ".partial"
  }

  /**
   * The layout the docstring promises, read back with `dirname` and
   * `basename`: the final file sits in a directory named after the date,
   * which sits in `dirname(out)`, and is named `<date>_<basename(out)>`.
   */
  lemma FinalPathLayout(out: string, today: DateTime)
    requires today.Valid()
    ensures Dirname(DatedDir(out, today)) == Dirname(out)
    ensures Basename(DatedDir(out, today)) == DateText(today)
    ensures Dirname(FinalPath(out, today)) == DatedDir(out, today)
    ensures Basename(FinalPath(out, today)) == DateText(today) + "_" + Basename(out)
    ensures Dirname(Dirname(FinalPath(out, today))) == Dirname(out)
  {
    var d := DateText(today);
    DateTextShape(today);
    assert NoSlash(d);
    DirnameShaped(out);
    JoinSplits(Dirname(out), d);
    JoinKeepsLast(Dirname(out), d);
    var name := d + "_" + Basename(out);
    NoSlashConcat(d, Basename(out));
    JoinSplits(DatedDir(out, today), name);
  }

  lemma NoSlashConcat(a: string, b: string)
    requires NoSlash(a) && NoSlash(b)
    ensures NoSlash(a + "_" + b)
  {
    var n := a + "_" + b;
    forall k | 0 <= k < |n| ensures n[k] != '/' {
      if k < |a| { assert n[k] == a[k]; }
      else if k > |a| { assert n[k] == b[k - |a| - 1]; }
    }
  }

  /** Joining a directory with a non-empty name that does not end in a slash gives a path of the same kind. */
  lemma JoinKeepsLast(dir: string, name: string)
    requires name != [] && name[|name| - 1] != '/' && name[0] != '/'
    ensures DirShaped(Join(dir, name))
  {
    var j := Join(dir, name);
    assert !StartsWith(name, "/");
    assert j[|j| - 1] == name[|name| - 1];
  }

  // ---------------------------------------------------------------------
  // One request: headers, accepted statuses, open mode
  // ---------------------------------------------------------------------

  /** The header value `bytes=<resume_from>-`. */
  function RangeValue(resumeFrom: nat): string
  {
    "bytes=" + IntToStr(resumeFrom) + "-"
  }

  /** Reads the offset back out of a `bytes=<n>-` value. */
  function RangeOffset(v: string): Option<nat>
  {
    if |v| >= 8 && v[..6] == "bytes=" && v[|v| - 1] == '-' then
      match ParseInt(v[6..|v| - 1])
      case Some(n) => if n >= 0 then Some(n) else None
      case None => None
    else None
  }

  lemma RangeRoundTrip(resumeFrom: nat)
    ensures RangeOffset(RangeValue(resumeFrom)) == Some(resumeFrom)
  {
    var d := IntToStr(resumeFrom);
    ParseIntRoundTrip(resumeFrom);
    RangeOffsetOf(d);
  }

  lemma RangeOffsetOf(d: string)
    requires |d| >= 1
    ensures RangeOffset("bytes=" + d + "-")
         == match ParseInt(d) case Some(n) => (if n >= 0 then Some(n) else None) case None => None
  {
    var v := "bytes=" + d + "-";
    assert v[..6] == "bytes=" && v[6..|v| - 1] == d && v[|v| - 1] == '-';
  }

  /** The headers of one attempt: a copy of the base headers, plus Range when resuming. */
  function RequestHeaders(base: Headers, resumeFrom: int): (h: Headers)
    ensures h.Keys <= base.Keys + {"Range"}
    ensures forall k :: k in base && (k != "Range" || resumeFrom <= 0) ==> k in h && h[k] == base[k]
    ensures resumeFrom > 0 ==> "Range" in h && h["Range"] == RangeValue(resumeFrom)
    ensures resumeFrom <= 0 ==> h == base
  {
    if resumeFrom > 0 then base["Range" := RangeValue(resumeFrom)] else base
  }

  /** With the User-Agent-only base headers, a Range header is sent if and only if `resume_from > 0`, and it names that offset. */
  lemma RangeIffResuming(userAgent: string, resumeFrom: nat)
    ensures var h := RequestHeaders(RealtimeRenfe.BuildHeaders(userAgent), resumeFrom);
      && ("Range" in h <==> resumeFrom > 0)
      && (resumeFrom > 0 ==> RangeOffset(h["Range"]) == Some(resumeFrom))
      && h["User-Agent"] == userAgent
  {
    RangeRoundTrip(resumeFrom);
  }

  /** A response is streamed only if its status is 200, or 206 when resuming. */
  predicate AcceptStatus(status: int, resumeFrom: int)
  {
    status == 200 || (status == 206 && resumeFrom > 0)
  }

  datatype Mode = Append | Write

  /** `"ab" if resume_from > 0 else "wb"`. */
  function OpenMode(resumeFrom: int): (m: Mode)
    ensures m == Append <==> resumeFrom > 0
  {
    if resumeFrom > 0 then Append else Write
  }

  /** The contents of the partial file right after `open(partial_path, mode)`. */
  function Opened(existing: Option<Bytes>, mode: Mode): Bytes
  {
    match mode
    case Write => []
    case Append => if existing.Some? then existing.value else []
  }

  // ---------------------------------------------------------------------
  // The chunk loop
  // ---------------------------------------------------------------------

  /** All chunks, one after the other. */
  function Concat(chunks: seq<Bytes>): (b: Bytes)
  {
    if chunks == [] then [] else Concat(chunks[..|chunks| - 1]) + chunks[|chunks| - 1]
  }

  /** The chunks `if not chunk: continue` lets through, in order. */
  function NonEmpty(chunks: seq<Bytes>): (r: seq<Bytes>)
    ensures |r| <= |chunks|
    ensures forall i :: 0 <= i < |r| ==> r[i] != []
  {
    if chunks == [] then []
    else if chunks[|chunks| - 1] == [] then NonEmpty(chunks[..|chunks| - 1])
    else NonEmpty(chunks[..|chunks| - 1]) + [chunks[|chunks| - 1]]
  }

  /** Skipping empty chunks loses no byte. */
  lemma {:induction false} ConcatNonEmpty(chunks: seq<Bytes>)
    ensures Concat(NonEmpty(chunks)) == Concat(chunks)
  {
    if chunks != [] {
      var init := chunks[..|chunks| - 1];
      ConcatNonEmpty(init);
      if chunks[|chunks| - 1] != [] {
        var r := NonEmpty(init) + [chunks[|chunks| - 1]];
        assert r[..|r| - 1] == NonEmpty(init);
      }
    }
  }

  /**
   * The `for chunk in resp.iter_content(...)` loop: writes every non-empty
   * chunk after what the file held when opened, and counts
   * `downloaded = resume_from + len(chunk)` over them.
   */
  method WriteChunks(start: Bytes, resumeFrom: int, chunks: seq<Bytes>)
    returns (file: Bytes, downloaded: int, writes: seq<Bytes>)
    ensures writes == NonEmpty(chunks)
    ensures file == start + Concat(chunks)
    ensures downloaded == resumeFrom + |Concat(chunks)|
  {
    file, downloaded, writes := start, resumeFrom, [];
    for i := 0 to |chunks|
      invariant writes == NonEmpty(chunks[..i])
      invariant file == start + Concat(chunks[..i])
      invariant downloaded == resumeFrom + |Concat(chunks[..i])|
    {
      assert chunks[..i + 1][..i] == chunks[..i];
      var chunk := chunks[i];
      if chunk == [] {
        continue;
      }
      file := file + chunk;
      downloaded := downloaded + |chunk|;
      writes := writes + [chunk];
    }
    assert chunks[..|chunks|] == chunks;
  }

  // ---------------------------------------------------------------------
  // The attempt loop
  // ---------------------------------------------------------------------

  /**
   * What one attempt gets: a response whose chunks all arrive and whose
   * stream then either completes or raises (RequestException or OSError while
   * iterating), or a RequestException raised by `requests.get` itself.
   */
  datatype Reply = Response(status: int, chunks: seq<Bytes>, completes: bool) | RequestFailed

  /** `resume_from`: the size of the partial file if it exists, else 0. */
  function ResumeFrom(disk: Disk, partial: string): nat
  {
    if partial in disk then |disk[partial]| else 0
  }

  /** The observable result: return value, attempts made, and the filesystem afterwards. */
  datatype Outcome = Outcome(ok: bool, attempts: nat, disk: Disk)

  /** The attempt loop of `stream_download` from attempt number `attempt` on; `resumeFrom` is fixed for the whole loop. */
  function Run(server: (nat, nat) -> Reply, maxAttempts: int, resumeFrom: nat,
               partial: string, final: string, attempt: nat, disk: Disk): Outcome
    decreases maxAttempts - attempt
  {
    if attempt >= maxAttempts then Outcome(false, attempt, disk)
    else
      match server(attempt, resumeFrom)
      case RequestFailed => Run(server, maxAttempts, resumeFrom, partial, final, attempt + 1, disk)
      case Response(status, chunks, completes) =>
        if !AcceptStatus(status, resumeFrom) then
          Run(server, maxAttempts, resumeFrom, partial, final, attempt + 1, disk)
        else
          var existing := if partial in disk then Some(disk[partial]) else None;
          var content := Opened(existing, OpenMode(resumeFrom)) + Concat(chunks);
          if completes then Outcome(true, attempt + 1, (disk - {partial})[final := content])
          else Run(server, maxAttempts, resumeFrom, partial, final, attempt + 1, disk[partial := content])
  }

  /** `stream_download(url, out_path, chunk_size, max_attempts, logger)`. */
  method StreamDownload(out: string, today: DateTime, userAgent: string, server: (nat, nat) -> Reply,
                        maxAttempts: int, disk0: Disk)
    returns (ok: bool, attempts: nat, disk: Disk, sent: seq<Headers>)
    requires today.Valid()
    ensures var resumeFrom := ResumeFrom(disk0, PartialPath(out, today));
      && Outcome(ok, attempts, disk) == Run(server, maxAttempts, resumeFrom, PartialPath(out, today), FinalPath(out, today), 0, disk0)
      && |sent| == attempts
      && forall i :: 0 <= i < attempts ==> sent[i] == RequestHeaders(RealtimeRenfe.BuildHeaders(userAgent), resumeFrom)
  {
    var finalPath := FinalPath(out, today);
    var partialPath := PartialPath(out, today);
    // this file's build_headers returns the same User-Agent-only dict as the realtime downloader's
    var headers := RealtimeRenfe.BuildHeaders(userAgent);
    var resumeFrom: nat := 0;
    if partialPath in disk0 {
      resumeFrom := |disk0[partialPath]|;
    }
    ghost var spec := Run(server, maxAttempts, resumeFrom, partialPath, finalPath, 0, disk0);
    ghost var expected := RequestHeaders(headers, resumeFrom);
    disk := disk0;
    sent := [];
    var attempt: nat := 0;
    while attempt < maxAttempts
      invariant |sent| == attempt
      invariant forall i :: 0 <= i < attempt ==> sent[i] == expected
      invariant spec == Run(server, maxAttempts, resumeFrom, partialPath, finalPath, attempt, disk)
      decreases maxAttempts - attempt
    {
      attempt := attempt + 1;
      var reqHeaders := RequestHeaders(headers, resumeFrom);
      sent := sent + [reqHeaders];
      // the offset the Range header names, 0 when there is none (RangeIffResuming)
      var reply := server(attempt - 1, resumeFrom);
      if reply.RequestFailed? {
        continue;
      }
      if !(reply.status == 200 || (reply.status == 206 && resumeFrom > 0)) {
        continue;
      }
      var mode := if resumeFrom > 0 then Append else Write;
      var existing := if partialPath in disk then Some(disk[partialPath]) else None;
      var file, downloaded, writes := WriteChunks(Opened(existing, mode), resumeFrom, reply.chunks);
      if reply.completes {
        // os.replace(partial_path, final_out_path)
        disk := (disk - {partialPath})[finalPath := file];
        return true, attempt, disk, sent;
      }
      disk := disk[partialPath := file];
    }
    return false, attempt, disk, sent;
  }

  // ---------------------------------------------------------------------
  // Properties of the attempt loop
  // ---------------------------------------------------------------------

  /**
   * The loop makes at most `max_attempts` attempts; it returns true only
   * after a completed stream of an accepted response, and false only when
   * every attempt has been used.
   */
  lemma {:induction false} RunBounded(server: (nat, nat) -> Reply, maxAttempts: int, resumeFrom: nat,
                                      partial: string, final: string, attempt: nat, disk: Disk)
    ensures var o := Run(server, maxAttempts, resumeFrom, partial, final, attempt, disk);
      && (attempt < maxAttempts ==> attempt < o.attempts <= maxAttempts)
      && (attempt >= maxAttempts ==> o.attempts == attempt)
      && (!o.ok ==> o.attempts == (if attempt < maxAttempts then maxAttempts else attempt))
      && (o.ok ==> var r := server(o.attempts - 1, resumeFrom);
                   r.Response? && AcceptStatus(r.status, resumeFrom) && r.completes)
    decreases maxAttempts - attempt
  {
    if attempt < maxAttempts {
      var r := server(attempt, resumeFrom);
      var o := Run(server, maxAttempts, resumeFrom, partial, final, attempt, disk);
      if r.RequestFailed? || !AcceptStatus(r.status, resumeFrom) {
        assert o == Run(server, maxAttempts, resumeFrom, partial, final, attempt + 1, disk);
        RunBounded(server, maxAttempts, resumeFrom, partial, final, attempt + 1, disk);
      } else if !r.completes {
        var existing := if partial in disk then Some(disk[partial]) else None;
        var next := disk[partial := Opened(existing, OpenMode(resumeFrom)) + Concat(r.chunks)];
        assert o == Run(server, maxAttempts, resumeFrom, partial, final, attempt + 1, next);
        RunBounded(server, maxAttempts, resumeFrom, partial, final, attempt + 1, next);
      } else {
        assert o.ok && o.attempts == attempt + 1;
      }
    }
  }

  /**
   * Only the partial and the final file change. The final file is written
   * only by a successful run, which also removes the partial file.
   */
  lemma {:induction false} RunFrame(server: (nat, nat) -> Reply, maxAttempts: int, resumeFrom: nat,
                                    partial: string, final: string, attempt: nat, disk: Disk)
    requires partial != final
    ensures var o := Run(server, maxAttempts, resumeFrom, partial, final, attempt, disk);
      && (forall p :: p != partial && p != final ==> (p in o.disk <==> p in disk))
      && (forall p :: p != partial && p != final && p in disk ==> o.disk[p] == disk[p])
      && (o.ok ==> partial !in o.disk && final in o.disk)
      && (!o.ok ==> (final in o.disk <==> final in disk) && (final in disk ==> o.disk[final] == disk[final]))
    decreases maxAttempts - attempt
  {
    if attempt < maxAttempts {
      var r := server(attempt, resumeFrom);
      if r.RequestFailed? || !AcceptStatus(r.status, resumeFrom) {
        RunFrame(server, maxAttempts, resumeFrom, partial, final, attempt + 1, disk);
      } else if !r.completes {
        var existing := if partial in disk then Some(disk[partial]) else None;
        var content := Opened(existing, OpenMode(resumeFrom)) + Concat(r.chunks);
        RunFrame(server, maxAttempts, resumeFrom, partial, final, attempt + 1, disk[partial := content]);
      }
    }
  }

  /**
   * A fresh download (no partial file, so write mode and no Range header):
   * failed or rejected attempts followed by an accepted, complete response
   * leave exactly that response's bytes in the final file.
   */
  lemma {:induction false} FreshDownloadSavesBody(server: (nat, nat) -> Reply, maxAttempts: int,
                                                  partial: string, final: string, attempt: nat, disk: Disk, k: nat)
    requires partial != final
    requires attempt <= k < maxAttempts
    requires forall i :: attempt <= i < k ==> server(i, 0).RequestFailed? || !AcceptStatus(server(i, 0).status, 0)
    requires server(k, 0).Response? && server(k, 0).status == 200 && server(k, 0).completes
    ensures var o := Run(server, maxAttempts, 0, partial, final, attempt, disk);
      o.ok && o.attempts == k + 1 && final in o.disk && o.disk[final] == Concat(server(k, 0).chunks)
    decreases k - attempt
  {
    if attempt < k {
      FreshDownloadSavesBody(server, maxAttempts, partial, final, attempt + 1, disk, k);
    }
  }

  /**
   * Replies the status rule refuses (any status but 200, and 206 on a fresh
   * download) and failed requests change nothing: when every remaining
   * attempt gets one, the loop uses all attempts, returns false and leaves
   * the filesystem as it was.
   */
  lemma {:induction false} RejectedAttemptsChangeNothing(server: (nat, nat) -> Reply, maxAttempts: int, resumeFrom: nat,
                                                         partial: string, final: string, attempt: nat, disk: Disk)
    requires forall i :: attempt <= i < maxAttempts ==>
      server(i, resumeFrom).RequestFailed? || !AcceptStatus(server(i, resumeFrom).status, resumeFrom)
    ensures var o := Run(server, maxAttempts, resumeFrom, partial, final, attempt, disk);
      !o.ok && o.disk == disk && o.attempts == (if attempt < maxAttempts then maxAttempts else attempt)
    decreases maxAttempts - attempt
  {
    if attempt < maxAttempts {
      RejectedAttemptsChangeNothing(server, maxAttempts, resumeFrom, partial, final, attempt + 1, disk);
    }
  }

  /**
   * A resumed download (a non-empty partial file, so a Range header and
   * append mode): failed or rejected attempts followed by a complete 206
   * response leave the partial file's bytes followed by that response's
   * bytes in the final file, and remove the partial file.
   */
  lemma {:induction false} ResumedDownloadAppends(server: (nat, nat) -> Reply, maxAttempts: int,
                                                  partial: string, final: string, attempt: nat, disk: Disk, k: nat)
    requires partial != final
    requires partial in disk && |disk[partial]| > 0
    requires attempt <= k < maxAttempts
    requires forall i :: attempt <= i < k ==>
      server(i, |disk[partial]|).RequestFailed? || !AcceptStatus(server(i, |disk[partial]|).status, |disk[partial]|)
    requires server(k, |disk[partial]|).Response? && server(k, |disk[partial]|).status == 206
             && server(k, |disk[partial]|).completes
    ensures var o := Run(server, maxAttempts, ResumeFrom(disk, partial), partial, final, attempt, disk);
      && o.ok && o.attempts == k + 1 && partial !in o.disk && final in o.disk
      && o.disk[final] == disk[partial] + Concat(server(k, |disk[partial]|).chunks)
    decreases k - attempt
  {
    if attempt < k {
      ResumedDownloadAppends(server, maxAttempts, partial, final, attempt + 1, disk, k);
    }
  }

  /**
   * On the first accepted attempt of a resumed download the partial file
   * still has `resume_from` bytes, so the byte counter equals the size of
   * the file the loop has written.
   */
  lemma CounterMatchesFileOnFirstAcceptedAttempt(disk: Disk, partial: string, chunks: seq<Bytes>)
    ensures var resumeFrom := ResumeFrom(disk, partial);
      var existing := if partial in disk then Some(disk[partial]) else None;
      |Opened(existing, OpenMode(resumeFrom)) + Concat(chunks)| == resumeFrom + |Concat(chunks)|
  {
  }

  // ---------------------------------------------------------------------
  // find_latest_file_in_dir
  // ---------------------------------------------------------------------

  /** What `os.listdir` gives for a path: not a directory, an OSError, or the entry names. */
  datatype Listing = NotADirectory | Unreadable | Entries(names: seq<string>)

  /** Names `YYYY-MM-DD_<basename>`: ending in `_<basename>`, with 10 characters before the first `_`. */
  predicate IsCandidate(name: string, basename: string)
  {
    EndsWith(name, "_" + basename) && |BeforeFirst(name, '_')| == 10
  }

  /** The list comprehension: the candidate names, in listing order. */
  function Candidates(names: seq<string>, basename: string): (c: seq<string>)
    ensures forall x :: x in c <==> x in names && IsCandidate(x, basename)
  {
    if names == [] then []
    else
      var rest := Candidates(names[1..], basename);
      assert forall x :: x in names <==> x == names[0] || x in names[1..];
      if IsCandidate(names[0], basename) then [names[0]] + rest else rest
  }

  /** The largest name in Python's string order: what `sort()` puts last. */
  function Greatest(s: seq<string>): (m: string)
    requires |s| > 0
    ensures m in s
    ensures forall x :: x in s ==> LexLessEq(x, m)
  {
    if |s| == 1 then s[0]
    else
      var m := Greatest(s[1..]);
      assert forall x :: x in s ==> x == s[0] || x in s[1..];
      LexLessTotal(s[0], m);
      if LexLess(m, s[0]) then
        assert forall x :: x in s[1..] ==> LexLessEq(x, s[0]) by {
          forall x | x in s[1..] ensures LexLessEq(x, s[0]) {
            if x != m { LexLessTransitive(x, m, s[0]); }
          }
        }
        s[0]
      else m
  }

  /** A name that is in the list and not below any other is the one `Greatest` picks. */
  lemma GreatestUnique(s: seq<string>, m: string)
    requires m in s && forall x :: x in s ==> LexLessEq(x, m)
    ensures Greatest(s) == m
  {
    var g := Greatest(s);
    if g != m {
      assert LexLess(g, m) && LexLess(m, g);
      LexLessAsymmetric(g, m);
    }
  }

  /**
   * `find_latest_file_in_dir(dir_path, basename)`, up to the symbolic-link
   * resolution: the path of the greatest candidate, or None.
   */
  function FindLatest(dir: string, listing: Listing, basename: string): (r: Option<string>)
    ensures r.Some? <==> listing.Entries? && exists x :: x in listing.names && IsCandidate(x, basename)
    ensures r.Some? ==> exists n :: n in listing.names && IsCandidate(n, basename) && r.value == Join(dir, n)
                          && forall x :: x in listing.names && IsCandidate(x, basename) ==> LexLessEq(x, n)
  {
    match listing
    case NotADirectory => None
    case Unreadable => None
    case Entries(names) =>
      var c := Candidates(names, basename);
      if c == [] then None else Some(Join(dir, Greatest(c)))
  }

  /** The file `stream_download` saves is a candidate for its base name. */
  lemma SavedNameIsCandidate(out: string, today: DateTime)
    requires today.Valid()
    ensures IsCandidate(Basename(FinalPath(out, today)), Basename(out))
  {
    FinalPathLayout(out, today);
    DateTextShape(today);
    CandidateName(DateText(today), Basename(out));
  }

  lemma CandidateName(d: string, base: string)
    requires |d| == 10 && '_' !in d
    ensures IsCandidate(d + "_" + base, base)
  {
    var name := d + "_" + base;
    assert name == d + ("_" + base);
    assert name[|name| - |"_" + base|..] == "_" + base;
    BeforeFirstPrefix(d, '_', base);
  }

  lemma {:induction false} BeforeFirstPrefix(a: string, c: char, b: string)
    requires c !in a
    ensures BeforeFirst(a + [c] + b, c) == a
  {
    if a != [] {
      assert (a + [c] + b)[1..] == a[1..] + [c] + b;
      BeforeFirstPrefix(a[1..], c, b);
      assert a == [a[0]] + a[1..];
    }
  }

  /** Once the dated directory lists the saved file, `find_latest_file_in_dir` finds a name no smaller than its name in Python's string order. */
  lemma SavedFileIsFound(out: string, today: DateTime, names: seq<string>)
    requires today.Valid()
    requires Basename(FinalPath(out, today)) in names
    ensures var r := FindLatest(DatedDir(out, today), Entries(names), Basename(out));
      r.Some? && r.value != ""
      && exists n :: r.value == Join(DatedDir(out, today), n) && IsCandidate(n, Basename(out))
                     && LexLessEq(Basename(FinalPath(out, today)), n)
  {
    SavedNameIsCandidate(out, today);
    LatestNotBelow(DatedDir(out, today), names, Basename(out), Basename(FinalPath(out, today)));
  }

  /** A listed candidate `m` makes the search succeed, with a non-empty path to a candidate no smaller than `m`. */
  lemma LatestNotBelow(dir: string, names: seq<string>, basename: string, m: string)
    requires m in names && IsCandidate(m, basename)
    ensures var r := FindLatest(dir, Entries(names), basename);
      r.Some? && r.value != ""
      && exists n :: r.value == Join(dir, n) && IsCandidate(n, basename) && LexLessEq(m, n)
  {
    var c := Candidates(names, basename);
    assert m in c;
    var n := Greatest(c);
    assert FindLatest(dir, Entries(names), basename) == Some(Join(dir, n));
    assert IsCandidate(n, basename) && LexLessEq(m, n);
    assert |BeforeFirst(n, '_')| <= |n| && |Join(dir, n)| >= |n|;
  }

  /**
   * The sort of `find_latest_file_in_dir` relies on the date prefix: among
   * names `<YYYY-MM-DD>_<basename>` of valid days, string order is calendar
   * order, and equal names are the same day.
   */
  lemma DatedNameOrder(a: DateTime, b: DateTime, basename: string)
    requires a.Valid() && b.Valid()
    ensures LexLess(DateText(a) + "_" + basename, DateText(b) + "_" + basename) <==> DateBefore(a, b)
    ensures DateText(a) + "_" + basename == DateText(b) + "_" + basename
        <==> (a.year == b.year && a.month == b.month && a.day == b.day)
  {
    DateTextOrder(a, b);
    LexLessConcat(DateText(a), "_" + basename, DateText(b), "_" + basename);
    LexLessIrreflexive("_" + basename);
    assert DateText(a) + "_" + basename == DateText(a) + ("_" + basename);
    assert DateText(b) + "_" + basename == DateText(b) + ("_" + basename);
    if DateText(a) + "_" + basename == DateText(b) + "_" + basename {
      assert (DateText(a) + "_" + basename)[..10] == DateText(a);
      assert (DateText(b) + "_" + basename)[..10] == DateText(b);
    }
  }

  // ---------------------------------------------------------------------
  // compare_today_with_previous_day_checksum
  // ---------------------------------------------------------------------

  /** The calendar day before `d` (what subtracting `timedelta(days=1)` does to the date). */
  function PreviousDay(d: DateTime): (p: DateTime)
    requires d.Valid() && !(d.year == 1 && d.month == 1 && d.day == 1)
    ensures p.Valid() && DateBefore(p, d)
    ensures forall q: DateTime :: q.Valid() && DateBefore(q, d) ==> !DateBefore(p, q)
    ensures p.hour == d.hour && p.minute == d.minute && p.second == d.second
  {
    if d.day > 1 then d.(day := d.day - 1)
    else if d.month > 1 then d.(month := d.month - 1, day := DaysInMonth(d.year, d.month - 1))
    else d.(year := d.year - 1, month := 12, day := 31)
  }

  /** `not path`: None or the empty string. */
  predicate Missing(p: Option<string>) { p.None? || p.value == "" }

  datatype Comparison = Comparison(same: bool, todayFile: Option<string>, yesterdayFile: Option<string>)

  /** `os.path.dirname(out_base_path) or "."`. */
  function BaseDir(out: string): (d: string)
    ensures d != ""
  {
    if Dirname(out) == "" then "." else Dirname(out)
  }

  /**
   * `compare_today_with_previous_day_checksum(out_base_path)`: `listing`
   * gives what `os.listdir` sees, `digest` the SHA-256 of a file or None on
   * OSError. "Same" holds exactly when both files were found and both
   * digests were computed and are equal.
   */
  function Compare(out: string, today: DateTime, listing: string -> Listing, digest: string -> Option<string>): (c: Comparison)
    requires today.Valid() && !(today.year == 1 && today.month == 1 && today.day == 1)
    ensures c.same <==> !Missing(c.todayFile) && !Missing(c.yesterdayFile)
                        && digest(c.todayFile.value).Some? && digest(c.todayFile.value) == digest(c.yesterdayFile.value)
  {
    var todayDir := Join(BaseDir(out), DateText(today));
    var yesterdayDir := Join(BaseDir(out), DateText(PreviousDay(today)));
    var todayFile := FindLatest(todayDir, listing(todayDir), Basename(out));
    var yesterdayFile := FindLatest(yesterdayDir, listing(yesterdayDir), Basename(out));
    if Missing(todayFile) || Missing(yesterdayFile) then Comparison(false, todayFile, yesterdayFile)
    else
      match (digest(todayFile.value), digest(yesterdayFile.value))
      case (Some(a), Some(b)) => Comparison(a == b, todayFile, yesterdayFile)
      case _ => Comparison(false, todayFile, yesterdayFile)
  }

  /**
   * The files compared are the latest candidates of today's and yesterday's
   * dated directories: for an out path with a directory part, the very
   * directories `stream_download` saves into on those days.
   */
  lemma CompareLooksInDatedDirs(out: string, today: DateTime, listing: string -> Listing, digest: string -> Option<string>)
    requires today.Valid() && !(today.year == 1 && today.month == 1 && today.day == 1)
    ensures var c := Compare(out, today, listing, digest);
      var yesterday := PreviousDay(today);
      && c.todayFile == FindLatest(Join(BaseDir(out), DateText(today)), listing(Join(BaseDir(out), DateText(today))), Basename(out))
      && c.yesterdayFile == FindLatest(Join(BaseDir(out), DateText(yesterday)), listing(Join(BaseDir(out), DateText(yesterday))), Basename(out))
      && (Dirname(out) != "" ==>
            Join(BaseDir(out), DateText(today)) == DatedDir(out, today)
            && Join(BaseDir(out), DateText(yesterday)) == DatedDir(out, yesterday))
  {
  }

  /**
   * Once the directory the comparison looks in for today lists the file
   * saved today, the comparison has a today file. That directory is the
   * one `stream_download` saves into (`listing` sees the same entries under
   * both names): literally so when out has a directory part, and as `./D`
   * against `D` when it has none.
   */
  lemma CompareFindsSavedFile(out: string, today: DateTime, listing: string -> Listing, digest: string -> Option<string>)
    requires today.Valid() && !(today.year == 1 && today.month == 1 && today.day == 1)
    requires listing(Join(BaseDir(out), DateText(today))) == listing(DatedDir(out, today))
    requires listing(DatedDir(out, today)).Entries?
    requires Basename(FinalPath(out, today)) in listing(DatedDir(out, today)).names
    ensures var c := Compare(out, today, listing, digest);
      !Missing(c.todayFile) && exists n :: c.todayFile.value == Join(Join(BaseDir(out), DateText(today)), n)
                                           && IsCandidate(n, Basename(out))
                                           && LexLessEq(Basename(FinalPath(out, today)), n)
  {
    CompareLooksInDatedDirs(out, today, listing, digest);
    SavedNameIsCandidate(out, today);
    LatestNotBelow(Join(BaseDir(out), DateText(today)), listing(DatedDir(out, today)).names, Basename(out), Basename(FinalPath(out, today)));
  }
}
