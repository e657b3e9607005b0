/**
 * Resuming a download in `stream_download`
 * (src/apps/imports/import_gtfs_renfe.py), measured against a server that
 * serves one fixed resource correctly: a 200 reply carries the resource from
 * its first byte, a 206 reply carries it from the requested offset, and a
 * stream that breaks has delivered a prefix of what it would have carried.
 *
 * The loop as written keeps the offset it computed before the first attempt
 * and appends whenever that offset is positive, so two inputs give a final
 * file that is not the resource: a stream that breaks during a resumed
 * download (its bytes are requested and appended again), and a server that
 * ignores the Range header and answers 200 (the whole resource is appended
 * to the partial file). `RunResuming` is the loop with the offset read from
 * the partial file at every attempt and the file rewritten on a 200; it
 * always saves exactly the resource.
 */
module GtfsResume {
  import opened Common
  import opened GtfsRenfe

  /** `r`, if accepted for a request at `offset`, carries the bytes of `resource` a correct server sends. */
  predicate Serves(resource: Bytes, r: Reply, offset: nat)
  {
    r.Response? && AcceptStatus(r.status, offset) ==>
      var expected := if r.status == 206 then (if offset <= |resource| then resource[offset..] else []) else resource;
      if r.completes then Concat(r.chunks) == expected else Concat(r.chunks) <= expected
  }

  /** Every reply of the server, on every attempt and for every offset, is correct for `resource`. */
  ghost predicate Correct(server: (nat, nat) -> Reply, resource: Bytes)
  {
    forall attempt: nat, offset: nat :: Serves(resource, server(attempt, offset), offset)
  }

  /** The attempt loop with `resume_from` read from the partial file before each attempt, and write mode for a 200. */
  function RunResuming(server: (nat, nat) -> Reply, maxAttempts: int, partial: string, final: string,
                       attempt: nat, disk: Disk): Outcome
    decreases maxAttempts - attempt
  {
    if attempt >= maxAttempts then Outcome(false, attempt, disk)
    else
      var resumeFrom := ResumeFrom(disk, partial);
      match server(attempt, resumeFrom)
      case RequestFailed => RunResuming(server, maxAttempts, partial, final, attempt + 1, disk)
      case Response(status, chunks, completes) =>
        if !AcceptStatus(status, resumeFrom) then
          RunResuming(server, maxAttempts, partial, final, attempt + 1, disk)
        else
          var existing := if partial in disk then Some(disk[partial]) else None;
          var content := Opened(existing, if status == 206 then Append else Write) + Concat(chunks);
          if completes then Outcome(true, attempt + 1, (disk - {partial})[final := content])
          else RunResuming(server, maxAttempts, partial, final, attempt + 1, disk[partial := content])
  }

  lemma PrefixExtend(a: Bytes, b: Bytes, s: Bytes)
    requires a <= s && b <= s[|a|..]
    ensures a + b <= s
  {
    assert (a + b)[..|a|] == a;
    forall i | |a| <= i < |a| + |b| ensures (a + b)[i] == s[i] {
      assert (a + b)[i] == b[i - |a|] == s[|a|..][i - |a|];
    }
  }

  lemma PrefixComplete(a: Bytes, s: Bytes)
    requires a <= s
    ensures a + s[|a|..] == s
  {
  }

  /**
   * With a correct server and a partial file that holds a prefix of the
   * resource, a successful run of the resuming loop leaves exactly the
   * resource in the final file.
   */
  lemma {:induction false} ResumingSavesResource(server: (nat, nat) -> Reply, resource: Bytes, maxAttempts: int,
                                                 partial: string, final: string, attempt: nat, disk: Disk)
    requires Correct(server, resource)
    requires partial in disk ==> disk[partial] <= resource
    ensures var o := RunResuming(server, maxAttempts, partial, final, attempt, disk);
      o.ok ==> final in o.disk && o.disk[final] == resource
    decreases maxAttempts - attempt
  {
    if attempt < maxAttempts {
      var resumeFrom := ResumeFrom(disk, partial);
      var r := server(attempt, resumeFrom);
      if r.Response? && AcceptStatus(r.status, resumeFrom) {
        assert Serves(resource, r, resumeFrom);
        var existing := if partial in disk then Some(disk[partial]) else None;
        var start := Opened(existing, if r.status == 206 then Append else Write);
        var body := Concat(r.chunks);
        assert start <= resource && (r.status == 206 ==> resource[resumeFrom..] == resource[|start|..]);
        if r.completes {
          if r.status == 206 { PrefixComplete(start, resource); }
        } else {
          if r.status == 206 { PrefixExtend(start, body, resource); } else { assert start == []; }
          ResumingSavesResource(server, resource, maxAttempts, partial, final, attempt + 1, disk[partial := start + body]);
        }
      } else {
        ResumingSavesResource(server, resource, maxAttempts, partial, final, attempt + 1, disk);
      }
    }
  }

  // ---------------------------------------------------------------------
  // The two inputs on which the loop as written saves something else
  // ---------------------------------------------------------------------

  const Resource: Bytes := [1, 2, 3, 4]

  /** A correct server whose first resumed stream breaks after one byte. */
  function BreakingServer(): (nat, nat) -> Reply
  {
    (attempt: nat, offset: nat) =>
      if offset == 0 then Response(200, [Resource], true)
      else if offset > 4 then Response(416, [], true)
      else if attempt == 0 && offset < 4 then Response(206, [Resource[offset..offset + 1]], false)
      else Response(206, [Resource[offset..]], true)
  }

  /** A correct server that ignores the Range header. */
  function FullBodyServer(): (nat, nat) -> Reply
  {
    (attempt: nat, offset: nat) => Response(200, [Resource], true)
  }

  lemma ConcatOne(b: Bytes)
    ensures Concat([b]) == b
  {
    assert [b][..0] == [];
  }

  lemma BreakingServerIsCorrect()
    ensures Correct(BreakingServer(), Resource)
  {
    forall attempt: nat, offset: nat ensures Serves(Resource, BreakingServer()(attempt, offset), offset) {
      var r := BreakingServer()(attempt, offset);
      if r.Response? && r.chunks != [] { ConcatOne(r.chunks[0]); assert r.chunks == [r.chunks[0]]; }
      if offset == 0 { assert Concat(r.chunks) == Resource; }
    }
  }

  lemma FullBodyServerIsCorrect()
    ensures Correct(FullBodyServer(), Resource)
  {
    ConcatOne(Resource);
  }

  /**
   * Two bytes of the resource are already in the partial file; the first
   * resumed stream delivers one more byte and breaks; the second attempt
   * asks again from offset 2. The loop as written saves 1, 2, 3, 3, 4; the
   * resuming loop saves the resource.
   */
  lemma BrokenResumeDuplicatesBytes()
    ensures Correct(BreakingServer(), Resource)
    ensures var disk := map["p" := Resource[..2]];
      var o := Run(BreakingServer(), 2, 2, "p", "f", 0, disk);
      o.ok && o.disk["f"] == [1, 2, 3, 3, 4] && o.disk["f"] != Resource
    ensures var o := RunResuming(BreakingServer(), 2, "p", "f", 0, map["p" := Resource[..2]]);
      o.ok && o.disk["f"] == Resource
  {
    BreakingServerIsCorrect();
    ConcatOne([3]);
    ConcatOne([3, 4]);
    ConcatOne([4]);
    assert Resource[2..3] == [3] && Resource[2..] == [3, 4] && Resource[3..] == [4];
    var d1 := map["p" := Resource[..2]]["p" := [1, 2, 3]];
    assert ResumeFrom(d1, "p") == 3;
  }

  /**
   * Two bytes of the resource are in the partial file and the server answers
   * the Range request with 200 and the whole resource. The loop as written
   * appends it and saves six bytes; the resuming loop saves the resource.
   */
  lemma FullReplyAppended()
    ensures Correct(FullBodyServer(), Resource)
    ensures var o := Run(FullBodyServer(), 1, 2, "p", "f", 0, map["p" := Resource[..2]]);
      o.ok && o.disk["f"] == [1, 2, 1, 2, 3, 4] && o.disk["f"] != Resource
    ensures var o := RunResuming(FullBodyServer(), 1, "p", "f", 0, map["p" := Resource[..2]]);
      o.ok && o.disk["f"] == Resource
  {
    FullBodyServerIsCorrect();
    ConcatOne(Resource);
  }
}
