/**
 * `main` of src/apps/import/import_stops_urls.py: the entries of a JSON file
 * of URLs are decoded with `URLScrap.object_hook` and walked in file order;
 * each one is added to the session, skipped, or ends the run with nothing
 * committed.
 *
 * The database is the set of URL values already in `url_scrap` and the set
 * of `stop_id`s in `stop`. The session autoflushes before each count query
 * (SQLAlchemy's default), so a URL added earlier in the run is counted as
 * existing for every later entry.
 */
module StopsUrlsImport {
  import opened Common
  import opened UrlScrapModel

  /** How a run ends: the final commit, an error logged and `return`, or an exception out of `main`. */
  datatype Status = Committed | Aborted | Crashed

  /** The end state of a run: how it ended, the records added in order, how many entries were looked at. */
  datatype Outcome = Outcome(status: Status, added: seq<UrlScrap>, examined: nat)

  /**
   * `json.load(file, object_hook=URLScrap.object_hook)` on a JSON array of
   * objects: the hooked entries, or `None` when an unknown `url_type` name
   * makes the hook raise.
   */
  function Load(objects: seq<map<string, Json>>): (r: Option<seq<Hooked>>)
    ensures r.Some? <==> forall i :: 0 <= i < |objects| ==> !ObjectHook(objects[i]).BadUrlType?
    ensures r.Some? ==> |r.value| == |objects| && forall i :: 0 <= i < |objects| ==> r.value[i] == ObjectHook(objects[i])
  {
    if objects == [] then Some([])
    else
      var init := objects[..|objects| - 1];
      var last := ObjectHook(objects[|objects| - 1]);
      match Load(init)
      case None => None
      case Some(prev) => if last.BadUrlType? then None else Some(prev + [last])
  }

  /** The URL is already in the table: `count_url == 1` (the column is unique). */
  predicate KnownUrl(table: set<Value>, u: UrlScrap)
  {
    UrlOf(u).Some? && UrlOf(u).value in table
  }

  /** The stop exists: `count_stop == 1` (`stop_id` is the primary key). */
  predicate KnownStop(stops: set<string>, u: UrlScrap)
  {
    StopIdOf(u).Some? && StopIdOf(u).value in stops
  }

  /** `select count() from url_scrap where url = :url`. */
  function CountUrl(table: set<Value>, u: UrlScrap): nat
  {
    if KnownUrl(table, u) then 1 else 0
  }

  /** `select count() from stop where stop_id = :stop_id`. */
  function CountStop(stops: set<string>, u: UrlScrap): nat
  {
    if KnownStop(stops, u) then 1 else 0
  }

  datatype Action = Add | Skip | Abort

  /** What the loop body does with one decoded entry. */
  function Decide(u: UrlScrap, skip: bool, table: set<Value>, stops: set<string>): (a: Action)
    ensures a == Add <==> !KnownUrl(table, u) && KnownStop(stops, u)
    ensures a == Skip <==> KnownUrl(table, u) && skip
    ensures a == Abort <==> (KnownUrl(table, u) && !skip) || (!KnownUrl(table, u) && !KnownStop(stops, u))
  {
    var countUrl := CountUrl(table, u);
    var countStop := CountStop(stops, u);
    if countUrl == 0 && countStop == 1 then Add
    else if countUrl == 1 then (if skip then Skip else Abort)
    else Abort
  }

  /** The table as the next count query sees it once `u` has been added and flushed. */
  function Flushed(table: set<Value>, u: UrlScrap): set<Value>
  {
    if UrlOf(u).Some? then table + {UrlOf(u).value} else table
  }

  /** The loop from entry `i` on, with the table as it stands and the records added so far. */
  function Run(recs: seq<Hooked>, skip: bool, table: set<Value>, stops: set<string>, i: nat, added: seq<UrlScrap>): Outcome
    requires i <= |recs|
    decreases |recs| - i
  {
    if i == |recs| then Outcome(Committed, added, i)
    else match recs[i]
      // `url.url` on the None the hook returned raises AttributeError
      case NotAUrl => Outcome(Crashed, added, i + 1)
      case BadUrlType => Outcome(Crashed, added, i + 1)
      case Decoded(u) =>
        match Decide(u, skip, table, stops)
        case Add => Run(recs, skip, Flushed(table, u), stops, i + 1, added + [u])
        case Skip => Run(recs, skip, table, stops, i + 1, added)
        case Abort => Outcome(Aborted, added, i + 1)
  }

  /** The whole of `main`. */
  function Main(objects: seq<map<string, Json>>, skip: bool, existing: set<Value>, stops: set<string>): Outcome
  {
    match Load(objects)
    case None => Outcome(Crashed, [], 0)
    case Some(recs) => Run(recs, skip, existing, stops, 0, [])
  }

  /** `main(json_file, skip, session, logger)`; also returns `count_urls`. */
  method Import(objects: seq<map<string, Json>>, skip: bool, existing: set<Value>, stops: set<string>)
    returns (o: Outcome, countUrls: nat)
    ensures o == Main(objects, skip, existing, stops)
    ensures countUrls == |o.added|
  {
    var loaded := Load(objects);
    if loaded.None? {
      return Outcome(Crashed, [], 0), 0;
    }
    var urls := loaded.value;
    var table := existing;
    var added: seq<UrlScrap> := [];
    countUrls := 0;
    var i := 0;
    while i < |urls|
      invariant i <= |urls| && countUrls == |added|
      invariant Run(urls, skip, existing, stops, 0, []) == Run(urls, skip, table, stops, i, added)
    {
      if !urls[i].Decoded? {
        return Outcome(Crashed, added, i + 1), countUrls;
      }
      var url := urls[i].u;
      var countUrl := CountUrl(table, url);
      var countStop := CountStop(stops, url);
      if countUrl == 0 && countStop == 1 {
        added := added + [url];
        table := Flushed(table, url);
        countUrls := countUrls + 1;
      } else if countUrl == 1 {
        if !skip {
          return Outcome(Aborted, added, i + 1), countUrls;
        }
      } else {
        // count_stop == 0 here: stop_id is the primary key, so the count is 0 or 1
        return Outcome(Aborted, added, i + 1), countUrls;
      }
      i := i + 1;
    }
    return Outcome(Committed, added, i), countUrls;
  }

  // ---------------------------------------------------------------------
  // Properties of a run
  // ---------------------------------------------------------------------

  /** The URL values of a list of records. */
  function Urls(added: seq<UrlScrap>): set<Value>
  {
    if added == [] then {}
    else
      var last := added[|added| - 1];
      Urls(added[..|added| - 1]) + (if UrlOf(last).Some? then {UrlOf(last).value} else {})
  }

  /** The URL of every added record that has one is among `Urls(added)`. */
  lemma {:induction false} UrlsHas(added: seq<UrlScrap>, k: nat)
    requires k < |added| && UrlOf(added[k]).Some?
    ensures UrlOf(added[k]).value in Urls(added)
  {
    if k < |added| - 1 {
      var front := added[..|added| - 1];
      assert front[k] == added[k];
      UrlsHas(front, k);
    }
  }

  /** Every added record had a known stop, a URL not in the table before the run, and a URL no other added record has. */
  predicate AddedValid(added: seq<UrlScrap>, existing: set<Value>, stops: set<string>)
  {
    && (forall k :: 0 <= k < |added| ==> KnownStop(stops, added[k]) && !KnownUrl(existing, added[k]))
    && (forall a, b :: 0 <= a < b < |added| && UrlOf(added[b]).Some? ==> UrlOf(added[a]) != UrlOf(added[b]))
  }

  lemma FlushedUrls(existing: set<Value>, added: seq<UrlScrap>, u: UrlScrap)
    ensures Flushed(existing + Urls(added), u) == existing + Urls(added + [u])
  {
    var next := added + [u];
    assert next[..|next| - 1] == added;
  }

  lemma AddKeepsValid(added: seq<UrlScrap>, existing: set<Value>, stops: set<string>, u: UrlScrap)
    requires AddedValid(added, existing, stops)
    requires !KnownUrl(existing + Urls(added), u) && KnownStop(stops, u)
    ensures AddedValid(added + [u], existing, stops)
  {
    forall a | 0 <= a < |added| && UrlOf(u).Some?
      ensures UrlOf(added[a]) != UrlOf(u)
    {
      if UrlOf(added[a]).Some? { UrlsHas(added, a); }
    }
  }

  /**
   * The records a run adds keep `AddedValid` and extend those added
   * before, when the table stands at the URLs in the database plus those
   * added so far.
   */
  lemma {:induction false} RunValid(recs: seq<Hooked>, skip: bool, existing: set<Value>, stops: set<string>, i: nat, added: seq<UrlScrap>)
    requires i <= |recs| && AddedValid(added, existing, stops)
    ensures var o := Run(recs, skip, existing + Urls(added), stops, i, added);
      AddedValid(o.added, existing, stops) && |added| <= |o.added| && o.added[..|added|] == added
    decreases |recs| - i
  {
    if i < |recs| && recs[i].Decoded? {
      var u := recs[i].u;
      match Decide(u, skip, existing + Urls(added), stops)
      case Add =>
        AddKeepsValid(added, existing, stops, u);
        FlushedUrls(existing, added, u);
        RunValid(recs, skip, existing, stops, i + 1, added + [u]);
        var o := Run(recs, skip, existing + Urls(added + [u]), stops, i + 1, added + [u]);
        assert o.added[..|added|] == o.added[..|added| + 1][..|added|];
      case Skip =>
        RunValid(recs, skip, existing, stops, i + 1, added);
      case Abort =>
    }
  }

  /**
   * How a run from entry `i` ends: it commits only at the end of the list,
   * a crash ends at an entry the hook turned into None, and an abort ends
   * at a decoded entry.
   */
  lemma {:induction false} RunEnds(recs: seq<Hooked>, skip: bool, table: set<Value>, stops: set<string>, i: nat, added: seq<UrlScrap>)
    requires i <= |recs|
    ensures var o := Run(recs, skip, table, stops, i, added);
      && i <= o.examined <= |recs|
      && (o.status == Committed ==> o.examined == |recs|)
      && (o.status != Committed ==> i < o.examined)
      && (o.status == Crashed ==> !recs[o.examined - 1].Decoded?)
      && (o.status == Aborted ==> recs[o.examined - 1].Decoded?)
    decreases |recs| - i
  {
    if i < |recs| && recs[i].Decoded? {
      var u := recs[i].u;
      match Decide(u, skip, table, stops)
      case Add =>
        RunEnds(recs, skip, Flushed(table, u), stops, i + 1, added + [u]);
      case Skip =>
        RunEnds(recs, skip, table, stops, i + 1, added);
      case Abort =>
    }
  }

  /** An aborted run stops at an entry whose action was Abort against the stored URLs plus those the run added. */
  lemma {:induction false} AbortReason(recs: seq<Hooked>, skip: bool, existing: set<Value>, stops: set<string>, i: nat, added: seq<UrlScrap>)
    requires i <= |recs|
    ensures var o := Run(recs, skip, existing + Urls(added), stops, i, added);
      o.status == Aborted ==>
        0 < o.examined <= |recs| && recs[o.examined - 1].Decoded?
        && Decide(recs[o.examined - 1].u, skip, existing + Urls(o.added), stops) == Abort
    decreases |recs| - i
  {
    if i < |recs| && recs[i].Decoded? {
      var u := recs[i].u;
      match Decide(u, skip, existing + Urls(added), stops)
      case Add =>
        FlushedUrls(existing, added, u);
        AbortReason(recs, skip, existing, stops, i + 1, added + [u]);
      case Skip =>
        AbortReason(recs, skip, existing, stops, i + 1, added);
      case Abort =>
    }
  }

  /** Every entry a run examined before its last one was decoded, and so was the last one of a committed run. */
  lemma {:induction false} RunDecoded(recs: seq<Hooked>, skip: bool, table: set<Value>, stops: set<string>, i: nat, added: seq<UrlScrap>)
    requires i <= |recs|
    ensures var o := Run(recs, skip, table, stops, i, added);
      o.examined <= |recs| && forall j :: i <= j < o.examined && (o.status == Committed || j < o.examined - 1) ==> recs[j].Decoded?
    decreases |recs| - i
  {
    if i < |recs| && recs[i].Decoded? {
      var u := recs[i].u;
      match Decide(u, skip, table, stops)
      case Add =>
        RunDecoded(recs, skip, Flushed(table, u), stops, i + 1, added + [u]);
      case Skip =>
        RunDecoded(recs, skip, table, stops, i + 1, added);
      case Abort =>
    }
  }

  /** The three ways one decoded entry is handled, as the loop body orders its tests. */
  lemma StepCases(recs: seq<Hooked>, skip: bool, table: set<Value>, stops: set<string>, i: nat, added: seq<UrlScrap>)
    requires i < |recs| && recs[i].Decoded?
    ensures var u := recs[i].u;
      && (!KnownUrl(table, u) && KnownStop(stops, u) ==>
            Run(recs, skip, table, stops, i, added) == Run(recs, skip, Flushed(table, u), stops, i + 1, added + [u]))
      && (KnownUrl(table, u) && !skip ==>
            Run(recs, skip, table, stops, i, added) == Outcome(Aborted, added, i + 1))
      && (KnownUrl(table, u) && skip ==>
            Run(recs, skip, table, stops, i, added) == Run(recs, skip, table, stops, i + 1, added))
      && (!KnownUrl(table, u) && !KnownStop(stops, u) ==>
            Run(recs, skip, table, stops, i, added) == Outcome(Aborted, added, i + 1))
  {
  }

  /** The records of the decoded entries, in file order. */
  function Records(recs: seq<Hooked>): (r: seq<UrlScrap>)
    ensures |r| <= |recs|
  {
    if recs == [] then []
    else (if recs[0].Decoded? then [recs[0].u] else []) + Records(recs[1..])
  }

  /** Without `--skip-existing`, a run that commits has added every entry of the file, in file order. */
  lemma {:induction false} StrictRunAddsAll(recs: seq<Hooked>, table: set<Value>, stops: set<string>, i: nat, added: seq<UrlScrap>)
    requires i <= |recs|
    requires Run(recs, false, table, stops, i, added).status == Committed
    ensures Run(recs, false, table, stops, i, added).added == added + Records(recs[i..])
    decreases |recs| - i
  {
    if i == |recs| {
      assert recs[i..] == [];
    } else {
      var u := recs[i].u;
      assert recs[i..][1..] == recs[i + 1..];
      assert Decide(u, false, table, stops) == Add;
      StrictRunAddsAll(recs, Flushed(table, u), stops, i + 1, added + [u]);
    }
  }

  /** `main` commits only after loading, decoding and examining every entry. */
  lemma MainCommits(objects: seq<map<string, Json>>, skip: bool, existing: set<Value>, stops: set<string>)
    ensures var o := Main(objects, skip, existing, stops);
      o.status == Committed ==>
        Load(objects).Some? && o.examined == |objects|
        && forall j :: 0 <= j < |objects| ==> ObjectHook(objects[j]).Decoded?
  {
    if Load(objects).Some? {
      var recs := Load(objects).value;
      RunEnds(recs, skip, existing, stops, 0, []);
      RunDecoded(recs, skip, existing, stops, 0, []);
      var o := Run(recs, skip, existing, stops, 0, []);
      if o.status == Committed {
        forall j | 0 <= j < |objects| ensures ObjectHook(objects[j]).Decoded? {
          assert recs[j] == ObjectHook(objects[j]);
        }
      }
    }
  }

  /** When `main` aborts, the last entry it examined is one whose action was Abort against the table as it then stood. */
  lemma MainAborts(objects: seq<map<string, Json>>, skip: bool, existing: set<Value>, stops: set<string>)
    ensures var o := Main(objects, skip, existing, stops);
      o.status == Aborted ==>
        0 < o.examined <= |objects| && ObjectHook(objects[o.examined - 1]).Decoded?
        && Decide(ObjectHook(objects[o.examined - 1]).u, skip, existing + Urls(o.added), stops) == Abort
  {
    if Load(objects).Some? {
      var recs := Load(objects).value;
      assert existing + Urls([]) == existing;
      AbortReason(recs, skip, existing, stops, 0, []);
      var o := Run(recs, skip, existing, stops, 0, []);
      if o.status == Aborted {
        assert recs[o.examined - 1] == ObjectHook(objects[o.examined - 1]);
      }
    }
  }

  /** Whatever the outcome, the records `main` added are valid. */
  lemma MainAddsValid(objects: seq<map<string, Json>>, skip: bool, existing: set<Value>, stops: set<string>)
    ensures AddedValid(Main(objects, skip, existing, stops).added, existing, stops)
  {
    if Load(objects).Some? {
      assert existing + Urls([]) == existing;
      RunValid(Load(objects).value, skip, existing, stops, 0, []);
    }
  }
}
