/**
 * `main` of src/apps/imports/import_stops.py: the rows of the feed's
 * stops.txt table become Stop records. A row without a usable `stop_id` is
 * skipped; the enumeration codes fall back to no value when they do not
 * convert; the parent station comes from whichever of the two column names
 * the table has; fields without a value are not passed to the constructor;
 * the records are added and committed once, after the loop.
 *
 * The table arrives as its column names and its rows; a row maps a column
 * name to the cell's value, and a column the table lacks or a NaN cell is
 * simply absent from the row (what `pd.isna` reports as missing).
 */
module StopsImport {
  import opened Common
  import Orm
  import StopModel

  /** A cell of stops.txt as the feed loader hands it over: text, or a number read as an integer. */
  datatype Cell = Text(s: string) | Integer(i: int)

  type Row = map<string, Cell>

  datatype Table = Table(columns: set<string>, rows: seq<Row>)

  /** `feed.stops`: AttributeError, some other exception, or the table (possibly None). */
  datatype Feed = NoStopsAttribute | Unreadable | Stops(table: Option<Table>)

  /** `DataFrame.empty`: no rows or no columns. */
  predicate Empty(t: Table) { |t.rows| == 0 || t.columns == {} }

  /** Python's `str(v)`. */
  function StrOf(c: Cell): string
  {
    match c
    case Text(s) => s
    case Integer(i) => IntToStr(i)
  }

  /** Python's `int(v)`: `None` where it raises. */
  function IntOf(c: Cell): Option<int>
  {
    match c
    case Text(s) => ParseInt(s)
    case Integer(i) => Some(i)
  }

  /** A cell as the value a Stop attribute receives. */
  function CellValue(c: Cell): StopModel.Value
  {
    match c
    case Text(s) => StopModel.Text(s)
    case Integer(i) => StopModel.Integer(i)
  }

  /** `none_if_nan(row.get(k))`. */
  function Get(row: Row, k: string): Option<Cell>
  {
    if k in row then Some(row[k]) else None
  }

  /** The test at the top of the loop body: no `stop_id`, or one whose text is blank. */
  predicate SkipsRow(row: Row)
  {
    "stop_id" !in row || Strip(StrOf(row["stop_id"])) == []
  }

  /** `location_type_enum`: the member the code converts to, `None` when it is absent or does not convert. */
  function LocationOf(row: Row): (t: Option<StopModel.LocationType>)
    ensures t.Some? <==> "location_type" in row && IntOf(row["location_type"]).Some?
                         && 0 <= IntOf(row["location_type"]).value <= 4
    ensures t.Some? ==> t.value.Value() == IntOf(row["location_type"]).value
  {
    match Get(row, "location_type")
    case None => None
    case Some(c) => if IntOf(c).None? then None else StopModel.LocationTypeOf(IntOf(c).value)
  }

  /** `wheelchair_enum`: the member the code converts to, `None` when it is absent or does not convert. */
  function WheelchairOf(row: Row): (w: Option<StopModel.WheelchairBoarding>)
    ensures w.Some? <==> "wheelchair_boarding" in row && IntOf(row["wheelchair_boarding"]).Some?
                         && 0 <= IntOf(row["wheelchair_boarding"]).value <= 2
    ensures w.Some? ==> w.value.Value() == IntOf(row["wheelchair_boarding"]).value
  {
    match Get(row, "wheelchair_boarding")
    case None => None
    case Some(c) => if IntOf(c).None? then None else StopModel.WheelchairBoardingOf(IntOf(c).value)
  }

  /** `parent_station_val`: read from `parent_station_id` when the table has that column, else from `parent_station`. */
  function ParentOf(row: Row, hasParentStationId: bool): Option<Cell>
  {
    Get(row, if hasParentStationId then "parent_station_id" else "parent_station")
  }

  /** The keys of `stop_kwargs`, in the order the dict literal lists them. */
  const FieldNames: seq<string> := [
    "stop_id", "stop_code", "stop_name", "tts_stop_name", "stop_desc", "stop_lat", "stop_lon", "zone_id",
    "stop_url", "location_type", "parent_station_id", "stop_timezone", "wheelchair_boarding", "level_id",
    "platform_code"
  ]

  /**
   * The value `stop_kwargs` holds for key `k`: `str(sid)` for `stop_id`, the
   * converted members, the chosen parent, and for the eleven other keys the
   * row's cell of the same name (`None` also for keys it does not have).
   */
  function FieldValue(row: Row, hasParentStationId: bool, k: string): Option<StopModel.Value>
    requires "stop_id" in row
  {
    if k !in FieldNames then None
    else if k == "stop_id" then Some(StopModel.Text(StrOf(row["stop_id"])))
    else if k == "location_type" then
      (match LocationOf(row) case None => None case Some(t) => Some(StopModel.Location(t)))
    else if k == "wheelchair_boarding" then
      (match WheelchairOf(row) case None => None case Some(w) => Some(StopModel.Wheelchair(w)))
    else if k == "parent_station_id" then
      (match ParentOf(row, hasParentStationId) case None => None case Some(c) => Some(CellValue(c)))
    else
      (match Get(row, k) case None => None case Some(c) => Some(CellValue(c)))
  }

  /** `stop_kwargs` as the dict literal builds it. */
  function Fields(row: Row, hasParentStationId: bool): (f: seq<(string, Option<StopModel.Value>)>)
    requires "stop_id" in row
  {
    seq(|FieldNames|, i requires 0 <= i < |FieldNames| => (FieldNames[i], FieldValue(row, hasParentStationId, FieldNames[i])))
  }

  /** `{k: v for k, v in stop_kwargs.items() if v is not None}`. */
  function DropNone<V>(f: seq<(string, Option<V>)>): (r: seq<(string, V)>)
    ensures forall j :: 0 <= j < |r| ==> exists i :: 0 <= i < |f| && f[i].0 == r[j].0 && f[i].1 == Some(r[j].1)
  {
    if f == [] then []
    else
      var last := f[|f| - 1];
      var prev := DropNone(f[..|f| - 1]);
      if last.1.Some? then prev + [(last.0, last.1.value)] else prev
  }

  predicate DistinctKeys<V>(f: seq<(string, V)>)
  {
    forall a, b :: 0 <= a < b < |f| ==> f[a].0 != f[b].0
  }

  /** With distinct keys, the filtered dict maps a key to its value when that value is not None. */
  lemma {:induction false} LookupDropNone<V>(f: seq<(string, Option<V>)>, k: string)
    requires DistinctKeys(f)
    ensures Orm.Lookup(DropNone(f), k) == Orm.Flatten(Orm.Lookup(f, k))
  {
    if f != [] {
      var init := f[..|f| - 1];
      var last := f[|f| - 1];
      LookupDropNone(init, k);
      if last.0 == k {
        forall j | 0 <= j < |DropNone(init)| ensures DropNone(init)[j].0 != k {
          var i :| 0 <= i < |init| && init[i].0 == DropNone(init)[j].0 && init[i].1 == Some(DropNone(init)[j].1);
          assert init[i].0 == f[i].0;
        }
        Orm.LookupAbsent(DropNone(init), k);
      }
      if last.1.Some? {
        var r := DropNone(f);
        assert r[..|r| - 1] == DropNone(init);
      }
    }
  }

  /** The dict literal has distinct keys, all of them attributes of Stop. */
  lemma FieldsDistinct(row: Row, hasParentStationId: bool)
    requires "stop_id" in row
    ensures DistinctKeys(Fields(row, hasParentStationId))
    ensures forall i :: 0 <= i < |FieldNames| ==> FieldNames[i] in StopModel.Attributes
  {
    assert forall a, b :: 0 <= a < b < |FieldNames| ==> FieldNames[a] != FieldNames[b];
  }

  /** The keyword arguments `Stop(**stop_kwargs)` receives, or `None` for a skipped row. */
  function RowKwargs(row: Row, hasParentStationId: bool): Option<seq<(string, StopModel.Value)>>
  {
    if SkipsRow(row) then None else Some(DropNone(Fields(row, hasParentStationId)))
  }

  /** What one row contributes: a Stop, or nothing when it is skipped. */
  function RowStop(row: Row, hasParentStationId: bool): Option<StopModel.Stop>
  {
    match RowKwargs(row, hasParentStationId)
    case None => None
    case Some(kwargs) =>
      match StopModel.Build(kwargs)
      case Built(s) => Some(s)
      case InvalidKeyword(_) => None
  }

  /** The keys of the filtered dict are keys of the dict. */
  lemma DropNoneKeys<V>(f: seq<(string, Option<V>)>, names: set<string>)
    requires forall i :: 0 <= i < |f| ==> f[i].0 in names
    ensures forall j :: 0 <= j < |DropNone(f)| ==> DropNone(f)[j].0 in names
  {
    var r := DropNone(f);
    forall j | 0 <= j < |r| ensures r[j].0 in names {
      var i :| 0 <= i < |f| && f[i].0 == r[j].0 && f[i].1 == Some(r[j].1);
    }
  }

  /** The setattr loop over a filtered dict sets each key to its value when that value is not None. */
  lemma ApplyFiltered<V>(names: set<string>, f: seq<(string, Option<V>)>, k: string)
    requires DistinctKeys(f)
    requires forall i :: 0 <= i < |f| ==> f[i].0 in names
    ensures Orm.Get(Orm.Apply(map[], names, DropNone(f)), k) == Orm.Flatten(Orm.Lookup(f, k))
  {
    Orm.ApplyAt(map[], names, DropNone(f), k);
    LookupDropNone(f, k);
    if k !in names {
      Orm.LookupAbsent(f, k);
    }
  }

  /** `Lookup` on the dict literal finds the value computed for a key (no value for keys it lacks). */
  lemma FieldsLookup(row: Row, hasParentStationId: bool, k: string)
    requires "stop_id" in row
    ensures Orm.Flatten(Orm.Lookup(Fields(row, hasParentStationId), k)) == FieldValue(row, hasParentStationId, k)
  {
    var f := Fields(row, hasParentStationId);
    FieldsDistinct(row, hasParentStationId);
    if k in FieldNames {
      var i :| 0 <= i < |FieldNames| && FieldNames[i] == k;
      Orm.LookupDistinct(f, i);
    } else {
      Orm.LookupAbsent(f, k);
    }
  }

  /** Every key of the filtered dict names a Stop attribute. */
  lemma KwargsAreAttributes(row: Row, hasParentStationId: bool)
    requires "stop_id" in row
    ensures StopModel.AllAttributes(DropNone(Fields(row, hasParentStationId)))
  {
    var f := Fields(row, hasParentStationId);
    FieldsDistinct(row, hasParentStationId);
    assert forall i :: 0 <= i < |f| ==> f[i].0 in StopModel.Attributes;
    DropNoneKeys(f, StopModel.Attributes);
  }

  /** A row that is not skipped is built from the filtered dict: the constructor accepts every key of it. */
  lemma RowStopBuilt(row: Row, hasParentStationId: bool)
    requires !SkipsRow(row)
    ensures RowStop(row, hasParentStationId)
         == Some(StopModel.Stop(Orm.Apply(map[], StopModel.Attributes, DropNone(Fields(row, hasParentStationId)))))
  {
    var kwargs := DropNone(Fields(row, hasParentStationId));
    assert RowKwargs(row, hasParentStationId) == Some(kwargs);
    KwargsAreAttributes(row, hasParentStationId);
    assert StopModel.Build(kwargs) == StopModel.Built(StopModel.Stop(Orm.Apply(map[], StopModel.Attributes, kwargs)));
  }

  /** The attribute `k` after the setattr loop over the filtered dict is the value the dict literal computed for `k`. */
  lemma AttributeAt(row: Row, hasParentStationId: bool, k: string)
    requires "stop_id" in row
    ensures Orm.Get(Orm.Apply(map[], StopModel.Attributes, DropNone(Fields(row, hasParentStationId))), k)
         == FieldValue(row, hasParentStationId, k)
  {
    FieldsDistinct(row, hasParentStationId);
    ApplyFiltered(StopModel.Attributes, Fields(row, hasParentStationId), k);
    FieldsLookup(row, hasParentStationId, k);
  }

  /**
   * A row that is not skipped always gives a Stop (the constructor never
   * sees an unknown key), and each attribute of that Stop holds exactly the
   * value the dict literal computed for it: `stop_id` as text, the cell of
   * the same name, the converted enumeration member, the parent from the
   * chosen column; and no attribute is set whose value was None.
   */
  lemma RowMapping(row: Row, hasParentStationId: bool)
    ensures RowStop(row, hasParentStationId).Some? <==> !SkipsRow(row)
    ensures !SkipsRow(row) ==> forall k :: Orm.Get(RowStop(row, hasParentStationId).value.attrs, k)
                                         == FieldValue(row, hasParentStationId, k)
  {
    if !SkipsRow(row) {
      RowStopBuilt(row, hasParentStationId);
      forall k ensures Orm.Get(RowStop(row, hasParentStationId).value.attrs, k) == FieldValue(row, hasParentStationId, k) {
        AttributeAt(row, hasParentStationId, k);
      }
    }
  }

  /** The eleven keys of the dict literal that copy the row's cell of the same name. */
  const CopiedNames: set<string> := {
    "stop_code", "stop_name", "tts_stop_name", "stop_desc", "stop_lat", "stop_lon", "zone_id", "stop_url",
    "stop_timezone", "level_id", "platform_code"
  }

  /** The cell of `row` named `k`, as an attribute value. */
  function CellAt(row: Row, k: string): Option<StopModel.Value>
  {
    match Get(row, k) case None => None case Some(c) => Some(CellValue(c))
  }

  /** What each attribute holds, for attributes that hold what the dict literal computed. */
  predicate HoldsRowFields(a: map<string, StopModel.Value>, row: Row, hasParentStationId: bool)
    requires "stop_id" in row
  {
    && Orm.Get(a, "stop_id") == Some(StopModel.Text(StrOf(row["stop_id"])))
    && Orm.Get(a, "location_type") == (match LocationOf(row) case None => None case Some(t) => Some(StopModel.Location(t)))
    && Orm.Get(a, "wheelchair_boarding")
       == (match WheelchairOf(row) case None => None case Some(w) => Some(StopModel.Wheelchair(w)))
    && Orm.Get(a, "parent_station_id") == CellAt(row, if hasParentStationId then "parent_station_id" else "parent_station")
    && (forall k :: k in CopiedNames ==> Orm.Get(a, k) == CellAt(row, k))
    && (forall k :: k !in FieldNames ==> k !in a)
  }

  lemma FieldValuesHold(a: map<string, StopModel.Value>, row: Row, hasParentStationId: bool)
    requires "stop_id" in row
    requires forall k :: Orm.Get(a, k) == FieldValue(row, hasParentStationId, k)
    ensures HoldsRowFields(a, row, hasParentStationId)
  {
    assert Orm.Get(a, "stop_id") == FieldValue(row, hasParentStationId, "stop_id");
    assert Orm.Get(a, "location_type") == FieldValue(row, hasParentStationId, "location_type");
    assert Orm.Get(a, "wheelchair_boarding") == FieldValue(row, hasParentStationId, "wheelchair_boarding");
    assert Orm.Get(a, "parent_station_id") == FieldValue(row, hasParentStationId, "parent_station_id");
    forall k | k in CopiedNames ensures Orm.Get(a, k) == CellAt(row, k) {
      CopiedValue(row, hasParentStationId, k);
    }
    forall k | k !in FieldNames ensures k !in a {
      assert Orm.Get(a, k) == FieldValue(row, hasParentStationId, k);
    }
  }

  lemma CopiedValue(row: Row, hasParentStationId: bool, k: string)
    requires "stop_id" in row && k in CopiedNames
    ensures FieldValue(row, hasParentStationId, k) == CellAt(row, k)
  {
    assert k in FieldNames;
  }

  /**
   * The Stop built from a row, attribute by attribute: `stop_id` is
   * `str(sid)`; the two enumerations hold the converted member or nothing;
   * `parent_station_id` is the cell of `parent_station_id` when the table
   * has that column and of `parent_station` otherwise; eleven attributes
   * copy the cell of the same name; no other attribute is set.
   */
  lemma RowStopAttributes(row: Row, hasParentStationId: bool)
    requires !SkipsRow(row)
    ensures RowStop(row, hasParentStationId).Some?
    ensures HoldsRowFields(RowStop(row, hasParentStationId).value.attrs, row, hasParentStationId)
  {
    RowMapping(row, hasParentStationId);
    FieldValuesHold(RowStop(row, hasParentStationId).value.attrs, row, hasParentStationId);
  }

  /** The Stop records the loop builds from `rows`, in row order. */
  function Models(rows: seq<Row>, hasParentStationId: bool): seq<StopModel.Stop>
  {
    if rows == [] then []
    else
      var prev := Models(rows[..|rows| - 1], hasParentStationId);
      match RowStop(rows[|rows| - 1], hasParentStationId)
      case None => prev
      case Some(s) => prev + [s]
  }

  /** The number of rows that give no Stop. */
  function SkipCount(rows: seq<Row>, hasParentStationId: bool): nat
  {
    if rows == [] then 0
    else SkipCount(rows[..|rows| - 1], hasParentStationId) + (if RowStop(rows[|rows| - 1], hasParentStationId).None? then 1 else 0)
  }

  /** The number of rows without a usable `stop_id`. */
  function BlankIdCount(rows: seq<Row>): nat
  {
    if rows == [] then 0
    else BlankIdCount(rows[..|rows| - 1]) + (if SkipsRow(rows[|rows| - 1]) then 1 else 0)
  }

  /** Only rows without a usable `stop_id` are skipped: the constructor never rejects a row. */
  lemma {:induction false} SkippedAreBlankIds(rows: seq<Row>, has: bool)
    ensures SkipCount(rows, has) == BlankIdCount(rows)
  {
    if rows != [] {
      SkippedAreBlankIds(rows[..|rows| - 1], has);
      RowMapping(rows[|rows| - 1], has);
    }
  }

  lemma StepRow(rows: seq<Row>, i: nat, has: bool)
    requires i < |rows|
    ensures Models(rows[..i + 1], has)
         == Models(rows[..i], has) + (if RowStop(rows[i], has).Some? then [RowStop(rows[i], has).value] else [])
    ensures SkipCount(rows[..i + 1], has) == SkipCount(rows[..i], has) + (if RowStop(rows[i], has).None? then 1 else 0)
  {
    assert rows[..i + 1][..i] == rows[..i];
  }

  /** What `main` leaves behind: the session untouched, or the records added and committed once with the two counters. */
  datatype Report = Untouched | Persisted(models: seq<StopModel.Stop>, created: nat, skipped: nat)

  /** `main(feed, session, logger)`. */
  method ImportStops(feed: Feed) returns (r: Report)
    ensures r.Untouched? <==> !feed.Stops? || feed.table.None? || Empty(feed.table.value)
    ensures r.Persisted? ==>
      var rows := feed.table.value.rows;
      var has := "parent_station_id" in feed.table.value.columns;
      && r.models == Models(rows, has)
      && r.created == |r.models|
      && r.skipped == SkipCount(rows, has)
      && r.created + r.skipped == |rows|
  {
    if !feed.Stops? {
      return Untouched;
    }
    if feed.table.None? || Empty(feed.table.value) {
      return Untouched;
    }
    var rows := feed.table.value.rows;
    var has := "parent_station_id" in feed.table.value.columns;
    var models: seq<StopModel.Stop> := [];
    var created, skipped := 0, 0;
    for i := 0 to |rows|
      invariant models == Models(rows[..i], has) && created == |models|
      invariant skipped == SkipCount(rows[..i], has) && created + skipped == i
    {
      StepRow(rows, i, has);
      var row := rows[i];
      var kwargs := RowKwargs(row, has);
      if kwargs.None? {
        skipped := skipped + 1;
        continue;
      }
      var built := StopModel.Construct(kwargs.value);
      if built.InvalidKeyword? {
        skipped := skipped + 1;
        continue;
      }
      models := models + [built.stop];
      created := created + 1;
    }
    assert rows[..|rows|] == rows;
    return Persisted(models, created, skipped);
  }

  /** Row order is kept: the records of two consecutive runs of rows are those of the first followed by those of the second. */
  lemma {:induction false} ModelsAppend(a: seq<Row>, b: seq<Row>, has: bool)
    ensures Models(a + b, has) == Models(a, has) + Models(b, has)
    decreases |b|
  {
    if b == [] {
      assert a + b == a;
    } else {
      var b' := b[..|b| - 1];
      assert (a + b)[..|a + b| - 1] == a + b';
      assert (a + b)[|a + b| - 1] == b[|b| - 1];
      ModelsAppend(a, b', has);
    }
  }

  /** Every record created has a non-blank text `stop_id`, so the one column that is not nullable is filled. */
  lemma {:induction false} ModelsHaveKeys(rows: seq<Row>, has: bool)
    ensures forall m :: m in Models(rows, has) ==>
      "stop_id" in m.attrs && m.attrs["stop_id"].Text? && Strip(m.attrs["stop_id"].s) != []
  {
    if rows != [] {
      ModelsHaveKeys(rows[..|rows| - 1], has);
      var row := rows[|rows| - 1];
      if !SkipsRow(row) {
        RowStopBuilt(row, has);
        AttributeAt(row, has, "stop_id");
      }
    }
  }
}
