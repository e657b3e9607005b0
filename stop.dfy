/**
 * The stop record of src/data_model/stop.py: the `LocationType` and
 * `WheelchairBoarding` enumerations (the `location_type` and
 * `wheelchair_boarding` fields of the GTFS Schedule Reference, stops.txt),
 * the columns of the `stop` table and the keyword constructor.
 */
module StopModel {
  import opened Common
  import Orm

  /** `LocationType`, with the meanings stops.txt gives the codes. */
  datatype LocationType =
    | StopOrPlatform   // 0: a stop or platform where passengers board
    | Station          // 1: a station containing platforms
    | EntranceExit     // 2: an entrance to or exit from a station
    | GenericNode      // 3: a location inside a station used to link pathways
    | BoardingArea     // 4: a specific place on a platform where passengers board
  {
    function Value(): int
    {
      match this
      case StopOrPlatform => 0
      case Station => 1
      case EntranceExit => 2
      case GenericNode => 3
      case BoardingArea => 4
    }
  }

  /** `LocationType(v)`: `None` where Python raises ValueError. */
  function LocationTypeOf(v: int): (t: Option<LocationType>)
    ensures t.Some? <==> 0 <= v <= 4
    ensures t.Some? ==> t.value.Value() == v
  {
    if v == 0 then Some(StopOrPlatform)
    else if v == 1 then Some(Station)
    else if v == 2 then Some(EntranceExit)
    else if v == 3 then Some(GenericNode)
    else if v == 4 then Some(BoardingArea)
    else None
  }

  /** Member to value to member is the identity. */
  lemma LocationTypeRoundTrip(t: LocationType)
    ensures 0 <= t.Value() <= 4
    ensures LocationTypeOf(t.Value()) == Some(t)
  {
  }

  /** `WheelchairBoarding`, with the meanings stops.txt gives the codes. */
  datatype WheelchairBoarding =
    | NoInformation    // 0: no accessibility information
    | SomeYes          // 1: some vehicles or paths at this stop can be boarded in a wheelchair
    | No               // 2: wheelchair boarding is not possible
  {
    function Value(): int
    {
      match this
      case NoInformation => 0
      case SomeYes => 1
      case No => 2
    }
  }

  /** `WheelchairBoarding(v)`: `None` where Python raises ValueError. */
  function WheelchairBoardingOf(v: int): (w: Option<WheelchairBoarding>)
    ensures w.Some? <==> 0 <= v <= 2
    ensures w.Some? ==> w.value.Value() == v
  {
    if v == 0 then Some(NoInformation)
    else if v == 1 then Some(SomeYes)
    else if v == 2 then Some(No)
    else None
  }

  /** Member to value to member is the identity. */
  lemma WheelchairBoardingRoundTrip(w: WheelchairBoarding)
    ensures 0 <= w.Value() <= 2
    ensures WheelchairBoardingOf(w.Value()) == Some(w)
  {
  }

  /** The columns of `stop`, in declaration order. */
  const Columns: seq<Orm.Column> := [
    Orm.Column("stop_id", false, true, false, None),
    Orm.Column("stop_code", true, false, false, None),
    Orm.Column("stop_name", true, false, false, None),
    Orm.Column("tts_stop_name", true, false, false, None),
    Orm.Column("stop_desc", true, false, false, None),
    Orm.Column("stop_lat", true, false, false, None),
    Orm.Column("stop_lon", true, false, false, None),
    Orm.Column("zone_id", true, false, false, None),
    Orm.Column("stop_url", true, false, false, None),
    Orm.Column("location_type", true, false, false, None),
    Orm.Column("parent_station_id", true, false, false, Some("stop.stop_id")),
    Orm.Column("stop_timezone", true, false, false, None),
    Orm.Column("wheelchair_boarding", true, false, false, None),
    Orm.Column("level_id", true, false, false, Some("level.level_id")),
    Orm.Column("platform_code", true, false, false, None)
  ]

  /** The columns a row must fill: those that are not nullable. */
  predicate Required(c: Orm.Column) { !c.nullable }

  /** `stop_id` is the only primary key and the only column that is not nullable. */
  lemma ColumnConstraints()
    ensures forall i :: 0 <= i < |Columns| ==> (Columns[i].primaryKey <==> Columns[i].name == "stop_id")
    ensures forall i :: 0 <= i < |Columns| ==> (Required(Columns[i]) <==> Columns[i].name == "stop_id")
    ensures Columns[10].name == "parent_station_id" && Columns[10].references == Some("stop.stop_id")
    ensures Columns[13].name == "level_id" && Columns[13].references == Some("level.level_id")
    ensures forall i :: 0 <= i < |Columns| && i != 10 && i != 13 ==> Columns[i].references.None?
  {
  }

  /** What the attributes of a Stop hold here: text, a number, or an enumeration member. */
  datatype Value = Text(s: string) | Integer(i: int) | Location(t: LocationType) | Wheelchair(w: WheelchairBoarding)

  /** The mapped attributes: the columns and the three relationships. */
  const Attributes: set<string> := {
    "stop_id", "stop_code", "stop_name", "tts_stop_name", "stop_desc", "stop_lat", "stop_lon", "zone_id",
    "stop_url", "location_type", "parent_station_id", "stop_timezone", "wheelchair_boarding", "level_id",
    "platform_code", "parent_station", "children_stop", "level"
  }

  /** Every column is an attribute, and the attributes beyond the columns are the relationships. */
  lemma AttributesAreColumns()
    ensures forall i :: 0 <= i < |Columns| ==> Columns[i].name in Attributes
    ensures forall a :: a in Attributes ==>
      a in {"parent_station", "children_stop", "level"} || exists i :: 0 <= i < |Columns| && Columns[i].name == a
  {
    forall a | a in Attributes && a !in {"parent_station", "children_stop", "level"}
      ensures exists i :: 0 <= i < |Columns| && Columns[i].name == a
    {
      var names := seq(|Columns|, i requires 0 <= i < |Columns| => Columns[i].name);
      assert names == ["stop_id", "stop_code", "stop_name", "tts_stop_name", "stop_desc", "stop_lat", "stop_lon",
        "zone_id", "stop_url", "location_type", "parent_station_id", "stop_timezone", "wheelchair_boarding",
        "level_id", "platform_code"];
      assert a in names;
    }
  }

  /** A Stop instance: the attributes assigned so far. */
  datatype Stop = Stop(attrs: map<string, Value>)

  /** The outcome of `Stop(**kwargs)`: an instance, or the TypeError for a key the class does not have. */
  datatype Built = Built(stop: Stop) | InvalidKeyword(key: string)

  predicate AllAttributes(kwargs: seq<(string, Value)>)
  {
    forall i :: 0 <= i < |kwargs| ==> kwargs[i].0 in Attributes
  }

  /** The index of the first key that names no attribute. */
  function FirstInvalid(kwargs: seq<(string, Value)>): (i: nat)
    requires !AllAttributes(kwargs)
    ensures i < |kwargs| && kwargs[i].0 !in Attributes
    ensures forall j :: 0 <= j < i ==> kwargs[j].0 in Attributes
  {
    if kwargs[0].0 !in Attributes then 0
    else
      assert !AllAttributes(kwargs[1..]) by {
        var i :| 0 <= i < |kwargs| && kwargs[i].0 !in Attributes;
        assert kwargs[1..][i - 1] == kwargs[i];
      }
      1 + FirstInvalid(kwargs[1..])
  }

  /** The instance `Stop(**kwargs)` builds, or the error it raises. */
  function Build(kwargs: seq<(string, Value)>): (r: Built)
    ensures r.Built? <==> AllAttributes(kwargs)
    ensures r.InvalidKeyword? ==> r.key !in Attributes && exists i :: 0 <= i < |kwargs| && kwargs[i].0 == r.key
  {
    if AllAttributes(kwargs) then Built(Stop(Orm.Apply(map[], Attributes, kwargs)))
    else InvalidKeyword(kwargs[FirstInvalid(kwargs)].0)
  }

  lemma {:induction false} FirstInvalidAt(kwargs: seq<(string, Value)>, i: nat)
    requires i < |kwargs| && kwargs[i].0 !in Attributes
    requires forall j :: 0 <= j < i ==> kwargs[j].0 in Attributes
    ensures !AllAttributes(kwargs) && FirstInvalid(kwargs) == i
  {
    if i > 0 {
      FirstInvalidAt(kwargs[1..], i - 1);
    }
  }

  /**
   * `Stop.__init__`: the declarative base constructor rejects a key the
   * class lacks and sets the others in order; then the class's own loop
   * sets every key that names an attribute once more.
   */
  method Construct(kwargs: seq<(string, Value)>) returns (r: Built)
    ensures r == Build(kwargs)
  {
    var attrs: map<string, Value> := map[];
    for i := 0 to |kwargs|
      invariant forall j :: 0 <= j < i ==> kwargs[j].0 in Attributes
      invariant attrs == Orm.Apply(map[], Attributes, kwargs[..i])
    {
      if kwargs[i].0 !in Attributes {
        FirstInvalidAt(kwargs, i);
        return InvalidKeyword(kwargs[i].0);
      }
      attrs := attrs[kwargs[i].0 := kwargs[i].1];
      assert kwargs[..i + 1][..i] == kwargs[..i];
    }
    assert kwargs[..|kwargs|] == kwargs;
    var again := attrs;
    for i := 0 to |kwargs|
      invariant again == Orm.Apply(attrs, Attributes, kwargs[..i])
    {
      if kwargs[i].0 in Attributes {
        again := again[kwargs[i].0 := kwargs[i].1];
      }
      assert kwargs[..i + 1][..i] == kwargs[..i];
    }
    Orm.ApplyTwice(map[], Attributes, kwargs);
    return Built(Stop(again));
  }

  /**
   * With distinct keys that all name attributes, each supplied key holds
   * the supplied value and every other attribute is unset.
   */
  lemma AssignedAttributes(kwargs: seq<(string, Value)>)
    requires AllAttributes(kwargs)
    requires forall a, b :: 0 <= a < b < |kwargs| ==> kwargs[a].0 != kwargs[b].0
    ensures forall i :: 0 <= i < |kwargs| ==> Orm.Get(Build(kwargs).stop.attrs, kwargs[i].0) == Some(kwargs[i].1)
    ensures forall k :: (forall i :: 0 <= i < |kwargs| ==> kwargs[i].0 != k) ==> Orm.Get(Build(kwargs).stop.attrs, k) == None
  {
    var attrs := Build(kwargs).stop.attrs;
    forall i | 0 <= i < |kwargs| ensures Orm.Get(attrs, kwargs[i].0) == Some(kwargs[i].1) {
      Orm.ApplyAt(map[], Attributes, kwargs, kwargs[i].0);
      Orm.LookupDistinct(kwargs, i);
    }
    forall k | forall i :: 0 <= i < |kwargs| ==> kwargs[i].0 != k
      ensures Orm.Get(attrs, k) == None
    {
      Orm.ApplyAt(map[], Attributes, kwargs, k);
      Orm.LookupAbsent(kwargs, k);
    }
  }
}
