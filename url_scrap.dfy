/**
 * The URL record of src/data_model/url_scrap.py: the `URLType` enumeration,
 * the `url_scrap` table's columns, the keyword constructor (which stores a
 * string `stop` in `stop_id`) and the JSON object hook used when loading a
 * file of URL entries.
 */
module UrlScrapModel {
  import opened Common
  import Orm

  /** `URLType`: the two kinds of external URL. */
  datatype UrlType = AdifWeb | AdifJsInfo
  {
    /** The member's value. */
    function Value(): int
    {
      match this
      case AdifWeb => 0
      case AdifJsInfo => 1
    }

    /** The member's name. */
    function Name(): string
    {
      match this
      case AdifWeb => "ADIF_WEB"
      case AdifJsInfo => "ADIF_JS_INFO"
    }
  }

  /** `URLType(v)`: lookup by value; `None` where Python raises ValueError. */
  function UrlTypeOfValue(v: int): (t: Option<UrlType>)
    ensures t.Some? <==> v == 0 || v == 1
    ensures t.Some? ==> t.value.Value() == v
  {
    if v == 0 then Some(AdifWeb) else if v == 1 then Some(AdifJsInfo) else None
  }

  /** `URLType[name]`: lookup by member name; `None` where Python raises KeyError. */
  function UrlTypeNamed(name: string): (t: Option<UrlType>)
    ensures t.Some? <==> name == "ADIF_WEB" || name == "ADIF_JS_INFO"
    ensures t.Some? ==> t.value.Name() == name
  {
    if name == "ADIF_WEB" then Some(AdifWeb)
    else if name == "ADIF_JS_INFO" then Some(AdifJsInfo)
    else None
  }

  /** Member to value to member and member to name to member are the identity; the two members differ in both. */
  lemma UrlTypeRoundTrips(t: UrlType)
    ensures UrlTypeOfValue(t.Value()) == Some(t)
    ensures UrlTypeNamed(t.Name()) == Some(t)
    ensures t.Value() in {0, 1}
    ensures AdifWeb.Value() != AdifJsInfo.Value() && AdifWeb.Name() != AdifJsInfo.Name()
  {
  }

  /** The columns of `url_scrap`; `url` carries the table's UniqueConstraint. */
  const Columns: seq<Orm.Column> := [
    Orm.Column("url_id", false, true, false, None),
    Orm.Column("url", false, false, true, None),
    Orm.Column("url_type", false, false, false, None),
    Orm.Column("stop_id", true, false, false, Some("stop.stop_id"))
  ]

  /** `url_id` is the primary key, `url` the unique column, `url` and `url_type` are required, and only `stop_id` is a nullable foreign key. */
  lemma ColumnConstraints()
    ensures forall i :: 0 <= i < |Columns| ==> (Columns[i].primaryKey <==> Columns[i].name == "url_id")
    ensures forall i :: 0 <= i < |Columns| ==> (Columns[i].unique <==> Columns[i].name == "url")
    ensures forall i :: 0 <= i < |Columns| ==> (Columns[i].nullable <==> Columns[i].name == "stop_id")
    ensures forall i :: 0 <= i < |Columns| ==>
      (Columns[i].references.Some? <==> Columns[i].name == "stop_id")
    ensures Columns[3].references == Some("stop.stop_id")
  {
  }

  /** A JSON value as `json.load` produces it (arrays, objects and floats are not told apart). */
  datatype Json = JString(s: string) | JInt(i: int) | JBool(b: bool) | JNull | JOther

  /** What an attribute of a URLScrap can hold: a value read from JSON, or a `URLType` member. */
  datatype Value = JsonValue(json: Json) | TypeValue(urlType: UrlType)

  /** The mapped attributes: the four columns and the `stop` relationship. */
  const Attributes: set<string> := {"url_id", "url", "url_type", "stop_id", "stop"}

  /** A URLScrap instance: the attributes assigned so far. */
  datatype UrlScrap = UrlScrap(attrs: map<string, Value>)

  /** Where the constructor puts one keyword argument: a string `stop` goes to `stop_id`. */
  function Route(kv: (string, Value)): (string, Value)
  {
    if kv.0 == "stop" && kv.1.JsonValue? && kv.1.json.JString? then ("stop_id", kv.1) else kv
  }

  function RouteAll(kwargs: seq<(string, Value)>): (r: seq<(string, Value)>)
    ensures |r| == |kwargs|
    ensures forall i :: 0 <= i < |kwargs| ==> r[i] == Route(kwargs[i])
  {
    if kwargs == [] then [] else RouteAll(kwargs[..|kwargs| - 1]) + [Route(kwargs[|kwargs| - 1])]
  }

  /** The instance `URLScrap(**kwargs)` builds. */
  function Assign(kwargs: seq<(string, Value)>): UrlScrap
  {
    UrlScrap(Orm.Apply(map[], Attributes, RouteAll(kwargs)))
  }

  /** `URLScrap.__init__`: the setattr loop over the keyword arguments. */
  method Construct(kwargs: seq<(string, Value)>) returns (u: UrlScrap)
    ensures u == Assign(kwargs)
  {
    var attrs: map<string, Value> := map[];
    ghost var routed := RouteAll(kwargs);
    for i := 0 to |kwargs|
      invariant attrs == Orm.Apply(map[], Attributes, routed[..i])
    {
      Orm.ApplyStep(map[], Attributes, routed, i);
      var key, value := kwargs[i].0, kwargs[i].1;
      if key in Attributes {
        if key == "stop" && value.JsonValue? && value.json.JString? {
          attrs := attrs["stop_id" := value];
        } else {
          attrs := attrs[key := value];
        }
      }
    }
    assert routed[..|kwargs|] == routed;
    u := UrlScrap(attrs);
  }

  /** Keys that name no attribute are ignored: only attributes are ever set. */
  lemma AssignKeys(kwargs: seq<(string, Value)>)
    ensures Assign(kwargs).attrs.Keys <= Attributes
  {
    var r := RouteAll(kwargs);
    forall k | k in Assign(kwargs).attrs ensures k in Attributes {
      Orm.ApplyAt(map[], Attributes, r, k);
    }
  }

  lemma {:induction false} LookupRouted(kwargs: seq<(string, Value)>, k: string)
    requires k != "stop" && k != "stop_id"
    ensures Orm.Lookup(RouteAll(kwargs), k) == Orm.Lookup(kwargs, k)
  {
    if kwargs != [] {
      var r := RouteAll(kwargs);
      assert r[..|r| - 1] == RouteAll(kwargs[..|kwargs| - 1]);
      LookupRouted(kwargs[..|kwargs| - 1], k);
    }
  }

  /** `url_id`, `url` and `url_type` hold the last value supplied for them, and nothing when none was supplied. */
  lemma AssignPlain(kwargs: seq<(string, Value)>, k: string)
    requires k in {"url_id", "url", "url_type"}
    ensures Orm.Get(Assign(kwargs).attrs, k) == Orm.Lookup(kwargs, k)
  {
    Orm.ApplyAt(map[], Attributes, RouteAll(kwargs), k);
    LookupRouted(kwargs, k);
  }

  /** The outcome of `object_hook`: an instance, None, or the KeyError from `URLType[...]`. */
  datatype Hooked = Decoded(u: UrlScrap) | NotAUrl | BadUrlType

  predicate HasUrlKeys(dct: map<string, Json>)
  {
    "url" in dct && "url_type" in dct && "stop" in dct
  }

  /** `URLType[v]` for a JSON value: only a string can name a member. */
  function NamedType(j: Json): Option<UrlType>
  {
    if j.JString? then UrlTypeNamed(j.s) else None
  }

  /** `URLScrap.object_hook`. */
  function ObjectHook(dct: map<string, Json>): (r: Hooked)
    ensures r.NotAUrl? <==> !HasUrlKeys(dct)
    ensures r.BadUrlType? <==> HasUrlKeys(dct) && NamedType(dct["url_type"]).None?
  {
    if HasUrlKeys(dct) then
      match NamedType(dct["url_type"])
      case None => BadUrlType
      case Some(t) =>
        Decoded(Assign([("url", JsonValue(dct["url"])), ("url_type", TypeValue(t)), ("stop", JsonValue(dct["stop"]))]))
    else NotAUrl
  }

  /**
   * A decoded entry holds exactly `url`, `url_type` (the member the name
   * designates) and the stop: in `stop_id` when it is a string, in the
   * `stop` relationship otherwise.
   */
  lemma HookFields(dct: map<string, Json>)
    requires HasUrlKeys(dct) && NamedType(dct["url_type"]).Some?
    ensures var t := NamedType(dct["url_type"]).value;
      var base := map["url" := JsonValue(dct["url"]), "url_type" := TypeValue(t)];
      ObjectHook(dct) == Decoded(UrlScrap(
        if dct["stop"].JString? then base["stop_id" := JsonValue(dct["stop"])]
        else base["stop" := JsonValue(dct["stop"])]))
  {
    var t := NamedType(dct["url_type"]).value;
    var kwargs := [("url", JsonValue(dct["url"])), ("url_type", TypeValue(t)), ("stop", JsonValue(dct["stop"]))];
    var r := RouteAll(kwargs);
    assert r[0] == kwargs[0] && r[1] == kwargs[1];
    assert r[..1][..0] == [] && r[..1][0] == r[0];
    assert Orm.Apply(map[], Attributes, r[..1][..0]) == map[];
    var m1 := Orm.Apply(map[], Attributes, r[..1]);
    assert m1 == map["url" := JsonValue(dct["url"])];
    assert r[..2][..1] == r[..1];
    var m2 := Orm.Apply(map[], Attributes, r[..2]);
    assert m2 == m1["url_type" := TypeValue(t)];
    assert r[..3] == r && r[..3][..2] == r[..2];
  }

  /** The value of `url`, as the count query of the URL import compares it. */
  function UrlOf(u: UrlScrap): Option<Value>
  {
    Orm.Get(u.attrs, "url")
  }

  /** The stop identifier, when `stop_id` holds a string. */
  function StopIdOf(u: UrlScrap): Option<string>
  {
    if "stop_id" in u.attrs && u.attrs["stop_id"].JsonValue? && u.attrs["stop_id"].json.JString?
    then Some(u.attrs["stop_id"].json.s)
    else None
  }
}
