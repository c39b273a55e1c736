// The services admin controller: the listing with its host and binary
// filters, the check on a disable reason, and the enable/disable action,
// both as written (it never reaches the store) and as intended.

module ServicesApi {
  import opened Wrappers
  import opened Values
  import opened Errors
  import opened Models
  import opened Query
  import Store
  import opened Backend
  import opened ConductorManager
  import ConductorApi

  // ------------------------------------------------------------- listing

  /** The records of `ds` whose `key` entry equals `v`, in their order. */
  function FilterBy(ds: seq<Dict>, key: string, v: Value): (r: seq<Dict>)
    ensures |r| <= |ds|
    ensures forall d :: d in r <==> d in ds && Get(d, key) == v
  {
    if ds == [] then []
    else if Get(ds[0], key) == v then [ds[0]] + FilterBy(ds[1..], key, v)
    else FilterBy(ds[1..], key, v)
  }

  /** Filtering keeps the order: it distributes over concatenation. */
  lemma {:induction false} FilterByAppend(a: seq<Dict>, b: seq<Dict>, key: string, v: Value)
    ensures FilterBy(a + b, key, v) == FilterBy(a, key, v) + FilterBy(b, key, v)
  {
    if a == [] {
      assert a + b == b;
    } else {
      assert (a + b)[1..] == a[1..] + b;
      FilterByAppend(a[1..], b, key, v);
    }
  }

  /** The host filter and the binary filter can be applied in either order. */
  lemma {:induction false} FiltersCommute(ds: seq<Dict>, k1: string, v1: Value, k2: string, v2: Value)
    ensures FilterBy(FilterBy(ds, k1, v1), k2, v2) == FilterBy(FilterBy(ds, k2, v2), k1, v1)
  {
    if ds != [] {
      FiltersCommute(ds[1..], k1, v1, k2, v2);
    }
  }

  /** The query parameter `name`, or '' when the request has none. */
  function Param(query: map<string, string>, name: string): string
  {
    if name in query then query[name] else ""
  }

  /** `_get_services(req)`: every service, then only those on the requested
      host when one is given, then only those of the requested binary when
      one is given. `index` and `detail` answer with this list. */
  function GetServices(rows: seq<Row>, ctx: Context, query: map<string, string>): (r: Result<seq<Dict>>)
    ensures Store.ServiceGetAll(rows, ctx, Null).Err? ==> r == Err(Store.ServiceGetAll(rows, ctx, Null).error)
    ensures Store.ServiceGetAll(rows, ctx, Null).Ok? ==>
      (r.Ok? && |r.value| <= |Store.ServiceGetAll(rows, ctx, Null).value|
      && forall d :: d in r.value <==>
           (d in Primitives(Store.ServiceGetAll(rows, ctx, Null).value)
           && (Param(query, "host") != "" ==> Get(d, "host") == Str(Param(query, "host")))
           && (Param(query, "binary") != "" ==> Get(d, "binary") == Str(Param(query, "binary")))))
  {
    match ConductorApi.ServiceGetAll(rows, ctx)
    case Err(e) => Err(e)
    case Ok(reply) =>
      var services := reply.items;
      var host := Param(query, "host");
      var binary := Param(query, "binary");
      var byHost := if host != "" then FilterBy(services, "host", Str(host)) else services;
      Ok(if binary != "" then FilterBy(byHost, "binary", Str(binary)) else byHost)
  }

  /** Without filters the listing is every service the context can see. */
  lemma NoFilterListsAll(rows: seq<Row>, ctx: Context)
    requires Store.ServiceGetAll(rows, ctx, Null).Ok?
    ensures GetServices(rows, ctx, map[]) == Ok(Primitives(Store.ServiceGetAll(rows, ctx, Null).value))
  {
  }

  // ------------------------------------------------------ request pieces

  /** `_is_valid_as_reason(reason)`: a string whose stripped length is 1 to
      255, where the string comes from a JSON body and so strips Unicode
      white space; anything that is not a string has no `strip` and raises. */
  function IsValidAsReason(reason: Value): (r: Result<bool>)
    ensures !reason.Str? ==> r == Err(AttributeError("strip"))
    ensures reason.Str? ==> (r.Ok? && (r.value <==> 1 <= |Strip(reason.s, Unicode)| <= 255))
  {
    if !reason.Str? then Err(AttributeError("strip"))
    else
      var n := |Strip(reason.s, Unicode)|;
      Ok(1 <= n <= 255)
  }

  /** A reason of blanks only is rejected, whatever its length. */
  lemma BlankReasonInvalid(s: string)
    requires forall i :: 0 <= i < |s| ==> IsSpace(s[i], Unicode)
    ensures IsValidAsReason(Str(s)) == Ok(false)
  {
    StripTrims(s, Unicode);
  }

  /** `v[key]` on a request value: a KeyError on a dictionary without the
      key, a TypeError on anything that is not a dictionary. */
  function Index(v: Value, key: string): (r: Result<Value>)
    ensures v.Obj? && key in v.fields ==> r == Ok(v.fields[key])
    ensures v.Obj? && key !in v.fields ==> r == Err(KeyError(key))
    ensures !v.Obj? ==> r == Err(TypeError)
  {
    if !v.Obj? then Err(TypeError)
    else if key in v.fields then Ok(v.fields[key])
    else Err(KeyError(key))
  }

  /** `key in v`: a key of a dictionary, an element of a list, a substring of
      a string; a TypeError on anything else. */
  function Contains(v: Value, key: string): (r: Result<bool>)
    ensures v.Obj? ==> r == Ok(key in v.fields)
    ensures v.List? ==> r == Ok(Str(key) in v.items)
    ensures v.Str? ==> r == Ok(Find(v.s, key) >= 0)
    ensures r.Err? <==> !(v.Obj? || v.List? || v.Str?)
  {
    match v
    case Obj(f) => Ok(key in f)
    case List(items) => Ok(Str(key) in items)
    case Str(s) => Ok(Find(s, key) >= 0)
    case _ => Err(TypeError)
  }

  /** The change an action makes: the `disabled` flag and the reported
      status. */
  datatype Toggle = Toggle(disabled: bool, status: string)

  /** The action named by the path: 'enable', 'disable' or
      'disable-log-reason'. */
  function ActionFor(id: string): (t: Option<Toggle>)
    ensures id == "enable" <==> t == Some(Toggle(false, "enabled"))
    ensures id == "disable" || id == "disable-log-reason" <==> t == Some(Toggle(true, "disabled"))
    ensures t.None? <==> id !in {"enable", "disable", "disable-log-reason"}
  {
    if id == "enable" then Some(Toggle(false, "enabled"))
    else if id == "disable" || id == "disable-log-reason" then Some(Toggle(true, "disabled"))
    else None
  }

  const InvalidReason: string := "Disabled reason contains invalid characters or is too long"
  const InvalidAttribute: string := "Invalid attribute in the request"
  const MissingReason: string := "Missing disabled reason field"

  /** What an accepted request asks for: the service's host and binary, the
      values to store and the reply. */
  datatype Plan = Plan(host: Value, binary: Value, statusDetail: Dict, reply: Dict)

  /** The reason a 'disable-log-reason' request logs: the service entry's
      `disabled_reason`, which must be a valid reason. */
  function ReadReason(svc: Value): (r: Result<Value>)
    ensures r.Ok? ==>
      (svc.Obj? && "disabled_reason" in svc.fields && r.value == svc.fields["disabled_reason"]
      && r.value.Str? && 1 <= |Strip(r.value.s, Unicode)| <= 255)
    ensures r.Err? && r.error.HttpBadRequest? ==> r.error.detail == InvalidReason
  {
    match Index(svc, "disabled_reason")
    case Err(e) => Err(e)
    case Ok(reason) =>
      match IsValidAsReason(reason)
      case Err(e) => Err(e)
      case Ok(valid) => if valid then Ok(reason) else Err(HttpBadRequest(InvalidReason))
  }

  /** `status_detail` and `ret_value` for a request naming `host` and
      `binary`; a logged reason goes into both. */
  function MakePlan(host: Value, binary: Value, t: Toggle, reason: Option<Value>): (p: Plan)
    ensures p.host == host && p.binary == binary
    ensures p.statusDetail.Keys == {"disabled", "disabled_reason"}
    ensures p.statusDetail["disabled"] == Bool(t.disabled)
    ensures p.statusDetail["disabled_reason"] == if reason.Some? then reason.value else Null
    ensures p.reply.Keys == {"service"} && p.reply["service"].Obj?
    ensures var reply := p.reply["service"].fields;
      reply.Keys == {"host", "binary", "status"} + (if reason.Some? then {"disabled_reason"} else {})
      && reply["host"] == host && reply["binary"] == binary && reply["status"] == Str(t.status)
  {
    var detail := map["disabled" := Bool(t.disabled), "disabled_reason" := Null];
    var reply := map["host" := host, "binary" := binary, "status" := Str(t.status)];
    match reason
    case None => Plan(host, binary, detail, map["service" := Obj(reply)])
    case Some(x) =>
      Plan(host, binary, detail["disabled_reason" := x], map["service" := Obj(reply["disabled_reason" := x])])
  }

  /** The body of `update` inside its `try`: the errors are those raised,
      before the handler sees them. */
  function ReadBody(id: string, body: Value, t: Toggle): (r: Result<Plan>)
    ensures r.Ok? ==> BodyFields(body) && PlanShape(id, body.fields["service"].fields, t, r.value)
    ensures r.Err? && r.error.HttpBadRequest? ==> r.error.detail == InvalidReason
  {
    match Index(body, "service")
    case Err(e) => Err(e)
    case Ok(svc) =>
      match Index(svc, "host")
      case Err(e) => Err(e)
      case Ok(host) =>
        match Index(svc, "binary")
        case Err(e) => Err(e)
        case Ok(binary) =>
          if id != "disable-log-reason" then Ok(MakePlan(host, binary, t, None))
          else
            match ReadReason(svc)
            case Err(e) => Err(e)
            case Ok(reason) => Ok(MakePlan(host, binary, t, Some(reason)))
  }

  /** The handler for a KeyError or TypeError: the message depends on whether
      the body itself (not its `service` entry) has `host` and `binary`. */
  function BadRequest(body: Value): (r: Result<Plan>)
    ensures r.Err?
  {
    match Contains(body, "host")
    case Err(e) => Err(e)
    case Ok(hasHost) =>
      if !hasHost then Err(HttpBadRequest(InvalidAttribute))
      else
        match Contains(body, "binary")
        case Err(e) => Err(e)
        case Ok(hasBinary) => Err(HttpBadRequest(if hasBinary then MissingReason else InvalidAttribute))
  }

  /** The body has a `service` dictionary with a host and a binary. */
  predicate BodyFields(body: Value)
  {
    body.Obj? && "service" in body.fields && body.fields["service"].Obj?
    && "host" in body.fields["service"].fields && "binary" in body.fields["service"].fields
  }

  /** What an accepted request asks for, given its `service` entry: the host
      and binary it names, the flag of the action, a reason reset to None
      unless the action logs one (then a valid string), and the reply. */
  predicate PlanShape(id: string, svc: Dict, t: Toggle, p: Plan)
  {
    && "host" in svc && "binary" in svc
    && p.host == svc["host"] && p.binary == svc["binary"]
    && p.statusDetail.Keys == {"disabled", "disabled_reason"}
    && p.statusDetail["disabled"] == Bool(t.disabled)
    && (id != "disable-log-reason" ==> p.statusDetail["disabled_reason"] == Null)
    && (id == "disable-log-reason" ==>
          "disabled_reason" in svc && p.statusDetail["disabled_reason"] == svc["disabled_reason"]
          && svc["disabled_reason"].Str? && 1 <= |Strip(svc["disabled_reason"].s, Unicode)| <= 255)
    && p.reply.Keys == {"service"} && p.reply["service"].Obj?
    && var reply := p.reply["service"].fields;
       "host" in reply && "binary" in reply && "status" in reply
       && reply["host"] == p.host && reply["binary"] == p.binary && reply["status"] == Str(t.status)
  }

  /** The request part of `update(req, id, body)`: the action, then the
      body, with KeyError and TypeError turned into a bad request. */
  function UpdatePlan(id: string, body: Value): (r: Result<Plan>)
    ensures ActionFor(id).None? ==> r == Err(HttpNotFound("Unknown action"))
    ensures r.Ok? ==>
      (ActionFor(id).Some? && BodyFields(body)
      && PlanShape(id, body.fields["service"].fields, ActionFor(id).value, r.value)
      && r.value.statusDetail["disabled"] == Bool(id != "enable"))
    ensures r.Err? && r.error.HttpBadRequest? ==>
      r.error.detail in {InvalidReason, InvalidAttribute, MissingReason}
  {
    match ActionFor(id)
    case None => Err(HttpNotFound("Unknown action"))
    case Some(t) =>
      match ReadBody(id, body, t)
      case Ok(p) => Ok(p)
      case Err(e) => if e.KeyError? || e.TypeError? then BadRequest(body) else Err(e)
  }

  /** A well-formed body whose service lacks its host or binary is a bad
      request for an invalid attribute. */
  lemma MissingHostOrBinaryRejected(id: string, svc: Dict)
    requires ActionFor(id).Some?
    requires "host" !in svc || "binary" !in svc
    ensures UpdatePlan(id, Obj(map["service" := Obj(svc)])) == Err(HttpBadRequest(InvalidAttribute))
  {
  }

  /** A reason that strips to nothing or to more than 255 characters is a
      bad request. */
  lemma InvalidReasonRejected(host: Value, binary: Value, reason: string)
    requires !(1 <= |Strip(reason, Unicode)| <= 255)
    ensures UpdatePlan("disable-log-reason",
      Obj(map["service" := Obj(map["host" := host, "binary" := binary, "disabled_reason" := Str(reason)])]))
      == Err(HttpBadRequest(InvalidReason))
  {
    var svc := map["host" := host, "binary" := binary, "disabled_reason" := Str(reason)];
    assert ReadReason(Obj(svc)) == Err(HttpBadRequest(InvalidReason));
    assert ReadBody("disable-log-reason", Obj(map["service" := Obj(svc)]), Toggle(true, "disabled"))
      == Err(HttpBadRequest(InvalidReason));
  }

  /** A missing reason in a well-formed body is reported as an invalid
      attribute, not as a missing reason: the handler looks for `host` and
      `binary` in the body, where a well-formed request has only `service`. */
  lemma MissingReasonMessage(host: Value, binary: Value)
    ensures UpdatePlan("disable-log-reason", Obj(map["service" := Obj(map["host" := host, "binary" := binary])]))
      == Err(HttpBadRequest(InvalidAttribute))
  {
  }

  // ---------------------------------------------------- update as written

  /** `update` as written: after the request is read, `_update_service`
      takes the primitive dictionary the lookup returns, updates that copy
      and calls `save` on it, which a dictionary does not have; a list reply
      has no `update`. Only ServiceNotFound becomes a 404. */
  function UpdateAsWritten(rows: seq<Row>, ctx: Context, id: string, body: Value): (r: Result<Dict>)
    ensures r.Err?
    ensures UpdatePlan(id, body).Err? ==> r == Err(UpdatePlan(id, body).error)
    ensures r.error.HttpNotFoundFrom? ==> r.error.cause.ServiceNotFound?
  {
    match UpdatePlan(id, body)
    case Err(e) => Err(e)
    case Ok(p) =>
      match ConductorApi.ServiceGetByArgs(rows, ctx, p.host, p.binary)
      case Err(e) => Err(if e.ServiceNotFound? then HttpNotFoundFrom(e) else e)
      case Ok(One(_)) => Err(AttributeError("save"))
      case Ok(_) => Err(AttributeError("update"))
  }

  /** As written, `update` never succeeds, so no service is ever enabled or
      disabled through it: a found service fails on `save`, and an unknown
      (host, binary) escapes the 404 handler as HostBinaryNotFound. */
  lemma {:induction false} UpdateAsWrittenFails(rows: seq<Row>, ctx: Context, id: string, body: Value)
    ensures UpdateAsWritten(rows, ctx, id, body).Err?
    ensures
      (UpdatePlan(id, body).Ok? && Store.Admin(ctx)
      && Truthy(UpdatePlan(id, body).value.host) && Truthy(UpdatePlan(id, body).value.binary)) ==>
        var p := UpdatePlan(id, body).value;
        match Store.ServiceGetByArgs(rows, ctx, p.host, p.binary)
        case Ok(_) => UpdateAsWritten(rows, ctx, id, body) == Err(AttributeError("save"))
        case Err(e) => UpdateAsWritten(rows, ctx, id, body) == Err(e)
  {
  }

  // ------------------------------------------------- update as intended

  /** `update` as intended: the status detail is stored on the service the
      lookup found, and any not-found error becomes a 404. */
  function UpdateSpec(rows: seq<Row>, ctx: Context, id: string, body: Value): (r: Result<Store.Written>)
    ensures UpdatePlan(id, body).Err? ==> r == Err(UpdatePlan(id, body).error)
    ensures r.Ok? ==> UpdatePlan(id, body).Ok? && r.value.record == UpdatePlan(id, body).value.reply
  {
    match UpdatePlan(id, body)
    case Err(e) => Err(e)
    case Ok(p) =>
      match ConductorApi.ServiceGetByArgs(rows, ctx, p.host, p.binary)
      case Err(e) => Err(if IsNotFound(e) then HttpNotFoundFrom(e) else e)
      case Ok(One(d)) =>
        if "id" !in d then Err(KeyError("id"))
        else
          (match Store.ServiceUpdateSpec(rows, ctx, d["id"], p.statusDetail)
           case Err(e) => Err(if IsNotFound(e) then HttpNotFoundFrom(e) else e)
           case Ok(w) => Ok(Store.Written(w.rows, p.reply)))
      case Ok(_) => Err(TypeError)
  }

  /** A successful corrected update stores the requested flag and reason on
      the service with the requested host and binary, and changes no other
      service. */
  lemma {:induction false} UpdateWritesService(rows: seq<Row>, ctx: Context, id: string, body: Value)
    requires WellFormed(rows, ServiceData)
    requires UpdateSpec(rows, ctx, id, body).Ok?
    ensures var p := UpdatePlan(id, body).value;
      var after := UpdateSpec(rows, ctx, id, body).value.rows;
      |after| == |rows|
      && exists i ::
        (0 <= i < |rows|
        && rows[i].Field("host") == p.host && rows[i].Field("binary") == p.binary
        && after[i].Field("disabled") == Bool(id != "enable")
        && after[i].Field("disabled_reason") == p.statusDetail["disabled_reason"]
        && (forall j :: 0 <= j < |rows| && j != i ==> after[j] == rows[j]))
  {
    var p := UpdatePlan(id, body).value;
    var x := UpdateFindsService(rows, ctx, id, body);
    var i := UpdateStoresOn(rows, ctx, x, p.statusDetail);
  }

  /** The store's update of a record found by the lookup writes the flag and
      the reason into that record and into no other. */
  lemma UpdateStoresOn(rows: seq<Row>, ctx: Context, x: Row, detail: Dict) returns (i: nat)
    requires WellFormed(rows, ServiceData)
    requires x in rows
    requires "disabled" in detail && "disabled_reason" in detail
    requires Store.ServiceUpdateSpec(rows, ctx, x.ToDict(ServiceColumns)["id"], detail).Ok?
    ensures i < |rows| && rows[i] == x
    ensures var after := Store.ServiceUpdateSpec(rows, ctx, x.ToDict(ServiceColumns)["id"], detail).value.rows;
      |after| == |rows|
      && after[i].Field("disabled") == detail["disabled"]
      && after[i].Field("disabled_reason") == detail["disabled_reason"]
      && forall j :: 0 <= j < |rows| && j != i ==> after[j] == rows[j]
  {
    ServiceShape();
    var sid := x.ToDict(ServiceColumns)["id"];
    i := Store.ServiceGet(rows, ctx, sid).value;
    SameIdSameRecord(rows, x, i);
    var row := Store.Merge(rows[i], detail, ServiceData);
    assert Store.ServiceUpdateSpec(rows, ctx, sid, detail).value.rows == rows[i := row];
  }

  /** A successful corrected update went through the (host, binary) lookup
      and the store's update of the record it found. */
  lemma UpdateFindsService(rows: seq<Row>, ctx: Context, id: string, body: Value) returns (x: Row)
    requires UpdateSpec(rows, ctx, id, body).Ok?
    ensures var p := UpdatePlan(id, body).value;
      Store.ServiceGetByArgs(rows, ctx, p.host, p.binary) == Ok(x)
      && Store.ServiceUpdateSpec(rows, ctx, x.ToDict(ServiceColumns)["id"], p.statusDetail).Ok?
      && UpdateSpec(rows, ctx, id, body).value.rows
         == Store.ServiceUpdateSpec(rows, ctx, x.ToDict(ServiceColumns)["id"], p.statusDetail).value.rows
  {
    ServiceShape();
    var p := UpdatePlan(id, body).value;
    var found := ConductorApi.ServiceGetByArgs(rows, ctx, p.host, p.binary);
    assert found.Ok? && found.value.One?;
    assert Truthy(p.host) && Truthy(p.binary);
    x := Store.ServiceGetByArgs(rows, ctx, p.host, p.binary).value;
  }

  /** In a well-formed table the record whose id column equals a stored
      record's id is that record. */
  lemma SameIdSameRecord(rows: seq<Row>, x: Row, i: nat)
    requires WellFormed(rows, ServiceData)
    requires x in rows && i < |rows|
    requires rows[i].Field("id") == x.ToDict(ServiceColumns)["id"]
    ensures rows[i] == x
  {
    assert "id" in ServiceColumns;
    var k :| 0 <= k < |rows| && rows[k] == x;
    assert rows[k].id == k + 1 && rows[i].id == i + 1;
  }

  /** An unknown action changes nothing, whatever the body and the store. */
  lemma UnknownActionChangesNothing(rows: seq<Row>, ctx: Context, id: string, body: Value)
    requires ActionFor(id).None?
    ensures UpdateSpec(rows, ctx, id, body) == Err(HttpNotFound("Unknown action"))
    ensures UpdateAsWritten(rows, ctx, id, body) == Err(HttpNotFound("Unknown action"))
  {
  }

  class ServiceController {
    const db: Database

    constructor (db: Database)
      ensures this.db == db
    {
      this.db := db;
    }

    /** `update(req, id, body)` with `_update_service` storing the status
        detail through the store's `service_update`. */
    method Update(ctx: Context, id: string, body: Value) returns (r: Result<Dict>)
      requires db.Valid()
      modifies db
      ensures db.Valid()
      ensures db.instances == old(db.instances)
      ensures Applied(UpdateSpec(old(db.services), ctx, id, body), old(db.services), db.services, r)
    {
      var plan := UpdatePlan(id, body);
      if plan.Err? {
        return Err(plan.error);
      }
      var p := plan.value;
      var found := ConductorApi.ServiceGetByArgs(db.services, ctx, p.host, p.binary);
      if found.Err? {
        return Err(if IsNotFound(found.error) then HttpNotFoundFrom(found.error) else found.error);
      }
      if !found.value.One? {
        return Err(TypeError);
      }
      var service := found.value.item;
      if "id" !in service {
        return Err(KeyError("id"));
      }
      var updated := db.ServiceUpdate(ctx, service["id"], p.statusDetail);
      if updated.Err? {
        return Err(if IsNotFound(updated.error) then HttpNotFoundFrom(updated.error) else updated.error);
      }
      r := Ok(p.reply);
    }
  }
}
