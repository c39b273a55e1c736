// The record store: the `android_*` and `service_*` operations of the
// SQLAlchemy back end over the two soft-delete tables. Each operation is a
// function of the table it reads or writes; `Database` holds the tables and
// applies the writes in place.

module Store {
  import opened Wrappers
  import opened Values
  import opened Errors
  import opened Models
  import opened Query

  /** `require_admin_context`: the operation runs only for an admin context. */
  predicate Admin(ctx: Context)
  {
    ctx.isAdmin
  }

  /** What a successful write leaves behind: the new table and the written
      object as a dictionary. */
  datatype Written = Written(rows: seq<Row>, record: Dict)

  /** The attributes of a written record object: every column of the table,
      plus the keys of `values` that name no column; those were set on the
      object, so the object carries them, but the table never stores them. */
  function Attributes(row: Row, columns: set<string>, values: Dict): (d: Dict)
    ensures d.Keys == columns + values.Keys
    ensures forall k :: k in columns ==> d[k] == row.Field(k)
    ensures forall k :: k in values && k !in columns ==> d[k] == values[k]
  {
    map k | k in columns + values.Keys :: if k in columns then row.Field(k) else values[k]
  }

  /** The merge `ref.update(values)` makes on a stored record. */
  function Merge(row: Row, values: Dict, data: set<string>): (row': Row)
    requires "id" !in data && "deleted" !in data
    ensures row'.id == row.id && row'.deleted == row.deleted
    ensures forall k :: k in data && k in values ==> row'.Field(k) == values[k]
    ensures forall k :: k !in data || k !in values ==> row'.Field(k) == row.Field(k)
  {
    row.(fields := row.fields + Writable(values, data))
  }

  // ------------------------------------------------------------ invariants

  predicate NotNullCounts(rows: seq<Row>)
  {
    forall i :: 0 <= i < |rows| ==> rows[i].Field("report_count") != Null
  }

  ghost predicate InstancesValid(rows: seq<Row>)
  {
    WellFormed(rows, InstanceData) && UuidUnique(rows)
  }

  ghost predicate ServicesValid(rows: seq<Row>)
  {
    WellFormed(rows, ServiceData) && ServicesUnique(rows) && NotNullCounts(rows)
  }

  /** Whether a record other than the one at `except` holds `uuid`. */
  predicate UuidTaken(rows: seq<Row>, uuid: Value, except: int)
  {
    exists j :: 0 <= j < |rows| && j != except && rows[j].Field("uuid") == uuid
  }

  /** Whether `r` clashes on (host, `column`) with a record other than the one
      at `except`. */
  predicate ClashesWith(rows: seq<Row>, r: Row, column: string, except: int)
  {
    exists j :: 0 <= j < |rows| && j != except && Clash(rows[j], r, column)
  }

  // ------------------------------------------------------------- instances

  /** `_android_instance_get`: the first record with `uuid` in the context's
      view, or AndroidNotFound. */
  function InstanceGet(rows: seq<Row>, ctx: Context, uuid: Value): (r: Result<nat>)
    ensures ViewOf(ctx, None).Err? ==> r == Err(ViewOf(ctx, None).error)
    ensures r.Ok? ==>
      (r.value < |rows| && rows[r.value].Field("uuid") == uuid
      && InView(rows[r.value], ViewOf(ctx, None).value))
    ensures r.Ok? ==>
      forall j :: 0 <= j < r.value ==> !(rows[j].Field("uuid") == uuid && InView(rows[j], ViewOf(ctx, None).value))
    ensures ViewOf(ctx, None).Ok? && r.Err? ==>
      (r.error == AndroidNotFound(uuid)
      && forall j :: 0 <= j < |rows| && rows[j].Field("uuid") == uuid ==> !InView(rows[j], ViewOf(ctx, None).value))
  {
    match ViewOf(ctx, None)
    case Err(e) => Err(e)
    case Ok(v) =>
      match FindFirst(rows, v, [FieldIs("uuid", uuid)])
      case None =>
        assert forall j :: 0 <= j < |rows| ==> !Matches(rows[j], v, [FieldIs("uuid", uuid)]);
        Err(AndroidNotFound(uuid))
      case Some(i) =>
        assert Holds([FieldIs("uuid", uuid)][0], rows[i]);
        assert forall j :: 0 <= j < i && rows[j].Field("uuid") == uuid ==> Matches(rows[j], v, [FieldIs("uuid", uuid)]) ==> !InView(rows[j], v);
        Ok(i)
  }

  /** `android_get_all(context, read_deleted)`: the records in the view the
      mode names; an empty mode falls back to the context's own. */
  function AndroidGetAll(rows: seq<Row>, ctx: Context, readDeleted: string): (r: Result<seq<Row>>)
    ensures r == ModelQuery(rows, ctx, Some(readDeleted), [])
    ensures readDeleted != "" && readDeleted !in {"no", "yes", "only"} ==> r == Err(UnrecognizedReadDeleted(readDeleted))
    ensures readDeleted == "yes" ==> r.Ok? && forall x :: x in r.value <==> x in rows
    ensures readDeleted == "no" ==> r.Ok? && forall x :: x in r.value <==> x in rows && Live(x)
    ensures readDeleted == "only" ==> r.Ok? && forall x :: x in r.value <==> x in rows && !Live(x)
  {
    ModelQuery(rows, ctx, Some(readDeleted), [])
  }

  /** `android_get_by_name`: the live records whose display name is `name`,
      in table order. */
  function AndroidGetByName(rows: seq<Row>, name: Value): (s: seq<Row>)
    ensures forall x :: x in s <==> x in rows && Live(x) && x.Field("display_name") == name
  {
    var s := Select(rows, No, [FieldIs("display_name", name)]);
    assert forall x :: x in s ==> Holds([FieldIs("display_name", name)][0], x);
    assert forall x :: x in rows && Holds(FieldIs("display_name", name), x) ==> HoldsAll([FieldIs("display_name", name)], x);
    s
  }

  /** The defaults `android_create` fills in: a fresh uuid, the context's
      project and user, each only when the supplied value is missing or
      false; every supplied truthy value is kept. */
  function FillValues(values: Dict, ctx: Context, freshUuid: string): (v: Dict)
    ensures v.Keys == values.Keys + {"uuid", "project_id", "user_id"}
    ensures forall k :: k in values && k !in {"uuid", "project_id", "user_id"} ==> v[k] == values[k]
    ensures forall k :: k in values && Truthy(values[k]) ==> v[k] == values[k]
    ensures !Truthy(Get(values, "uuid")) ==> v["uuid"] == Str(freshUuid)
    ensures !Truthy(Get(values, "project_id")) ==> v["project_id"] == ctx.projectId
    ensures !Truthy(Get(values, "user_id")) ==> v["user_id"] == ctx.userId
  {
    var v1 := if Truthy(Get(values, "uuid")) then values else values["uuid" := Str(freshUuid)];
    var v2 := if Truthy(Get(v1, "project_id")) then v1 else v1["project_id" := ctx.projectId];
    if Truthy(Get(v2, "user_id")) then v2 else v2["user_id" := ctx.userId]
  }

  /** `android_create(context, values)`; `freshUuid` stands for `uuid.uuid4()`. */
  function AndroidCreateSpec(rows: seq<Row>, ctx: Context, values: Dict, freshUuid: string): (r: Result<Written>)
    ensures !Admin(ctx) ==> r == Err(AdminRequired)
    ensures Admin(ctx) && UuidTaken(rows, FillValues(values, ctx, freshUuid)["uuid"], -1) ==>
      r == Err(DuplicateEntry({"uuid"}))
    ensures r.Ok? ==>
      var filled := FillValues(values, ctx, freshUuid);
      var row := Row(|rows| + 1, Writable(filled, InstanceData), false);
      r.value.rows == rows + [row] && r.value.record == Attributes(row, InstanceColumns, filled)
    ensures Admin(ctx) && !UuidTaken(rows, FillValues(values, ctx, freshUuid)["uuid"], -1) ==> r.Ok?
  {
    if !Admin(ctx) then Err(AdminRequired)
    else
      var filled := FillValues(values, ctx, freshUuid);
      var row := Row(|rows| + 1, Writable(filled, InstanceData), false);
      if UuidTaken(rows, row.Field("uuid"), -1) then Err(DuplicateEntry({"uuid"}))
      else Ok(Written(rows + [row], Attributes(row, InstanceColumns, filled)))
  }

  /** `android_update(context, uuid, values)`: merges `values` into the
      record the context can see; every other record is unchanged. */
  function AndroidUpdateSpec(rows: seq<Row>, ctx: Context, uuid: Value, values: Dict): (r: Result<Written>)
    ensures !Admin(ctx) ==> r == Err(AdminRequired)
    ensures Admin(ctx) && InstanceGet(rows, ctx, uuid).Err? ==> r == Err(InstanceGet(rows, ctx, uuid).error)
    ensures r.Ok? ==>
      (InstanceGet(rows, ctx, uuid).Ok? &&
      var i := InstanceGet(rows, ctx, uuid).value;
      var row := Merge(rows[i], values, InstanceData);
      r.value.rows == rows[i := row] && r.value.record == Attributes(row, InstanceColumns, values))
    ensures Admin(ctx) && InstanceGet(rows, ctx, uuid).Ok? ==>
      var i := InstanceGet(rows, ctx, uuid).value;
      var merged := Merge(rows[i], values, InstanceData).Field("uuid");
      (merged != Null && UuidTaken(rows, merged, i) ==> r == Err(DuplicateEntry({"uuid"})))
      && (!(merged != Null && UuidTaken(rows, merged, i)) ==> r.Ok?)
  {
    if !Admin(ctx) then Err(AdminRequired)
    else
      match InstanceGet(rows, ctx, uuid)
      case Err(e) => Err(e)
      case Ok(i) =>
        var row := Merge(rows[i], values, InstanceData);
        if UuidTaken(rows, row.Field("uuid"), i) && row.Field("uuid") != Null then Err(DuplicateEntry({"uuid"}))
        else Ok(Written(rows[i := row], Attributes(row, InstanceColumns, values)))
  }

  /** `android_destroy(context, uuid)`: soft-deletes every record with `uuid`
      in the context's view, raising AndroidNotFound when there is none. */
  function AndroidDestroySpec(rows: seq<Row>, ctx: Context, uuid: Value): (r: Result<seq<Row>>)
    ensures !Admin(ctx) ==> r == Err(AdminRequired)
    ensures Admin(ctx) && ViewOf(ctx, None).Err? ==> r == Err(ViewOf(ctx, None).error)
    ensures Admin(ctx) && ViewOf(ctx, None).Ok? ==>
      var v := ViewOf(ctx, None).value;
      if exists j :: 0 <= j < |rows| && rows[j].Field("uuid") == uuid && InView(rows[j], v)
      then r.Ok? && |r.value| == |rows| &&
        forall j :: 0 <= j < |rows| ==>
          r.value[j] == if rows[j].Field("uuid") == uuid && InView(rows[j], v) then rows[j].(deleted := true) else rows[j]
      else r == Err(AndroidNotFound(uuid))
  {
    if !Admin(ctx) then Err(AdminRequired)
    else
      match ViewOf(ctx, None)
      case Err(e) => Err(e)
      case Ok(v) =>
        var conds := [FieldIs("uuid", uuid)];
        assert forall x :: Matches(x, v, conds) <==> x.Field("uuid") == uuid && InView(x, v) by {
          forall x ensures Matches(x, v, conds) <==> x.Field("uuid") == uuid && InView(x, v) {
            assert Holds(conds[0], x) <==> x.Field("uuid") == uuid;
          }
        }
        if FindFirst(rows, v, conds).None? then Err(AndroidNotFound(uuid))
        else Ok(SoftDelete(rows, v, conds))
  }

  // -------------------------------------------------------------- services

  /** `_service_get`: the first record with `serviceId` in the context's
      view, or ServiceNotFound. */
  function ServiceGet(rows: seq<Row>, ctx: Context, serviceId: Value): (r: Result<nat>)
    ensures ViewOf(ctx, None).Err? ==> r == Err(ViewOf(ctx, None).error)
    ensures r.Ok? ==>
      (r.value < |rows| && rows[r.value].Field("id") == serviceId
      && InView(rows[r.value], ViewOf(ctx, None).value))
    ensures ViewOf(ctx, None).Ok? && r.Err? ==>
      (r.error == ServiceNotFound(serviceId)
      && forall j :: 0 <= j < |rows| && rows[j].Field("id") == serviceId ==> !InView(rows[j], ViewOf(ctx, None).value))
  {
    match ViewOf(ctx, None)
    case Err(e) => Err(e)
    case Ok(v) =>
      match FindFirst(rows, v, [FieldIs("id", serviceId)])
      case None =>
        assert forall j :: 0 <= j < |rows| ==> !Matches(rows[j], v, [FieldIs("id", serviceId)]);
        Err(ServiceNotFound(serviceId))
      case Some(i) =>
        assert Holds([FieldIs("id", serviceId)][0], rows[i]);
        Ok(i)
  }

  /** `service_get(context, service_id)`. */
  function ServiceGetSpec(rows: seq<Row>, ctx: Context, serviceId: Value): (r: Result<Row>)
    ensures !Admin(ctx) ==> r == Err(AdminRequired)
    ensures Admin(ctx) && ServiceGet(rows, ctx, serviceId).Err? ==> r == Err(ServiceGet(rows, ctx, serviceId).error)
    ensures r.Ok? ==> r.value in rows && r.value.Field("id") == serviceId && InView(r.value, ViewOf(ctx, None).value)
    ensures Admin(ctx) && ServiceGet(rows, ctx, serviceId).Ok? ==> r == Ok(rows[ServiceGet(rows, ctx, serviceId).value])
  {
    if !Admin(ctx) then Err(AdminRequired)
    else
      match ServiceGet(rows, ctx, serviceId)
      case Err(e) => Err(e)
      case Ok(i) => Ok(rows[i])
  }

  /** `service_get_all(context, disabled)`: the filter on `disabled` applies
      only when a value other than None is given. */
  function ServiceGetAll(rows: seq<Row>, ctx: Context, disabled: Value): (r: Result<seq<Row>>)
    ensures !Admin(ctx) ==> r == Err(AdminRequired)
    ensures Admin(ctx) ==> (r.Err? <==> ViewOf(ctx, None).Err?)
    ensures r.Ok? ==> forall x :: x in r.value <==>
      x in rows && InView(x, ViewOf(ctx, None).value) && (disabled != Null ==> x.Field("disabled") == disabled)
  {
    if !Admin(ctx) then Err(AdminRequired)
    else
      var conds := if disabled != Null then [FieldIs("disabled", disabled)] else [];
      assert forall x :: HoldsAll(conds, x) <==> (disabled != Null ==> x.Field("disabled") == disabled) by {
        forall x ensures HoldsAll(conds, x) <==> (disabled != Null ==> x.Field("disabled") == disabled) {
          if disabled != Null { assert Holds(conds[0], x) <==> x.Field("disabled") == disabled; }
        }
      }
      ModelQuery(rows, ctx, None, conds)
  }

  /** `service_get_all_by_topic`: the live, enabled services on `topic`. */
  function ServiceGetAllByTopic(rows: seq<Row>, ctx: Context, topic: Value): (r: Result<seq<Row>>)
    ensures !Admin(ctx) ==> r == Err(AdminRequired)
    ensures Admin(ctx) ==> r.Ok? && forall x :: x in r.value <==>
      x in rows && Live(x) && x.Field("disabled") == Bool(false) && x.Field("topic") == topic
  {
    if !Admin(ctx) then Err(AdminRequired)
    else
      var conds := [FieldIs("disabled", Bool(false)), FieldIs("topic", topic)];
      assert forall x :: HoldsAll(conds, x) <==> x.Field("disabled") == Bool(false) && x.Field("topic") == topic by {
        forall x ensures HoldsAll(conds, x) <==> x.Field("disabled") == Bool(false) && x.Field("topic") == topic {
          assert Holds(conds[0], x) <==> x.Field("disabled") == Bool(false);
          assert Holds(conds[1], x) <==> x.Field("topic") == topic;
        }
      }
      Ok(Select(rows, No, conds))
  }

  /** `service_get_by_host_and_topic`: the first live, enabled service on
      `host` and `topic`, or None. */
  function ServiceGetByHostAndTopic(rows: seq<Row>, ctx: Context, host: Value, topic: Value): (r: Result<Option<Row>>)
    ensures !Admin(ctx) ==> r == Err(AdminRequired)
    ensures Admin(ctx) ==> r.Ok?
    ensures r.Ok? && r.value.Some? ==> var x := r.value.value;
      x in rows && Live(x) && x.Field("disabled") == Bool(false) && x.Field("host") == host && x.Field("topic") == topic
    ensures r.Ok? && r.value.None? ==> forall x :: x in rows && Live(x) && x.Field("disabled") == Bool(false) ==>
      x.Field("host") != host || x.Field("topic") != topic
  {
    if !Admin(ctx) then Err(AdminRequired)
    else
      var conds := [FieldIs("disabled", Bool(false)), FieldIs("host", host), FieldIs("topic", topic)];
      assert forall x :: HoldsAll(conds, x) <==>
          x.Field("disabled") == Bool(false) && x.Field("host") == host && x.Field("topic") == topic by {
        forall x ensures HoldsAll(conds, x) <==>
            x.Field("disabled") == Bool(false) && x.Field("host") == host && x.Field("topic") == topic {
          assert Holds(conds[0], x) <==> x.Field("disabled") == Bool(false);
          assert Holds(conds[1], x) <==> x.Field("host") == host;
          assert Holds(conds[2], x) <==> x.Field("topic") == topic;
        }
      }
      match FindFirst(rows, No, conds)
      case None => Ok(None)
      case Some(i) => Ok(Some(rows[i]))
  }

  /** `service_get_all_by_host`: the live services on `host`. */
  function ServiceGetAllByHost(rows: seq<Row>, ctx: Context, host: Value): (r: Result<seq<Row>>)
    ensures !Admin(ctx) ==> r == Err(AdminRequired)
    ensures Admin(ctx) ==> r.Ok? && forall x :: x in r.value <==> x in rows && Live(x) && x.Field("host") == host
  {
    if !Admin(ctx) then Err(AdminRequired)
    else
      var conds := [FieldIs("host", host)];
      assert forall x :: HoldsAll(conds, x) <==> x.Field("host") == host by {
        forall x ensures HoldsAll(conds, x) <==> x.Field("host") == host {
          assert Holds(conds[0], x) <==> x.Field("host") == host;
        }
      }
      Ok(Select(rows, No, conds))
  }

  /** `service_get_by_compute_host` as written: it asks for the records'
      `compute_node` relationship to be loaded with them, and a Service has
      no such relationship, so building the query fails (SQLAlchemy's
      ArgumentError) for every admin, whatever the table holds. */
  function ServiceGetByComputeHost(rows: seq<Row>, ctx: Context, host: Value, computeTopic: string): (r: Result<Row>)
    ensures !Admin(ctx) ==> r == Err(AdminRequired)
    ensures Admin(ctx) ==> r == Err(UnknownRelation("compute_node"))
  {
    if !Admin(ctx) then Err(AdminRequired)
    else Err(UnknownRelation("compute_node"))
  }

  /** `service_get_by_compute_host` without the load of the missing
      relationship: the first live service on `host` whose topic is the
      configured compute topic, or ComputeHostNotFound. */
  function ServiceGetByComputeHostFixed(rows: seq<Row>, ctx: Context, host: Value, computeTopic: string): (r: Result<Row>)
    ensures !Admin(ctx) ==> r == Err(AdminRequired)
    ensures r.Ok? ==>
      (r.value in rows && Live(r.value) && r.value.Field("host") == host
      && r.value.Field("topic") == Str(computeTopic))
    ensures r.Ok? ==>
      exists i :: 0 <= i < |rows| && rows[i] == r.value
        && forall j :: 0 <= j < i ==> !(Live(rows[j]) && rows[j].Field("host") == host && rows[j].Field("topic") == Str(computeTopic))
    ensures Admin(ctx) && r.Err? ==>
      (r == Err(ComputeHostNotFound(host)) &&
      forall x :: x in rows && Live(x) && x.Field("host") == host ==> x.Field("topic") != Str(computeTopic))
  {
    if !Admin(ctx) then Err(AdminRequired)
    else
      var conds := [FieldIs("host", host), FieldIs("topic", Str(computeTopic))];
      assert forall x :: HoldsAll(conds, x) <==> x.Field("host") == host && x.Field("topic") == Str(computeTopic) by {
        forall x ensures HoldsAll(conds, x) <==> x.Field("host") == host && x.Field("topic") == Str(computeTopic) {
          assert Holds(conds[0], x) <==> x.Field("host") == host;
          assert Holds(conds[1], x) <==> x.Field("topic") == Str(computeTopic);
        }
      }
      match FindFirst(rows, No, conds)
      case None => Err(ComputeHostNotFound(host))
      case Some(i) => Ok(rows[i])
  }

  /** Whenever a live compute service runs on the host, the corrected lookup
      returns one, while the lookup as written fails. */
  lemma ComputeNodeJoinFails(rows: seq<Row>, ctx: Context, host: Value, computeTopic: string, x: Row)
    requires Admin(ctx) && x in rows && Live(x)
    requires x.Field("host") == host && x.Field("topic") == Str(computeTopic)
    ensures ServiceGetByComputeHostFixed(rows, ctx, host, computeTopic).Ok?
    ensures ServiceGetByComputeHost(rows, ctx, host, computeTopic) == Err(UnknownRelation("compute_node"))
  {
  }

  /** `service_get_by_args`: the first service on `host` running `binary` in
      the context's view, or HostBinaryNotFound. */
  function ServiceGetByArgs(rows: seq<Row>, ctx: Context, host: Value, binary: Value): (r: Result<Row>)
    ensures !Admin(ctx) ==> r == Err(AdminRequired)
    ensures Admin(ctx) && ViewOf(ctx, None).Err? ==> r == Err(ViewOf(ctx, None).error)
    ensures r.Ok? ==>
      (r.value in rows && InView(r.value, ViewOf(ctx, None).value)
      && r.value.Field("host") == host && r.value.Field("binary") == binary)
    ensures Admin(ctx) && ViewOf(ctx, None).Ok? && r.Err? ==>
      (r == Err(HostBinaryNotFound(host, binary)) &&
      forall x :: x in rows && InView(x, ViewOf(ctx, None).value) && x.Field("host") == host ==> x.Field("binary") != binary)
  {
    if !Admin(ctx) then Err(AdminRequired)
    else
      match ViewOf(ctx, None)
      case Err(e) => Err(e)
      case Ok(v) =>
        var conds := [FieldIs("host", host), FieldIs("binary", binary)];
        assert forall x :: HoldsAll(conds, x) <==> x.Field("host") == host && x.Field("binary") == binary by {
          forall x ensures HoldsAll(conds, x) <==> x.Field("host") == host && x.Field("binary") == binary {
            assert Holds(conds[0], x) <==> x.Field("host") == host;
            assert Holds(conds[1], x) <==> x.Field("binary") == binary;
          }
        }
        match FindFirst(rows, v, conds)
        case None => Err(HostBinaryNotFound(host, binary))
        case Some(i) => Ok(rows[i])
  }

  /** What an insert sends: a None value for a column that has a default is
      left out of the statement, so the default applies to it. */
  function InsertValues(values: Dict): (v: Dict)
    ensures v.Keys <= values.Keys
    ensures forall k :: k in v ==> v[k] == values[k] && !(k in ServiceDefaults && v[k] == Null)
    ensures forall k :: k in values && !(k in ServiceDefaults && values[k] == Null) ==> k in v
  {
    map k | k in values && !(k in ServiceDefaults && values[k] == Null) :: values[k]
  }

  /** The record `service_create` inserts: the data columns of `values` over
      the column defaults, with `disabled` forced on when new services start
      disabled. A report count given as None takes the default like a
      missing one, so a new record never has a NULL report count. */
  function NewService(id: nat, values: Dict, enableNewServices: bool): (row: Row)
    ensures row.id == id && !row.deleted
    ensures row.fields.Keys <= ServiceData
    ensures forall k ::
      (k in ServiceData && k in values && !(k in ServiceDefaults && values[k] == Null)
       && (k != "disabled" || enableNewServices)) ==> row.Field(k) == values[k]
    ensures Get(values, "report_count") == Null ==> row.Field("report_count") == Int(0)
    ensures row.Field("report_count") != Null
    ensures !enableNewServices ==> row.Field("disabled") == Bool(true)
    ensures enableNewServices && Get(values, "disabled") == Null ==> row.Field("disabled") == Bool(false)
  {
    var fields := ServiceDefaults + Writable(InsertValues(values), ServiceData);
    Row(id, if enableNewServices then fields else fields["disabled" := Bool(true)], false)
  }

  /** `service_create(context, values)`. A violated constraint on
      (host, binary) is reported as ServiceBinaryExists, else one on
      (host, topic) as ServiceTopicExists; both name the values given.
      Without a clash the insert succeeds. */
  function ServiceCreateSpec(rows: seq<Row>, ctx: Context, values: Dict, enableNewServices: bool): (r: Result<Written>)
    ensures !Admin(ctx) ==> r == Err(AdminRequired)
    ensures r.Ok? ==>
      var row := NewService(|rows| + 1, values, enableNewServices);
      r.value.rows == rows + [row] && r.value.record == Attributes(row, ServiceColumns, values)
      && !ClashesWith(rows, row, "binary", -1) && !ClashesWith(rows, row, "topic", -1)
    ensures Admin(ctx) && ClashesWith(rows, NewService(|rows| + 1, values, enableNewServices), "binary", -1) ==>
      r == Err(ServiceBinaryExists(Get(values, "host"), Get(values, "binary")))
    ensures (Admin(ctx) && ClashesWith(rows, NewService(|rows| + 1, values, enableNewServices), "topic", -1)
             && !ClashesWith(rows, NewService(|rows| + 1, values, enableNewServices), "binary", -1)) ==>
      r == Err(ServiceTopicExists(Get(values, "host"), Get(values, "topic")))
    ensures (Admin(ctx) && !ClashesWith(rows, NewService(|rows| + 1, values, enableNewServices), "binary", -1)
             && !ClashesWith(rows, NewService(|rows| + 1, values, enableNewServices), "topic", -1)) ==> r.Ok?
  {
    if !Admin(ctx) then Err(AdminRequired)
    else
      var row := NewService(|rows| + 1, values, enableNewServices);
      if ClashesWith(rows, row, "binary", -1) then
        Err(ServiceBinaryExists(Get(values, "host"), Get(values, "binary")))
      else if ClashesWith(rows, row, "topic", -1) then
        Err(ServiceTopicExists(Get(values, "host"), Get(values, "topic")))
      else Ok(Written(rows + [row], Attributes(row, ServiceColumns, values)))
  }

  /** `service_update(context, service_id, values)`: merges `values` into the
      record the context can see; every other record is unchanged. */
  function ServiceUpdateSpec(rows: seq<Row>, ctx: Context, serviceId: Value, values: Dict): (r: Result<Written>)
    ensures !Admin(ctx) ==> r == Err(AdminRequired)
    ensures Admin(ctx) && ServiceGet(rows, ctx, serviceId).Err? ==> r == Err(ServiceGet(rows, ctx, serviceId).error)
    ensures r.Ok? ==>
      (ServiceGet(rows, ctx, serviceId).Ok? &&
      var i := ServiceGet(rows, ctx, serviceId).value;
      var row := Merge(rows[i], values, ServiceData);
      r.value.rows == rows[i := row] && r.value.record == Attributes(row, ServiceColumns, values)
      && row.Field("report_count") != Null
      && !ClashesWith(rows, row, "binary", i) && !ClashesWith(rows, row, "topic", i))
    ensures Admin(ctx) && ServiceGet(rows, ctx, serviceId).Ok? ==>
      var row := Merge(rows[ServiceGet(rows, ctx, serviceId).value], values, ServiceData);
      var i := ServiceGet(rows, ctx, serviceId).value;
      && (row.Field("report_count") == Null ==> r == Err(NotNullViolation("report_count")))
      && (row.Field("report_count") != Null && ClashesWith(rows, row, "binary", i) ==>
            r == Err(DuplicateEntry({"host", "binary", "deleted"})))
      && (row.Field("report_count") != Null && !ClashesWith(rows, row, "binary", i) && ClashesWith(rows, row, "topic", i) ==>
            r == Err(DuplicateEntry({"host", "topic", "deleted"})))
      && (row.Field("report_count") != Null && !ClashesWith(rows, row, "binary", i) && !ClashesWith(rows, row, "topic", i) ==>
            r.Ok?)
  {
    if !Admin(ctx) then Err(AdminRequired)
    else
      match ServiceGet(rows, ctx, serviceId)
      case Err(e) => Err(e)
      case Ok(i) =>
        var row := Merge(rows[i], values, ServiceData);
        if row.Field("report_count") == Null then Err(NotNullViolation("report_count"))
        else if ClashesWith(rows, row, "binary", i) then Err(DuplicateEntry({"host", "binary", "deleted"}))
        else if ClashesWith(rows, row, "topic", i) then Err(DuplicateEntry({"host", "topic", "deleted"}))
        else Ok(Written(rows[i := row], Attributes(row, ServiceColumns, values)))
  }

  /** `service_destroy(context, service_id)`: soft-deletes the record with
      `serviceId` in the context's view, raising ServiceNotFound when there is
      none. */
  function ServiceDestroySpec(rows: seq<Row>, ctx: Context, serviceId: Value): (r: Result<seq<Row>>)
    ensures !Admin(ctx) ==> r == Err(AdminRequired)
    ensures Admin(ctx) && ViewOf(ctx, None).Err? ==> r == Err(ViewOf(ctx, None).error)
    ensures Admin(ctx) && ViewOf(ctx, None).Ok? ==>
      var v := ViewOf(ctx, None).value;
      if exists j :: 0 <= j < |rows| && rows[j].Field("id") == serviceId && InView(rows[j], v)
      then r.Ok? && |r.value| == |rows| &&
        forall j :: 0 <= j < |rows| ==>
          r.value[j] == if rows[j].Field("id") == serviceId && InView(rows[j], v) then rows[j].(deleted := true) else rows[j]
      else r == Err(ServiceNotFound(serviceId))
  {
    if !Admin(ctx) then Err(AdminRequired)
    else
      match ViewOf(ctx, None)
      case Err(e) => Err(e)
      case Ok(v) =>
        var conds := [FieldIs("id", serviceId)];
        assert forall x :: Matches(x, v, conds) <==> x.Field("id") == serviceId && InView(x, v) by {
          forall x ensures Matches(x, v, conds) <==> x.Field("id") == serviceId && InView(x, v) {
            assert Holds(conds[0], x) <==> x.Field("id") == serviceId;
          }
        }
        if FindFirst(rows, v, conds).None? then Err(ServiceNotFound(serviceId))
        else Ok(SoftDelete(rows, v, conds))
  }
}

module StoreFacts {
  import opened Wrappers
  import opened Values
  import opened Errors
  import opened Models
  import opened Query
  import opened Store

  // ---------------------------------------------- the invariants are kept

  lemma {:induction false} SoftDeleteKeepsWellFormed(rows: seq<Row>, v: View, conds: seq<Cond>, data: set<string>)
    requires WellFormed(rows, data)
    ensures WellFormed(SoftDelete(rows, v, conds), data)
    ensures forall i, k :: 0 <= i < |rows| && k != "deleted" ==> SoftDelete(rows, v, conds)[i].Field(k) == rows[i].Field(k)
  {
  }

  lemma AndroidCreateKeepsValid(rows: seq<Row>, ctx: Context, values: Dict, freshUuid: string)
    requires InstancesValid(rows)
    ensures AndroidCreateSpec(rows, ctx, values, freshUuid).Ok? ==>
      InstancesValid(AndroidCreateSpec(rows, ctx, values, freshUuid).value.rows)
  {
    var r := AndroidCreateSpec(rows, ctx, values, freshUuid);
    if r.Ok? {
      var filled := FillValues(values, ctx, freshUuid);
      var row := Row(|rows| + 1, Writable(filled, InstanceData), false);
      assert r.value.rows == rows + [row];
      assert !UuidTaken(rows, row.Field("uuid"), -1);
      AppendKeepsValid(rows, row);
    }
  }

  /** Appending a record with the next id, only data columns and an unused
      uuid keeps the instance table valid. */
  lemma AppendKeepsValid(rows: seq<Row>, row: Row)
    requires InstancesValid(rows)
    requires row.id == |rows| + 1 && row.fields.Keys <= InstanceData
    requires !UuidTaken(rows, row.Field("uuid"), -1)
    ensures InstancesValid(rows + [row])
  {
    var rows' := rows + [row];
    forall i, j | 0 <= i < j < |rows'| && rows'[i].Field("uuid") != Null
      ensures rows'[i].Field("uuid") != rows'[j].Field("uuid")
    {
      if j == |rows| {
        assert rows'[i] == rows[i];
      } else {
        assert rows'[i] == rows[i] && rows'[j] == rows[j];
      }
    }
  }

  lemma AndroidUpdateKeepsValid(rows: seq<Row>, ctx: Context, uuid: Value, values: Dict)
    requires InstancesValid(rows)
    ensures AndroidUpdateSpec(rows, ctx, uuid, values).Ok? ==>
      InstancesValid(AndroidUpdateSpec(rows, ctx, uuid, values).value.rows)
  {
    var r := AndroidUpdateSpec(rows, ctx, uuid, values);
    if r.Ok? {
      var i := InstanceGet(rows, ctx, uuid).value;
      var row := Merge(rows[i], values, InstanceData);
      assert r.value.rows == rows[i := row];
      assert !(UuidTaken(rows, row.Field("uuid"), i) && row.Field("uuid") != Null);
      ReplaceInstanceKeepsValid(rows, i, row);
    }
  }

  /** Replacing one instance by a record with the same id, only data columns
      and a uuid no other record holds keeps the table valid. */
  lemma ReplaceInstanceKeepsValid(rows: seq<Row>, i: nat, row: Row)
    requires InstancesValid(rows) && i < |rows|
    requires row.id == rows[i].id && row.fields.Keys <= InstanceData
    requires row.Field("uuid") == Null || !UuidTaken(rows, row.Field("uuid"), i)
    ensures InstancesValid(rows[i := row])
  {
    var rows' := rows[i := row];
    forall a, b | 0 <= a < b < |rows'| && rows'[a].Field("uuid") != Null
      ensures rows'[a].Field("uuid") != rows'[b].Field("uuid")
    {
      if a == i {
        assert rows'[b] == rows[b];
      } else if b == i {
        assert rows'[a] == rows[a];
      } else {
        assert rows'[a] == rows[a] && rows'[b] == rows[b];
      }
    }
  }

  lemma AndroidDestroyKeepsValid(rows: seq<Row>, ctx: Context, uuid: Value)
    requires InstancesValid(rows)
    ensures AndroidDestroySpec(rows, ctx, uuid).Ok? ==> InstancesValid(AndroidDestroySpec(rows, ctx, uuid).value)
  {
    var r := AndroidDestroySpec(rows, ctx, uuid);
    if r.Ok? {
      var v := ViewOf(ctx, None).value;
      var conds := [FieldIs("uuid", uuid)];
      assert r.value == SoftDelete(rows, v, conds);
      SoftDeleteKeepsWellFormed(rows, v, conds, InstanceData);
      assert UuidUnique(r.value) by {
        forall i | 0 <= i < |rows| ensures r.value[i].Field("uuid") == rows[i].Field("uuid") {
        }
      }
    }
  }

  lemma ServiceCreateKeepsValid(rows: seq<Row>, ctx: Context, values: Dict, enableNewServices: bool)
    requires ServicesValid(rows)
    ensures ServiceCreateSpec(rows, ctx, values, enableNewServices).Ok? ==>
      ServicesValid(ServiceCreateSpec(rows, ctx, values, enableNewServices).value.rows)
  {
    var r := ServiceCreateSpec(rows, ctx, values, enableNewServices);
    if r.Ok? {
      var row := NewService(|rows| + 1, values, enableNewServices);
      assert r.value.rows == rows + [row];
      assert row.Field("report_count") != Null;
      AppendServiceKeepsValid(rows, row);
    }
  }

  /** Appending a service with the next id, only data columns, a count and
      no clash keeps the service table valid. */
  lemma AppendServiceKeepsValid(rows: seq<Row>, row: Row)
    requires ServicesValid(rows)
    requires row.id == |rows| + 1 && row.fields.Keys <= ServiceData
    requires row.Field("report_count") != Null
    requires !ClashesWith(rows, row, "binary", -1) && !ClashesWith(rows, row, "topic", -1)
    ensures ServicesValid(rows + [row])
  {
    var rows' := rows + [row];
    forall a, b | 0 <= a < b < |rows'|
      ensures !Clash(rows'[a], rows'[b], "topic") && !Clash(rows'[a], rows'[b], "binary")
    {
      if b == |rows| {
        assert rows'[a] == rows[a] && rows'[b] == row;
      } else {
        assert rows'[a] == rows[a] && rows'[b] == rows[b];
      }
    }
    assert ServicesUnique(rows');
  }

  lemma ServiceUpdateKeepsValid(rows: seq<Row>, ctx: Context, serviceId: Value, values: Dict)
    requires ServicesValid(rows)
    ensures ServiceUpdateSpec(rows, ctx, serviceId, values).Ok? ==>
      ServicesValid(ServiceUpdateSpec(rows, ctx, serviceId, values).value.rows)
  {
    var r := ServiceUpdateSpec(rows, ctx, serviceId, values);
    if r.Ok? {
      var i := ServiceGet(rows, ctx, serviceId).value;
      var row := Merge(rows[i], values, ServiceData);
      assert r.value.rows == rows[i := row];
      ReplaceKeepsValid(rows, i, row);
    }
  }

  /** Replacing one service by a record with the same id, only data columns,
      a count, and no clash with the others keeps the table valid. */
  lemma ReplaceKeepsValid(rows: seq<Row>, i: nat, row: Row)
    requires ServicesValid(rows) && i < |rows|
    requires row.id == rows[i].id && row.fields.Keys <= ServiceData
    requires row.Field("report_count") != Null
    requires !ClashesWith(rows, row, "binary", i) && !ClashesWith(rows, row, "topic", i)
    ensures ServicesValid(rows[i := row])
  {
    var rows' := rows[i := row];
    forall a, b | 0 <= a < b < |rows'|
      ensures !Clash(rows'[a], rows'[b], "topic") && !Clash(rows'[a], rows'[b], "binary")
    {
      if a == i {
        assert !Clash(rows[b], row, "topic") && !Clash(rows[b], row, "binary");
      } else if b == i {
        assert !Clash(rows[a], row, "topic") && !Clash(rows[a], row, "binary");
      }
    }
    assert ServicesUnique(rows');
  }

  lemma ServiceDestroyKeepsValid(rows: seq<Row>, ctx: Context, serviceId: Value)
    requires ServicesValid(rows)
    ensures ServiceDestroySpec(rows, ctx, serviceId).Ok? ==>
      ServicesValid(ServiceDestroySpec(rows, ctx, serviceId).value)
  {
    var r := ServiceDestroySpec(rows, ctx, serviceId);
    if r.Ok? {
      var v := ViewOf(ctx, None).value;
      var conds := [FieldIs("id", serviceId)];
      assert r.value == SoftDelete(rows, v, conds);
      var rows' := r.value;
      SoftDeleteKeepsWellFormed(rows, v, conds, ServiceData);
      forall a, b | 0 <= a < b < |rows'|
        ensures !Clash(rows'[a], rows'[b], "topic") && !Clash(rows'[a], rows'[b], "binary")
      {
        assert rows'[a].id == a + 1 && rows'[b].id == b + 1;
        if rows'[a].deleted || rows'[b].deleted {
          // a deleted marker is the record's own id, which no other record shares
          assert rows'[a].Field("deleted") != rows'[b].Field("deleted");
        } else {
          assert rows'[a] == rows[a] && rows'[b] == rows[b];
        }
      }
      assert ServicesUnique(rows');
    }
  }

  // ------------------------------------------------ what the writes promise

  /** A record just created is what a later lookup of its uuid finds, under
      any view that shows live records. */
  lemma {:induction false} CreateThenGet(rows: seq<Row>, ctx: Context, values: Dict, freshUuid: string, reader: Context)
    requires InstancesValid(rows)
    requires AndroidCreateSpec(rows, ctx, values, freshUuid).Ok?
    requires ViewOf(reader, None) == Ok(No) || ViewOf(reader, None) == Ok(Yes)
    ensures var w := AndroidCreateSpec(rows, ctx, values, freshUuid).value;
      var uuid := FillValues(values, ctx, freshUuid)["uuid"];
      InstanceGet(w.rows, reader, uuid) == Ok(|rows|) && w.record["uuid"] == uuid
  {
    InstanceShape();
    var w := AndroidCreateSpec(rows, ctx, values, freshUuid).value;
    var filled := FillValues(values, ctx, freshUuid);
    var uuid := filled["uuid"];
    var row := Row(|rows| + 1, Writable(filled, InstanceData), false);
    assert w.rows == rows + [row];
    assert row.Field("uuid") == uuid && Live(row);
    assert w.rows[|rows|] == row;
    assert !UuidTaken(rows, uuid, -1);
    var v := ViewOf(reader, None).value;
    assert InView(row, v);
    forall j | 0 <= j < |w.rows| && j != |rows| ensures w.rows[j].Field("uuid") != uuid {
      assert w.rows[j] == rows[j];
    }
    OnlyHolderFound(w.rows, reader, uuid, |rows|);
  }

  /** The lookup by uuid finds the only record holding it when that record
      is in view. */
  lemma OnlyHolderFound(rows: seq<Row>, ctx: Context, uuid: Value, k: nat)
    requires ViewOf(ctx, None).Ok?
    requires k < |rows| && rows[k].Field("uuid") == uuid && InView(rows[k], ViewOf(ctx, None).value)
    requires forall j :: 0 <= j < |rows| && j != k ==> rows[j].Field("uuid") != uuid
    ensures InstanceGet(rows, ctx, uuid) == Ok(k)
  {
  }

  /** `android_update` changes only the record it found, and of that record
      only the columns named in `values`. */
  lemma AndroidUpdateMerges(rows: seq<Row>, ctx: Context, uuid: Value, values: Dict)
    requires AndroidUpdateSpec(rows, ctx, uuid, values).Ok?
    ensures var rows' := AndroidUpdateSpec(rows, ctx, uuid, values).value.rows;
      var i := InstanceGet(rows, ctx, uuid).value;
      && |rows'| == |rows|
      && (forall j :: 0 <= j < |rows| && j != i ==> rows'[j] == rows[j])
      && (forall k :: k !in values ==> rows'[i].Field(k) == rows[i].Field(k))
      && (forall k :: k in values && k in InstanceData ==> rows'[i].Field(k) == values[k])
      && rows'[i].deleted == rows[i].deleted
  {
  }

  /** Destroying twice under the 'no' view fails the second time: the first
      destroy left no live record with that uuid. */
  lemma {:induction false} DestroyTwiceFails(rows: seq<Row>, ctx: Context, uuid: Value)
    requires InstancesValid(rows)
    requires ViewOf(ctx, None) == Ok(No)
    requires AndroidDestroySpec(rows, ctx, uuid).Ok?
    ensures AndroidDestroySpec(AndroidDestroySpec(rows, ctx, uuid).value, ctx, uuid) == Err(AndroidNotFound(uuid))
  {
    var rows' := AndroidDestroySpec(rows, ctx, uuid).value;
    forall j | 0 <= j < |rows'| && rows'[j].Field("uuid") == uuid ensures !Live(rows'[j]) {
      assert rows[j].id == j + 1;
      if rows[j].Field("uuid") == uuid && Live(rows[j]) {
        assert rows'[j] == rows[j].(deleted := true);
      } else {
        assert rows'[j] == rows[j];
      }
    }
    NoLiveHolderNotFound(rows', ctx, uuid);
  }

  /** Under the 'no' view, destroying a uuid no live record holds fails. */
  lemma NoLiveHolderNotFound(rows: seq<Row>, ctx: Context, uuid: Value)
    requires Admin(ctx) && ViewOf(ctx, None) == Ok(No)
    requires forall j :: 0 <= j < |rows| && rows[j].Field("uuid") == uuid ==> !Live(rows[j])
    ensures AndroidDestroySpec(rows, ctx, uuid) == Err(AndroidNotFound(uuid))
  {
  }

  /** A soft-deleted record is not gone: the 'yes' view still finds it. */
  lemma {:induction false} DestroyedStaysVisible(rows: seq<Row>, ctx: Context, uuid: Value, reader: Context)
    requires AndroidDestroySpec(rows, ctx, uuid).Ok?
    requires ViewOf(reader, None) == Ok(Yes)
    ensures InstanceGet(AndroidDestroySpec(rows, ctx, uuid).value, reader, uuid).Ok?
  {
    var v := ViewOf(ctx, None).value;
    var j :| 0 <= j < |rows| && rows[j].Field("uuid") == uuid && InView(rows[j], v);
    assert AndroidDestroySpec(rows, ctx, uuid).value[j].Field("uuid") == uuid;
  }
}
