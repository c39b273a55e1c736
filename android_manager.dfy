// The android worker: it records a new android under its own host, removes
// one, and runs each lifecycle action as two status writes through the
// mediator — a task marker first, then the target state.

module AgentManager {
  import opened Wrappers
  import opened Values
  import opened Errors
  import opened Models
  import opened Query
  import opened Store
  import opened Backend
  import opened AndroidRpcApi
  import AndroidApi
  import AndroidConductor

  /** The task marker a lifecycle action writes first. */
  function Marker(a: Action): TaskStatus
    requires a != Destroy
  {
    match a
    case Activate => Activing
    case Deactivate => Deactiving
    case Start => Starting
    case Stop => Stoping
  }

  /** The state a lifecycle action ends in. */
  function Target(a: Action): RbStatus
    requires a != Destroy
  {
    match a
    case Activate => Active
    case Deactivate => Ready
    case Start => Working
    case Stop => Active
  }

  /** The dictionary `_android_status_update` sends: the android state set
      when one is given, the `task_status` key always set. */
  function StatusValues(d: Dict, status: Value, task: Value): (d': Dict)
    ensures d'.Keys == d.Keys + {"task_status"} + (if status != Null then {"android_state"} else {})
    ensures d'["task_status"] == task
    ensures status != Null ==> d'["android_state"] == status
    ensures forall k :: k in d && k != "task_status" && (status == Null || k != "android_state") ==> d'[k] == d[k]
  {
    (if status != Null then d["android_state" := status] else d)["task_status" := task]
  }

  /** One status write on the instance table: the record named by the
      dictionary's uuid is updated from the whole dictionary. */
  function StatusUpdateSpec(rows: seq<Row>, ctx: Context, d: Dict, status: Value, task: Value): (r: Result<Written>)
    ensures "uuid" !in d ==> r == Err(KeyError("uuid"))
    ensures "uuid" in d ==> r == AndroidUpdateSpec(rows, ctx, d["uuid"], StatusValues(d, status, task))
  {
    var d' := StatusValues(d, status, task);
    if "uuid" !in d' then Err(KeyError("uuid")) else AndroidUpdateSpec(rows, ctx, d'["uuid"], d')
  }

  /** The store after a lifecycle action: the marker write, then, only if it
      succeeded, the write of the target state. */
  function TransitionSpec(rows: seq<Row>, ctx: Context, d: Dict, a: Action): (r: Result<seq<Row>>)
    requires a != Destroy
    ensures StatusUpdateSpec(rows, ctx, d, Null, Task(Marker(a))).Err? ==>
      r == Err(StatusUpdateSpec(rows, ctx, d, Null, Task(Marker(a))).error)
    ensures StatusUpdateSpec(rows, ctx, d, Null, Task(Marker(a))).Ok? ==> r.Ok? && |r.value| == |rows|
  {
    match StatusUpdateSpec(rows, ctx, d, Null, Task(Marker(a)))
    case Err(e) => Err(e)
    case Ok(w) =>
      TargetWriteSucceeds(rows, ctx, d, a);
      match StatusUpdateSpec(w.rows, ctx, StatusValues(d, Null, Task(Marker(a))), Rb(Target(a)), Null)
      case Err(e) => Err(e)
      case Ok(w') => Ok(w'.rows)
  }

  /** On a valid instance table, an admin's lifecycle action on an android
      the admin can see goes through: the marker write finds the record and
      its uuid clashes with no other, and the target write then follows. */
  lemma MarkerWriteSucceeds(rows: seq<Row>, ctx: Context, d: Dict, a: Action)
    requires a != Destroy
    requires InstancesValid(rows) && Admin(ctx) && ViewOf(ctx, None).Ok? && "uuid" in d
    requires exists j :: 0 <= j < |rows| && rows[j].Field("uuid") == d["uuid"] && InView(rows[j], ViewOf(ctx, None).value)
    ensures StatusUpdateSpec(rows, ctx, d, Null, Task(Marker(a))).Ok?
    ensures TransitionSpec(rows, ctx, d, a).Ok?
  {
    InstanceShape();
    var uuid := d["uuid"];
    var i := InstanceGet(rows, ctx, uuid).value;
    var values := StatusValues(d, Null, Task(Marker(a)));
    assert Merge(rows[i], values, InstanceData).Field("uuid") == uuid;
  }

  /** The two ways a lifecycle action's writes can go: the first write fails
      and the action stops there, or it succeeds and the second decides. */
  lemma TransitionStops(rows: seq<Row>, ctx: Context, d: Dict, a: Action, after: seq<Row>, r: Result<Dict>)
    requires a != Destroy
    requires Applied(StatusUpdateSpec(rows, ctx, d, Null, Task(Marker(a))), rows, after, r)
    requires r.Err?
    ensures Removed(TransitionSpec(rows, ctx, d, a), rows, after, Fail(r.error))
  {
  }

  lemma TransitionContinues(rows: seq<Row>, ctx: Context, d: Dict, a: Action,
                            rows1: seq<Row>, r1: Result<Dict>, after: seq<Row>, r: Result<Dict>)
    requires a != Destroy
    requires Applied(StatusUpdateSpec(rows, ctx, d, Null, Task(Marker(a))), rows, rows1, r1)
    requires r1.Ok?
    requires Applied(StatusUpdateSpec(rows1, ctx, StatusValues(d, Null, Task(Marker(a))), Rb(Target(a)), Null), rows1, after, r)
    ensures r.Ok?
    ensures Removed(TransitionSpec(rows, ctx, d, a), rows, after, Pass)
  {
    TargetWriteSucceeds(rows, ctx, d, a);
  }

  /** Once the marker write has gone through, the write of the target state
      cannot fail: the record is found at the same place and its uuid is
      still its own. */
  lemma {:induction false} TargetWriteSucceeds(rows: seq<Row>, ctx: Context, d: Dict, a: Action)
    requires a != Destroy
    requires StatusUpdateSpec(rows, ctx, d, Null, Task(Marker(a))).Ok?
    ensures StatusUpdateSpec(StatusUpdateSpec(rows, ctx, d, Null, Task(Marker(a))).value.rows, ctx,
                             StatusValues(d, Null, Task(Marker(a))), Rb(Target(a)), Null).Ok?
  {
    var d1 := StatusValues(d, Null, Task(Marker(a)));
    var d2 := StatusValues(d1, Rb(Target(a)), Null);
    assert d1["uuid"] == d["uuid"] && d2["uuid"] == d["uuid"];
    RewriteSucceeds(rows, ctx, d["uuid"], d1, d2);
  }

  /** A second update of the same record by its own uuid succeeds whenever
      the first one did. */
  lemma {:induction false} RewriteSucceeds(rows: seq<Row>, ctx: Context, uuid: Value, v1: Dict, v2: Dict)
    requires AndroidUpdateSpec(rows, ctx, uuid, v1).Ok?
    requires "uuid" in v1 && v1["uuid"] == uuid && "uuid" in v2 && v2["uuid"] == uuid
    ensures AndroidUpdateSpec(AndroidUpdateSpec(rows, ctx, uuid, v1).value.rows, ctx, uuid, v2).Ok?
  {
    InstanceShape();
    UpdateKeepsLookup(rows, ctx, uuid, v1);
    var i := InstanceGet(rows, ctx, uuid).value;
    var row1 := Merge(rows[i], v1, InstanceData);
    var rows1 := rows[i := row1];
    assert AndroidUpdateSpec(rows, ctx, uuid, v1).value.rows == rows1;
    assert !UuidTaken(rows, uuid, i) || uuid == Null;
    var row2 := Merge(rows1[i], v2, InstanceData);
    assert row2.Field("uuid") == uuid;
    TakenIgnoresReplaced(rows, i, row1, uuid);
  }

  /** Whether a uuid is taken outside position `i` does not depend on the
      record at `i`. */
  lemma TakenIgnoresReplaced(rows: seq<Row>, i: nat, row: Row, uuid: Value)
    requires i < |rows|
    ensures UuidTaken(rows[i := row], uuid, i) == UuidTaken(rows, uuid, i)
  {
    if UuidTaken(rows, uuid, i) {
      var j :| 0 <= j < |rows| && j != i && rows[j].Field("uuid") == uuid;
      assert rows[i := row][j] == rows[j];
    }
  }

  // -------------------------------------------------------------- lemmas

  /** The task marker never reaches the store: it is written under
      `task_status`, which names no column, so the stored rows do not depend
      on it. */
  lemma {:induction false} TaskMarkerNotStored(rows: seq<Row>, ctx: Context, d: Dict, status: Value, t1: Value, t2: Value)
    ensures StatusUpdateSpec(rows, ctx, d, status, t1).Ok? == StatusUpdateSpec(rows, ctx, d, status, t2).Ok?
    ensures StatusUpdateSpec(rows, ctx, d, status, t1).Ok? ==>
      StatusUpdateSpec(rows, ctx, d, status, t1).value.rows == StatusUpdateSpec(rows, ctx, d, status, t2).value.rows
  {
    if "uuid" in d {
      var v1 := StatusValues(d, status, t1);
      var v2 := StatusValues(d, status, t2);
      assert Writable(v1, InstanceData) == Writable(v2, InstanceData) by {
        InstanceShape();
      }
      SameWritesSameUpdate(rows, ctx, d["uuid"], v1, v2);
    }
  }

  /** An update depends on its values only through the columns it writes. */
  lemma SameWritesSameUpdate(rows: seq<Row>, ctx: Context, uuid: Value, v1: Dict, v2: Dict)
    requires Writable(v1, InstanceData) == Writable(v2, InstanceData)
    ensures AndroidUpdateSpec(rows, ctx, uuid, v1).Ok? == AndroidUpdateSpec(rows, ctx, uuid, v2).Ok?
    ensures AndroidUpdateSpec(rows, ctx, uuid, v1).Ok? ==>
      AndroidUpdateSpec(rows, ctx, uuid, v1).value.rows == AndroidUpdateSpec(rows, ctx, uuid, v2).value.rows
  {
    if Admin(ctx) && InstanceGet(rows, ctx, uuid).Ok? {
      var i := InstanceGet(rows, ctx, uuid).value;
      assert rows[i].(fields := rows[i].fields + Writable(v1, InstanceData))
          == rows[i].(fields := rows[i].fields + Writable(v2, InstanceData));
    }
  }

  /** A successful status write stores the given android state (when one is
      given) in the record the uuid names, and leaves its stored task state
      as the dictionary carried it. */
  lemma {:induction false} StatusWriteStores(rows: seq<Row>, ctx: Context, d: Dict, status: Value, task: Value)
    requires StatusUpdateSpec(rows, ctx, d, status, task).Ok?
    ensures "uuid" in d && InstanceGet(rows, ctx, d["uuid"]).Ok?
    ensures var i := InstanceGet(rows, ctx, d["uuid"]).value;
      var after := StatusUpdateSpec(rows, ctx, d, status, task).value.rows;
      |after| == |rows| && after[i].id == rows[i].id
      && (status != Null ==> after[i].Field("android_state") == status)
      && after[i].Field("task_state") == (if "task_state" in d then d["task_state"] else rows[i].Field("task_state"))
      && forall j :: 0 <= j < |rows| && j != i ==> after[j] == rows[j]
  {
    InstanceShape();
  }

  /** A successful action leaves the record in the action's target state, and
      only that record changes. */
  lemma {:induction false} TransitionReachesTarget(rows: seq<Row>, ctx: Context, d: Dict, a: Action)
    requires a != Destroy
    requires TransitionSpec(rows, ctx, d, a).Ok?
    ensures "uuid" in d && InstanceGet(rows, ctx, d["uuid"]).Ok?
    ensures var i := InstanceGet(rows, ctx, d["uuid"]).value;
      var after := TransitionSpec(rows, ctx, d, a).value;
      |after| == |rows| && after[i].Field("android_state") == Rb(Target(a))
      && forall j :: 0 <= j < |rows| && j != i ==> after[j] == rows[j]
  {
    var d1 := StatusValues(d, Null, Task(Marker(a)));
    StatusWriteStores(rows, ctx, d, Null, Task(Marker(a)));
    var rows1 := StatusUpdateSpec(rows, ctx, d, Null, Task(Marker(a))).value.rows;
    var i := InstanceGet(rows, ctx, d["uuid"]).value;
    StatusWriteStores(rows1, ctx, d1, Rb(Target(a)), Null);
    var i1 := InstanceGet(rows1, ctx, d1["uuid"]).value;
    assert d1["uuid"] == d["uuid"];
    assert i1 == i by {
      UpdateKeepsLookup(rows, ctx, d["uuid"], d1);
    }
  }

  /** A status write keeps the record findable at the same position by its
      uuid when the dictionary carries no other uuid. */
  lemma {:induction false} UpdateKeepsLookup(rows: seq<Row>, ctx: Context, uuid: Value, values: Dict)
    requires AndroidUpdateSpec(rows, ctx, uuid, values).Ok?
    requires "uuid" in values && values["uuid"] == uuid
    ensures InstanceGet(rows, ctx, uuid).Ok?
    ensures InstanceGet(AndroidUpdateSpec(rows, ctx, uuid, values).value.rows, ctx, uuid)
      == InstanceGet(rows, ctx, uuid)
  {
    InstanceShape();
    var i := InstanceGet(rows, ctx, uuid).value;
    var rows' := AndroidUpdateSpec(rows, ctx, uuid, values).value.rows;
    var row := Merge(rows[i], values, InstanceData);
    assert rows' == rows[i := row];
    assert row.Field("uuid") == uuid;
    assert row.Field("deleted") == rows[i].Field("deleted");
    InstanceGetAfterUpdate(rows, ctx, uuid, i, row);
  }

  /** Replacing the record a lookup found by one with the same uuid and
      deletion marker does not change the lookup. */
  lemma {:induction false} InstanceGetAfterUpdate(rows: seq<Row>, ctx: Context, uuid: Value, i: nat, row: Row)
    requires InstanceGet(rows, ctx, uuid) == Ok(i)
    requires row.Field("uuid") == uuid && row.Field("deleted") == rows[i].Field("deleted")
    ensures InstanceGet(rows[i := row], ctx, uuid) == Ok(i)
  {
    var v := ViewOf(ctx, None).value;
    var conds := [FieldIs("uuid", uuid)];
    var rows' := rows[i := row];
    assert FindFirst(rows, v, conds) == Some(i);
    assert Matches(rows'[i], v, conds) by {
      assert InView(rows'[i], v) == InView(rows[i], v);
    }
    forall j | 0 <= j < i ensures !Matches(rows'[j], v, conds) {
      assert rows'[j] == rows[j];
    }
    FirstMatchFound(rows', v, conds, i);
  }

  /** Every target state is a state some lifecycle action accepts, so the
      actions chain: activate leads to start or deactivate, start to stop or
      deactivate, deactivate back to activate. */
  lemma TargetsAccepted(a: Action)
    requires a != Destroy
    ensures a == Activate ==> Rb(Target(a)) in AndroidApi.SpecOf(Start).android.value
    ensures a == Activate ==> Rb(Target(a)) in AndroidApi.SpecOf(Deactivate).android.value
    ensures a == Start ==> Rb(Target(a)) in AndroidApi.SpecOf(Stop).android.value
    ensures a == Stop ==> Rb(Target(a)) in AndroidApi.SpecOf(Start).android.value
    ensures a == Deactivate ==> Rb(Target(a)) in AndroidApi.SpecOf(Activate).android.value
    ensures Rb(Target(a)) in AndroidApi.SpecOf(Destroy).android.value
  {
  }

  /** The worker of one host. */
  class AndroidManager {
    /** The host this worker runs on. */
    const host: Value
    const conductor: AndroidConductor.Plugin

    constructor (host: Value, conductor: AndroidConductor.Plugin)
      ensures this.host == host && this.conductor == conductor
    {
      this.host := host;
      this.conductor := conductor;
    }

    /** `create_android(context, instance)`: stamps the record with this
        host, then creates it. The returned record carries the host; the
        stored one does not, the table having no such column. */
    method CreateAndroid(ctx: Context, instance: DictRef, freshUuid: string) returns (r: Result<Dict>)
      requires conductor.db.Valid()
      modifies conductor.db, instance
      ensures conductor.db.Valid()
      ensures conductor.db.services == old(conductor.db.services)
      ensures instance.entries ==
        (if Admin(ctx) then FillValues(old(instance.entries)["host" := host], ctx, freshUuid)
         else old(instance.entries)["host" := host])
      ensures Applied(AndroidCreateSpec(old(conductor.db.instances), ctx, old(instance.entries)["host" := host], freshUuid),
                      old(conductor.db.instances), conductor.db.instances, r)
      ensures r.Ok? ==>
        ("host" in r.value && r.value["host"] == host
        && |conductor.db.instances| == |old(conductor.db.instances)| + 1
        && conductor.db.instances[|old(conductor.db.instances)|].Field("host") == Null)
    {
      instance.entries := instance.entries["host" := host];
      ghost var stamped := instance.entries;
      r := conductor.AndroidCreate(ctx, instance, freshUuid);
      InstanceShape();
      if r.Ok? {
        assert FillValues(stamped, ctx, freshUuid)["host"] == host;
      }
    }

    /** `destroy_android(context, instance)`: soft-deletes the record named
        by the dictionary's uuid. */
    method DestroyAndroid(ctx: Context, instance: Dict) returns (o: Outcome)
      requires conductor.db.Valid()
      modifies conductor.db
      ensures conductor.db.Valid()
      ensures conductor.db.services == old(conductor.db.services)
      ensures "uuid" !in instance ==> o == Fail(KeyError("uuid")) && conductor.db.instances == old(conductor.db.instances)
      ensures "uuid" in instance ==>
        Removed(AndroidDestroySpec(old(conductor.db.instances), ctx, instance["uuid"]),
                old(conductor.db.instances), conductor.db.instances, o)
    {
      if "uuid" !in instance {
        return Fail(KeyError("uuid"));
      }
      o := conductor.AndroidDestroy(ctx, instance["uuid"]);
    }

    /** `_android_status_update(context, instance, android_status, _task_status)`:
        changes the dictionary in place, then writes all of it to the record
        its uuid names. */
    method StatusUpdate(ctx: Context, instance: DictRef, status: Value, task: Value) returns (r: Result<Dict>)
      requires conductor.db.Valid()
      modifies conductor.db, instance
      ensures conductor.db.Valid()
      ensures conductor.db.services == old(conductor.db.services)
      ensures instance.entries == StatusValues(old(instance.entries), status, task)
      ensures Applied(StatusUpdateSpec(old(conductor.db.instances), ctx, old(instance.entries), status, task),
                      old(conductor.db.instances), conductor.db.instances, r)
    {
      if status != Null {
        instance.entries := instance.entries["android_state" := status];
      }
      instance.entries := instance.entries["task_status" := task];
      if "uuid" !in instance.entries {
        return Err(KeyError("uuid"));
      }
      r := conductor.AndroidUpdate(ctx, instance.entries["uuid"], instance.entries);
    }

    /** A lifecycle action: the marker write, a pause, and the write of the
        target state with the marker cleared. A failed write ends the action. */
    method Transition(ctx: Context, instance: DictRef, a: Action) returns (o: Outcome)
      requires a != Destroy
      requires conductor.db.Valid()
      modifies conductor.db, instance
      ensures conductor.db.Valid()
      ensures conductor.db.services == old(conductor.db.services)
      ensures Removed(TransitionSpec(old(conductor.db.instances), ctx, old(instance.entries), a),
                      old(conductor.db.instances), conductor.db.instances, o)
      ensures var d1 := StatusValues(old(instance.entries), Null, Task(Marker(a)));
        instance.entries == if o.Pass? then StatusValues(d1, Rb(Target(a)), Null) else d1
    {
      ghost var rows0 := conductor.db.instances;
      ghost var d0 := instance.entries;
      var r := StatusUpdate(ctx, instance, Null, Task(Marker(a)));
      ghost var rows1 := conductor.db.instances;
      ghost var r1 := r;
      if r.Err? {
        TransitionStops(rows0, ctx, d0, a, rows1, r);
        return Fail(r.error);
      }
      r := StatusUpdate(ctx, instance, Rb(Target(a)), Null);
      TransitionContinues(rows0, ctx, d0, a, rows1, r1, conductor.db.instances, r);
      o := Pass;
    }

    /** `active_android`: ACTIVING, then ACTIVE. */
    method ActiveAndroid(ctx: Context, instance: DictRef) returns (o: Outcome)
      requires conductor.db.Valid()
      modifies conductor.db, instance
      ensures conductor.db.Valid()
      ensures Removed(TransitionSpec(old(conductor.db.instances), ctx, old(instance.entries), Activate),
                      old(conductor.db.instances), conductor.db.instances, o)
    {
      o := Transition(ctx, instance, Activate);
    }

    /** `deactive_android`: DEACTIVING, then READY. */
    method DeactiveAndroid(ctx: Context, instance: DictRef) returns (o: Outcome)
      requires conductor.db.Valid()
      modifies conductor.db, instance
      ensures conductor.db.Valid()
      ensures Removed(TransitionSpec(old(conductor.db.instances), ctx, old(instance.entries), Deactivate),
                      old(conductor.db.instances), conductor.db.instances, o)
    {
      o := Transition(ctx, instance, Deactivate);
    }

    /** `start_android`: STARTING, then WORKING. */
    method StartAndroid(ctx: Context, instance: DictRef) returns (o: Outcome)
      requires conductor.db.Valid()
      modifies conductor.db, instance
      ensures conductor.db.Valid()
      ensures Removed(TransitionSpec(old(conductor.db.instances), ctx, old(instance.entries), Start),
                      old(conductor.db.instances), conductor.db.instances, o)
    {
      o := Transition(ctx, instance, Start);
    }

    /** `stop_android`: STOPING, then ACTIVE. */
    method StopAndroid(ctx: Context, instance: DictRef) returns (o: Outcome)
      requires conductor.db.Valid()
      modifies conductor.db, instance
      ensures conductor.db.Valid()
      ensures Removed(TransitionSpec(old(conductor.db.instances), ctx, old(instance.entries), Stop),
                      old(conductor.db.instances), conductor.db.instances, o)
    {
      o := Transition(ctx, instance, Stop);
    }
  }
}
