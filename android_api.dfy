// The android API: the state guard in front of every lifecycle action, the
// state sets each action declares, and the create and get entry points.

module AndroidApi {
  import opened Wrappers
  import opened Values
  import opened Errors
  import opened Models
  import opened AndroidRpcApi

  /** The states an action accepts; None means the attribute is not checked. */
  datatype StateSpec = StateSpec(android: Option<set<Value>>, task: Option<set<Value>>)

  /** The state sets each action declares. */
  function SpecOf(a: Action): StateSpec
  {
    match a
    case Activate => StateSpec(Some({Rb(Ready)}), None)
    case Deactivate => StateSpec(Some({Rb(Active), Rb(Working)}), None)
    case Start => StateSpec(Some({Rb(Active)}), None)
    case Stop => StateSpec(Some({Rb(Working)}), None)
    case Destroy => StateSpec(Some({Null, Rb(Working), Rb(Active), Rb(Ready)}),
                              Some({Null, Task(Deactiving), Task(Starting), Task(Stoping)}))
  }

  /** The name of the API method, reported in a rejection. */
  function ApiName(a: Action): string
  {
    match a
    case Activate => "active"
    case Deactivate => "deactive"
    case Start => "start"
    case Stop => "stop"
    case Destroy => "destroy"
  }

  /** One attribute check: a missing attribute is a KeyError; a state outside
      `allowed` is InstanceInvalidState, whose construction reads the uuid
      first, so a record without one fails with KeyError('uuid') instead. */
  function CheckAttr(attr: string, allowed: Option<set<Value>>, instance: Dict, methodName: string): (o: Outcome)
    ensures allowed.None? ==> o == Pass
    ensures allowed.Some? && attr !in instance ==> o == Fail(KeyError(attr))
    ensures allowed.Some? && attr in instance && instance[attr] in allowed.value ==> o == Pass
    ensures allowed.Some? && attr in instance && instance[attr] !in allowed.value ==>
      o == Fail(if "uuid" in instance then InstanceInvalidState(attr, instance["uuid"], instance[attr], methodName)
                else KeyError("uuid"))
  {
    if allowed.None? then Pass
    else if attr !in instance then Fail(KeyError(attr))
    else if instance[attr] in allowed.value then Pass
    else if "uuid" !in instance then Fail(KeyError("uuid"))
    else Fail(InstanceInvalidState(attr, instance["uuid"], instance[attr], methodName))
  }

  /** `check_instance_state`: the android state is checked before the task
      state; the wrapped method runs only when both pass. */
  function Guard(spec: StateSpec, instance: Dict, methodName: string): (o: Outcome)
    ensures o.Pass? <==>
      (CheckAttr("android_state", spec.android, instance, methodName).Pass?
      && CheckAttr("task_state", spec.task, instance, methodName).Pass?)
    ensures CheckAttr("android_state", spec.android, instance, methodName).Fail? ==>
      o == CheckAttr("android_state", spec.android, instance, methodName)
  {
    match CheckAttr("android_state", spec.android, instance, methodName)
    case Fail(e) => Fail(e)
    case Pass => CheckAttr("task_state", spec.task, instance, methodName)
  }

  /** A lifecycle action: the guard, then the cast of the record unchanged to
      its host. A rejected record sends no message. */
  function Act(a: Action, instance: Dict): (r: Result<Message>)
    ensures Guard(SpecOf(a), instance, ApiName(a)).Fail? ==> r == Err(Guard(SpecOf(a), instance, ApiName(a)).error)
    ensures Guard(SpecOf(a), instance, ApiName(a)).Pass? ==> r == CastAction(a, instance)
    ensures r.Ok? ==> r.value.Cast? && r.value.instance == instance && r.value.methodName == MethodName(a)
  {
    match Guard(SpecOf(a), instance, ApiName(a))
    case Fail(e) => Err(e)
    case Pass => CastAction(a, instance)
  }

  /** `create(context, name, verdor='')`: a call carrying the name, the
      vendor and the initial state READY. */
  function Create(name: Value, verdor: Value := Str("")): (m: Message)
    ensures m.Call? && m.methodName == "create_android"
    ensures m.instance.Keys == {"name", "verdor", "android_state"}
    ensures m.instance["name"] == name && m.instance["verdor"] == verdor
    ensures m.instance["android_state"] == Rb(Ready)
  {
    CreateAndroid(map["name" := name, "verdor" := verdor, "android_state" := Rb(Ready)])
  }

  /** `get(context, instance_id)`: a uuid-like id is looked up on the
      mediator, which has no such operation; any other id is not found. */
  function Get(id: Value): (r: Result<Dict>)
    ensures id.Str? && IsUuidLike(id.s) ==> r == Err(AttributeError("android_get_by_uid"))
    ensures !(id.Str? && IsUuidLike(id.s)) ==> r == Err(AndroidNotFound(id))
  {
    if id.Str? && IsUuidLike(id.s) then Err(AttributeError("android_get_by_uid"))
    else Err(AndroidNotFound(id))
  }

  // -------------------------------------------------------------- lemmas

  /** A record failing both checks is reported for its android state. */
  lemma AndroidStateReportedFirst(spec: StateSpec, instance: Dict, methodName: string)
    requires spec.android.Some? && spec.task.Some?
    requires "uuid" in instance && "android_state" in instance && "task_state" in instance
    requires instance["android_state"] !in spec.android.value && instance["task_state"] !in spec.task.value
    ensures Guard(spec, instance, methodName) ==
      Fail(InstanceInvalidState("android_state", instance["uuid"], instance["android_state"], methodName))
  {
  }

  /** active, deactive, start and stop never look at the task state: changing
      it changes nothing about the outcome, and a record with no task state
      at all is let through as well. */
  lemma {:induction false} TaskStateIgnored(a: Action, instance: Dict, t1: Value, t2: Value)
    requires a != Destroy
    ensures Act(a, instance["task_state" := t1]).Err? == Act(a, instance["task_state" := t2]).Err?
    ensures Guard(SpecOf(a), instance, ApiName(a)) == CheckAttr("android_state", SpecOf(a).android, instance, ApiName(a))
  {
    var i1 := instance["task_state" := t1];
    var i2 := instance["task_state" := t2];
    assert CheckAttr("android_state", SpecOf(a).android, i1, ApiName(a)).Pass?
      == CheckAttr("android_state", SpecOf(a).android, i2, ApiName(a)).Pass?;
    assert CastAction(a, i1).Ok? == CastAction(a, i2).Ok?;
  }

  /** The declared android states: active accepts only READY, deactive
      ACTIVE and WORKING, start only ACTIVE, stop only WORKING. */
  lemma AcceptedStates(a: Action, s: Value)
    ensures a == Activate ==> (s in SpecOf(a).android.value <==> s == Rb(Ready))
    ensures a == Deactivate ==> (s in SpecOf(a).android.value <==> s == Rb(Active) || s == Rb(Working))
    ensures a == Start ==> (s in SpecOf(a).android.value <==> s == Rb(Active))
    ensures a == Stop ==> (s in SpecOf(a).android.value <==> s == Rb(Working))
    ensures a != Destroy ==> SpecOf(a).task.None?
  {
  }

  /** destroy rejects a record in the middle of activation, whatever its
      android state. */
  lemma DestroyRejectsActivating(instance: Dict)
    requires "uuid" in instance && "android_state" in instance
    requires instance["android_state"] in SpecOf(Destroy).android.value
    requires "task_state" in instance && instance["task_state"] == Task(Activing)
    ensures Act(Destroy, instance) ==
      Err(InstanceInvalidState("task_state", instance["uuid"], Task(Activing), "destroy"))
  {
  }

  /** A record as the store returns it has no `host`, so no lifecycle action
      can be sent for it: the guard either rejects it or the routing fails. */
  lemma {:induction false} StoredRecordUnroutable(a: Action, row: Row)
    ensures Act(a, row.ToDict(InstanceColumns)).Err?
    ensures Guard(SpecOf(a), row.ToDict(InstanceColumns), ApiName(a)).Pass? ==>
      Act(a, row.ToDict(InstanceColumns)) == Err(KeyError("host"))
  {
    InstanceShape();
    var d := row.ToDict(InstanceColumns);
    assert "uuid" in d;
  }

  /** A record holding only its uuid fails the guard on the missing android
      state, before anything is sent. */
  lemma UuidOnlyRecordRejected(a: Action, uuid: Value)
    ensures Act(a, map["uuid" := uuid]) == Err(KeyError("android_state"))
  {
  }
}
