// Routing of the android worker's messages: creation is a blocking call to
// any worker; every lifecycle action is a one-way cast to the worker on the
// record's host.

module AndroidRpcApi {
  import opened Wrappers
  import opened Values
  import opened Errors

  /** `_instance_host(host, instance)`: an explicit host wins; otherwise the
      record's `host`, which must be present and non-empty. `instance` is
      None when no record is given. */
  function InstanceHost(host: Value, instance: Option<Dict>): (r: Result<Value>)
    ensures Truthy(host) ==> r == Ok(host)
    ensures !Truthy(host) && (instance.None? || instance.value == map[]) ==>
      r == Err(NovaException("No compute host specified"))
    ensures !Truthy(host) && instance.Some? && instance.value != map[] && "host" !in instance.value ==>
      r == Err(KeyError("host"))
    ensures !Truthy(host) && instance.Some? && "host" in instance.value && !Truthy(instance.value["host"]) ==>
      r == Err(if "uuid" in instance.value then NovaException("Unable to find host for Instance") else KeyError("uuid"))
    ensures r.Ok? ==> Truthy(r.value)
    ensures r.Ok? && !Truthy(host) ==> instance.Some? && "host" in instance.value && r.value == instance.value["host"]
  {
    if Truthy(host) then Ok(host)
    else if instance.None? || instance.value == map[] then Err(NovaException("No compute host specified"))
    else if "host" !in instance.value then Err(KeyError("host"))
    else if !Truthy(instance.value["host"]) then
      (if "uuid" in instance.value then Err(NovaException("Unable to find host for Instance")) else Err(KeyError("uuid")))
    else Ok(instance.value["host"])
  }

  /** A message to the android worker: `Call` waits for the result, `Cast`
      is one-way and addressed to one server. */
  datatype Message =
    | Call(methodName: string, instance: Dict)
    | Cast(server: Value, methodName: string, instance: Dict)

  /** The lifecycle actions sent as casts. */
  datatype Action = Activate | Deactivate | Start | Stop | Destroy

  function MethodName(a: Action): string
  {
    match a
    case Activate => "active_android"
    case Deactivate => "deactive_android"
    case Start => "start_android"
    case Stop => "stop_android"
    case Destroy => "destroy_android"
  }

  /** `create_android(context, instance)`: a call with no target server. */
  function CreateAndroid(instance: Dict): (m: Message)
    ensures m.Call? && m.methodName == "create_android" && m.instance == instance
  {
    Call("create_android", instance)
  }

  /** The cast of a lifecycle action: to the record's own host, carrying the
      record unchanged; no host means no message. */
  function CastAction(a: Action, instance: Dict): (r: Result<Message>)
    ensures r.Ok? <==> InstanceHost(Null, Some(instance)).Ok?
    ensures r.Err? ==> r.error == InstanceHost(Null, Some(instance)).error
    ensures r.Ok? ==>
      (r.value.Cast? && r.value.server == instance["host"] && Truthy(r.value.server)
      && r.value.methodName == MethodName(a) && r.value.instance == instance)
  {
    match InstanceHost(Null, Some(instance))
    case Err(e) => Err(e)
    case Ok(server) => Ok(Cast(server, MethodName(a), instance))
  }
}
