// The conductor's service operations: `service_get_all_by` picks one store
// lookup from which of topic, host and binary are given; the other service
// operations forward to the store and return primitives.

module ConductorManager {
  import opened Wrappers
  import opened Values
  import opened Errors
  import opened Models
  import opened Query
  import opened Store
  import opened Backend

  /** The lookup `service_get_all_by` makes; `Unassigned` is the case where
      no branch runs and `result` is never bound. */
  datatype Branch = All | ByHostAndTopic | ByArgs | ByTopic | ByHost | Unassigned

  /** The branch chosen for the given filters, tested by truthiness in the
      order: none given, topic and host, host and binary, topic, host. */
  function SelectBranch(topic: Value, host: Value, binary: Value): (b: Branch)
    ensures b == All <==> !Truthy(topic) && !Truthy(host) && !Truthy(binary)
    ensures b == ByHostAndTopic <==> Truthy(topic) && Truthy(host)
    ensures b == ByArgs <==> !Truthy(topic) && Truthy(host) && Truthy(binary)
    ensures b == ByTopic <==> Truthy(topic) && !Truthy(host)
    ensures b == ByHost <==> !Truthy(topic) && Truthy(host) && !Truthy(binary)
    ensures b == Unassigned <==> !Truthy(topic) && !Truthy(host) && Truthy(binary)
  {
    if !(Truthy(topic) || Truthy(host) || Truthy(binary)) then All
    else if Truthy(topic) && Truthy(host) then ByHostAndTopic
    else if Truthy(host) && Truthy(binary) then ByArgs
    else if Truthy(topic) then ByTopic
    else if Truthy(host) then ByHost
    else Unassigned
  }

  /** What `to_primitive` makes of a lookup's result: a list of records, one
      record, or None. */
  datatype Reply = Many(items: seq<Dict>) | One(item: Dict) | NoRecord

  function Primitives(rows: seq<Row>): (ds: seq<Dict>)
    ensures |ds| == |rows|
    ensures forall i :: 0 <= i < |rows| ==> ds[i] == rows[i].ToDict(ServiceColumns)
  {
    seq(|rows|, i requires 0 <= i < |rows| => rows[i].ToDict(ServiceColumns))
  }

  function ListReply(r: Result<seq<Row>>): (p: Result<Reply>)
    ensures r.Err? ==> p == Err(r.error)
    ensures r.Ok? ==> p == Ok(Many(Primitives(r.value)))
  {
    match r
    case Ok(rows) => Ok(Many(Primitives(rows)))
    case Err(e) => Err(e)
  }

  /** `service_get_all_by(context, topic, host, binary)`. */
  function ServiceGetAllBy(rows: seq<Row>, ctx: Context, topic: Value, host: Value, binary: Value): (r: Result<Reply>)
    ensures SelectBranch(topic, host, binary) == Unassigned ==> r == Err(UnboundLocal("result"))
    ensures SelectBranch(topic, host, binary) == All ==> r == ListReply(ServiceGetAll(rows, ctx, Null))
    ensures SelectBranch(topic, host, binary) == ByTopic ==> r == ListReply(ServiceGetAllByTopic(rows, ctx, topic))
    ensures SelectBranch(topic, host, binary) == ByHost ==> r == ListReply(ServiceGetAllByHost(rows, ctx, host))
    ensures SelectBranch(topic, host, binary) == ByHostAndTopic ==>
      match ServiceGetByHostAndTopic(rows, ctx, host, topic)
      case Err(e) => r == Err(e)
      case Ok(None) => r == Ok(NoRecord)
      case Ok(Some(x)) => r == Ok(One(x.ToDict(ServiceColumns)))
    ensures SelectBranch(topic, host, binary) == ByArgs ==>
      match ServiceGetByArgs(rows, ctx, host, binary)
      case Err(e) => r == Err(e)
      case Ok(x) => r == Ok(One(x.ToDict(ServiceColumns)))
  {
    match SelectBranch(topic, host, binary)
    case All => ListReply(ServiceGetAll(rows, ctx, Null))
    case ByHostAndTopic =>
      (match ServiceGetByHostAndTopic(rows, ctx, host, topic)
       case Err(e) => Err(e)
       case Ok(None) => Ok(NoRecord)
       case Ok(Some(x)) => Ok(One(x.ToDict(ServiceColumns))))
    case ByArgs =>
      (match ServiceGetByArgs(rows, ctx, host, binary)
       case Err(e) => Err(e)
       case Ok(x) => Ok(One(x.ToDict(ServiceColumns))))
    case ByTopic => ListReply(ServiceGetAllByTopic(rows, ctx, topic))
    case ByHost => ListReply(ServiceGetAllByHost(rows, ctx, host))
    case Unassigned => Err(UnboundLocal("result"))
  }

  /** With topic and host both given, the binary plays no part. */
  lemma BinaryIgnoredWithTopicAndHost(rows: seq<Row>, ctx: Context, topic: Value, host: Value, b1: Value, b2: Value)
    requires Truthy(topic) && Truthy(host)
    ensures ServiceGetAllBy(rows, ctx, topic, host, b1) == ServiceGetAllBy(rows, ctx, topic, host, b2)
  {
  }

  /** A binary alone selects nothing: the call fails whatever the store
      holds. */
  lemma BinaryAloneFails(rows: seq<Row>, ctx: Context, topic: Value, host: Value, binary: Value)
    requires !Truthy(topic) && !Truthy(host) && Truthy(binary)
    ensures ServiceGetAllBy(rows, ctx, topic, host, binary) == Err(UnboundLocal("result"))
  {
  }

  /** Only the (host, binary) lookup raises HostBinaryNotFound. */
  lemma OnlyArgsLookupRaisesHostBinary(rows: seq<Row>, ctx: Context, topic: Value, host: Value, binary: Value)
    ensures var r := ServiceGetAllBy(rows, ctx, topic, host, binary);
      r.Err? && r.error.HostBinaryNotFound? ==> SelectBranch(topic, host, binary) == ByArgs
  {
    var b := SelectBranch(topic, host, binary);
    if b == All {
      assert ServiceGetAll(rows, ctx, Null).Err? ==> !ServiceGetAll(rows, ctx, Null).error.HostBinaryNotFound?;
    }
  }

  /** A record the host-and-topic lookup replies with is a live, enabled
      service on that host and topic. */
  lemma {:induction false} HostAndTopicReply(rows: seq<Row>, ctx: Context, topic: Value, host: Value, binary: Value)
    requires Truthy(topic) && Truthy(host)
    ensures var r := ServiceGetAllBy(rows, ctx, topic, host, binary);
      r.Ok? && r.value.One? ==>
        r.value.item["host"] == host && r.value.item["topic"] == topic
        && r.value.item["disabled"] == Bool(false) && r.value.item["deleted"] == Int(0)
  {
    assert "host" in ServiceColumns && "topic" in ServiceColumns;
    assert "disabled" in ServiceColumns && "deleted" in ServiceColumns;
    var found := ServiceGetByHostAndTopic(rows, ctx, host, topic);
    if found.Ok? && found.value.Some? {
      var x := found.value.value;
      assert x.ToDict(ServiceColumns)["deleted"] == x.Field("deleted");
    }
  }

  class Manager {
    const db: Database

    constructor (db: Database)
      ensures this.db == db
    {
      this.db := db;
    }

    /** `service_get_by_id(context, service_id)`: the record as primitives. */
    method ServiceGetById(ctx: Context, serviceId: Value) returns (r: Result<Dict>)
      ensures ServiceGetSpec(db.services, ctx, serviceId).Err? ==> r == Err(ServiceGetSpec(db.services, ctx, serviceId).error)
      ensures r.Ok? <==> ServiceGetSpec(db.services, ctx, serviceId).Ok?
      ensures r.Ok? ==>
        (r.value == ServiceGetSpec(db.services, ctx, serviceId).value.ToDict(ServiceColumns)
        && "id" in r.value && r.value["id"] == serviceId)
    {
      match ServiceGetSpec(db.services, ctx, serviceId)
      case Ok(x) =>
        assert "id" in ServiceColumns;
        r := Ok(x.ToDict(ServiceColumns));
      case Err(e) =>
        r := Err(e);
    }

    /** `service_create(context, values)`: the created record as primitives. */
    method ServiceCreate(ctx: Context, values: Dict) returns (r: Result<Dict>)
      requires db.Valid()
      modifies db
      ensures db.Valid()
      ensures db.instances == old(db.instances)
      ensures Applied(ServiceCreateSpec(old(db.services), ctx, values, db.enableNewServices), old(db.services), db.services, r)
    {
      r := db.ServiceCreate(ctx, values);
    }

    /** `service_destroy(context, service_id)`: ServiceNotFound reaches the
        caller. */
    method ServiceDestroy(ctx: Context, serviceId: Value) returns (o: Outcome)
      requires db.Valid()
      modifies db
      ensures db.Valid()
      ensures db.instances == old(db.instances)
      ensures Removed(ServiceDestroySpec(old(db.services), ctx, serviceId), old(db.services), db.services, o)
    {
      o := db.ServiceDestroy(ctx, serviceId);
    }

    /** `service_update(context, service, values)`: updates the record whose
        id is `service['id']`; a service without an id is a KeyError and
        changes nothing. */
    method ServiceUpdate(ctx: Context, service: Dict, values: Dict) returns (r: Result<Dict>)
      requires db.Valid()
      modifies db
      ensures db.Valid()
      ensures db.instances == old(db.instances)
      ensures "id" !in service ==> r == Err(KeyError("id")) && db.services == old(db.services)
      ensures "id" in service ==>
        Applied(ServiceUpdateSpec(old(db.services), ctx, service["id"], values), old(db.services), db.services, r)
    {
      if "id" !in service {
        return Err(KeyError("id"));
      }
      r := db.ServiceUpdate(ctx, service["id"], values);
    }
  }
}
