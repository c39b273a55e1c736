// The store as the services see it: one object holding both tables, whose
// write operations replace the table they touch. Every write keeps the
// tables' invariants, and a failed write leaves both tables as they were.

module Backend {
  import opened Values
  import opened Errors
  import opened Models
  import opened Query
  import opened Store
  import opened StoreFacts

  /** A write that returns the written object took effect exactly when its
      specification succeeded; otherwise the table is unchanged and the error
      is the specification's. */
  predicate Applied(spec: Result<Written>, before: seq<Row>, after: seq<Row>, r: Result<Dict>)
  {
    match spec
    case Ok(w) => after == w.rows && r == Ok(w.record)
    case Err(e) => after == before && r == Err(e)
  }

  /** The same for a write that returns nothing. */
  predicate Removed(spec: Result<seq<Row>>, before: seq<Row>, after: seq<Row>, o: Outcome)
  {
    match spec
    case Ok(rows) => after == rows && o == Pass
    case Err(e) => after == before && o == Fail(e)
  }

  class Database {
    var instances: seq<Row>
    var services: seq<Row>
    /** `CONF.enable_new_services`. */
    const enableNewServices: bool
    /** `CONF.compute_topic`. */
    const computeTopic: string

    ghost predicate Valid()
      reads this
    {
      InstancesValid(instances) && ServicesValid(services)
    }

    constructor (enableNewServices: bool, computeTopic: string)
      ensures Valid()
      ensures instances == [] && services == []
      ensures this.enableNewServices == enableNewServices && this.computeTopic == computeTopic
    {
      instances := [];
      services := [];
      this.enableNewServices := enableNewServices;
      this.computeTopic := computeTopic;
    }

    /** `android_create(context, values)`: fills the defaults into the
        caller's `values` (only once the admin check passed), then inserts. */
    method AndroidCreate(ctx: Context, values: DictRef, freshUuid: string) returns (r: Result<Dict>)
      requires Valid()
      modifies this, values
      ensures Valid()
      ensures values.entries == if Admin(ctx) then FillValues(old(values.entries), ctx, freshUuid) else old(values.entries)
      ensures services == old(services)
      ensures Applied(AndroidCreateSpec(old(instances), ctx, old(values.entries), freshUuid), old(instances), instances, r)
    {
      var spec := AndroidCreateSpec(instances, ctx, values.entries, freshUuid);
      AndroidCreateKeepsValid(instances, ctx, values.entries, freshUuid);
      if Admin(ctx) {
        values.entries := FillValues(values.entries, ctx, freshUuid);
      }
      match spec
      case Ok(w) =>
        instances := w.rows;
        r := Ok(w.record);
      case Err(e) =>
        r := Err(e);
    }

    /** `android_update(context, uuid, values)`. */
    method AndroidUpdate(ctx: Context, uuid: Value, values: Dict) returns (r: Result<Dict>)
      requires Valid()
      modifies this
      ensures Valid()
      ensures services == old(services)
      ensures Applied(AndroidUpdateSpec(old(instances), ctx, uuid, values), old(instances), instances, r)
    {
      AndroidUpdateKeepsValid(instances, ctx, uuid, values);
      match AndroidUpdateSpec(instances, ctx, uuid, values)
      case Ok(w) =>
        instances := w.rows;
        r := Ok(w.record);
      case Err(e) =>
        r := Err(e);
    }

    /** `android_destroy(context, uuid)`. */
    method AndroidDestroy(ctx: Context, uuid: Value) returns (o: Outcome)
      requires Valid()
      modifies this
      ensures Valid()
      ensures services == old(services)
      ensures Removed(AndroidDestroySpec(old(instances), ctx, uuid), old(instances), instances, o)
    {
      AndroidDestroyKeepsValid(instances, ctx, uuid);
      match AndroidDestroySpec(instances, ctx, uuid)
      case Ok(rows) =>
        instances := rows;
        o := Pass;
      case Err(e) =>
        o := Fail(e);
    }

    /** `service_create(context, values)`. */
    method ServiceCreate(ctx: Context, values: Dict) returns (r: Result<Dict>)
      requires Valid()
      modifies this
      ensures Valid()
      ensures instances == old(instances)
      ensures Applied(ServiceCreateSpec(old(services), ctx, values, enableNewServices), old(services), services, r)
    {
      ServiceCreateKeepsValid(services, ctx, values, enableNewServices);
      match ServiceCreateSpec(services, ctx, values, enableNewServices)
      case Ok(w) =>
        services := w.rows;
        r := Ok(w.record);
      case Err(e) =>
        r := Err(e);
    }

    /** `service_update(context, service_id, values)`. */
    method ServiceUpdate(ctx: Context, serviceId: Value, values: Dict) returns (r: Result<Dict>)
      requires Valid()
      modifies this
      ensures Valid()
      ensures instances == old(instances)
      ensures Applied(ServiceUpdateSpec(old(services), ctx, serviceId, values), old(services), services, r)
    {
      ServiceUpdateKeepsValid(services, ctx, serviceId, values);
      match ServiceUpdateSpec(services, ctx, serviceId, values)
      case Ok(w) =>
        services := w.rows;
        r := Ok(w.record);
      case Err(e) =>
        r := Err(e);
    }

    /** `service_destroy(context, service_id)`. */
    method ServiceDestroy(ctx: Context, serviceId: Value) returns (o: Outcome)
      requires Valid()
      modifies this
      ensures Valid()
      ensures instances == old(instances)
      ensures Removed(ServiceDestroySpec(old(services), ctx, serviceId), old(services), services, o)
    {
      ServiceDestroyKeepsValid(services, ctx, serviceId);
      match ServiceDestroySpec(services, ctx, serviceId)
      case Ok(rows) =>
        services := rows;
        o := Pass;
      case Err(e) =>
        o := Fail(e);
    }
  }
}
