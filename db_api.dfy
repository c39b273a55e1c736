// The database facade: the `include_delete` flag of `android_get_all` and
// the "raise if it does not exist" promises of the update and destroy calls.

module DbApi {
  import opened Wrappers
  import opened Values
  import opened Errors
  import opened Models
  import opened Query
  import opened Store

  /** The read-deleted mode `android_get_all` asks the back end for. */
  function ReadDeletedFor(includeDelete: bool): (s: string)
    ensures includeDelete ==> s == "yes"
    ensures !includeDelete ==> s == "no"
  {
    if includeDelete then "yes" else "no"
  }

  /** `android_get_all(context, include_delete)`. */
  function AndroidGetAll(rows: seq<Row>, ctx: Context, includeDelete: bool): (r: Result<seq<Row>>)
    ensures r.Ok?
    ensures forall x :: x in r.value <==> x in rows && (includeDelete || Live(x))
  {
    Store.AndroidGetAll(rows, ctx, ReadDeletedFor(includeDelete))
  }

  /** With `include_delete` the listing is the whole table in order; without
      it, exactly the live records. The context's own mode plays no part. */
  lemma AndroidGetAllViews(rows: seq<Row>, ctx: Context, includeDelete: bool)
    requires WellFormed(rows, InstanceData)
    ensures AndroidGetAll(rows, ctx, includeDelete).Ok?
    ensures includeDelete ==> AndroidGetAll(rows, ctx, includeDelete).value == rows
    ensures !includeDelete ==>
      forall x :: x in AndroidGetAll(rows, ctx, includeDelete).value <==> x in rows && !x.deleted
  {
    ViewsPartition(rows, ctx, Some(ReadDeletedFor(includeDelete)));
  }

  /** `service_update` raises NotFound when the context sees no service with
      that id, and then changes nothing. */
  lemma ServiceUpdateRaisesNotFound(rows: seq<Row>, ctx: Context, serviceId: Value, values: Dict)
    requires Admin(ctx) && ViewOf(ctx, None).Ok?
    requires forall j :: 0 <= j < |rows| && rows[j].Field("id") == serviceId ==> !InView(rows[j], ViewOf(ctx, None).value)
    ensures ServiceUpdateSpec(rows, ctx, serviceId, values) == Err(ServiceNotFound(serviceId))
    ensures IsNotFound(ServiceUpdateSpec(rows, ctx, serviceId, values).error)
  {
  }

  /** `android_update` raises AndroidNotFound when the context sees no
      record with that uuid. */
  lemma AndroidUpdateRaisesNotFound(rows: seq<Row>, ctx: Context, uuid: Value, values: Dict)
    requires Admin(ctx) && ViewOf(ctx, None).Ok?
    requires forall j :: 0 <= j < |rows| && rows[j].Field("uuid") == uuid ==> !InView(rows[j], ViewOf(ctx, None).value)
    ensures AndroidUpdateSpec(rows, ctx, uuid, values) == Err(AndroidNotFound(uuid))
  {
  }

  /** `service_destroy` and `android_destroy` raise when the context sees no
      matching record. */
  lemma DestroyRaisesNotFound(services: seq<Row>, instances: seq<Row>, ctx: Context, serviceId: Value, uuid: Value)
    requires Admin(ctx) && ViewOf(ctx, None).Ok?
    requires forall j :: 0 <= j < |services| && services[j].Field("id") == serviceId ==> !InView(services[j], ViewOf(ctx, None).value)
    requires forall j :: 0 <= j < |instances| && instances[j].Field("uuid") == uuid ==> !InView(instances[j], ViewOf(ctx, None).value)
    ensures ServiceDestroySpec(services, ctx, serviceId) == Err(ServiceNotFound(serviceId))
    ensures AndroidDestroySpec(instances, ctx, uuid) == Err(AndroidNotFound(uuid))
  {
  }
}
