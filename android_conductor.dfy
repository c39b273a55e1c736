// The mediator's android operations: the fixed interface (`PluginAPI`) and
// its server side (`ConductorManagerPlugin`), which answers each operation
// from the store. The interface forwards every call, arguments unchanged, to
// the server method of the same name, so one class models the pair.

module AndroidConductor {
  import opened Wrappers
  import opened Values
  import opened Errors
  import opened Models
  import opened Query
  import opened Store
  import DbApi
  import opened Backend

  /** The operations the mediator exposes. */
  datatype Operation = GetAll | GetAllByName | Create | Destroy | Update

  /** Looking an operation up by name on the mediator: any other name is an
      AttributeError. */
  function Resolve(name: string): (r: Result<Operation>)
    ensures r.Ok? <==> name in {"android_get_all", "android_get_all_by_name", "android_create",
                                "android_destroy", "android_update"}
    ensures r.Err? ==> r.error == AttributeError(name)
    ensures r == Ok(GetAll) <==> name == "android_get_all"
    ensures r == Ok(GetAllByName) <==> name == "android_get_all_by_name"
    ensures r == Ok(Create) <==> name == "android_create"
    ensures r == Ok(Destroy) <==> name == "android_destroy"
    ensures r == Ok(Update) <==> name == "android_update"
  {
    if name == "android_get_all" then Ok(GetAll)
    else if name == "android_get_all_by_name" then Ok(GetAllByName)
    else if name == "android_create" then Ok(Create)
    else if name == "android_destroy" then Ok(Destroy)
    else if name == "android_update" then Ok(Update)
    else Err(AttributeError(name))
  }

  /** `jsonutils.to_primitive` of a list of instance records: vocabulary for
      the listing replies; what a caller receives is stated in `LiveListing`. */
  function ToDicts(rows: seq<Row>): (ds: seq<Dict>)
    ensures |ds| == |rows|
    ensures forall i :: 0 <= i < |rows| ==> ds[i] == rows[i].ToDict(InstanceColumns)
  {
    seq(|rows|, i requires 0 <= i < |rows| => rows[i].ToDict(InstanceColumns))
  }

  /** A listing without deleted records carries only records whose
      `deleted` entry is 0, and one entry per live record. */
  lemma {:induction false} LiveListing(rows: seq<Row>, ctx: Context)
    requires WellFormed(rows, InstanceData)
    ensures DbApi.AndroidGetAll(rows, ctx, false).Ok?
    ensures forall d :: d in ToDicts(DbApi.AndroidGetAll(rows, ctx, false).value) ==>
      d["deleted"] == Int(0) && d.Keys == InstanceColumns
  {
    DbApi.AndroidGetAllViews(rows, ctx, false);
    var listed := DbApi.AndroidGetAll(rows, ctx, false).value;
    forall d | d in ToDicts(listed) ensures d["deleted"] == Int(0) && d.Keys == InstanceColumns {
      var i :| 0 <= i < |listed| && ToDicts(listed)[i] == d;
      assert listed[i] in listed;
      assert "deleted" in InstanceColumns;
    }
  }

  class Plugin {
    const db: Database

    constructor (db: Database)
      ensures this.db == db
    {
      this.db := db;
    }

    /** `android_get_all(context, include_delete=False)`: the listing as
        primitives. */
    method AndroidGetAll(ctx: Context, includeDelete: bool := false) returns (r: Result<seq<Dict>>)
      ensures DbApi.AndroidGetAll(db.instances, ctx, includeDelete).Err? ==>
        r == Err(DbApi.AndroidGetAll(db.instances, ctx, includeDelete).error)
      ensures DbApi.AndroidGetAll(db.instances, ctx, includeDelete).Ok? ==>
        r == Ok(ToDicts(DbApi.AndroidGetAll(db.instances, ctx, includeDelete).value))
    {
      match DbApi.AndroidGetAll(db.instances, ctx, includeDelete)
      case Ok(rows) => r := Ok(ToDicts(rows));
      case Err(e) => r := Err(e);
    }

    /** `android_get_all_by_name(context, name)`, answered by the store's
        `android_get_by_name`: the live records named `name`, as primitives. */
    method AndroidGetAllByName(ctx: Context, name: Value) returns (ds: seq<Dict>)
      ensures ds == ToDicts(AndroidGetByName(db.instances, name))
      ensures forall d :: d in ds ==> d["display_name"] == name
    {
      ds := ToDicts(AndroidGetByName(db.instances, name));
      forall d | d in ds ensures d["display_name"] == name {
        var i :| 0 <= i < |ds| && ds[i] == d;
        assert AndroidGetByName(db.instances, name)[i] in AndroidGetByName(db.instances, name);
        assert "display_name" in InstanceColumns;
      }
    }

    /** `android_create(context, values)`: the created record as primitives. */
    method AndroidCreate(ctx: Context, values: DictRef, freshUuid: string) returns (r: Result<Dict>)
      requires db.Valid()
      modifies db, values
      ensures db.Valid()
      ensures values.entries == if Admin(ctx) then FillValues(old(values.entries), ctx, freshUuid) else old(values.entries)
      ensures db.services == old(db.services)
      ensures Applied(AndroidCreateSpec(old(db.instances), ctx, old(values.entries), freshUuid), old(db.instances), db.instances, r)
    {
      r := db.AndroidCreate(ctx, values, freshUuid);
    }

    /** `android_destroy(context, uuid)`: returns nothing; AndroidNotFound
        reaches the caller. */
    method AndroidDestroy(ctx: Context, uuid: Value) returns (o: Outcome)
      requires db.Valid()
      modifies db
      ensures db.Valid()
      ensures db.services == old(db.services)
      ensures Removed(AndroidDestroySpec(old(db.instances), ctx, uuid), old(db.instances), db.instances, o)
    {
      o := db.AndroidDestroy(ctx, uuid);
    }

    /** `android_update(context, uuid, values)`: the store's result as it
        is; AndroidNotFound reaches the caller. */
    method AndroidUpdate(ctx: Context, uuid: Value, values: Dict) returns (r: Result<Dict>)
      requires db.Valid()
      modifies db
      ensures db.Valid()
      ensures db.services == old(db.services)
      ensures Applied(AndroidUpdateSpec(old(db.instances), ctx, uuid, values), old(db.instances), db.instances, r)
    {
      r := db.AndroidUpdate(ctx, uuid, values);
    }
  }
}
