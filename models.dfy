// The two tables of the store: their columns, defaults, the soft-delete
// marker every record carries, and the uniqueness constraints.

module Models {
  import opened Values

  /** Columns every table inherits from the soft-delete and timestamp mixins. */
  const BaseColumns: set<string> := {"created_at", "updated_at", "deleted_at", "deleted"}

  /** Columns the table maintains itself: the key, the soft-delete marker and
      the timestamps. */
  const ManagedColumns: set<string> := {"id"} + BaseColumns

  const ServiceColumns: set<string> :=
    {"id", "host", "binary", "topic", "report_count", "disabled", "disabled_reason"} + BaseColumns

  const InstanceColumns: set<string> :=
    {"id", "user_id", "project_id", "android_state", "task_state", "launched_at",
     "terminated_at", "display_name", "uuid", "progress", "verdor"} + BaseColumns

  /** The columns a write takes from a values dictionary. */
  const ServiceData: set<string> := ServiceColumns - ManagedColumns
  const InstanceData: set<string> := InstanceColumns - ManagedColumns

  /** Column defaults of a service: `report_count` 0 and `disabled` False. */
  const ServiceDefaults: Dict := map["report_count" := Int(0), "disabled" := Bool(false)]

  /** A stored record: its primary key, its data columns (an absent column is
      NULL) and the soft-delete marker. */
  datatype Row = Row(id: nat, fields: Dict, deleted: bool)
  {
    /** Column `k` as a query sees it; a deleted record's `deleted` column
        holds its own id, a live one's holds 0. */
    function Field(k: string): Value
    {
      if k == "id" then Int(id)
      else if k == "deleted" then Int(if deleted then id else 0)
      else Get(fields, k)
    }

    /** The record converted to a dictionary of all `columns`. */
    function ToDict(columns: set<string>): (d: Dict)
      ensures d.Keys == columns
      ensures forall k :: k in columns ==> d[k] == Field(k)
    {
      map k | k in columns :: Field(k)
    }
  }

  /** Whether the record's soft-delete marker still holds its default. */
  predicate Live(r: Row)
  {
    r.Field("deleted") == Int(0)
  }

  /** The part of `values` a write stores: keys that name a data column.
      Setting any other key on a record object is not persisted. */
  function Writable(values: Dict, data: set<string>): (w: Dict)
    ensures w.Keys == values.Keys * data
    ensures forall k :: k in w ==> w[k] == values[k]
  {
    map k | k in values && k in data :: values[k]
  }

  /** Representation invariant of a table: ids are positions counted from 1
      and only data columns are stored. */
  ghost predicate WellFormed(rows: seq<Row>, data: set<string>)
  {
    forall i :: 0 <= i < |rows| ==> rows[i].id == i + 1 && rows[i].fields.Keys <= data
  }

  /** The unique index on `instances.uuid`; NULLs never collide. */
  ghost predicate UuidUnique(rows: seq<Row>)
  {
    forall i, j :: 0 <= i < j < |rows| && rows[i].Field("uuid") != Null ==>
      rows[i].Field("uuid") != rows[j].Field("uuid")
  }

  /** Two service records violate the constraint on (host, `column`, deleted);
      NULLs never collide. A deleted record's marker is its own id, so of two
      different records only two live ones can share the marker. */
  predicate Clash(a: Row, b: Row, column: string)
  {
    && a.Field("deleted") == b.Field("deleted")
    && a.Field("host") != Null && a.Field("host") == b.Field("host")
    && a.Field(column) != Null && a.Field(column) == b.Field(column)
  }

  /** The constraints on (host, topic, deleted) and (host, binary, deleted). */
  ghost predicate ServicesUnique(rows: seq<Row>)
  {
    forall i, j :: 0 <= i < j < |rows| ==>
      !Clash(rows[i], rows[j], "topic") && !Clash(rows[i], rows[j], "binary")
  }

  /** The instance table stores the lifecycle columns but has no column for
      the worker's `task_status` key nor for a `host`. */
  lemma InstanceShape()
    ensures "android_state" in InstanceData && "task_state" in InstanceData
    ensures "uuid" in InstanceData && "display_name" in InstanceData
    ensures "host" !in InstanceColumns && "task_status" !in InstanceColumns
    ensures "name" !in InstanceColumns
    ensures "deleted" in InstanceColumns && "deleted" in ServiceColumns
  {
  }

  /** The service table's data columns, and the columns a primitive service
      record carries besides them. */
  lemma ServiceShape()
    ensures "host" in ServiceData && "binary" in ServiceData && "topic" in ServiceData
    ensures "disabled" in ServiceData && "disabled_reason" in ServiceData && "report_count" in ServiceData
    ensures "id" in ServiceColumns && "deleted" in ServiceColumns
    ensures "id" !in ServiceData && "deleted" !in ServiceData
  {
  }
}
