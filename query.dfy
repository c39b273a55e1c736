// Query construction of the store: the read-deleted views of `model_query`,
// the filter conditions (`filter_by`, `in_`, `equal_any`, `not_equal`),
// `exact_filter`, and soft deletion of the records a query selects.

module Query {
  import opened Wrappers
  import opened Values
  import opened Errors
  import opened Models

  /** The request context: its read-deleted mode, owner and privilege. */
  datatype Context = Context(readDeleted: string, projectId: Value, userId: Value, isAdmin: bool)

  /** The three read views. */
  datatype View = No | Yes | Only

  /** An explicit `read_deleted` argument wins over the context's, unless it
      is empty (`kwargs.get('read_deleted') or context.read_deleted`). */
  function ReadDeleted(ctx: Context, explicit: Option<string>): (s: string)
    ensures explicit.Some? && explicit.value != "" ==> s == explicit.value
    ensures explicit.None? || explicit.value == "" ==> s == ctx.readDeleted
  {
    if explicit.Some? && explicit.value != "" then explicit.value else ctx.readDeleted
  }

  /** The view a read-deleted mode names; any other mode raises. */
  function ParseView(s: string): (r: Result<View>)
    ensures r == Ok(No) <==> s == "no"
    ensures r == Ok(Yes) <==> s == "yes"
    ensures r == Ok(Only) <==> s == "only"
    ensures r.Err? <==> s != "no" && s != "yes" && s != "only"
    ensures r.Err? ==> r.error == UnrecognizedReadDeleted(s)
  {
    if s == "no" then Ok(No)
    else if s == "yes" then Ok(Yes)
    else if s == "only" then Ok(Only)
    else Err(UnrecognizedReadDeleted(s))
  }

  /** The view a query under `ctx` uses. */
  function ViewOf(ctx: Context, explicit: Option<string>): Result<View>
  {
    ParseView(ReadDeleted(ctx, explicit))
  }

  /** Whether a record is visible in a view: 'no' compares the marker with
      its default, 'only' requires it to differ, 'yes' adds no filter. */
  predicate InView(r: Row, v: View)
  {
    match v
    case No => Live(r)
    case Yes => true
    case Only => !Live(r)
  }

  /** A filter condition on one column. */
  datatype Cond =
    | FieldIs(key: string, value: Value)          // filter_by(key=value); None means IS NULL
    | AllEqual(pairs: Dict)                       // filter_by(**pairs)
    | FieldIn(key: string, values: seq<Value>)    // column.in_(values)
    | EqualAny(key: string, values: seq<Value>)   // equal_any(*values)
    | NotEqual(key: string, values: seq<Value>)   // not_equal(*values)

  /** One `column != value` clause; a comparison with NULL is never true,
      and `!= None` means IS NOT NULL. */
  predicate Differs(field: Value, value: Value)
  {
    field != Null && field != value
  }

  predicate Holds(c: Cond, r: Row)
  {
    match c
    case FieldIs(k, v) => r.Field(k) == v
    case AllEqual(d) => forall k :: k in d ==> r.Field(k) == d[k]
    case FieldIn(k, vs) => r.Field(k) != Null && r.Field(k) in vs
    case EqualAny(k, vs) => r.Field(k) in vs
    case NotEqual(k, vs) => forall v :: v in vs ==> Differs(r.Field(k), v)
  }

  predicate HoldsAll(conds: seq<Cond>, r: Row)
  {
    forall i :: 0 <= i < |conds| ==> Holds(conds[i], r)
  }

  predicate Matches(r: Row, v: View, conds: seq<Cond>)
  {
    InView(r, v) && HoldsAll(conds, r)
  }

  /** The records a query selects, in table order. */
  function Select(rows: seq<Row>, v: View, conds: seq<Cond>): (s: seq<Row>)
    ensures |s| <= |rows|
    ensures forall x :: x in s <==> x in rows && Matches(x, v, conds)
  {
    if rows == [] then []
    else
      var rest := Select(rows[1..], v, conds);
      assert forall x :: x in rows <==> x == rows[0] || x in rows[1..];
      if Matches(rows[0], v, conds) then [rows[0]] + rest else rest
  }

  /** `query.first()`: the position of the first record the query selects. */
  function FindFirst(rows: seq<Row>, v: View, conds: seq<Cond>): (r: Option<nat>)
    ensures r.Some? ==> r.value < |rows| && Matches(rows[r.value], v, conds)
    ensures r.Some? ==> forall j :: 0 <= j < r.value ==> !Matches(rows[j], v, conds)
    ensures r.None? <==> forall j :: 0 <= j < |rows| ==> !Matches(rows[j], v, conds)
    ensures r.None? <==> Select(rows, v, conds) == []
    ensures r.Some? ==> Select(rows, v, conds)[0] == rows[r.value]
  {
    if rows == [] then None
    else if Matches(rows[0], v, conds) then Some(0)
    else
      match FindFirst(rows[1..], v, conds)
      case None => None
      case Some(k) => Some(k + 1)
  }

  /** A matching record with no match before it is the one `first()` finds. */
  lemma FirstMatchFound(rows: seq<Row>, v: View, conds: seq<Cond>, i: nat)
    requires i < |rows| && Matches(rows[i], v, conds)
    requires forall j :: 0 <= j < i ==> !Matches(rows[j], v, conds)
    ensures FindFirst(rows, v, conds) == Some(i)
  {
  }

  /** `model_query(context, model, read_deleted=explicit)` followed by the
      conditions: the selected records, or the error for an unknown mode. */
  function ModelQuery(rows: seq<Row>, ctx: Context, explicit: Option<string>, conds: seq<Cond>): (r: Result<seq<Row>>)
    ensures r.Err? <==> ViewOf(ctx, explicit).Err?
    ensures r.Err? ==> r.error == UnrecognizedReadDeleted(ReadDeleted(ctx, explicit))
    ensures r.Ok? ==> forall x :: x in r.value <==> x in rows && Matches(x, ViewOf(ctx, explicit).value, conds)
  {
    match ViewOf(ctx, explicit)
    case Err(e) => Err(e)
    case Ok(v) => Ok(Select(rows, v, conds))
  }

  /** The three views: 'no' keeps exactly the live records, 'only' exactly the
      deleted ones, and 'yes' the whole table in order. */
  lemma {:induction false} ViewsPartition(rows: seq<Row>, ctx: Context, explicit: Option<string>)
    requires forall i :: 0 <= i < |rows| ==> rows[i].id > 0
    requires ReadDeleted(ctx, explicit) in {"no", "yes", "only"}
    ensures ModelQuery(rows, ctx, explicit, []).Ok?
    ensures ReadDeleted(ctx, explicit) == "yes" ==> ModelQuery(rows, ctx, explicit, []).value == rows
    ensures ReadDeleted(ctx, explicit) == "no" ==>
      forall x :: x in ModelQuery(rows, ctx, explicit, []).value <==> x in rows && !x.deleted
    ensures ReadDeleted(ctx, explicit) == "only" ==>
      forall x :: x in ModelQuery(rows, ctx, explicit, []).value <==> x in rows && x.deleted
  {
    if ReadDeleted(ctx, explicit) == "yes" {
      SelectAll(rows);
    }
    forall x: Row | x in rows ensures x.deleted <==> x.Field("deleted") != Int(0) {
      var i :| 0 <= i < |rows| && rows[i] == x;
    }
  }

  lemma {:induction false} SelectAll(rows: seq<Row>)
    ensures Select(rows, Yes, []) == rows
  {
    if rows != [] {
      SelectAll(rows[1..]);
      assert Matches(rows[0], Yes, []);
    }
  }

  /** For a non-NULL column and candidate values without NULL, `not_equal`
      holds exactly when `equal_any` does not. On a NULL column, `not_equal`
      never holds (given at least one value) and `equal_any` holds only if
      NULL is among the values. */
  lemma ConditionsComplement(r: Row, key: string, values: seq<Value>)
    ensures r.Field(key) != Null && Null !in values ==>
      (Holds(NotEqual(key, values), r) <==> !Holds(EqualAny(key, values), r))
    ensures r.Field(key) == Null && values != [] ==>
      !Holds(NotEqual(key, values), r) && (Holds(EqualAny(key, values), r) <==> Null in values)
  {
    if r.Field(key) == Null && values != [] {
      assert !Differs(r.Field(key), values[0]);
    }
  }

  /** The conditions of `soft_delete`: every record the query selects gets
      its deleted marker set, and no other record changes. This is the
      vocabulary the destroy operations are stated in; what it keeps is
      proved in `StoreFacts.SoftDeleteKeepsWellFormed`. */
  function SoftDelete(rows: seq<Row>, v: View, conds: seq<Cond>): (rows': seq<Row>)
    ensures |rows'| == |rows|
    ensures forall i :: 0 <= i < |rows| ==>
      rows'[i] == if Matches(rows[i], v, conds) then rows[i].(deleted := true) else rows[i]
  {
    seq(|rows|, i requires 0 <= i < |rows| =>
      if Matches(rows[i], v, conds) then rows[i].(deleted := true) else rows[i])
  }

  // ---------------------------------------------------------- exact_filter

  /** The condition `exact_filter` derives from one filter: a collection
      becomes a membership test, any other value an equality test. */
  function FilterCond(key: string, value: Value): (c: Cond)
    ensures value.List? ==> c == FieldIn(key, value.items)
    ensures !value.List? ==> c == FieldIs(key, value)
  {
    if value.List? then FieldIn(key, value.items) else FieldIs(key, value)
  }

  lemma HoldsAllAppend(conds: seq<Cond>, c: Cond, r: Row)
    ensures HoldsAll(conds + [c], r) <==> HoldsAll(conds, r) && Holds(c, r)
  {
    if HoldsAll(conds, r) && Holds(c, r) {
      forall i | 0 <= i < |conds + [c]| ensures Holds((conds + [c])[i], r) {
        if i < |conds| { assert (conds + [c])[i] == conds[i]; }
      }
    }
    if HoldsAll(conds + [c], r) {
      forall i | 0 <= i < |conds| ensures Holds(conds[i], r) {
        assert (conds + [c])[i] == conds[i];
      }
      assert (conds + [c])[|conds|] == c;
    }
  }

  /** `exact_filter(query, model, filters, legal_keys)`: walks the legal keys,
      pops each one present from `filters` (returned here as `remaining`),
      adds a membership test at once for a collection value and collects the
      other values into one equality filter added at the end. The result
      selects a record exactly when the query does and every consumed filter
      holds of it; the unused filters are left untouched. */
  method ExactFilter(query: seq<Cond>, filters: Dict, legalKeys: seq<string>)
    returns (q: seq<Cond>, remaining: Dict)
    ensures remaining == map k | k in filters && k !in legalKeys :: filters[k]
    ensures forall r: Row :: HoldsAll(q, r) <==>
      HoldsAll(query, r) && forall k :: k in filters && k in legalKeys ==> Holds(FilterCond(k, filters[k]), r)
  {
    q, remaining := query, filters;
    var exact: Dict := map[];
    var i := 0;
    while i < |legalKeys|
      invariant 0 <= i <= |legalKeys|
      invariant remaining == map k | k in filters && k !in legalKeys[..i] :: filters[k]
      invariant exact == map k | k in filters && k in legalKeys[..i] && !filters[k].List? :: filters[k]
      invariant forall r: Row :: HoldsAll(q, r) <==>
        HoldsAll(query, r) &&
        forall k :: k in filters && k in legalKeys[..i] && filters[k].List? ==> Holds(FieldIn(k, filters[k].items), r)
    {
      var key := legalKeys[i];
      assert legalKeys[..i + 1] == legalKeys[..i] + [key];
      if key in remaining {
        var value := remaining[key];
        remaining := map k | k in remaining && k != key :: remaining[k];
        if value.List? {
          var c := FieldIn(key, value.items);
          forall r: Row ensures HoldsAll(q + [c], r) <==> HoldsAll(q, r) && Holds(c, r) {
            HoldsAllAppend(q, c, r);
          }
          q := q + [c];
        } else {
          exact := exact[key := value];
        }
      }
      i := i + 1;
    }
    assert legalKeys[..i] == legalKeys;
    ghost var listed := q;
    if exact != map[] {
      var c := AllEqual(exact);
      forall r: Row ensures HoldsAll(q + [c], r) <==> HoldsAll(q, r) && Holds(c, r) {
        HoldsAllAppend(q, c, r);
      }
      q := q + [c];
    }
    forall r: Row ensures HoldsAll(q, r) <==>
      HoldsAll(query, r) && forall k :: k in filters && k in legalKeys ==> Holds(FilterCond(k, filters[k]), r)
    {
      assert HoldsAll(q, r) <==> HoldsAll(listed, r) && Holds(AllEqual(exact), r);
    }
  }
}
