// The nova-manage command line: the argument decorator, the discovery of a
// command object's actions, the naming of each option's destination and
// the collection of keyword arguments from it, the service commands, and
// the selection of log lines.

module Manage {
  import opened Wrappers
  import opened Values
  import opened Errors
  import opened Models
  import opened Query
  import opened Store
  import opened Backend
  import ConductorManager
  import ServicesApi

  predicate StartsWith(s: string, prefix: string)
  {
    |prefix| <= |s| && s[..|prefix|] == prefix
  }

  // ------------------------------------------------------------ decorators

  /** One `@args(*args, **kwargs)` entry: the option strings and the keyword
      arguments (only `dest` among them matters here). */
  datatype ArgSpec = ArgSpec(options: seq<string>, kwargs: map<string, string>)

  /** An action function, seen through the `args` list its decorators
      attach to it. */
  class Command {
    var args: seq<ArgSpec>

    constructor ()
      ensures args == []
    {
      args := [];
    }

    /** One application of `args(...)`: the entry goes to the front. */
    method Decorate(spec: ArgSpec)
      modifies this
      ensures args == [spec] + old(args)
    {
      args := [spec] + args;
    }
  }

  /** A stack of decorators written above a function, listed top to bottom.
      Python applies the lowest one first; since each inserts at the front,
      the list ends up in the order the decorators are written. */
  method ApplyStack(cmd: Command, stack: seq<ArgSpec>)
    modifies cmd
    ensures cmd.args == stack + old(cmd.args)
  {
    var k := |stack|;
    while k > 0
      invariant 0 <= k <= |stack|
      invariant cmd.args == stack[k..] + old(cmd.args)
    {
      k := k - 1;
      assert stack[k..] == [stack[k]] + stack[k + 1..];
      cmd.Decorate(stack[k]);
    }
  }

  // ------------------------------------------------------------ methods_of

  /** An attribute of a command object, in the order `dir` lists them. */
  datatype Attr = Attr(name: string, isCallable: bool)

  /** An action: a callable whose name does not start with '_'. */
  predicate IsAction(a: Attr)
  {
    a.isCallable && !StartsWith(a.name, "_")
  }

  /** The actions among `attrs`, in their order. */
  function Actions(attrs: seq<Attr>): (r: seq<Attr>)
    ensures |r| <= |attrs|
    ensures forall a :: a in r <==> a in attrs && IsAction(a)
  {
    if attrs == [] then []
    else
      var last := attrs[|attrs| - 1];
      Actions(attrs[..|attrs| - 1]) + (if IsAction(last) then [last] else [])
  }

  /** Filtering keeps the listing order: the actions of a concatenation are
      those of the first part followed by those of the second. */
  lemma {:induction false} ActionsKeepOrder(a: seq<Attr>, b: seq<Attr>)
    ensures Actions(a + b) == Actions(a) + Actions(b)
    decreases |b|
  {
    if b == [] {
      assert a + b == a;
    } else {
      var front := b[..|b| - 1];
      assert (a + b)[..|a + b| - 1] == a + front;
      assert (a + b)[|a + b| - 1] == b[|b| - 1];
      ActionsKeepOrder(a, front);
    }
  }

  /** `methods_of(obj)`: one pass over the attributes, keeping the actions. */
  method MethodsOf(attrs: seq<Attr>) returns (result: seq<Attr>)
    ensures result == Actions(attrs)
  {
    result := [];
    for i := 0 to |attrs|
      invariant result == Actions(attrs[..i])
    {
      assert attrs[..i + 1][..i] == attrs[..i];
      if attrs[i].isCallable && !StartsWith(attrs[i].name, "_") {
        result := result + [attrs[i]];
      }
    }
    assert attrs[..|attrs|] == attrs;
  }

  // ------------------------------------------------------------ dest names

  /** The prefix under which each action's options are stored. */
  const KwargPrefix: string := "action_kwarg_"

  /** `kwargs.setdefault('dest', args[0][2:])`: the default `args[0][2:]` is
      evaluated first, so no option string at all is an IndexError even when
      an explicit dest is given; otherwise an explicit dest wins over the
      first option string without its first two characters (the leading
      dashes). */
  function DefaultDest(spec: ArgSpec): (r: Result<string>)
    ensures spec.options == [] ==> r == Err(IndexError)
    ensures spec.options != [] && "dest" in spec.kwargs ==> r == Ok(spec.kwargs["dest"])
    ensures spec.options != [] && "dest" !in spec.kwargs ==>
      (r.Ok? && (|spec.options[0]| >= 2 ==> spec.options[0][..2] + r.value == spec.options[0])
      && (|spec.options[0]| < 2 ==> r.value == ""))
  {
    if spec.options == [] then Err(IndexError)
    else
      var o := spec.options[0];
      var default := if |o| < 2 then "" else o[2..];
      Ok(if "dest" in spec.kwargs then spec.kwargs["dest"] else default)
  }

  /** What `add_command_parsers` makes of one entry: the name recorded in
      `action_kwargs`, and the entry with its dest set, in place, to the
      prefixed name. A dest that already carries the prefix keeps it. */
  function Settle(spec: ArgSpec): (r: Result<(string, ArgSpec)>)
    ensures DefaultDest(spec).Err? ==> r == Err(DefaultDest(spec).error)
    ensures r.Ok? ==>
      (DefaultDest(spec).Ok?
      && r.value.1 == spec.(kwargs := spec.kwargs["dest" := KwargPrefix + r.value.0])
      && (StartsWith(DefaultDest(spec).value, KwargPrefix) ==> KwargPrefix + r.value.0 == DefaultDest(spec).value)
      && (!StartsWith(DefaultDest(spec).value, KwargPrefix) ==> r.value.0 == DefaultDest(spec).value))
  {
    match DefaultDest(spec)
    case Err(e) => Err(e)
    case Ok(dest) =>
      if StartsWith(dest, KwargPrefix) then
        var name := dest[|KwargPrefix|..];
        assert KwargPrefix + name == dest;
        Ok((name, spec.(kwargs := spec.kwargs["dest" := dest])))
      else
        Ok((dest, spec.(kwargs := spec.kwargs["dest" := KwargPrefix + dest])))
  }

  /** The dest set in place survives: settling an entry a second time records
      the same name and changes nothing. */
  lemma SettleIdempotent(spec: ArgSpec)
    requires Settle(spec).Ok?
    ensures Settle(Settle(spec).value.1) == Ok(Settle(spec).value)
  {
    var (name, settled) := Settle(spec).value;
    assert StartsWith(KwargPrefix + name, KwargPrefix);
    assert (KwargPrefix + name)[|KwargPrefix|..] == name;
    assert settled.kwargs["dest" := KwargPrefix + name] == settled.kwargs;
  }

  /** The option loop of `add_command_parsers` for one action: each entry's
      dest is settled in the entry itself, in order; the first entry without
      an option string stops the loop with an IndexError, the entries before
      it already changed. */
  method AddActionArguments(cmd: Command) returns (r: Result<seq<string>>)
    modifies cmd
    ensures |cmd.args| == |old(cmd.args)|
    ensures r.Ok? ==>
      (|r.value| == |cmd.args|
      && forall k :: 0 <= k < |cmd.args| ==> Settle(old(cmd.args)[k]) == Ok((r.value[k], cmd.args[k])))
    ensures r.Err? ==>
      (r.error == IndexError
      && exists e ::
           (0 <= e < |cmd.args| && Settle(old(cmd.args)[e]).Err?
           && (forall k :: 0 <= k < e ==> Settle(old(cmd.args)[k]).Ok? && Settle(old(cmd.args)[k]).value.1 == cmd.args[k])
           && (forall k :: e <= k < |cmd.args| ==> cmd.args[k] == old(cmd.args)[k])))
  {
    var names: seq<string> := [];
    var k := 0;
    while k < |cmd.args|
      invariant 0 <= k <= |cmd.args| && |cmd.args| == |old(cmd.args)|
      invariant |names| == k
      invariant forall j :: 0 <= j < k ==> Settle(old(cmd.args)[j]) == Ok((names[j], cmd.args[j]))
      invariant forall j :: k <= j < |cmd.args| ==> cmd.args[j] == old(cmd.args)[j]
    {
      match Settle(cmd.args[k])
      case Err(e) =>
        return Err(e);
      case Ok(p) =>
        cmd.args := cmd.args[k := p.1];
        names := names + [p.0];
      k := k + 1;
    }
    return Ok(names);
  }

  // ---------------------------------------------------------------- main

  /** The keyword arguments `main` passes on: for each recorded name, the
      parsed value stored under the prefixed name, None values left out. A
      name with nothing stored under it is an AttributeError, the first such
      name in the list. */
  function KwargsSpec(names: seq<string>, ns: map<string, Value>): (r: Result<Dict>)
    ensures r.Ok? <==> forall k :: k in names ==> KwargPrefix + k in ns
    ensures r.Err? ==> r.error.AttributeError?
    ensures r.Ok? ==>
      (forall k :: k in r.value <==> k in names && ns[KwargPrefix + k] != Null)
    ensures r.Ok? ==> forall k :: k in r.value ==> r.value[k] == ns[KwargPrefix + k]
  {
    if names == [] then Ok(map[])
    else
      var k := names[|names| - 1];
      var init := names[..|names| - 1];
      assert forall x :: x in names <==> x in init || x == k;
      match KwargsSpec(init, ns)
      case Err(e) => Err(e)
      case Ok(m) =>
        if KwargPrefix + k !in ns then Err(AttributeError(KwargPrefix + k))
        else if ns[KwargPrefix + k] == Null then Ok(m)
        else Ok(m[k := ns[KwargPrefix + k]])
  }

  /** `main`'s loop over `action_kwargs`; `ns` holds the parsed values by
      dest. */
  method CollectKwargs(names: seq<string>, ns: map<string, Value>) returns (r: Result<Dict>)
    ensures r == KwargsSpec(names, ns)
  {
    var kwargs: Dict := map[];
    for i := 0 to |names|
      invariant KwargsSpec(names[..i], ns) == Ok(kwargs)
    {
      assert names[..i + 1][..i] == names[..i];
      var k := names[i];
      if KwargPrefix + k !in ns {
        assert KwargsSpec(names[..i + 1], ns) == Err(AttributeError(KwargPrefix + k));
        FirstFailureStays(names, ns, i + 1);
        return Err(AttributeError(KwargPrefix + k));
      }
      var v := ns[KwargPrefix + k];
      if v == Null {
        continue;
      }
      kwargs := kwargs[k := v];
    }
    assert names[..|names|] == names;
    r := Ok(kwargs);
  }

  /** Once a prefix of the names fails, the whole list fails the same way. */
  lemma {:induction false} FirstFailureStays(names: seq<string>, ns: map<string, Value>, i: nat)
    requires i <= |names|
    requires KwargsSpec(names[..i], ns).Err?
    ensures KwargsSpec(names, ns) == KwargsSpec(names[..i], ns)
    decreases |names| - i
  {
    if i < |names| {
      assert names[..i + 1][..i] == names[..i];
      FirstFailureStays(names, ns, i + 1);
    } else {
      assert names[..i] == names;
    }
  }

  /** The round trip between `add_command_parsers` and `main`: when the
      parser stored a value under every settled dest, each option's value
      reaches the action under the name recorded for it, unless it is None. */
  lemma {:induction false} SettledValuesReachAction(specs: seq<ArgSpec>, names: seq<string>, settled: seq<ArgSpec>,
                                                    ns: map<string, Value>, k: nat)
    requires |names| == |specs| == |settled| && k < |specs|
    requires forall j :: 0 <= j < |specs| ==> Settle(specs[j]) == Ok((names[j], settled[j]))
    requires forall j :: 0 <= j < |settled| ==> "dest" in settled[j].kwargs && settled[j].kwargs["dest"] in ns
    ensures KwargsSpec(names, ns).Ok?
    ensures ns[settled[k].kwargs["dest"]] != Null ==>
      (names[k] in KwargsSpec(names, ns).value
      && KwargsSpec(names, ns).value[names[k]] == ns[settled[k].kwargs["dest"]])
    ensures ns[settled[k].kwargs["dest"]] == Null ==> names[k] !in KwargsSpec(names, ns).value
  {
    forall x | x in names ensures KwargPrefix + x in ns {
      var j :| 0 <= j < |names| && names[j] == x;
      assert settled[j].kwargs["dest"] == KwargPrefix + x;
    }
    assert settled[k].kwargs["dest"] == KwargPrefix + names[k];
  }

  // -------------------------------------------------------------- services

  /** `context.get_admin_context()`: an administrator reading live records. */
  const AdminContext: Context := Context("no", Null, Null, true)

  lemma AdminSeesLive()
    ensures Admin(AdminContext) && ViewOf(AdminContext, None) == Ok(No)
  {
  }

  /** `ServiceCommands.list(host, service)` without its printing: every live
      service, then only those on `host` when one is given, then only those
      of the binary `service` when one is given. */
  function ListServices(rows: seq<Row>, host: Value, service: Value): (r: seq<Dict>)
    ensures Store.ServiceGetAll(rows, AdminContext, Null).Ok?
    ensures forall d :: d in r <==>
      (d in ConductorManager.Primitives(Store.ServiceGetAll(rows, AdminContext, Null).value)
      && (Truthy(host) ==> Get(d, "host") == host)
      && (Truthy(service) ==> Get(d, "binary") == service))
  {
    AdminSeesLive();
    var services := ConductorManager.Primitives(Store.ServiceGetAll(rows, AdminContext, Null).value);
    var byHost := if Truthy(host) then ServicesApi.FilterBy(services, "host", host) else services;
    if Truthy(service) then ServicesApi.FilterBy(byHost, "binary", service) else byHost
  }

  /** Unfiltered, the listing holds the record of every live service. */
  lemma LiveServiceListed(rows: seq<Row>, x: Row)
    requires x in rows && Live(x)
    ensures x.ToDict(ServiceColumns) in ListServices(rows, Null, Null)
  {
    AdminSeesLive();
    var all := Store.ServiceGetAll(rows, AdminContext, Null).value;
    assert InView(x, No);
    var i :| 0 <= i < |all| && all[i] == x;
    assert ConductorManager.Primitives(all)[i] == x.ToDict(ServiceColumns);
  }

  /** Every entry of the unfiltered listing is the record of a live service. */
  lemma ListedServiceLive(rows: seq<Row>, d: Dict) returns (x: Row)
    requires d in ListServices(rows, Null, Null)
    ensures x in rows && Live(x) && x.ToDict(ServiceColumns) == d
  {
    AdminSeesLive();
    var all := Store.ServiceGetAll(rows, AdminContext, Null).value;
    var i :| 0 <= i < |all| && ConductorManager.Primitives(all)[i] == d;
    x := all[i];
    assert x in all;
  }

  /** The command-line listing and the API's listing agree: for an
      administrator, filtering by host and binary strings gives the same
      records whichever side does it (an empty string filters nothing on
      both). */
  lemma ListMatchesApi(rows: seq<Row>, host: string, binary: string)
    ensures ServicesApi.GetServices(rows, AdminContext, map["host" := host, "binary" := binary])
      == Ok(ListServices(rows, Str(host), Str(binary)))
  {
    AdminSeesLive();
    assert ServicesApi.Param(map["host" := host, "binary" := binary], "host") == host;
    assert ServicesApi.Param(map["host" := host, "binary" := binary], "binary") == binary;
  }

  /** What `enable` or `disable` leaves behind: the exit status (None when
      the command ends normally) or the error it raises, and the table. */
  datatype Run = Run(status: Result<Option<int>>, rows: seq<Row>)

  /** `enable`/`disable(host, service)`: the (host, binary) lookup, then the
      update of `disabled` on the record found, by its id; a not-found error
      at either step ends the command with status 2 and no change. */
  function ToggleSpec(rows: seq<Row>, host: Value, service: Value, disabled: bool): (run: Run)
    ensures run.status != Ok(None) ==> run.rows == rows
    ensures run.status.Err? ==> !IsNotFound(run.status.error)
  {
    match Store.ServiceGetByArgs(rows, AdminContext, host, service)
    case Err(e) => Run(if IsNotFound(e) then Ok(Some(2)) else Err(e), rows)
    case Ok(svc) =>
      match Store.ServiceUpdateSpec(rows, AdminContext, svc.Field("id"), map["disabled" := Bool(disabled)])
      case Err(e) => Run(if IsNotFound(e) then Ok(Some(2)) else Err(e), rows)
      case Ok(w) => Run(Ok(None), w.rows)
  }

  /** Without a live service of that binary on that host, the command
      reports status 2 and changes nothing. */
  lemma ToggleNotFound(rows: seq<Row>, host: Value, service: Value, disabled: bool)
    requires forall x :: x in rows && Live(x) && x.Field("host") == host ==> x.Field("binary") != service
    ensures ToggleSpec(rows, host, service, disabled) == Run(Ok(Some(2)), rows)
  {
    AdminSeesLive();
  }

  /** In a valid table, a live service of that binary on that host is
      found, and the command sets its flag and changes nothing else. */
  lemma {:induction false} ToggleFound(rows: seq<Row>, host: Value, service: Value, disabled: bool)
    requires ServicesValid(rows)
    requires exists x :: x in rows && Live(x) && x.Field("host") == host && x.Field("binary") == service
    ensures ToggleSpec(rows, host, service, disabled).status == Ok(None)
    ensures exists i ::
      (0 <= i < |rows| && Live(rows[i]) && rows[i].Field("host") == host && rows[i].Field("binary") == service
      && ToggleSpec(rows, host, service, disabled).rows
         == rows[i := rows[i].(fields := rows[i].fields["disabled" := Bool(disabled)])])
  {
    AdminSeesLive();
    var found := Store.ServiceGetByArgs(rows, AdminContext, host, service);
    assert found.Ok? by {
      var x :| x in rows && Live(x) && x.Field("host") == host && x.Field("binary") == service;
      assert InView(x, No);
    }
    var i := FlagUpdateSucceeds(rows, found.value, disabled);
  }

  /** Setting the flag of a live service through the update by its id
      succeeds and changes that record's flag only. */
  lemma FlagUpdateSucceeds(rows: seq<Row>, svc: Row, disabled: bool) returns (i: nat)
    requires ServicesValid(rows)
    requires svc in rows && Live(svc)
    ensures i < |rows| && rows[i] == svc
    ensures Store.ServiceUpdateSpec(rows, AdminContext, svc.Field("id"), map["disabled" := Bool(disabled)]).Ok?
    ensures Store.ServiceUpdateSpec(rows, AdminContext, svc.Field("id"), map["disabled" := Bool(disabled)]).value.rows
      == rows[i := svc.(fields := svc.fields["disabled" := Bool(disabled)])]
  {
    AdminSeesLive();
    var values := map["disabled" := Bool(disabled)];
    i := FoundById(rows, svc);
    var row := Merge(rows[i], values, ServiceData);
    MergeFlag(rows[i], disabled);
    FlagChangeKeepsValid(rows, i, disabled);
    assert !ClashesWith(rows, row, "binary", i) && !ClashesWith(rows, row, "topic", i);
  }

  /** Storing `{'disabled': flag}` sets that column only. */
  lemma MergeFlag(row: Row, disabled: bool)
    ensures "id" !in ServiceData && "deleted" !in ServiceData
    ensures Merge(row, map["disabled" := Bool(disabled)], ServiceData)
      == row.(fields := row.fields["disabled" := Bool(disabled)])
  {
    ServiceShape();
    var values := map["disabled" := Bool(disabled)];
    assert Writable(values, ServiceData) == values;
  }

  /** A live record is the one the lookup by its own id finds. */
  lemma FoundById(rows: seq<Row>, svc: Row) returns (i: nat)
    requires WellFormed(rows, ServiceData)
    requires svc in rows && Live(svc)
    ensures i < |rows| && rows[i] == svc
    ensures Store.ServiceGet(rows, AdminContext, svc.Field("id")) == Ok(i)
  {
    AdminSeesLive();
    i :| 0 <= i < |rows| && rows[i] == svc;
    var conds := [FieldIs("id", svc.Field("id"))];
    assert Matches(rows[i], No, conds);
    forall j | 0 <= j < i ensures !Matches(rows[j], No, conds) {
      assert rows[j].Field("id") == Int(j + 1) && svc.Field("id") == Int(i + 1);
      assert !Holds(conds[0], rows[j]);
    }
    FirstMatchFound(rows, No, conds, i);
  }

  /** Changing only a service's flag clashes with nothing, keeps its count,
      and so succeeds. */
  lemma FlagChangeKeepsValid(rows: seq<Row>, i: nat, disabled: bool)
    requires ServicesValid(rows) && i < |rows|
    ensures var row := rows[i].(fields := rows[i].fields["disabled" := Bool(disabled)]);
      row.Field("report_count") != Null
      && !ClashesWith(rows, row, "binary", i) && !ClashesWith(rows, row, "topic", i)
  {
    var row := rows[i].(fields := rows[i].fields["disabled" := Bool(disabled)]);
    assert row.Field("report_count") == rows[i].Field("report_count");
    forall j, c | 0 <= j < |rows| && j != i && c in {"binary", "topic"} ensures !Clash(rows[j], row, c) {
      assert row.Field("host") == rows[i].Field("host") && row.Field(c) == rows[i].Field(c);
      assert row.Field("deleted") == rows[i].Field("deleted");
      if j < i {
        assert !Clash(rows[j], rows[i], c);
      } else {
        assert !Clash(rows[i], rows[j], c);
      }
    }
  }

  /** The service commands, over the store. */
  class ServiceCommands {
    const db: Database

    constructor (db: Database)
      ensures this.db == db
    {
      this.db := db;
    }

    /** The body shared by `enable` and `disable`. */
    method SetDisabled(host: Value, service: Value, disabled: bool) returns (status: Result<Option<int>>)
      requires db.Valid()
      modifies db
      ensures db.Valid() && db.instances == old(db.instances)
      ensures Run(status, db.services) == ToggleSpec(old(db.services), host, service, disabled)
    {
      ghost var rows0 := db.services;
      var found := Store.ServiceGetByArgs(db.services, AdminContext, host, service);
      if found.Err? {
        status := if IsNotFound(found.error) then Ok(Some(2)) else Err(found.error);
        assert ToggleSpec(rows0, host, service, disabled) == Run(status, rows0);
        return;
      }
      var values := map["disabled" := Bool(disabled)];
      ghost var spec := Store.ServiceUpdateSpec(rows0, AdminContext, found.value.Field("id"), values);
      assert ToggleSpec(rows0, host, service, disabled)
        == if spec.Ok? then Run(Ok(None), spec.value.rows)
           else Run(if IsNotFound(spec.error) then Ok(Some(2)) else Err(spec.error), rows0);
      var u := db.ServiceUpdate(AdminContext, found.value.Field("id"), values);
      if u.Err? {
        return if IsNotFound(u.error) then Ok(Some(2)) else Err(u.error);
      }
      status := Ok(None);
    }

    /** `enable(host, service)`: clears the flag. */
    method Enable(host: Value, service: Value) returns (status: Result<Option<int>>)
      requires db.Valid()
      modifies db
      ensures db.Valid() && db.instances == old(db.instances)
      ensures Run(status, db.services) == ToggleSpec(old(db.services), host, service, false)
    {
      status := SetDisabled(host, service, false);
    }

    /** `disable(host, service)`: sets the flag. */
    method Disable(host: Value, service: Value) returns (status: Result<Option<int>>)
      requires db.Valid()
      modifies db
      ensures db.Valid() && db.instances == old(db.instances)
      ensures Run(status, db.services) == ToggleSpec(old(db.services), host, service, true)
    {
      status := SetDisabled(host, service, true);
    }
  }

  // ------------------------------------------------------------------ logs

  /** The lines of a log file stripped, latest first. */
  function Latest(lines: seq<string>): (r: seq<string>)
    ensures |r| == |lines|
    ensures forall i :: 0 <= i < |r| ==> r[i] == Stripped(lines)[|lines| - 1 - i]
  {
    seq(|lines|, i requires 0 <= i < |lines| => Strip(lines[|lines| - 1 - i], Bytes))
  }

  /** A line `errors` reports: " ERROR " occurs in it after its first
      character. */
  predicate IsErrorLine(line: string)
  {
    Find(line, " ERROR ") > 0
  }

  /** A reported error line: its number in the file, counted from 1, and
      its stripped text. */
  datatype Hit = Hit(lineNumber: int, line: string)

  /** The lines of a log file stripped, in file order. */
  function Stripped(lines: seq<string>): (r: seq<string>)
    ensures |r| == |lines|
  {
    seq(|lines|, i requires 0 <= i < |lines| => Strip(lines[i], Bytes))
  }

  /** Which of the stripped lines are error lines. */
  function ErrorMarks(texts: seq<string>): (r: seq<bool>)
    ensures |r| == |texts|
  {
    seq(|texts|, i requires 0 <= i < |texts| => IsErrorLine(texts[i]))
  }

  /** The hits among lines 1 to `n` of the stripped lines `texts`, latest
      first; `marks` says which of them are error lines. */
  function HitsUpTo(texts: seq<string>, marks: seq<bool>, n: nat): (r: seq<Hit>)
    requires |marks| == |texts| && n <= |texts|
    ensures |r| <= n
  {
    if n == 0 then []
    else (if marks[n - 1] then [Hit(n, texts[n - 1])] else []) + HitsUpTo(texts, marks, n - 1)
  }

  /** The hits of a log file, as `errors` lists them. */
  function FileHits(lines: seq<string>): (r: seq<Hit>)
    ensures |r| <= |lines|
  {
    HitsUpTo(Stripped(lines), ErrorMarks(Stripped(lines)), |lines|)
  }

  /** The loop invariant of `errors` survives line `n`: the hits so far,
      followed by the hits among the lines before `n`, are still all the hits
      `whole`. */
  lemma HitsStep(texts: seq<string>, marks: seq<bool>, n: nat, hits: seq<Hit>, whole: seq<Hit>)
    requires |marks| == |texts| && 1 <= n <= |texts|
    requires hits + HitsUpTo(texts, marks, n) == whole
    ensures marks[n - 1] ==> (hits + [Hit(n, texts[n - 1])]) + HitsUpTo(texts, marks, n - 1) == whole
    ensures !marks[n - 1] ==> hits + HitsUpTo(texts, marks, n - 1) == whole
  {
    var hit := Hit(n, texts[n - 1]);
    if marks[n - 1] {
      assert HitsUpTo(texts, marks, n) == [hit] + HitsUpTo(texts, marks, n - 1);
      assert hits + ([hit] + HitsUpTo(texts, marks, n - 1)) == (hits + [hit]) + HitsUpTo(texts, marks, n - 1);
    }
  }

  /** The scan of one file by `errors`: the error lines, latest first, each
      with the number of the line it was read from. */
  method ErrorsIn(lines: seq<string>) returns (hits: seq<Hit>)
    ensures hits == FileHits(lines)
  {
    ghost var texts := Stripped(lines);
    ghost var marks := ErrorMarks(texts);
    var rev := Latest(lines);
    hits := [];
    for index := 0 to |rev|
      invariant hits + HitsUpTo(texts, marks, |lines| - index) == HitsUpTo(texts, marks, |lines|)
    {
      var linenum := |rev| - index;
      assert rev[index] == texts[linenum - 1];
      HitsStep(texts, marks, linenum, hits, HitsUpTo(texts, marks, |lines|));
      if IsErrorLine(rev[index]) {
        hits := hits + [Hit(linenum, rev[index])];
      }
    }
  }

  /** Every hit names one of the lines 1 to `n`, an error line, with its
      stripped text. */
  lemma {:induction false} HitsAreErrors(texts: seq<string>, marks: seq<bool>, n: nat, k: nat)
    requires |marks| == |texts| && n <= |texts| && k < |HitsUpTo(texts, marks, n)|
    ensures var h := HitsUpTo(texts, marks, n)[k];
      1 <= h.lineNumber <= n && marks[h.lineNumber - 1] && h.line == texts[h.lineNumber - 1]
  {
    var rest := HitsUpTo(texts, marks, n - 1);
    if !marks[n - 1] {
      assert HitsUpTo(texts, marks, n)[k] == rest[k];
      HitsAreErrors(texts, marks, n - 1, k);
    } else if k > 0 {
      assert HitsUpTo(texts, marks, n)[k] == rest[k - 1];
      HitsAreErrors(texts, marks, n - 1, k - 1);
    }
  }

  /** Hits come latest first: line numbers strictly decrease. */
  lemma {:induction false} HitsDescend(texts: seq<string>, marks: seq<bool>, n: nat, k: nat, m: nat)
    requires |marks| == |texts| && n <= |texts| && k < m < |HitsUpTo(texts, marks, n)|
    ensures HitsUpTo(texts, marks, n)[k].lineNumber > HitsUpTo(texts, marks, n)[m].lineNumber
  {
    var rest := HitsUpTo(texts, marks, n - 1);
    if !marks[n - 1] {
      assert HitsUpTo(texts, marks, n) == rest;
      HitsDescend(texts, marks, n - 1, k, m);
    } else {
      assert HitsUpTo(texts, marks, n)[m] == rest[m - 1];
      if k > 0 {
        assert HitsUpTo(texts, marks, n)[k] == rest[k - 1];
        HitsDescend(texts, marks, n - 1, k - 1, m - 1);
      } else {
        HitsAreErrors(texts, marks, n - 1, m - 1);
      }
    }
  }

  /** Every error line among lines 1 to `n` is reported. */
  lemma {:induction false} ErrorsReported(texts: seq<string>, marks: seq<bool>, n: nat, line: nat) returns (k: nat)
    requires |marks| == |texts| && n <= |texts| && 1 <= line <= n && marks[line - 1]
    ensures k < |HitsUpTo(texts, marks, n)| && HitsUpTo(texts, marks, n)[k].lineNumber == line
  {
    var rest := HitsUpTo(texts, marks, n - 1);
    if line == n {
      k := 0;
    } else {
      k := ErrorsReported(texts, marks, n - 1, line);
      if marks[n - 1] {
        assert HitsUpTo(texts, marks, n)[k + 1] == rest[k];
        k := k + 1;
      } else {
        assert HitsUpTo(texts, marks, n) == rest;
      }
    }
  }

  /** Each hit of a file is an error line, reported with its number and its
      stripped text. */
  lemma FileHitIsError(lines: seq<string>, k: nat)
    requires k < |FileHits(lines)|
    ensures 1 <= FileHits(lines)[k].lineNumber <= |lines|
    ensures FileHits(lines)[k].line == Strip(lines[FileHits(lines)[k].lineNumber - 1], Bytes)
    ensures IsErrorLine(FileHits(lines)[k].line)
  {
    var texts := Stripped(lines);
    HitsAreErrors(texts, ErrorMarks(texts), |lines|, k);
  }

  /** The hits of a file come latest first. */
  lemma FileHitsDescend(lines: seq<string>, k: nat, m: nat)
    requires k < m < |FileHits(lines)|
    ensures FileHits(lines)[k].lineNumber > FileHits(lines)[m].lineNumber
  {
    var texts := Stripped(lines);
    HitsDescend(texts, ErrorMarks(texts), |lines|, k, m);
  }

  /** Every error line of a file is among its hits. */
  lemma ErrorLineReported(lines: seq<string>, n: nat) returns (k: nat)
    requires 1 <= n <= |lines| && IsErrorLine(Strip(lines[n - 1], Bytes))
    ensures k < |FileHits(lines)| && FileHits(lines)[k].lineNumber == n
  {
    var texts := Stripped(lines);
    assert ErrorMarks(texts)[n - 1];
    k := ErrorsReported(texts, ErrorMarks(texts), |lines|, n);
  }

  /** A syslog line `syslog` shows: "nova" occurs in it, and its first
      occurrence is not at the start of the line. */
  predicate IsNovaLine(line: string)
  {
    Find(line, "nova") > 0
  }

  /** The nova lines of `ls`, in order. */
  function NovaLines(ls: seq<string>): (r: seq<string>)
    ensures |r| <= |ls|
  {
    if ls == [] then []
    else (if IsNovaLine(ls[0]) then [ls[0]] else []) + NovaLines(ls[1..])
  }

  /** The nova lines are exactly the lines of `ls` that mention nova. */
  lemma {:induction false} NovaLinesFilter(ls: seq<string>)
    ensures forall l :: l in NovaLines(ls) <==> l in ls && IsNovaLine(l)
  {
    if ls != [] {
      NovaLinesFilter(ls[1..]);
      assert ls == [ls[0]] + ls[1..];
    }
  }

  /** The loop of `syslog` from `count` on: a nova line is shown and
      counted, and the loop stops as soon as the count equals `entries`,
      whether or not the line was a nova line. */
  function Scan(ls: seq<string>, count: int, entries: int): (r: seq<string>)
    ensures |r| <= |ls|
  {
    if ls == [] then []
    else
      var hit := IsNovaLine(ls[0]);
      var c := if hit then count + 1 else count;
      (if hit then [ls[0]] else []) + (if c == entries then [] else Scan(ls[1..], c, entries))
  }

  /** The loop invariant of `syslog` survives a nova line: it is shown, and
      the lines shown so far are the whole scan `whole` once the count
      reaches the limit, or are followed by the scan of the rest. */
  lemma ScanShowsNovaLine(lines: seq<string>, i: nat, shown: seq<string>, count: int, entries: int, whole: seq<string>)
    requires i < |lines| && IsNovaLine(lines[i])
    requires shown + Scan(lines[i..], count, entries) == whole
    ensures count + 1 == entries ==> shown + [lines[i]] == whole
    ensures count + 1 != entries ==>
      (shown + [lines[i]]) + Scan(lines[i + 1..], count + 1, entries) == whole
  {
    var ls := lines[i..];
    assert ls[0] == lines[i] && ls[1..] == lines[i + 1..];
    if count + 1 == entries {
      assert Scan(ls, count, entries) == [lines[i]];
    } else {
      assert Scan(ls, count, entries) == [lines[i]] + Scan(lines[i + 1..], count + 1, entries);
      assert shown + ([lines[i]] + Scan(lines[i + 1..], count + 1, entries))
        == (shown + [lines[i]]) + Scan(lines[i + 1..], count + 1, entries);
    }
  }

  /** The loop invariant of `syslog` survives any other line: nothing is
      shown, and the scan stops there only when the count already equals
      the limit. */
  lemma ScanSkipsOtherLine(lines: seq<string>, i: nat, shown: seq<string>, count: int, entries: int, whole: seq<string>)
    requires i < |lines| && !IsNovaLine(lines[i])
    requires shown + Scan(lines[i..], count, entries) == whole
    ensures count == entries ==> shown == whole
    ensures count != entries ==> shown + Scan(lines[i + 1..], count, entries) == whole
  {
    var ls := lines[i..];
    assert ls[0] == lines[i] && ls[1..] == lines[i + 1..];
    if count == entries {
      assert Scan(ls, count, entries) == [];
      assert shown + [] == shown;
    } else {
      assert Scan(ls, count, entries) == Scan(lines[i + 1..], count, entries);
    }
  }

  /** The loop of `syslog` over the stripped lines, latest first. */
  method ShowNova(lines: seq<string>, entries: int) returns (shown: seq<string>)
    ensures shown == Scan(lines, 0, entries)
  {
    var count := 0;
    shown := [];
    var i := 0;
    while i < |lines|
      invariant 0 <= i <= |lines|
      invariant shown + Scan(lines[i..], count, entries) == Scan(lines, 0, entries)
    {
      if IsNovaLine(lines[i]) {
        ScanShowsNovaLine(lines, i, shown, count, entries, Scan(lines, 0, entries));
        count := count + 1;
        shown := shown + [lines[i]];
      } else {
        ScanSkipsOtherLine(lines, i, shown, count, entries, Scan(lines, 0, entries));
      }
      if count == entries {
        return;
      }
      i := i + 1;
    }
  }

  /** `syslog(num_entries)` over the contents of /var/log/syslog or, failing
      that, /var/log/messages (None for a file that does not exist): status
      1 without either file, otherwise the lines shown. */
  method Syslog(syslog: Option<seq<string>>, messages: Option<seq<string>>, entries: int := 10)
    returns (status: Option<int>, shown: seq<string>)
    ensures syslog.None? && messages.None? ==> status == Some(1) && shown == []
    ensures syslog.Some? ==> status == None && shown == Scan(Latest(syslog.value), 0, entries)
    ensures syslog.None? && messages.Some? ==> status == None && shown == Scan(Latest(messages.value), 0, entries)
  {
    var file: seq<string>;
    if syslog.Some? {
      file := syslog.value;
    } else if messages.Some? {
      file := messages.value;
    } else {
      return Some(1), [];
    }
    shown := ShowNova(Latest(file), entries);
    status := None;
  }

  /** The first `n` items of `s`, or all of them when there are fewer. */
  function Take(s: seq<string>, n: int): (r: seq<string>)
    ensures |r| == if n < 0 then 0 else if n < |s| then n else |s|
    ensures r == s[..|r|]
  {
    if n < 0 then [] else if n < |s| then s[..n] else s
  }

  /** With a count below a positive limit, the scan shows the first nova
      lines up to the limit. */
  lemma {:induction false} ScanTakes(ls: seq<string>, count: int, entries: int)
    requires count < entries
    ensures Scan(ls, count, entries) == Take(NovaLines(ls), entries - count)
    decreases |ls|
  {
    if ls != [] {
      var hit := IsNovaLine(ls[0]);
      var c := if hit then count + 1 else count;
      if c != entries {
        ScanTakes(ls[1..], c, entries);
      }
    }
  }

  /** With a count already past the limit, the count can never equal it
      again, and every nova line is shown. */
  lemma {:induction false} ScanPastLimit(ls: seq<string>, count: int, entries: int)
    requires entries < count
    ensures Scan(ls, count, entries) == NovaLines(ls)
    decreases |ls|
  {
    if ls != [] {
      var c := if IsNovaLine(ls[0]) then count + 1 else count;
      ScanPastLimit(ls[1..], c, entries);
    }
  }

  /** For a positive `num_entries`, `syslog` shows the latest nova lines, at
      most `num_entries` of them, latest first. */
  lemma SyslogShowsLatest(lines: seq<string>, entries: int)
    requires entries >= 1
    ensures Scan(Latest(lines), 0, entries) == Take(NovaLines(Latest(lines)), entries)
    ensures |Scan(Latest(lines), 0, entries)| <= entries
  {
    ScanTakes(Latest(lines), 0, entries);
  }

  /** For `num_entries` 0, `syslog` shows nothing when the latest line is
      not a nova line and every nova line when it is; for a negative value
      it always shows every nova line. */
  lemma {:induction false} NonPositiveEntriesShowAll(ls: seq<string>, entries: int)
    requires entries <= 0
    ensures entries < 0 ==> Scan(ls, 0, entries) == NovaLines(ls)
    ensures entries == 0 && ls != [] && IsNovaLine(ls[0]) ==> Scan(ls, 0, entries) == NovaLines(ls)
    ensures entries == 0 && (ls == [] || !IsNovaLine(ls[0])) ==> Scan(ls, 0, entries) == []
  {
    if entries < 0 {
      ScanPastLimit(ls, 0, entries);
    } else if ls != [] && IsNovaLine(ls[0]) {
      ScanPastLimit(ls[1..], 1, entries);
    }
  }

  /** The selection `syslog` evidently intends: the latest nova lines, at
      most `num_entries` of them (none for a count below 1). */
  function LatestEntries(lines: seq<string>, entries: int): (r: seq<string>)
    ensures |r| <= (if entries < 0 then 0 else entries)
    ensures forall l :: l in r ==> l in Latest(lines) && IsNovaLine(l)
  {
    NovaLinesFilter(Latest(lines));
    Take(NovaLines(Latest(lines)), entries)
  }

  /** The intended selection agrees with the loop whenever `num_entries` is
      positive. */
  lemma LatestEntriesAgree(lines: seq<string>, entries: int)
    requires entries >= 1
    ensures LatestEntries(lines, entries) == Scan(Latest(lines), 0, entries)
  {
    SyslogShowsLatest(lines, entries);
  }
}
