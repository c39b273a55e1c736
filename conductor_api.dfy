// The conductor's client-side service API: how each local lookup maps its
// arguments onto `service_get_all_by`, what that makes of the compute-host
// lookup, and the retry schedule of the remote `wait_until_ready`.

module ConductorApi {
  import opened Wrappers
  import opened Values
  import opened Errors
  import opened Models
  import opened Query
  import Store
  import opened ConductorManager

  /** `service_get_all(context)`: every service the context can see. */
  function ServiceGetAll(rows: seq<Row>, ctx: Context): (r: Result<Reply>)
    ensures r == ListReply(Store.ServiceGetAll(rows, ctx, Null))
  {
    ServiceGetAllBy(rows, ctx, Null, Null, Null)
  }

  /** `service_get_all_by_topic(context, topic)`; an empty topic lists every
      service. */
  function ServiceGetAllByTopic(rows: seq<Row>, ctx: Context, topic: Value): (r: Result<Reply>)
    ensures Truthy(topic) ==> r == ListReply(Store.ServiceGetAllByTopic(rows, ctx, topic))
    ensures !Truthy(topic) ==> r == ListReply(Store.ServiceGetAll(rows, ctx, Null))
  {
    ServiceGetAllBy(rows, ctx, topic, Null, Null)
  }

  /** `service_get_all_by_host(context, host)`; an empty host lists every
      service. */
  function ServiceGetAllByHost(rows: seq<Row>, ctx: Context, host: Value): (r: Result<Reply>)
    ensures Truthy(host) ==> r == ListReply(Store.ServiceGetAllByHost(rows, ctx, host))
    ensures !Truthy(host) ==> r == ListReply(Store.ServiceGetAll(rows, ctx, Null))
  {
    ServiceGetAllBy(rows, ctx, Null, host, Null)
  }

  /** `service_get_by_host_and_topic(context, host, topic)`: a single record
      (or None) only when both are given; with one of them missing it is a
      listing by the other. */
  function ServiceGetByHostAndTopic(rows: seq<Row>, ctx: Context, host: Value, topic: Value): (r: Result<Reply>)
    ensures Truthy(topic) && Truthy(host) ==>
      match Store.ServiceGetByHostAndTopic(rows, ctx, host, topic)
      case Err(e) => r == Err(e)
      case Ok(None) => r == Ok(NoRecord)
      case Ok(Some(x)) => r == Ok(One(x.ToDict(ServiceColumns)))
    ensures Truthy(topic) && !Truthy(host) ==> r == ListReply(Store.ServiceGetAllByTopic(rows, ctx, topic))
    ensures !Truthy(topic) && Truthy(host) ==> r == ListReply(Store.ServiceGetAllByHost(rows, ctx, host))
    ensures !Truthy(topic) && !Truthy(host) ==> r == ListReply(Store.ServiceGetAll(rows, ctx, Null))
  {
    ServiceGetAllBy(rows, ctx, topic, host, Null)
  }

  /** `service_get_by_args(context, host, binary)`: the (host, binary) lookup
      when both are given; a binary without a host fails. */
  function ServiceGetByArgs(rows: seq<Row>, ctx: Context, host: Value, binary: Value): (r: Result<Reply>)
    ensures Truthy(host) && Truthy(binary) ==>
      match Store.ServiceGetByArgs(rows, ctx, host, binary)
      case Err(e) => r == Err(e)
      case Ok(x) => r == Ok(One(x.ToDict(ServiceColumns)))
    ensures Truthy(host) && !Truthy(binary) ==> r == ListReply(Store.ServiceGetAllByHost(rows, ctx, host))
    ensures !Truthy(host) && Truthy(binary) ==> r == Err(UnboundLocal("result"))
    ensures !Truthy(host) && !Truthy(binary) ==> r == ListReply(Store.ServiceGetAll(rows, ctx, Null))
  {
    ServiceGetAllBy(rows, ctx, Null, host, binary)
  }

  /** Python's `result[0]` on a reply: the first item of a list, a KeyError
      on a dictionary (it has no key 0), a TypeError on None. */
  function ElementZero(r: Result<Reply>): (x: Result<Dict>)
    ensures r.Err? ==> x == Err(r.error)
    ensures r.Ok? && r.value.Many? && r.value.items != [] ==> x == Ok(r.value.items[0])
    ensures r.Ok? && r.value.Many? && r.value.items == [] ==> x == Err(IndexError)
    ensures r.Ok? && r.value.One? ==> x == Err(KeyError("0"))
    ensures r.Ok? && r.value.NoRecord? ==> x == Err(TypeError)
  {
    match r
    case Err(e) => Err(e)
    case Ok(Many(items)) => if items == [] then Err(IndexError) else Ok(items[0])
    case Ok(One(_)) => Err(KeyError("0"))
    case Ok(NoRecord) => Err(TypeError)
  }

  /** `service_get_by_compute_host(context, host)` as written: element 0 of
      the lookup by topic 'compute' and `host`. */
  function ServiceGetByComputeHost(rows: seq<Row>, ctx: Context, host: Value): (r: Result<Dict>)
    ensures !Truthy(host) ==> r == ElementZero(ListReply(Store.ServiceGetAllByTopic(rows, ctx, Str("compute"))))
  {
    ElementZero(ServiceGetAllBy(rows, ctx, Str("compute"), host, Null))
  }

  /** With a host given, the lookup above never returns a record: the
      host-and-topic lookup replies with one record or None, and element 0 of
      either is an error. Without a host it returns the first compute
      service of any host. */
  lemma ComputeHostLookupFails(rows: seq<Row>, ctx: Context, host: Value)
    requires Truthy(host)
    ensures ServiceGetByComputeHost(rows, ctx, host).Err?
    ensures Store.Admin(ctx) ==>
      ServiceGetByComputeHost(rows, ctx, host).error == KeyError("0") ||
      ServiceGetByComputeHost(rows, ctx, host).error == TypeError
  {
  }

  /** The lookup as its own comment intends it: the single record of the
      host-and-topic lookup itself, or None. */
  function ServiceGetByComputeHostFixed(rows: seq<Row>, ctx: Context, host: Value): (r: Result<Option<Dict>>)
    ensures Truthy(host) ==>
      match Store.ServiceGetByHostAndTopic(rows, ctx, host, Str("compute"))
      case Err(e) => r == Err(e)
      case Ok(None) => r == Ok(None)
      case Ok(Some(x)) => r == Ok(Some(x.ToDict(ServiceColumns)))
    ensures !Truthy(host) ==>
      match Store.ServiceGetAllByTopic(rows, ctx, Str("compute"))
      case Err(e) => r == Err(e)
      case Ok(xs) => r == Ok(if xs == [] then None else Some(xs[0].ToDict(ServiceColumns)))
  {
    match ServiceGetAllBy(rows, ctx, Str("compute"), host, Null)
    case Err(e) => Err(e)
    case Ok(One(d)) => Ok(Some(d))
    case Ok(NoRecord) => Ok(None)
    case Ok(Many(items)) => if items == [] then Ok(None) else Ok(Some(items[0]))
  }

  /** For an admin and a host, the corrected lookup finds a record exactly
      when a live, enabled compute service runs on that host, and what it
      finds is such a service. */
  lemma {:induction false} ComputeHostLookupFixed(rows: seq<Row>, ctx: Context, host: Value)
    requires Truthy(host) && Store.Admin(ctx)
    ensures ServiceGetByComputeHostFixed(rows, ctx, host).Ok?
    ensures ServiceGetByComputeHostFixed(rows, ctx, host).value.Some? <==>
      exists x :: x in rows && Live(x) && x.Field("disabled") == Bool(false)
        && x.Field("host") == host && x.Field("topic") == Str("compute")
    ensures ServiceGetByComputeHostFixed(rows, ctx, host).value.Some? ==>
      var d := ServiceGetByComputeHostFixed(rows, ctx, host).value.value;
      d["host"] == host && d["topic"] == Str("compute") && d["deleted"] == Int(0)
  {
    assert "host" in ServiceColumns && "topic" in ServiceColumns && "deleted" in ServiceColumns;
    var found := Store.ServiceGetByHostAndTopic(rows, ctx, host, Str("compute"));
    if found.value.Some? {
      var x := found.value.value;
      assert x.ToDict(ServiceColumns)["deleted"] == x.Field("deleted");
    }
  }

  // ------------------------------------------------------ wait_until_ready

  /** The timeout of attempt `k` (counted from 0): the early timeout until
      `earlyAttempts` attempts have been made, the configured default (None)
      from then on. A negative `earlyAttempts` is never reached. */
  function TimeoutFor(k: nat, earlyTimeout: int, earlyAttempts: int): (t: Option<int>)
    ensures 0 <= earlyAttempts <= k ==> t == None
    ensures !(0 <= earlyAttempts <= k) ==> t == Some(earlyTimeout)
  {
    if 0 <= earlyAttempts <= k then None else Some(earlyTimeout)
  }

  /** Once the schedule falls back to the default timeout it stays there. */
  lemma FallbackIsFinal(j: nat, k: nat, earlyTimeout: int, earlyAttempts: int)
    requires j <= k && TimeoutFor(j, earlyTimeout, earlyAttempts).None?
    ensures TimeoutFor(k, earlyTimeout, earlyAttempts).None?
  {
  }

  /** Remote `wait_until_ready`: pings until one is answered, retrying every
      timed-out ping. `answered[k]` is whether attempt `k` got a reply; the
      result is the number of attempts and the timeout each one used. */
  method WaitUntilReady(answered: seq<bool>, earlyTimeout: int := 10, earlyAttempts: int := 10)
    returns (attempts: nat, timeouts: seq<Option<int>>)
    requires exists k :: 0 <= k < |answered| && answered[k]
    ensures 1 <= attempts <= |answered| && answered[attempts - 1]
    ensures forall k :: 0 <= k < attempts - 1 ==> !answered[k]
    ensures |timeouts| == attempts
    ensures forall k :: 0 <= k < attempts ==> timeouts[k] == TimeoutFor(k, earlyTimeout, earlyAttempts)
  {
    attempts := 0;
    timeouts := [];
    var timeout: Option<int> := Some(earlyTimeout);
    while true
      invariant attempts < |answered|
      invariant forall k :: 0 <= k < attempts ==> !answered[k]
      invariant |timeouts| == attempts
      invariant forall k :: 0 <= k < attempts ==> timeouts[k] == TimeoutFor(k, earlyTimeout, earlyAttempts)
      invariant timeout == if 0 <= earlyAttempts < attempts then None else Some(earlyTimeout)
      decreases |answered| - attempts
    {
      if attempts == earlyAttempts {
        timeout := None;
      }
      attempts := attempts + 1;
      timeouts := timeouts + [timeout];
      if answered[attempts - 1] {
        break;
      }
    }
  }
}
