# Android task framework core, modelled in Dafny

This project models the core of a small task framework built from parts of
nova. The framework manages "android" records through a chain of five layers:

1. The android API checks a record's lifecycle state before each action.
2. The android RPC client routes the action to the worker on the record's host.
3. The android worker (agent manager) writes the task marker, then the target
   state, through the conductor.
4. The conductor plugin turns those calls into store operations.
5. The SQLAlchemy back end keeps two soft-delete tables, `instances` and
   `services`.

Beside that chain, the model covers:

- the conductor's service lookups and the remote `wait_until_ready` retry
  loop;
- the database facade;
- the services REST controller: listing, and enable/disable with an optional
  logged reason;
- the `nova-manage` helpers: the `args` decorator, `methods_of`, the option
  plumbing between `add_command_parsers` and `main`, the `service`
  commands, and the `errors` and `syslog` log scans.

How it is modelled:

- **Values.** A Python dictionary is a `map<string, Value>`. `Value` covers
  None, booleans, integers, strings, lists, nested dictionaries and the
  `rb_status`/`task_status` constants. A dictionary that several parties hold
  and mutate in place is a `DictRef` object. Examples are the worker's
  instance dictionary and the `values` that `android_create` fills in.
- **Tables.** A table is a `seq<Row>`. A row's id is its position counted
  from 1, and only data columns are stored. A soft-deleted row's `deleted`
  column reads as its own id.
- **Store operations.** Each store operation is a specification function of
  the table (`Store.*Spec`). The `Backend.Database` class holds both tables
  and applies each write in place. Every method that writes is proved against
  its specification function through `Applied`/`Removed`: the new table is
  the function's table exactly when it succeeds, and is unchanged otherwise.
- **Invariants.** The table invariants are proved to be kept by every write:
  ids, data-only columns, the unique uuid index, and the (host, topic,
  deleted) and (host, binary, deleted) constraints.
- **Loops.** Loops in the source are methods with loop invariants:
  - `exact_filter`;
  - `wait_until_ready`;
  - `methods_of`;
  - the `args` stack;
  - the option loop of `add_command_parsers`;
  - `main`'s keyword loop;
  - the `errors` and `syslog` scans.

  `methods_of`, the option loop, `main`'s keyword loop and the two scans
  are proved equal to recursive specification functions, and the properties
  are proved about those functions. The other three are proved against
  direct statements:
  - `exact_filter`: which conditions the query gains and which filters
    remain;
  - `wait_until_ready`: the first answered attempt and the timeout of every
    attempt;
  - the `args` stack: the list it leaves on the command.

The model follows the local (in-process) conductor. Messages to the worker
are values (`AndroidRpcApi.Message`) rather than sent. Randomness (`uuid4`),
configuration (`enable_new_services`, `compute_topic`) and file contents are
parameters.

## Model

All source paths are under `nova/`.

| member | source | states |
|---|---|---|
| Values.Get | nova/db/sqlalchemy/api.py:487-492 | `d.get(k)` is the stored value when the key is present and None otherwise |
| Values.DictRef.constructor | nova/android/agent/manager.py:72-77 | a shared dictionary object starts out holding the given entries |
| Values.StripLeftDropsBlanks | nova/cmd/manage.py:318 | the left strip is a suffix of the input; every dropped character is white space, and the result does not start with one |
| Values.StripRightDropsBlanks | nova/cmd/manage.py:318 | the right strip is a prefix of the input; every dropped character is white space, and the result does not end with one |
| Values.StripTrims | nova/api/openstack/compute/plugins/v3/services.py:110 | `strip()` yields a slice of the input that neither starts nor ends with white space (ASCII blanks for a byte string, Unicode white space for a Unicode one); it is empty exactly when the input is all white space |
| Values.FindFromIsFirst | nova/cmd/manage.py:322 | a search from position i reports an occurrence, and no occurrence lies between i and it; -1 means there is none at all |
| Values.FindIsFirst | nova/cmd/manage.py:351 | `str.find` reports the lowest index of an occurrence, or -1 when there is none |
| Query.ReadDeleted | nova/db/sqlalchemy/api.py:172 | a non-empty explicit read-deleted mode overrides the context's mode, and an empty or missing one does not |
| Query.ParseView | nova/db/sqlalchemy/api.py:188-196 | each of 'no', 'yes' and 'only' names its own view, and any other mode is an "unrecognized" error (both directions) |
| Query.Select | nova/db/sqlalchemy/api.py:157-206 | a query keeps exactly the records that are in the view and satisfy every condition, and no more records than the table has |
| Query.FindFirst | nova/db/sqlalchemy/api.py:364 | `first()` gives the earliest matching record, none before it matches, and it is None exactly when nothing matches |
| Query.FirstMatchFound | nova/db/sqlalchemy/api.py:468 | a matching record with no earlier match is the one `first()` returns |
| Query.ModelQuery | nova/db/sqlalchemy/api.py:157-206 | `model_query` fails exactly on an unrecognised mode; otherwise it selects exactly the matching records in view |
| Query.ViewsPartition | nova/db/sqlalchemy/api.py:187-193 | 'no' keeps exactly the live records, 'only' exactly the deleted ones, and 'yes' keeps the whole table in order |
| Query.SelectAll | nova/db/sqlalchemy/api.py:190-191 | the 'yes' view without conditions returns the table unchanged |
| Query.ConditionsComplement | nova/db/sqlalchemy/api.py:324-339 | on a non-NULL column and NULL-free values, `not_equal` holds exactly when `equal_any` does not; on NULL, `not_equal` never holds |
| Query.FilterCond | nova/db/sqlalchemy/api.py:248-254 | a collection filter becomes a membership test, and any other value an equality test |
| Query.HoldsAllAppend | nova/db/sqlalchemy/api.py:317-321 | adding a condition to a query intersects its selection with that condition |
| Query.ExactFilter | nova/db/sqlalchemy/api.py:209-260 | the filtered query selects a record exactly when the original does and every consumed legal filter holds; unconsumed filters are returned untouched |
| Store.Merge | nova/db/sqlalchemy/api.py:506 | `ref.update(values)` sets each data column named in values, keeps every other column, and keeps the id and deletion marker |
| Store.InstanceGet | nova/db/sqlalchemy/api.py:465-471 | the lookup by uuid finds the first in-view record with that uuid (no earlier record matches), or AndroidNotFound when there is none; a bad mode is an error |
| Store.AndroidGetAll | nova/db/sqlalchemy/api.py:473-475 | the listing holds every record for mode 'yes', exactly the live ones for 'no', exactly the deleted ones for 'only'; any other non-empty mode is an error |
| Store.AndroidGetByName | nova/db/sqlalchemy/api.py:477-480 | the lookup by name lists exactly the live records with that display name |
| Store.FillValues | nova/db/sqlalchemy/api.py:487-492 | a falsy or missing uuid, project id or user id is filled from a fresh uuid or the context; every truthy supplied value is kept |
| Store.AndroidCreateSpec | nova/db/sqlalchemy/api.py:485-499 | create needs an admin context and fails on a uuid that is already taken; otherwise it appends one record with the next id and the filled values |
| Store.AndroidUpdateSpec | nova/db/sqlalchemy/api.py:501-507 | update needs an admin context and fails with the lookup's error; a merged uuid held by another record is DuplicateEntry; otherwise it succeeds, merging values into the found record and changing no other |
| Store.AndroidDestroySpec | nova/db/sqlalchemy/api.py:509-518 | destroy soft-deletes every in-view record with the uuid, or raises AndroidNotFound when there is none |
| Store.ServiceGet | nova/db/sqlalchemy/api.py:358-368 | the lookup by id finds the first in-view record with that id, or raises ServiceNotFound |
| Store.ServiceGetSpec | nova/db/sqlalchemy/api.py:371-373 | `service_get` needs an admin context, fails with the lookup's error, and otherwise returns the record the lookup found |
| Store.ServiceGetAll | nova/db/sqlalchemy/api.py:376-383 | the listing is every in-view service, filtered on `disabled` only when a value other than None is given |
| Store.ServiceGetAllByTopic | nova/db/sqlalchemy/api.py:386-391 | the listing is exactly the live, enabled services on the topic |
| Store.ServiceGetByHostAndTopic | nova/db/sqlalchemy/api.py:394-400 | the lookup returns a live, enabled service on that host and topic, or None exactly when there is no such service |
| Store.ServiceGetAllByHost | nova/db/sqlalchemy/api.py:403-407 | the listing is exactly the live services on the host |
| Store.ServiceGetByComputeHost | nova/db/sqlalchemy/api.py:410-421 | as written, the lookup fails for every admin, because the query loads a `compute_node` relationship a Service does not have |
| Store.ServiceGetByComputeHostFixed | nova/db/sqlalchemy/api.py:410-421 | without the missing relationship, the lookup returns the first live service on the host with the compute topic, or ComputeHostNotFound when there is none |
| Store.ComputeNodeJoinFails | nova/db/sqlalchemy/api.py:410-421 | whenever a live compute service runs on the host, the corrected lookup finds one while the lookup as written fails |
| Store.ServiceGetByArgs | nova/db/sqlalchemy/api.py:424-434 | the lookup returns an in-view service with that host and binary, or HostBinaryNotFound when there is none |
| Store.NewService | nova/db/sqlalchemy/api.py:439-442 | a new service stores the data columns of values; a missing or None report count is 0 and never NULL; it is disabled unless new services are enabled, and enabled by default otherwise |
| Store.InsertValues | nova/db/sqlalchemy/models.py:63-64 | an insert leaves out a None value for a column with a default, and keeps every other value given |
| Store.ServiceCreateSpec | nova/db/sqlalchemy/api.py:437-451 | create needs an admin context; a clash on (host, binary) is ServiceBinaryExists, else one on (host, topic) is ServiceTopicExists; without a clash it appends the new record |
| Store.ServiceUpdateSpec | nova/db/sqlalchemy/api.py:454-461 | update fails with the lookup's error, on a NULL count, or with DuplicateEntry on a constraint clash; otherwise it succeeds, merging values into the found service and changing no other record |
| Store.ServiceDestroySpec | nova/db/sqlalchemy/api.py:345-354 | destroy soft-deletes the in-view record with the id, or raises ServiceNotFound |
| StoreFacts.SoftDeleteKeepsWellFormed | nova/db/sqlalchemy/api.py:349-351 | soft deletion keeps the ids and stored columns, and changes no column but `deleted` |
| StoreFacts.AndroidCreateKeepsValid | nova/db/sqlalchemy/models.py:74-77 | a successful create keeps the instance table valid, including the unique uuid index |
| StoreFacts.AppendKeepsValid | nova/db/sqlalchemy/models.py:74-79 | appending a record with the next id and an unused uuid keeps the instance table valid |
| StoreFacts.AndroidUpdateKeepsValid | nova/db/sqlalchemy/models.py:74-77 | a successful update keeps the instance table valid |
| StoreFacts.ReplaceInstanceKeepsValid | nova/db/sqlalchemy/models.py:74-77 | replacing a record with one that keeps its id and holds a uuid no other record holds keeps the table valid |
| StoreFacts.AndroidDestroyKeepsValid | nova/db/sqlalchemy/api.py:509-518 | a successful destroy keeps the instance table valid |
| StoreFacts.ServiceCreateKeepsValid | nova/db/sqlalchemy/models.py:52-63 | a successful service create keeps both unique constraints and the non-NULL count |
| StoreFacts.AppendServiceKeepsValid | nova/db/sqlalchemy/models.py:52-63 | appending a non-clashing service with a count keeps the service table valid |
| StoreFacts.ServiceUpdateKeepsValid | nova/db/sqlalchemy/models.py:52-63 | a successful service update keeps the service table valid |
| StoreFacts.ReplaceKeepsValid | nova/db/sqlalchemy/models.py:52-63 | replacing a service with a non-clashing one that has the same id keeps the table valid |
| StoreFacts.ServiceDestroyKeepsValid | nova/db/sqlalchemy/api.py:345-354 | a successful service destroy keeps the constraints, since a deleted marker is unique to its record |
| StoreFacts.CreateThenGet | nova/db/sqlalchemy/api.py:465-499 | a record just created is what a later lookup of its uuid finds under the 'no' or 'yes' view |
| StoreFacts.OnlyHolderFound | nova/db/sqlalchemy/api.py:465-471 | the lookup by uuid finds the only record holding that uuid when it is in view |
| StoreFacts.AndroidUpdateMerges | nova/db/sqlalchemy/api.py:501-507 | update changes only the found record, and of it only the columns named in values |
| StoreFacts.DestroyTwiceFails | nova/db/sqlalchemy/api.py:509-518 | under the 'no' view, a second destroy of the same uuid raises AndroidNotFound |
| StoreFacts.NoLiveHolderNotFound | nova/db/sqlalchemy/api.py:509-518 | under the 'no' view, destroying a uuid that no live record holds raises AndroidNotFound |
| StoreFacts.DestroyedStaysVisible | nova/db/sqlalchemy/api.py:509-518 | a soft-deleted record is still found under the 'yes' view |
| Backend.Database.constructor | nova/db/sqlalchemy/models.py:48-98 | a new store has two empty, valid tables and the given configuration |
| Backend.Database.AndroidCreate | nova/db/sqlalchemy/api.py:485-499 | create fills the caller's dictionary in place (admin only) and applies the create specification to the instance table |
| Backend.Database.AndroidUpdate | nova/db/sqlalchemy/api.py:501-507 | update applies the update specification to the instance table and keeps it valid |
| Backend.Database.AndroidDestroy | nova/db/sqlalchemy/api.py:509-518 | destroy applies the destroy specification to the instance table and keeps it valid |
| Backend.Database.ServiceCreate | nova/db/sqlalchemy/api.py:437-451 | create applies the service create specification and keeps the constraints |
| Backend.Database.ServiceUpdate | nova/db/sqlalchemy/api.py:454-461 | update applies the service update specification and keeps the constraints |
| Backend.Database.ServiceDestroy | nova/db/sqlalchemy/api.py:345-354 | destroy applies the service destroy specification and keeps the constraints |
| DbApi.ReadDeletedFor | nova/db/api.py:167-173 | `include_delete` asks for the 'yes' view, and its absence for 'no' |
| DbApi.AndroidGetAll | nova/db/api.py:167-173 | the listing always succeeds; with `include_delete` it holds every record, without it exactly the live ones |
| DbApi.AndroidGetAllViews | nova/db/api.py:167-173 | with `include_delete` the listing is the whole table in order; without it, exactly the live records |
| DbApi.ServiceUpdateRaisesNotFound | nova/db/api.py:156-162 | `service_update` raises ServiceNotFound, a NotFound, when no visible service has the id |
| DbApi.AndroidUpdateRaisesNotFound | nova/db/api.py:187-193 | `android_update` raises AndroidNotFound when no visible record has the uuid |
| DbApi.DestroyRaisesNotFound | nova/db/api.py:108-110 | `service_destroy` and `android_destroy` raise when no visible record matches |
| AndroidRpcApi.InstanceHost | nova/android/agent/rpcapi.py:28-44 | an explicit host wins; otherwise the record's non-empty host; an empty or missing record or host raises, and the result is always truthy |
| AndroidRpcApi.CreateAndroid | nova/android/agent/rpcapi.py:60-62 | creation is a blocking call that carries the record unchanged |
| AndroidRpcApi.CastAction | nova/android/agent/rpcapi.py:64-81 | an action is a cast to the record's own host, carrying the record unchanged; no host means no message and the routing error |
| AndroidApi.CheckAttr | nova/android/agent/api.py:74-86 | an unchecked attribute passes; a missing one is a KeyError; a state outside the set is InstanceInvalidState, or KeyError('uuid') when there is no uuid |
| AndroidApi.Guard | nova/android/agent/api.py:73-95 | the guard passes exactly when both checks pass, and an android-state failure is reported before the task state is read |
| AndroidApi.Act | nova/android/agent/api.py:130-153 | an action sends its cast only when the guard passes, and the cast carries the record unchanged |
| AndroidApi.Create | nova/android/agent/api.py:123-128 | create sends exactly name, vendor and the READY state to the worker |
| AndroidApi.Get | nova/android/agent/api.py:108-121 | a uuid-like id fails with AttributeError (the mediator has no such lookup); any other id is AndroidNotFound |
| AndroidApi.AndroidStateReportedFirst | nova/android/agent/api.py:74-86 | a record failing both checks is reported for its android state |
| AndroidApi.TaskStateIgnored | nova/android/agent/api.py:130-148 | active, deactive, start and stop do not depend on the task state |
| AndroidApi.AcceptedStates | nova/android/agent/api.py:130-148 | active accepts only READY, deactive accepts ACTIVE and WORKING, start accepts ACTIVE, and stop accepts WORKING |
| AndroidApi.DestroyRejectsActivating | nova/android/agent/api.py:150-153 | destroy rejects a record whose task state is ACTIVING |
| AndroidApi.StoredRecordUnroutable | nova/android/agent/api.py:130-153 | a record as the store returns it has no host, so every action on it fails |
| AndroidApi.UuidOnlyRecordRejected | nova/android/agent/api.py:74 | a record with only a uuid fails on the missing android state before anything is sent |
| AndroidConductor.Resolve | nova/android/conductor/__init__.py:15-33 | each of the five operation names resolves to the operation of that name, and only that name does; any other name is an AttributeError |
| AndroidConductor.LiveListing | nova/android/conductor/__init__.py:69-71 | the default listing carries only live records |
| AndroidConductor.Plugin.constructor | nova/android/conductor/__init__.py:17-18 | the plugin is bound to the given store |
| AndroidConductor.Plugin.AndroidGetAll | nova/android/conductor/__init__.py:20-21 | the listing is the database facade's listing, as primitives, or its error |
| AndroidConductor.Plugin.AndroidGetAllByName | nova/android/conductor/__init__.py:73-75 | the lookup by name returns the live records with that display name, as primitives |
| AndroidConductor.Plugin.AndroidCreate | nova/android/conductor/__init__.py:77-79 | create applies the store's create to the instance table |
| AndroidConductor.Plugin.AndroidDestroy | nova/android/conductor/__init__.py:81-83 | destroy applies the store's destroy; AndroidNotFound reaches the caller |
| AndroidConductor.Plugin.AndroidUpdate | nova/android/conductor/__init__.py:85-87 | update applies the store's update and returns its result as it is |
| AgentManager.StatusValues | nova/android/agent/manager.py:72-76 | the status dictionary always sets `task_status`, sets the android state when one is given, and keeps every other key |
| AgentManager.StatusUpdateSpec | nova/android/agent/manager.py:72-77 | a status write updates the record named by the dictionary's uuid from the whole dictionary; no uuid is a KeyError |
| AgentManager.TransitionStops | nova/android/agent/manager.py:79-86 | when the marker write fails, the action stops there with that error |
| AgentManager.TransitionSpec | nova/android/agent/manager.py:79-113 | an action fails with the marker write's error, and once the marker write succeeds the action succeeds and keeps the table's length |
| AgentManager.MarkerWriteSucceeds | nova/android/agent/manager.py:79-113 | on a valid instance table, an admin's action on an android the admin can see succeeds, marker write first |
| AgentManager.TransitionContinues | nova/android/agent/manager.py:79-86 | when the marker write succeeds, the action's outcome is the second write's |
| AgentManager.TargetWriteSucceeds | nova/android/agent/manager.py:79-113 | once the marker write has gone through, the target-state write succeeds |
| AgentManager.RewriteSucceeds | nova/android/agent/manager.py:72-77 | a second update of the same record by its own uuid succeeds whenever the first did |
| AgentManager.TakenIgnoresReplaced | nova/db/sqlalchemy/models.py:74-77 | whether a uuid is taken elsewhere does not depend on the record being replaced |
| AgentManager.TaskMarkerNotStored | nova/android/agent/manager.py:76-77 | the task marker never reaches the table: the write's outcome and the stored table do not depend on it |
| AgentManager.SameWritesSameUpdate | nova/db/sqlalchemy/api.py:501-507 | an update depends on its values only through the data columns they name |
| AgentManager.StatusWriteStores | nova/android/agent/manager.py:72-77 | a successful status write stores the given android state on the found record and changes no other record |
| AgentManager.TransitionReachesTarget | nova/android/agent/manager.py:79-113 | a successful action leaves the record in the action's target state, and only that record changes |
| AgentManager.UpdateKeepsLookup | nova/android/agent/manager.py:77 | after a status write, the record is still found at the same position by its uuid |
| AgentManager.InstanceGetAfterUpdate | nova/db/sqlalchemy/api.py:465-471 | replacing the found record with one that keeps its uuid and marker does not change the lookup |
| AgentManager.TargetsAccepted | nova/android/agent/manager.py:79-113 | each target state is accepted by the next action: ACTIVE by start and deactive, WORKING by stop, READY by active; destroy accepts every target |
| AgentManager.AndroidManager.constructor | nova/android/agent/manager.py:55-58 | a worker is bound to its host and its conductor |
| AgentManager.AndroidManager.CreateAndroid | nova/android/agent/manager.py:60-65 | the worker stamps its host on the caller's dictionary, and the store applies create to it; the stored record has no host column |
| AgentManager.AndroidManager.DestroyAndroid | nova/android/agent/manager.py:67-70 | destroy soft-deletes by the dictionary's uuid; no uuid is a KeyError and changes nothing |
| AgentManager.AndroidManager.StatusUpdate | nova/android/agent/manager.py:72-77 | the caller's dictionary is updated in place, and the status write specification is applied to the table |
| AgentManager.AndroidManager.Transition | nova/android/agent/manager.py:79-113 | an action is the marker write followed, only on success, by the target write; the table ends as the transition specification says |
| AgentManager.AndroidManager.ActiveAndroid | nova/android/agent/manager.py:79-86 | activation writes ACTIVING, then ACTIVE |
| AgentManager.AndroidManager.DeactiveAndroid | nova/android/agent/manager.py:88-95 | deactivation writes DEACTIVING, then READY |
| AgentManager.AndroidManager.StartAndroid | nova/android/agent/manager.py:97-104 | start writes STARTING, then WORKING |
| AgentManager.AndroidManager.StopAndroid | nova/android/agent/manager.py:106-112 | stop writes STOPING, then ACTIVE |
| ConductorManager.SelectBranch | nova/conductor/manager.py:66-77 | each combination of topic, host and binary selects exactly one lookup (each case stated as an if-and-only-if); a binary alone selects none |
| ConductorManager.ServiceGetAllBy | nova/conductor/manager.py:65-79 | the reply is the chosen lookup's result as primitives (a list, one record or None); with no branch taken it is an UnboundLocalError |
| ConductorManager.BinaryIgnoredWithTopicAndHost | nova/conductor/manager.py:69-71 | with both topic and host given, the binary plays no part |
| ConductorManager.BinaryAloneFails | nova/conductor/manager.py:67-79 | a binary alone fails whatever the store holds |
| ConductorManager.OnlyArgsLookupRaisesHostBinary | nova/conductor/manager.py:65 | only the (host, binary) lookup raises HostBinaryNotFound |
| ConductorManager.HostAndTopicReply | nova/conductor/manager.py:69-71 | a record from the host-and-topic lookup is a live, enabled service on that host and topic |
| ConductorManager.Manager.constructor | nova/conductor/manager.py:60-62 | the manager is bound to the given store |
| ConductorManager.Manager.ServiceGetById | nova/conductor/manager.py:81-83 | the lookup by id returns the record with that id as primitives, or the store's error |
| ConductorManager.Manager.ServiceCreate | nova/conductor/manager.py:85-87 | create applies the store's service create |
| ConductorManager.Manager.ServiceDestroy | nova/conductor/manager.py:89-91 | destroy applies the store's service destroy; ServiceNotFound reaches the caller |
| ConductorManager.Manager.ServiceUpdate | nova/conductor/manager.py:93-96 | update applies the store's update by `service['id']`; a service without an id is a KeyError and changes nothing |
| ConductorApi.ServiceGetAll | nova/conductor/api.py:82-83 | the listing is every visible service, as primitives |
| ConductorApi.ServiceGetAllByTopic | nova/conductor/api.py:85-86 | a topic lists the live, enabled services on it; an empty topic lists every service |
| ConductorApi.ServiceGetAllByHost | nova/conductor/api.py:91-92 | a host lists the live services on it; an empty host lists every service |
| ConductorApi.ServiceGetByHostAndTopic | nova/conductor/api.py:94-95 | with both given, the reply is the store's host-and-topic lookup for this host and this topic: its record as primitives, None, or its error; with one missing, it is a listing by the other |
| ConductorApi.ServiceGetByArgs | nova/conductor/api.py:103-105 | with both given, the reply is the (host, binary) record or its error; a binary without a host fails |
| ConductorApi.ElementZero | nova/conductor/api.py:101 | `result[0]` is the first item of a non-empty list; a dictionary is KeyError(0), None is a TypeError, and an empty list is an IndexError |
| ConductorApi.ServiceGetByComputeHost | nova/conductor/api.py:97-101 | without a host, the lookup is element 0 of the compute-topic listing |
| ConductorApi.ComputeHostLookupFails | nova/conductor/api.py:97-101 | with a host, the lookup as written always fails, with KeyError or TypeError |
| ConductorApi.ComputeHostLookupFixed | nova/conductor/api.py:97-101 | the corrected lookup finds a record exactly when a live, enabled compute service runs on the host, and returns such a service |
| ConductorApi.ServiceGetByComputeHostFixed | nova/conductor/api.py:97-101 | with a host, the corrected lookup is the single record of the host-and-topic lookup, or None; without one, the first compute service, or None |
| ConductorApi.TimeoutFor | nova/conductor/api.py:147-153 | attempts before `early_attempts` use the early timeout, and later ones the default |
| ConductorApi.FallbackIsFinal | nova/conductor/api.py:152-153 | once the default timeout is reached, it stays |
| ConductorApi.WaitUntilReady | nova/conductor/api.py:139-167 | the loop stops at the first answered ping, every earlier one timed out, and attempt k used the scheduled timeout |
| ServicesApi.FilterBy | nova/api/openstack/compute/plugins/v3/services.py:129 | the filter keeps exactly the entries whose key equals the value |
| ServicesApi.FilterByAppend | nova/api/openstack/compute/plugins/v3/services.py:128-131 | filtering keeps order: it distributes over concatenation |
| ServicesApi.FiltersCommute | nova/api/openstack/compute/plugins/v3/services.py:128-131 | the host and binary filters can be applied in either order |
| ServicesApi.GetServices | nova/api/openstack/compute/plugins/v3/services.py:117-132 | the listing is exactly the visible services matching the requested host and binary; each empty filter is skipped |
| ServicesApi.NoFilterListsAll | nova/api/openstack/compute/plugins/v3/services.py:117-132 | without filters, the listing is every visible service |
| ServicesApi.IsValidAsReason | nova/api/openstack/compute/plugins/v3/services.py:108-115 | a reason is valid exactly when its length after stripping Unicode white space is 1 to 255; a non-string has no `strip` |
| ServicesApi.BlankReasonInvalid | nova/api/openstack/compute/plugins/v3/services.py:108-115 | a reason made only of Unicode white space (no-break spaces included) is invalid, whatever its length |
| ServicesApi.Index | nova/api/openstack/compute/plugins/v3/services.py:192-193 | `v[key]` is the entry, a KeyError when the key is absent, or a TypeError on a non-dictionary |
| ServicesApi.Contains | nova/api/openstack/compute/plugins/v3/services.py:216 | `key in v` tests dictionary keys, list items or substrings, and fails on anything else |
| ServicesApi.ActionFor | nova/api/openstack/compute/plugins/v3/services.py:182-189 | 'enable' clears the flag, 'disable' and 'disable-log-reason' set it, and any other path is unknown |
| ServicesApi.ReadReason | nova/api/openstack/compute/plugins/v3/services.py:205-210 | a logged reason is the entry's valid `disabled_reason`; an invalid one is a bad request |
| ServicesApi.MakePlan | nova/api/openstack/compute/plugins/v3/services.py:194-213 | the status detail holds the flag and the reason (None by default); the reply holds host, binary, status, and the reason when one is logged |
| ServicesApi.ReadBody | nova/api/openstack/compute/plugins/v3/services.py:190-213 | an accepted body has a service entry with host and binary, and the plan follows it |
| ServicesApi.BadRequest | nova/api/openstack/compute/plugins/v3/services.py:214-218 | the handler always rejects, reporting a missing reason only when the body itself has host and binary |
| ServicesApi.UpdatePlan | nova/api/openstack/compute/plugins/v3/services.py:177-218 | an unknown action is a 404; an accepted request's plan sets the flag for every action but 'enable'; bad requests carry one of three messages |
| ServicesApi.MissingHostOrBinaryRejected | nova/api/openstack/compute/plugins/v3/services.py:192-193 | a service entry without host or binary is a bad request for an invalid attribute |
| ServicesApi.InvalidReasonRejected | nova/api/openstack/compute/plugins/v3/services.py:205-210 | a reason that strips (of Unicode white space) to nothing or to more than 255 characters is a bad request |
| ServicesApi.MissingReasonMessage | nova/api/openstack/compute/plugins/v3/services.py:206 | a missing reason is reported as an invalid attribute, since the body itself has no host |
| ServicesApi.UpdateAsWrittenFails | nova/api/openstack/compute/plugins/v3/services.py:140-144 | as written, update never succeeds: a found service fails on `save`, and an unknown one escapes as HostBinaryNotFound |
| ServicesApi.UpdateSpec | nova/api/openstack/compute/plugins/v3/services.py:177-225 | the corrected update fails with the request's errors, and a successful one replies with the plan's reply |
| ServicesApi.UpdateAsWritten | nova/api/openstack/compute/plugins/v3/services.py:177-225 | as written, update always fails: with the request's own error when the request is bad, and only a ServiceNotFound becomes a 404 |
| ServicesApi.UpdateWritesService | nova/api/openstack/compute/plugins/v3/services.py:140-144 | a successful corrected update stores the flag and reason on the service with that host and binary, and on no other |
| ServicesApi.UpdateStoresOn | nova/db/sqlalchemy/api.py:454-461 | the store's update of a found service writes the flag and reason into it and into no other record |
| ServicesApi.UpdateFindsService | nova/api/openstack/compute/plugins/v3/services.py:140-142 | a successful update went through the (host, binary) lookup and the store's update of that record |
| ServicesApi.SameIdSameRecord | nova/db/sqlalchemy/models.py:59 | in a well-formed table, the record with a stored record's id is that record |
| ServicesApi.UnknownActionChangesNothing | nova/api/openstack/compute/plugins/v3/services.py:188-189 | an unknown action is a 404, whatever the body and the store |
| ServicesApi.ServiceController.constructor | nova/api/openstack/compute/plugins/v3/services.py:105-106 | the controller is bound to the given store |
| ServicesApi.ServiceController.Update | nova/api/openstack/compute/plugins/v3/services.py:177-225 | update applies the corrected update specification to the service table and keeps it valid |
| Manage.Command.constructor | nova/cmd/manage.py:86 | an undecorated function has no argument entries |
| Manage.Command.Decorate | nova/cmd/manage.py:84-88 | each `args(...)` puts its entry at the front of the list |
| Manage.ApplyStack | nova/cmd/manage.py:84-88 | a stack of decorators, applied bottom to top, leaves the entries in the order they are written |
| Manage.Actions | nova/cmd/manage.py:365-374 | the actions are exactly the public callables among the attributes |
| Manage.ActionsKeepOrder | nova/cmd/manage.py:365-374 | the actions keep the order `dir` lists them in: those of a concatenation are those of each part, in turn |
| Manage.MethodsOf | nova/cmd/manage.py:365-374 | `methods_of` returns the actions |
| Manage.DefaultDest | nova/cmd/manage.py:403 | no option string is an IndexError, even with an explicit dest; otherwise an explicit dest is kept, and the default is the first option string without its first two characters |
| Manage.Settle | nova/cmd/manage.py:403-409 | fails exactly as DefaultDest does; otherwise the name recorded is the dest without the prefix, and the entry's dest ends up carrying the prefix |
| Manage.SettleIdempotent | nova/cmd/manage.py:404-406 | settling an entry twice records the same name and changes nothing |
| Manage.AddActionArguments | nova/cmd/manage.py:399-414 | each entry is settled in place in order; the recorded names are the settled names; the first entry without an option string stops the loop with an IndexError, the entries before it already changed |
| Manage.KwargsSpec | nova/cmd/manage.py:450-459 | the keyword arguments are the parsed values of the recorded names, without the None ones; a missing attribute fails |
| Manage.CollectKwargs | nova/cmd/manage.py:452-459 | `main`'s loop computes exactly those keyword arguments |
| Manage.FirstFailureStays | nova/cmd/manage.py:453-454 | once a prefix of the names fails, the whole list fails the same way |
| Manage.SettledValuesReachAction | nova/cmd/manage.py:399-459 | a value parsed under a settled dest reaches the action under its recorded name, unless it is None |
| Manage.ListServices | nova/cmd/manage.py:169-181 | the listing holds exactly the live services on the host and of the binary, each filter applied only when given |
| Manage.LiveServiceListed | nova/cmd/manage.py:177 | the unfiltered listing holds every live service |
| Manage.ListedServiceLive | nova/cmd/manage.py:177 | every entry of the unfiltered listing is a live service |
| Manage.ListMatchesApi | nova/cmd/manage.py:177-181 | for an admin, the command-line listing and the REST listing hold the same services |
| Manage.ToggleSpec | nova/cmd/manage.py:200-226 | enable/disable ends normally, or ends with status 2 and no change; no NotFound escapes |
| Manage.ToggleNotFound | nova/cmd/manage.py:205-210 | without a live service of that binary on that host, the command returns 2 and changes nothing |
| Manage.ToggleFound | nova/cmd/manage.py:205-212 | in a valid table, a matching live service is found, its flag is set, and nothing else changes |
| Manage.FlagUpdateSucceeds | nova/cmd/manage.py:207 | setting a live service's flag by its id succeeds and changes that flag only |
| Manage.MergeFlag | nova/cmd/manage.py:207 | storing `{'disabled': flag}` sets that column only |
| Manage.FoundById | nova/cmd/manage.py:206-207 | a live record is the one the lookup by its own id finds |
| Manage.FlagChangeKeepsValid | nova/cmd/manage.py:207 | changing only a service's flag keeps the constraints and the count |
| Manage.ServiceCommands.constructor | nova/cmd/manage.py:166-167 | the commands are bound to the given store |
| Manage.ServiceCommands.SetDisabled | nova/cmd/manage.py:202-212 | the command's status and new table are those of the toggle specification |
| Manage.ServiceCommands.Enable | nova/cmd/manage.py:200-212 | enable is the toggle with the flag cleared |
| Manage.ServiceCommands.Disable | nova/cmd/manage.py:214-226 | disable is the toggle with the flag set |
| Manage.Latest | nova/cmd/manage.py:347-348 | defined as the stripped lines in reverse order: one for each line of the file, and its i-th entry is the file-order stripped line counted i from the end |
| Manage.HitsStep | nova/cmd/manage.py:321-329 | the scan's invariant survives each line |
| Manage.ErrorsIn | nova/cmd/manage.py:316-329 | the scan of one file yields exactly the file's hits |
| Manage.HitsAreErrors | nova/cmd/manage.py:322-329 | every hit names an error line among those scanned, with its stripped text |
| Manage.HitsDescend | nova/cmd/manage.py:327 | hits come with strictly decreasing line numbers |
| Manage.ErrorsReported | nova/cmd/manage.py:321-329 | every error line among those scanned is reported |
| Manage.FileHitIsError | nova/cmd/manage.py:318-329 | each hit is an error line of the file, reported with its number (counted from 1) and its stripped text |
| Manage.FileHitsDescend | nova/cmd/manage.py:319-327 | the hits of a file come latest first |
| Manage.ErrorLineReported | nova/cmd/manage.py:321-329 | every error line of a file is among its hits |
| Manage.NovaLines | nova/cmd/manage.py:351 | the nova lines are a sub-list of the lines |
| Manage.NovaLinesFilter | nova/cmd/manage.py:351 | a line is a nova line of the list exactly when it is in the list and the first occurrence of "nova" in it is not at its start |
| Manage.Scan | nova/cmd/manage.py:350-355 | the loop shows no more lines than it reads |
| Manage.ScanShowsNovaLine | nova/cmd/manage.py:351-355 | the loop invariant survives a nova line |
| Manage.ScanSkipsOtherLine | nova/cmd/manage.py:354-355 | the loop invariant survives any other line |
| Manage.ShowNova | nova/cmd/manage.py:350-355 | the loop shows exactly what the scan specifies |
| Manage.Syslog | nova/cmd/manage.py:335-355 | with neither log file present, it returns 1 and shows nothing; otherwise it scans syslog, or messages as a fallback, latest first |
| Manage.Take | nova/cmd/manage.py:354-355 | a prefix of at most n items |
| Manage.ScanTakes | nova/cmd/manage.py:350-355 | below a positive limit, the scan shows the first nova lines up to the limit |
| Manage.ScanPastLimit | nova/cmd/manage.py:354 | with the count already past the limit, every nova line is shown |
| Manage.SyslogShowsLatest | nova/cmd/manage.py:335-355 | for a positive count, syslog shows the latest nova lines, at most that many, latest first |
| Manage.NonPositiveEntriesShowAll | nova/cmd/manage.py:350-355 | as written, a negative count shows every nova line, and 0 shows every nova line or none depending on the latest line |
| Manage.LatestEntries | nova/cmd/manage.py:335-355 | the intended selection has at most max(count, 0) lines, each a latest nova line |
| Manage.LatestEntriesAgree | nova/cmd/manage.py:335-355 | for a positive count, the intended selection is exactly what the loop shows |

## Left out

- Sleeps, logging and printing. The worker's `greenthread.sleep` pauses and
  all LOG calls are left out. In `nova-manage`, only the values the commands
  compute or return are modelled, not what they print.
- AgentManager.TransitionReachesTarget: an action's marker write and target
  write are back to back in the model, so a write by another request to the
  same record during the sleep between them is not modelled. The worker's
  second write stores its whole, by then stale, dictionary and would
  overwrite such a write; "only that record changes" holds under the
  assumption that no other write comes in between.
- RPC transport. `RpcApiPlugin`, `rpcapi.ConductorAPI`, client `prepare`
  and versions are left out; the local path is modelled. Worker messages
  are `Message` values. `wait_until_ready` takes the ping answers as an
  input sequence.
- Plugin loading. The conductor API's dynamic plugin loading and its
  `__getattr__` forwarding are collapsed into one `AndroidConductor.Plugin`
  class over the store.
- `PluginAPI` forwards to the manager plugin. Both layers are one class
  here.
- Timestamps (`created_at`, `updated_at`, `deleted_at`) are columns with no
  values.
- `exact_filter`: the `metadata`/`system_metadata` branch is not modelled.
  It needs related tables, which are not part of this model.
- `model_query`: `project_only` and `base_model` are not modelled. No caller
  in the core passes them.
- `utils.check_string_length` is modelled only through its length bounds.
- `utils.is_int_like` has no effect, because both branches raise the same
  error.
- The REST `index`, `detail`, `show`, `create`, `delete` and `add` wrappers
  are not modelled. `index`/`detail` return `GetServices`, and the others
  are not part of the update path. `nova/android/api/androids.py` is not
  part of this model.
- Manage.Syslog: does not model the `int()` parse of `num_entries`. The
  count is already an integer, and a non-numeric argument, which would
  raise, is not modelled.
- Manage.Syslog: takes the two files' contents as `Option` parameters
  instead of testing which files exist.
- Manage.ErrorsIn: models the scan of one file. The directory listing, the
  `.log` suffix test, the loop over files and the `error_found` count are
  left out as file-system I/O.
- `utf-8` decoding of arguments is left out. Strings are `seq<char>`.
- Manage.ListServices: only the filtered list that `service list` computes
  before its print loop is modelled. The print loop reads
  `svc['availability_zone']`, which a Service record does not have: the
  table has no such column, `list` never sets zones, and a record's item
  lookup is an attribute lookup. So, as written, the command raises
  AttributeError on the first service it prints.
- Manage: `service_is_up`, `describe_resource`, the shell, `script`,
  `db sync`/`version` commands, parser construction, the `CATEGORIES`
  loop, the sudo re-run and `cliutils.validate_args` are left out. They
  are I/O or code outside the core.
- Store.AndroidCreateSpec: `uuid.uuid4()` is the `freshUuid` parameter.
- Store.Merge: `ref.update(values)` would also set `id` and `deleted` when
  `values` holds them (the worker passes whole records). The model never
  writes those two keys (`Models.Writable` keeps data columns only), so a
  record keeps its id and its soft-delete marker through every update.
- AndroidRpcApi.InstanceHost: the "Unable to find host" message leaves out
  the instance uuid, which the source formats into it.
- ConductorApi.WaitUntilReady: the source retries for ever; the model
  requires some ping in the input sequence to be answered, which stands for
  that endless retry.
- Errors.IsNotFound: `nova/exception.py` is not part of this model; the
  not-found errors listed are the ones the services lookups raise.
- Store.ServiceCreateSpec: when a new service clashes on both constraints,
  the model reports the binary clash. This follows the handler's test order;
  which column the database reports first is not modelled.
- ConductorApi.ElementZero: a dictionary reply is `KeyError("0")`; the key
  is the integer 0 in Python, and keys here are strings.
- ServicesApi.Contains: a lifecycle constant is treated as a non-container.
- Migrations, quotas and the `sample` service are not part of this model.

## Findings

| source | as written | input that shows it | evidently intended | confidence | as-written member | corrected member |
|---|---|---|---|---|---|---|
| nova/db/sqlalchemy/api.py:410-421 | `service_get_by_compute_host` asks for its result's `compute_node` relationship to be loaded, and the Service model has no such relationship | an admin lookup of a host with a live compute service: the query cannot be built, and the service is not returned | return the first live compute service on the host, or ComputeHostNotFound | not executed | Store.ServiceGetByComputeHost | Store.ServiceGetByComputeHostFixed |
| nova/conductor/api.py:97-101 | `service_get_by_compute_host` takes `result[0]` of the host-and-topic lookup, which replies with one record (a dictionary) or None | any non-empty host: a found service gives `KeyError(0)`, none found gives `TypeError` | return the single record (or None), as the comment beside it says | not executed | ConductorApi.ComputeHostLookupFails | ConductorApi.ComputeHostLookupFixed |
| nova/api/openstack/compute/plugins/v3/services.py:140-144 | `_update_service` calls `update` and `save` on the primitive dictionary the lookup returns, so nothing is stored; HostBinaryNotFound is not turned into a 404 | PUT `enable` with the host and binary of an existing service: AttributeError `save` | store the status detail on the found service through `service_update`, with not-found errors as 404 | not executed | ServicesApi.UpdateAsWrittenFails | ServicesApi.UpdateWritesService |
| nova/cmd/manage.py:350-355 | `syslog` stops only when `count == entries`, tested after each line | `num_entries` -1 (or 0 with a nova line latest) shows every nova line | show at most `num_entries` lines, none for a count below 1 | not executed | Manage.NonPositiveEntriesShowAll | Manage.LatestEntries |
