# A Dafny model of Dagster's Pythonic config, utility helpers, DuckDB slice SQL and schedule tick selection

This project models four parts of the Dagster orchestration framework and proves
properties of each.

- **Pythonic config** (`config.py`). Covers these parts of `Config` objects:
  - the immutability guard of `MakeConfigCacheable.__setattr__`;
  - the public-field walk `_get_non_none_public_field_values`;
  - the keyword remapping in `Config.__init__`, including discriminated unions and required fields;
  - `ensure_env_vars_set_post_init`, which restores `EnvVar`/`IntEnvVar` markers;
  - the flattening to a raw config dictionary (`_convert_to_config_dictionary`, `_config_value_to_dict_representation`);
  - the selector encoding of a discriminated union;
  - `infer_schema_from_config_class`.
- **Utility helpers** (`_utils/__init__.py`):
  - `make_hashable`, `dict_without_keys`, `ensure_single_item`, `camelcase`, `xor`, `all_none`;
  - `library_version_from_core_version`, `convert_dagster_submodule_name`;
  - the `Counter` class.
- **DuckDB I/O manager** (`io_manager.py`). Covers the SQL text built for a table slice:
  - the static and time-window partition clauses, and the partition clause that joins them;
  - the cleanup statement and the select statement.
- **Schedule daemon** (`scheduler.py`). Covers the tick-selection rules:
  - the next wake-up time;
  - the timestamp from which a schedule resumes;
  - the tick times collected up to the end of an iteration, and the catch-up truncation;
  - failure-count bookkeeping in `_ScheduleLaunchContext`, and its purge grouping;
  - the hourly iteration-checkpoint guard;
  - the matching of existing runs.

How the modules are laid out:

- **Values.** Config values are a `Value` datatype (`ConfigModel`): scalars, dicts as `map`, lists as `seq`, env-var markers, enum members and nested config instances.
- **Collaborators as data.** The validation library, pydantic, is a collaborator. Its `model_fields`, the field conversion, the resource-annotation test, its validated `__dict__` and the way its attribute write fails all enter the model as data or parameters.
- **State.** Where the source mutates an object in place, the model uses a class:
  - a config object's attribute dictionary: `ConfigGuard.ConfigObject`;
  - `Counter`;
  - `_ScheduleLaunchContext`.

  Loops in the source are methods with loop invariants, each proved equal to a specification function.

## Model

Source paths: `config.py` is python_modules/dagster/dagster/_config/pythonic_config/config.py,
and so on, written out in full in the table.

| member | source | states |
|---|---|---|
| ConfigModel.PublicFieldValuesSpec | python_modules/dagster/dagster/_config/pythonic_config/config.py:266-284 | every public attribute is published under its published name with its own value, and every published name comes from a public attribute |
| ConfigModel.PublicFieldNaming | python_modules/dagster/dagster/_config/pythonic_config/config.py:273-284 | a declared field is published under its alias when it has one, else its own name; an undeclared key is published under its own name; a `None` value is published, not dropped |
| ConfigModel.InternalWriteKeepsPublicValues | python_modules/dagster/dagster/_config/pythonic_config/config.py:146-147 | writing an attribute whose name ends in the internal marker never changes the published values |
| ConfigModel.ResolvedName | python_modules/dagster/dagster/_config/pythonic_config/config.py:280 | the alias when it is non-empty, else the attribute name |
| ConfigModel.FieldNamed | python_modules/dagster/dagster/_config/pythonic_config/config.py:277 | the result is a declared field with that name; when there is none, no declared field has that name |
| ConfigGuard.GuardErrorFor | python_modules/dagster/dagster/_config/pythonic_config/config.py:108-144 | a frozen-instance rejection becomes the item-assignment error; a missing-field rejection becomes the undeclared-attribute error naming the field; anything else is re-raised; each of these both ways |
| ConfigGuard.MessageNamesClass | python_modules/dagster/dagster/_config/pythonic_config/config.py:112-141 | every guard message starts with the quoted class name |
| ConfigGuard.ResourceMessageAdvises | python_modules/dagster/dagster/_config/pythonic_config/config.py:111-118 | a resource's message ends with the advice to build a separate stateful client |
| ConfigGuard.ConfigMessageDoesNotAdvise | python_modules/dagster/dagster/_config/pythonic_config/config.py:119-123 | a plain config class's message does not end with that advice |
| ConfigGuard.ConfigObject.SetAttr | python_modules/dagster/dagster/_config/pythonic_config/config.py:95-144 | an internal name is written directly; a public write the library accepts is written and its value published under its published name; a rejected write changes nothing and yields the translated error |
| ConfigGuard.PublicWriteUpdatesPublicValues | python_modules/dagster/dagster/_config/pythonic_config/config.py:106-107 | after a public attribute is written, it is published with its new value and every other published value stays |
| ConfigGuard.ConfigObject.GetPublicFieldValues | python_modules/dagster/dagster/_config/pythonic_config/config.py:266-284 | the loop over `__dict__` returns exactly the published values |
| ConfigGuard.GuardScenario | python_modules/dagster/dagster/_config/pythonic_config/config.py:102-123 | on one object, writing a public field fails with the immutability error, and a later internal write succeeds and can be read back |
| UnionCodec.ToSelector | python_modules/dagster/dagster/_config/pythonic_config/config.py:300-313 | fails exactly when the discriminator key is missing (or holds no string); otherwise the result has the single key `config_dict[discriminator_key]`, whose value is the input without that key |
| UnionCodec.FromSelector | python_modules/dagster/dagster/_config/pythonic_config/config.py:231-241 | a payload that does not have exactly one key is refused; otherwise the result is the nested mapping with the discriminator key set to the only key |
| UnionCodec.FlatRoundTrip | python_modules/dagster/dagster/_config/pythonic_config/config.py:236-241 | flat, then selector form, then flat gives back the flat mapping exactly |
| UnionCodec.SelectorRoundTrip | python_modules/dagster/dagster/_config/pythonic_config/config.py:300-313 | selector, then flat, then selector gives back the selector exactly when the body does not already hold the discriminator key |
| UnionCodec.MultiKeyPayloadRejected | python_modules/dagster/dagster/_config/pythonic_config/config.py:231-235 | a payload with zero or several keys fails "exactly one key" |
| ConfigInit.RemapEntry | python_modules/dagster/dagster/_config/pythonic_config/config.py:212-243 | an argument is dropped exactly when its field is optional and its value is `None`; an undeclared argument is kept as given |
| ConfigInit.FillRequired | python_modules/dagster/dagster/_config/pythonic_config/config.py:245-247 | adds exactly the missing required names, each as `None`, and keeps every existing entry |
| ConfigInit.RemappedPrefixFailure | python_modules/dagster/dagster/_config/pythonic_config/config.py:211-243 | the first failing argument decides the failure of the whole call |
| ConfigInit.BuildModifiedData | python_modules/dagster/dagster/_config/pythonic_config/config.py:210-247 | the two loops of `__init__` compute `modified_data` as the fold defines it |
| ConfigInit.RemappedAt | python_modules/dagster/dagster/_config/pythonic_config/config.py:211-243 | with distinct names, each argument's own remapping decides its key in `modified_data`, and no other key appears |
| ConfigInit.OptionalNoneDropped | python_modules/dagster/dagster/_config/pythonic_config/config.py:218-219 | an optional field passed `None` is absent from `modified_data` |
| ConfigInit.RequiredFieldsPresent | python_modules/dagster/dagster/_config/pythonic_config/config.py:245-247 | every required field is present, and is `None` when it was not passed |
| ConfigInit.PlainArgumentKept | python_modules/dagster/dagster/_config/pythonic_config/config.py:242-243 | an argument that is not a discriminated union is stored unchanged under its name |
| ConfigInit.UnionPayloadNeedsOneKey | python_modules/dagster/dagster/_config/pythonic_config/config.py:231-235 | a raw union payload without exactly one key makes construction fail |
| ConfigInit.UnionInstanceFlattened | python_modules/dagster/dagster/_config/pythonic_config/config.py:221-241 | a config instance given for a discriminated field is stored flat: its published values with the discriminator |
| ConfigInit.EnsureEnvVars | python_modules/dagster/dagster/_config/pythonic_config/config.py:153-172 | at each input key or index holding a marker, the result holds that marker; at a position the input holds neither a marker nor a container, the validated value stays; a dict result's keys are the validated keys plus the marker keys; a pair other than two dicts or two lists comes back unchanged |
| ConfigInit.EnsureEnvVarsContainers | python_modules/dagster/dagster/_config/pythonic_config/config.py:159-170 | where the input holds a container, the result holds the validated value there restored against it, so markers come back at any depth |
| ConfigInit.RestoredSoFarStep | python_modules/dagster/dagster/_config/pythonic_config/config.py:159-163 | one dictionary step puts the marker back, or the restored container, or leaves the entry as it was |
| ConfigInit.RestoreFailsAt | python_modules/dagster/dagster/_config/pythonic_config/config.py:162-163 | a container in the input whose key is missing from the validated value (or whose restoration fails) makes the whole call fail |
| ConfigInit.RestoredSoFarComplete | python_modules/dagster/dagster/_config/pythonic_config/config.py:158-163 | the finished loop's mapping is the function's result |
| ConfigInit.RestoreEnvVars | python_modules/dagster/dagster/_config/pythonic_config/config.py:153-172 | the in-place restoration equals the specification function |
| ConfigInit.RestoreInDict | python_modules/dagster/dagster/_config/pythonic_config/config.py:158-163 | the loop over the input's keys equals the specification function |
| ConfigInit.RestoreInList | python_modules/dagster/dagster/_config/pythonic_config/config.py:164-170 | the loop over the validated list's indices equals the specification function, and fails when the input list is shorter |
| ConfigInit.EnsureEnvVarsIdempotent | python_modules/dagster/dagster/_config/pythonic_config/config.py:153-172 | restoring twice gives the same result as restoring once |
| ConfigInit.EnsureEnvVarsWithoutMarkers | python_modules/dagster/dagster/_config/pythonic_config/config.py:153-172 | an input without markers leaves the validated value as it is |
| ConfigInit.Construct | python_modules/dagster/dagster/_config/pythonic_config/config.py:205-251 | a constructed instance has the class, and exists only when `modified_data` was built |
| ConfigInit.MarkerSurvivesConstruction | python_modules/dagster/dagster/_config/pythonic_config/config.py:249-251 | an env-var marker passed for a non-union field is in the constructed instance's attributes |
| ConfigFlatten.ToDictReprIsRaw | python_modules/dagster/dagster/_config/pythonic_config/config.py:316-344 | flattening never leaves a marker, an enum member or a config object anywhere in the value |
| ConfigFlatten.ConvertIsRaw | python_modules/dagster/dagster/_config/pythonic_config/config.py:253-264 | the config dictionary of an instance is raw at every depth |
| ConfigFlatten.RawIsFixedPoint | python_modules/dagster/dagster/_config/pythonic_config/config.py:322-344 | flattening a raw value returns it unchanged |
| ConfigFlatten.ConvertKeys | python_modules/dagster/dagster/_config/pythonic_config/config.py:260-264 | the dictionary's keys are exactly the published names, each mapped to its attribute's flattening |
| ConfigFlatten.MarkerAndEnumFlattening | python_modules/dagster/dagster/_config/pythonic_config/config.py:326-342 | `EnvVar(n)` and `IntEnvVar(n)` become `{"env": n}`, and an enum member becomes its name |
| ConfigFlatten.UnionFieldInSelectorForm | python_modules/dagster/dagster/_config/pythonic_config/config.py:330-338 | a nested config under a discriminated field, looked up by attribute name or without an alias, is emitted in selector form: one key, whose value is a mapping without the discriminator key, and decoding it gives the member's flat dictionary |
| ConfigFlatten.UnaliasedUnionFieldReconstructs | python_modules/dagster/dagster/_config/pythonic_config/config.py:210-264 | without an alias, the published selector form of a union field, passed to `__init__` under its published name, is remapped to the member's flat dictionary |
| ConfigFlatten.RawAttributesPublishedAsIs | python_modules/dagster/dagster/_config/pythonic_config/config.py:253-264 | a public attribute holding a raw value is published under its published name as that very value |
| ConfigFlatten.AliasedUnionFieldPublishedFlat | python_modules/dagster/dagster/_config/pythonic_config/config.py:210-264 | as written, an aliased discriminated field is published under its alias as the member's flat dictionary, not in selector form when the member holds its discriminator; `__init__`, looking up the alias key as given, stores it unchanged |
| ConfigFlatten.AliasedUnionFieldCorrected | python_modules/dagster/dagster/_config/pythonic_config/config.py:326-338 | corrected lookup by attribute name: the same field is published under its alias in selector form, whose decoding gives the member's flat dictionary back |
| SchemaInference.FieldEntriesSucceedIff | python_modules/dagster/dagster/_config/pythonic_config/config.py:403-427 | inference succeeds exactly when no included field is a legacy `dagster.Field` or fails to convert |
| SchemaInference.FieldEntriesFirstError | python_modules/dagster/dagster/_config/pythonic_config/config.py:403-427 | on failure, the error is the one the first rejected included field raises, with the legacy check first |
| SchemaInference.FieldEntriesKeys | python_modules/dagster/dagster/_config/pythonic_config/config.py:403-419 | the schema's names are exactly the published names of the fields that are neither resources nor omitted |
| SchemaInference.FieldEntriesValues | python_modules/dagster/dagster/_config/pythonic_config/config.py:409-419 | each included field's entry is its converted schema |
| SchemaInference.InferSchemaShape | python_modules/dagster/dagster/_config/pythonic_config/config.py:429-433 | the shape is permissive exactly when `extra == "allow"`; the description is the given one if non-empty, else the stripped docstring, else none |
| SchemaInference.BlankDocstringDescription | python_modules/dagster/dagster/_config/pythonic_config/config.py:431-433 | a docstring of whitespace only gives the empty description, not none |
| Utils.SortByKeySorted | python_modules/dagster/dagster/_utils/__init__.py:282 | sorting pairs with distinct keys orders them strictly by key |
| Utils.MakeHashableDict | python_modules/dagster/dagster/_utils/__init__.py:281-282 | a dict becomes the tuple of its `(key, converted value)` pairs, ascending by key, one per entry |
| Utils.MakeHashableIsHashable | python_modules/dagster/dagster/_utils/__init__.py:280-286 | the result is built only of scalars and tuples |
| Utils.MakeHashableFixesHashable | python_modules/dagster/dagster/_utils/__init__.py:283-286 | a hashable value is returned unchanged |
| Utils.MakeHashableIdempotent | python_modules/dagster/dagster/_utils/__init__.py:280-286 | converting twice is converting once |
| Utils.MakeHashable | python_modules/dagster/dagster/_utils/__init__.py:280-286 | a dict or a list, tuple or set becomes a tuple with one item per entry or element; any other value is returned as it is |
| Utils.MakeHashableForgetsKind | python_modules/dagster/dagster/_utils/__init__.py:283-284 | a list, tuple or set becomes the tuple of its converted elements in the same order, whatever its kind |
| Utils.DictWithoutKeys | python_modules/dagster/dagster/_utils/__init__.py:629-630 | an entry is kept exactly when its key is not among the keys |
| Utils.DictWithoutKeysCompose | python_modules/dagster/dagster/_utils/__init__.py:629-630 | removing keys in two rounds is removing them all at once; removing none changes nothing |
| Utils.EnsureSingleItem | python_modules/dagster/dagster/_utils/__init__.py:197-200 | succeeds exactly for a one-entry mapping, and returns that entry |
| Utils.JoinWordsLeavesNoSeparatorBeforeLower | python_modules/dagster/dagster/_utils/__init__.py:192-194 | after the substitution no separator is followed by a lower-case letter |
| Utils.JoinWordsIdempotent | python_modules/dagster/dagster/_utils/__init__.py:192-194 | the substitution leaves a string with no separator before a lower-case letter unchanged |
| Utils.CamelcaseResult | python_modules/dagster/dagster/_utils/__init__.py:186-194 | after the first character, a camel-cased string has no separator before a lower-case letter, and camel-casing it again leaves that part unchanged |
| Utils.JoinWordsByPosition | python_modules/dagster/dagster/_utils/__init__.py:192-194 | the substitution keeps exactly the characters that are not a separator before a lower-case letter, in order, upper-casing each one that follows such a separator |
| Utils.CamelcaseByPosition | python_modules/dagster/dagster/_utils/__init__.py:186-194 | one leading `-`, `_` or `.` is dropped; the result is empty exactly when nothing is left; its first character is the next one upper-cased, and the rest is the substitution position by position |
| Utils.CamelcaseStripsOneSeparator | python_modules/dagster/dagster/_utils/__init__.py:188 | only one leading separator is dropped: a second one starts the result |
| Utils.Xor | python_modules/dagster/dagster/_utils/__init__.py:753-754 | true exactly when one argument is truthy and the other is not |
| Utils.XorSymmetricAndIrreflexive | python_modules/dagster/dagster/_utils/__init__.py:753-754 | symmetric, false on equal arguments, and `xor(a, None)` is `bool(a)` |
| Utils.AllNone | python_modules/dagster/dagster/_utils/__init__.py:300-304 | true exactly when every value is `None` |
| Utils.LibraryVersionOfFinalRelease | python_modules/dagster/dagster/_utils/__init__.py:102-117 | a final 1.x.y release maps to `0.(16+x).y` |
| Utils.LibraryVersionInjective | python_modules/dagster/dagster/_utils/__init__.py:106-107 | two final releases with the same library version have the same minor and patch |
| Utils.LibraryVersionSuffixes | python_modules/dagster/dagster/_utils/__init__.py:109-115 | a pre-release appends its letter and number, a post-release appends `post` and its number, and a dev release without a pre-release is refused |
| Utils.LibraryVersion | python_modules/dagster/dagster/_utils/__init__.py:118-119 | a core version below 1 is returned as given |
| Utils.ToPrivate | python_modules/dagster/dagster/_utils/__init__.py:135 | `dagster.` followed by a non-underscore becomes `dagster._`; any other name is unchanged |
| Utils.ToPublicAsWritten | python_modules/dagster/dagster/_utils/__init__.py:137 | the public pattern as written: a `dagster._` prefix becomes `dagster.`; a name whose ninth character is not `_` is unchanged |
| Utils.ToPublic | python_modules/dagster/dagster/_utils/__init__.py:137 | the corrected public pattern `^dagster\._`: `dagster._` becomes `dagster.`; any other name is unchanged |
| Utils.ToPublicAsWrittenAgrees | python_modules/dagster/dagster/_utils/__init__.py:137 | the pattern as written and the corrected one agree except on `dagster`, a character other than a dot, then `_` |
| Utils.ConvertSubmoduleName | python_modules/dagster/dagster/_utils/__init__.py:134-139 | a mode other than private or public fails |
| Utils.ConvertSubmoduleNameRoundTrips | python_modules/dagster/dagster/_utils/__init__.py:128-139 | as written, a public name whose next character is not `_` comes back from private then public mode, and a private name whose next character is not `_` from public then private mode |
| Utils.SubmoduleNameRoundTrips | python_modules/dagster/dagster/_utils/__init__.py:128-139 | with the corrected public pattern, private then public gives back every name not already private; public then private gives back a private name whose next character is not an underscore |
| Utils.PublicPatternCounterexample | python_modules/dagster/dagster/_utils/__init__.py:137 | with the pattern as written, `dagster__x` survives the private rename and then becomes `dagster.x` |
| Utils.Counter.Increment | python_modules/dagster/dagster/_utils/__init__.py:639-641 | the key's count goes up by one (from zero when new) and no other count changes |
| Utils.Counter.Counts | python_modules/dagster/dagster/_utils/__init__.py:643-646 | returns a copy equal to the counts |
| DuckDbSql.StaticClauseRoundTrip | python_modules/libraries/dagster-duckdb/dagster_duckdb/io_manager.py:273-275 | the keys are read back from the static clause, in order, each single-quoted and separated by `, `, when no key contains a quote |
| DuckDbSql.TimeWindowClauseRoundTrip | python_modules/libraries/dagster-duckdb/dagster_duckdb/io_manager.py:265-270 | the window's start (with `>=`) and end (with `<`) are read back from the time clause |
| DuckDbSql.DimensionClauseKinds | python_modules/libraries/dagster-duckdb/dagster_duckdb/io_manager.py:254-262 | a time-window dimension gets the time clause and any other the static clause, over the dimension's own expression |
| DuckDbSql.PartitionWhereClauseSnoc | python_modules/libraries/dagster-duckdb/dagster_duckdb/io_manager.py:254-262 | one clause per dimension, in order: another dimension appends `" AND\n"` and its clause |
| DuckDbSql.CleanupStatementShape | python_modules/libraries/dagster-duckdb/dagster_duckdb/io_manager.py:243-251 | `DELETE FROM schema.table`, followed by `" WHERE\n"` and the partition clause exactly when there are partition dimensions |
| DuckDbSql.SelectStatementShape | python_modules/libraries/dagster-duckdb/dagster_duckdb/io_manager.py:215-222 | the columns joined by `, ` (or `*` when none are given) from the table, with a WHERE clause exactly when there are partition dimensions |
| DuckDbSql.CleanupAndSelectShareSlice | python_modules/libraries/dagster-duckdb/dagster_duckdb/io_manager.py:215-251 | after the verb and column list, the cleanup and select statements are the same text |
| Scheduler.NextIterationTime | python_modules/dagster/dagster/_scheduler/scheduler.py:119-123 | a multiple of 60, strictly after the start, at most 60 seconds after it |
| Scheduler.NextIterationTimeIsLeast | python_modules/dagster/dagster/_scheduler/scheduler.py:119-123 | no minute boundary after the start comes before it |
| Scheduler.StartTimestamp | python_modules/dagster/dagster/_scheduler/scheduler.py:446-469 | never before the schedule's start or its checkpoint; at or after a tick to be redone, strictly after any other latest tick; and equal to one of these bounds |
| Scheduler.LatestTickRedoneIff | python_modules/dagster/dagster/_scheduler/scheduler.py:448-464 | when the start and checkpoint do not lie beyond the latest tick, enumeration starts at that tick exactly when it is started, or failed with retries left |
| Scheduler.CollectTickTimes | python_modules/dagster/dagster/_scheduler/scheduler.py:482-487 | the collected times are the prefix of the iterator's times that ends at the first time past the end |
| Scheduler.CollectedAreAllWithinEnd | python_modules/dagster/dagster/_scheduler/scheduler.py:482-487 | on ascending times, a time is collected exactly when it is not past the end |
| Scheduler.PySliceFrom | python_modules/dagster/dagster/_scheduler/scheduler.py:504-507 | Python's `s[start:]`: a suffix, of length `-start` (clamped) for a negative start |
| Scheduler.CatchUpAsWritten | python_modules/dagster/dagster/_scheduler/scheduler.py:502-507 | the truncation as written keeps a suffix of the ticks |
| Scheduler.CatchUpZeroKeepsAll | python_modules/dagster/dagster/_scheduler/scheduler.py:505-507 | as written, a limit of 0 keeps every tick |
| Scheduler.CatchUpBounds | python_modules/dagster/dagster/_scheduler/scheduler.py:502-507 | the corrected truncation: only the last tick without a partition set; otherwise every tick when within the limit, else exactly the limit's number (none for a limit of 0) |
| Scheduler.CatchUpAgreesForPositiveLimits | python_modules/dagster/dagster/_scheduler/scheduler.py:502-507 | for a positive limit the corrected truncation is the truncation as written |
| Scheduler.TicksToEvaluate | python_modules/dagster/dagster/_scheduler/scheduler.py:482-507 | the ticks evaluated are the truncation as written of the iterator's times up to the first one past the end: every such tick when within the limit, else the last `max_catchup_runs` (every one for a limit of 0), and only the last without a partition set |
| Scheduler.FailedTick | python_modules/dagster/dagster/_scheduler/scheduler.py:556-589 | a failed tick has the error; its failure count goes up by one exactly for errors other than an unreachable server or a location-load failure |
| Scheduler.RetriesExhaust | python_modules/dagster/dagster/_scheduler/scheduler.py:449-587 | a tick failing on an unreachable server is redone; after n ordinary failures it is redone exactly while n ≤ `max_tick_retries` |
| Scheduler.PurgeGroupsPartition | python_modules/dagster/dagster/_scheduler/scheduler.py:72-74 | each status sits under its own day offset and no other, and no group is empty |
| Scheduler.PurgedIff | python_modules/dagster/dagster/_scheduler/scheduler.py:104-112 | a status's ticks are purged exactly when its offset is positive, each before a time in the past |
| Scheduler.LaunchContext.UpdateState | python_modules/dagster/dagster/_scheduler/scheduler.py:80-88 | status and error set; failure count replaced only when given; skip reason set only when non-empty |
| Scheduler.LaunchContext.RecordError | python_modules/dagster/dagster/_scheduler/scheduler.py:556-589 | the tick becomes the failed tick for that error |
| Scheduler.LaunchContext.Exit | python_modules/dagster/dagster/_scheduler/scheduler.py:102-112 | the tick is written, and one purge is issued per positive day offset, of that offset's statuses, `offset` days before now |
| Scheduler.LogIteration | python_modules/dagster/dagster/_scheduler/scheduler.py:897-911 | a checkpoint is written exactly when none is recorded (or it is 0), or it is more than 3600 s old; the write keeps cron schedule and start and records now |
| Scheduler.LogIterationThrottles | python_modules/dagster/dagster/_scheduler/scheduler.py:897-901 | after a checkpoint at t, none is written up to t + 3600, and the next iteration after that writes one |
| Scheduler.ExistingRunForRequest | python_modules/dagster/dagster/_scheduler/scheduler.py:799-814 | none exactly when no run has no origin or the same repository selector; otherwise the first such run in order |

## Left out

- Pydantic itself is not part of this model. This covers `model_fields`, `BaseModel.__init__` and `__setattr__`, coercion, `_convert_pydantic_field` and `_is_annotated_as_resource_type`. Their outcomes are inputs, and the model assumes the published names of a config object's attributes are distinct.
- The pydantic error text is not inspected (config.py:64-72, 124-127). Which way a write failed is a tagged `Rejection`, not a regular expression over the message.
- Mutation in place: `ensure_env_vars_set_post_init` and `modified_data` mutate nested dicts and lists in place, and the model rebinds values instead, so aliasing between the caller's objects and the result is not modelled.
- The config metaclass and the `cached_property` plumbing are left out. So are the schema cache and `to_config_schema`/`to_fields_dict`.
- The `check.param_invariant` subclass check of `infer_schema_from_config_class` is left out: the class is a `Config` by construction.
- The raw config keys of a discriminated union are strings; a non-string discriminator value is an explicit error.
- `make_hashable` on dicts requires distinct keys (Python dicts have them).
- `Utils.MakeHashable`: dict keys are strings only, ordered as Python orders strings. Keys of other comparable types (ints in numeric order) are not modelled, and neither is the `TypeError` that `sorted` raises on a dict whose keys cannot be compared with each other.
- Set iteration order is given as the element sequence.
- `ConfigGuard.ConfigObject.SetAttr`: the validation library's verdict on a public write is an input, and an accepted write is assumed to keep the published names distinct.
- `ConfigFlatten.AliasedUnionFieldCorrected`: `Config.__init__` looks fields up by the key it is given (config.py:212), so under an alias key it stores the selector form undecoded. How the validation library then reads an aliased union is not part of this model.
- `Utils.Upper`: camel-casing upper-cases ASCII letters only. Python's `str.upper` on other letters is not modelled.
- Version strings are not parsed; `packaging.version.Version`'s fields are the input.
- `Utils.Counter`: the lock is left out (concurrency), and so is the insertion order of the `OrderedDict` (counts are a `map`).
- I/O and OS helpers of the utility module are not part of this model. Neither are the event generation manager or the tracing decorator.
- DuckDB: connections, retries and executing statements are left out. `strftime` formatting is left out: formatted datetimes are opaque strings. So `DuckDbSql.TimeWindowClauseRoundTrip` states no order between start and end.
- `DuckDbSql.StaticClauseRoundTrip` holds only for keys without a quote: keys are spliced into the SQL unescaped.
- Scheduler: thread pools, locks, futures, storage calls, gRPC and code-location calls, telemetry and logging are left out.
- Scheduler timestamps are whole seconds (the source uses floats). The execution-time iterator is the finite ascending sequence it yields up to the end.
- Scheduler: reuse of the latest tick (scheduler.py:519-537) and the evaluation of run requests are not part of this model.
- `Scheduler.LaunchContext`: `add_run_info` and `add_log_key` are left out, because the tick class they call is not part of this model.
- `Scheduler.LaunchContext.UpdateState` assumes the unseen tick class keeps the failure count when none is given.
- `Scheduler.ExistingRunForRequest` takes the runs the tag query returned as input; building the tags is left out.

## Findings

| source | as written | input that shows it | evidently intended | confidence | as-written member | corrected member |
|---|---|---|---|---|---|---|
| python_modules/dagster/dagster/_config/pythonic_config/config.py:262 | looks up the field by the published (alias) name, so an aliased union is flattened without selector form | a discriminated-union field with alias `a` on attribute `x`, whose member holds its discriminator and one more field | publish every discriminated union in selector form, the run-config format of config.py:206-208 and 254-255; `__init__` looks the alias key up as given (config.py:212) and stores either form unchanged, so no failure follows inside this file | low, not executed | ConfigFlatten.AliasedUnionFieldPublishedFlat | ConfigFlatten.AliasedUnionFieldCorrected |
| python_modules/dagster/dagster/_scheduler/scheduler.py:505-507 | `tick_times[-max_catchup_runs:]` | `max_catchup_runs = 0` and two tick times: `[-0:]` keeps both | keep at most `max_catchup_runs` ticks | low, not executed | Scheduler.CatchUpZeroKeepsAll | Scheduler.CatchUpBounds |
| python_modules/dagster/dagster/_utils/__init__.py:137 | pattern `^dagster._` with an unescaped dot | `dagster__x` becomes `dagster.x` in public mode | match the literal `dagster._` | low, not executed | Utils.PublicPatternCounterexample | Utils.SubmoduleNameRoundTrips |
