# DN configuration attributes of the OpenDJ directory server

This project models `DNConfigAttribute`, the configuration setting of the OpenDJ server whose
values are LDAP distinguished names (DNs), and proves properties of the model in Dafny.

An attribute keeps two ordered DN lists, the **active** values and the **pending** values, and
updates them in one of two modes fixed at construction:

- **immediate** (no administrative action required): an accepted value or list becomes the
  active list, and the pending list is that same list;
- **staged** (administrative action required): an accepted value or list becomes a new pending
  list, and `applyPendingValues` later makes it active.

Around that state machine the attribute validates values (required, single-valued, null and
duplicate checks), converts between DNs and strings (`stringsToValues`,
`activeValuesToStrings`, `pendingValuesToStrings`), rebuilds itself from the LDAP attributes
stored in the configuration (`getConfigAttribute`, where a `pending` attribute option marks
the pending set) and talks to JMX (published attributes and descriptors, and a remote write that
dispatches on the runtime shape of the value it receives).

Layout:

- `config_result.dfy` (`ConfigResult`): Java `null` as `Option`, `ConfigException` as
  an `ErrorKind`, results of operations that may throw.
- `dn_syntax.dfy` (`DnSyntax`): DNs are a type parameter; `DN.valueOf` and `DN.toString` are
  a `DnCodec` pair of functions. `Sound(c)` says the parser reads back what the renderer
  writes (the string form of RFC 4514); lemmas that need it take it as a precondition.
- `attribute_state.dfy` (`AttributeState`): the attribute's state as a value and its
  transitions (`setValue`, `setValues`, `applyPendingValues`, the accessors) as functions.
- `value_codec.dfy` (`ValueCodec`): `valueIsAcceptable`, `stringsToValues` with
  `reportError`, and the rendering of the two lists.
- `reconciler.dfy` (`Reconciler`): `getConfigAttribute`.
- `jmx_bridge.dfy` (`JmxBridge`): the JMX views and the JMX setter.
- `dn_config.dfy` (`DnConfig`): the class `DNConfigAttribute` with the lists as fields. Each
  method that changes the attribute is proved to leave exactly the state the transition function
  of the same name computes from the old state. The loops of the source (the element scan of
  `setValues`, the string-array parsing of the JMX setter, the rendering into JMX string arrays)
  are methods with loop invariants, each proved against its function.

The state holds two flags besides the lists:

- `hasPending` stands for the superclass's `hasPendingValues()`. The superclass
  `ConfigAttribute` is not part of this model, so its behaviour is assumed:
  `setPendingValues` raises the flag, `setActiveValues` leaves it alone, its
  `applyPendingValues` clears it, and the seven-argument constructor raises it exactly when the
  pending list passed is not null, while the five- and six-argument constructors start with no
  pending values.
- `pendingSeparate` records whether `pendingValues` is a different list object from
  `activeValues` (the reference comparison in `toJMXAttribute(AttributeList)`). Every
  attribute satisfies `Consistent`: a pending list that is the active list object has its
  contents, and a separate pending list only exists once the pending flag is raised.

Where the documentation comments and the code disagree the model follows the code:

- `stringsToValues` also lets a null string be skipped when failures are allowed;
- `stringsToValues` silently collapses repeated values instead of rejecting them;
- `getConfigAttribute` accepts a `pending` set whether or not the attribute requires
  administrative action;
- attributes built by `getConfigAttribute` and `duplicate` always report pending values,
  because they go through the seven-argument constructor with a non-null pending list.

## Model

| member | source | states |
|---|---|---|
| AttributeState.Constructed | opendj-server-legacy/src/main/java/org/opends/server/config/DNConfigAttribute.java:178-204 | the seven-argument constructor's state: a null active list becomes empty, a null pending list makes pending the active list, the pending flag is raised exactly when the pending argument is not null, and the result is consistent |
| AttributeState.SingleValue | opendj-server-legacy/src/main/java/org/opends/server/config/DNConfigAttribute.java:249-258 | a list yields its value exactly when it has one element; otherwise the no-value error for an empty list and the multiple-values error for a longer one |
| AttributeState.ActiveValue | opendj-server-legacy/src/main/java/org/opends/server/config/DNConfigAttribute.java:246-259 | `activeValue()` succeeds exactly when there is one active value, and returns it |
| AttributeState.PendingValues | opendj-server-legacy/src/main/java/org/opends/server/config/DNConfigAttribute.java:315-323 | `pendingValues()` is the active list when there are no pending values, and on a consistent attribute it is always the pending list |
| AttributeState.PendingValue | opendj-server-legacy/src/main/java/org/opends/server/config/DNConfigAttribute.java:286-304 | `pendingValue()` is the single value of what `pendingValues()` returns, and the active value when there are no pending values |
| AttributeState.SetValue | opendj-server-legacy/src/main/java/org/opends/server/config/DNConfigAttribute.java:334-355 | a null DN fails with nothing changed; otherwise staged mode replaces only the pending list with a separate list (flag raised) and immediate mode makes `[dn]` active with pending the same list object and the pending flag kept; consistency is kept |
| AttributeState.ScanValues | opendj-server-legacy/src/main/java/org/opends/server/config/DNConfigAttribute.java:400-416 | the element loop succeeds exactly when no element is null and no two have the same string form; on success it holds the same DNs in order; it fails only with the null or already-exists error |
| AttributeState.SetValues | opendj-server-legacy/src/main/java/org/opends/server/config/DNConfigAttribute.java:367-431 | a rejected list changes nothing; success exactly when the list is acceptable (non-empty if required, at most one element if single-valued, no null, no two equal string forms); an accepted list is staged as a separate pending list (flag raised) or made active with pending the same list object and the pending flag kept, element by element; consistency is kept |
| AttributeState.ClearedForEmpty | opendj-server-legacy/src/main/java/org/opends/server/config/DNConfigAttribute.java:378-387 | the empty-list branch stages an empty separate pending list, or empties the active list object in place (and the pending list only when it is that object), leaving both pending flags as they were; consistency is kept |
| AttributeState.SetValuesAsWritten | opendj-server-legacy/src/main/java/org/opends/server/config/DNConfigAttribute.java:367-392 | a null list on an optional attribute fails with a null dereference after the empty-list clearing; every other argument behaves as `SetValues` |
| AttributeState.NullListFailsAfterClearing | opendj-server-legacy/src/main/java/org/opends/server/config/DNConfigAttribute.java:371-392 | as written, a null list on an optional attribute with active values reports failure yet has changed the attribute (its active list emptied, or an empty pending list staged) |
| AttributeState.NullListReadAsEmpty | opendj-server-legacy/src/main/java/org/opends/server/config/DNConfigAttribute.java:371-387 | corrected, a null list behaves as the empty list: it fails only on a required attribute, and otherwise empties the active list or stages an empty pending list |
| AttributeState.ApplyPending | opendj-server-legacy/src/main/java/org/opends/server/config/DNConfigAttribute.java:483-492 | no pending values: nothing changes; otherwise the active list becomes what `pendingValues()` showed and the flag is cleared; consistency is kept |
| AttributeState.ScanErrorPersists | opendj-server-legacy/src/main/java/org/opends/server/config/DNConfigAttribute.java:400-416 | the scan stops at its first error: once a prefix fails, the whole list fails the same way |
| AttributeState.ScanReportsFirstOffender | opendj-server-legacy/src/main/java/org/opends/server/config/DNConfigAttribute.java:402-414 | the first offending element decides the error: null gives the null error, a repeated string form gives the already-exists error |
| AttributeState.SetValuesRejects | opendj-server-legacy/src/main/java/org/opends/server/config/DNConfigAttribute.java:371-416 | the four rejections (empty on a required attribute, several on a single-valued one whatever they are, a null element, a repeated string form) each leave the state unchanged |
| AttributeState.StagedUpdateTakesEffectOnApply | opendj-server-legacy/src/main/java/org/opends/server/config/DNConfigAttribute.java:419-423 | in staged mode an accepted list leaves the active list alone, is what `pendingValues()` shows, becomes active on apply, and a second apply changes nothing |
| AttributeState.ImmediateUpdateIsUnified | opendj-server-legacy/src/main/java/org/opends/server/config/DNConfigAttribute.java:424-430 | in immediate mode an accepted list makes pending the active list, and applying pending values leaves both as they are |
| AttributeState.ApplyPendingIdempotent | opendj-server-legacy/src/main/java/org/opends/server/config/DNConfigAttribute.java:483-492 | applying twice is applying once, and the active value after applying is what `pendingValue()` returned before |
| ValueCodec.ValueIsAcceptable | opendj-server-legacy/src/main/java/org/opends/server/config/DNConfigAttribute.java:509-532 | a value is acceptable exactly when it is not null and parses as a DN; the reason is the null error or the cannot-parse error |
| ValueCodec.RenderedValueIsAcceptable | opendj-server-legacy/src/main/java/org/opends/server/config/DNConfigAttribute.java:509-532 | the string form of any DN is acceptable |
| ValueCodec.Dedup | opendj-server-legacy/src/main/java/org/opends/server/config/DNConfigAttribute.java:576-600 | the value set built with `LinkedHashSet.add` has no repeats and holds exactly the values added |
| ValueCodec.DedupKeepsFirstOccurrenceOrder | opendj-server-legacy/src/main/java/org/opends/server/config/DNConfigAttribute.java:576-600 | the value set keeps its values in the order of their first occurrences |
| ValueCodec.DedupOfDistinct | opendj-server-legacy/src/main/java/org/opends/server/config/DNConfigAttribute.java:576-600 | values without repeats are kept as they are |
| ValueCodec.CollectValues | opendj-server-legacy/src/main/java/org/opends/server/config/DNConfigAttribute.java:576-600 | the decoding loop, with `reportError`, succeeds exactly when failures are allowed or every string is non-null and parses; it fails only with the null or cannot-parse error; its result is the deduplicated canonical forms of the strings that parse |
| ValueCodec.StringsToValues | opendj-server-legacy/src/main/java/org/opends/server/config/DNConfigAttribute.java:556-620 | absent or empty input gives the required error or an empty set; several strings on a single-valued attribute fail before parsing; a bad string fails unless failures are allowed; a non-empty list succeeds exactly when none of these errors applies and a required attribute keeps at least one value; a success has no repeats, is non-empty on a required attribute and lists the canonical forms in first-occurrence order |
| ValueCodec.RepeatsCollapse | opendj-server-legacy/src/main/java/org/opends/server/config/DNConfigAttribute.java:599 | a repeated string is collapsed into one value rather than rejected |
| ValueCodec.ActiveValuesToStrings | opendj-server-legacy/src/main/java/org/opends/server/config/DNConfigAttribute.java:633-642 | the string form of each active DN, once and in order |
| ValueCodec.PendingValuesToStrings | opendj-server-legacy/src/main/java/org/opends/server/config/DNConfigAttribute.java:658-670 | null exactly when there are no pending values; otherwise the string form of each pending DN, in order |
| ValueCodec.ParsedFormsOfRenders | opendj-server-legacy/src/main/java/org/opends/server/config/DNConfigAttribute.java:622-642 | the string forms of DNs all parse, and parsing and rendering them again gives the same strings |
| ValueCodec.StringsToValuesRoundTrip | opendj-server-legacy/src/main/java/org/opends/server/config/DNConfigAttribute.java:622-642 | decoding the string forms of a list of DNs that respects the attribute's rules and has distinct string forms gives exactly those strings, in order |
| ValueCodec.ActiveValuesRoundTrip | opendj-server-legacy/src/main/java/org/opends/server/config/DNConfigAttribute.java:622-642 | `stringsToValues(activeValuesToStrings(), false)` gives back the active strings, in order |
| Reconciler.ParseStored | opendj-server-legacy/src/main/java/org/opends/server/config/DNConfigAttribute.java:738-755 | a stored set parses exactly when every value parses, keeping order and repeats; otherwise the cannot-parse error |
| Reconciler.ValueSet | opendj-server-legacy/src/main/java/org/opends/server/config/DNConfigAttribute.java:719-756 | a stored set is accepted exactly when it is non-empty or the attribute optional, has at most one value or the attribute is multi-valued, and every value parses; it keeps the values in order |
| Reconciler.GetConfigAttribute | opendj-server-legacy/src/main/java/org/opends/server/config/DNConfigAttribute.java:696-834 | a built attribute is consistent and always reports pending values |
| Reconciler.GatherSucceedsIff | opendj-server-legacy/src/main/java/org/opends/server/config/DNConfigAttribute.java:702-816 | the loop over the stored attributes succeeds exactly when each is admissible and at most one active and one pending set are met, and it ends with an active set exactly when one was met |
| Reconciler.GetConfigAttributeSucceedsIff | opendj-server-legacy/src/main/java/org/opends/server/config/DNConfigAttribute.java:696-834 | `getConfigAttribute` succeeds exactly when every stored attribute is an admissible active or pending set, there is exactly one active set and at most one pending set |
| Reconciler.GatherResult | opendj-server-legacy/src/main/java/org/opends/server/config/DNConfigAttribute.java:702-816 | the loop keeps a set once found and takes each set from its own attribute's values |
| Reconciler.GetConfigAttributeValues | opendj-server-legacy/src/main/java/org/opends/server/config/DNConfigAttribute.java:817-833 | the new attribute's active list is parsed from the attribute without options, its pending list from the pending attribute (as a separate list) or, without one, is the active list |
| Reconciler.PendingSetAcceptedWithoutAdminAction | opendj-server-legacy/src/main/java/org/opends/server/config/DNConfigAttribute.java:705-757 | a pending set is accepted on an attribute that does not require administrative action |
| Reconciler.TwoActiveSetsRejected | opendj-server-legacy/src/main/java/org/opends/server/config/DNConfigAttribute.java:766-774 | a second attribute without options is rejected as a second active set |
| Reconciler.PendingOnlyRejected | opendj-server-legacy/src/main/java/org/opends/server/config/DNConfigAttribute.java:817-822 | a pending set without an active set is rejected |
| JmxBridge.GetType | opendj-server-legacy/src/main/java/org/opends/server/config/DNConfigAttribute.java:1022-1025 | the JMX type is the string-array type exactly for a multi-valued attribute, and the string type otherwise |
| JmxBridge.ToJmxAttribute | opendj-server-legacy/src/main/java/org/opends/server/config/DNConfigAttribute.java:848-909 | the active or pending list under the bare or the pending name: all string forms for a multi-valued attribute, the first one for a single-valued one, null exactly for an empty single-valued list |
| JmxBridge.JmxEntries | opendj-server-legacy/src/main/java/org/opends/server/config/DNConfigAttribute.java:923-977 | exactly one bare-name entry (the active values, an explicit null for an empty single-valued attribute), then a pending entry exactly when administrative action is required, the pending list is separate and it is not an empty single-valued list |
| JmxBridge.AttributeInfos | opendj-server-legacy/src/main/java/org/opends/server/config/DNConfigAttribute.java:994-1005 | a read-write descriptor under the bare name, plus a read-only one under the pending name exactly when administrative action is required, all with the attribute's type and description |
| JmxBridge.ParameterInfo | opendj-server-legacy/src/main/java/org/opends/server/config/DNConfigAttribute.java:1017-1020 | the parameter descriptor has the name, type and description of the writable attribute descriptor |
| JmxBridge.ParseAll | opendj-server-legacy/src/main/java/org/opends/server/config/DNConfigAttribute.java:1083-1108 | a string array parses exactly when no element is null and every element parses, element by element; otherwise the cannot-parse error |
| JmxBridge.ParseErrorPersists | opendj-server-legacy/src/main/java/org/opends/server/config/DNConfigAttribute.java:1088-1106 | once an element of a string array fails to parse, the whole array fails |
| JmxBridge.SetFromJmx | opendj-server-legacy/src/main/java/org/opends/server/config/DNConfigAttribute.java:1039-1137 | with an exclusive dispatch: null fails, a DN is `setValue`, a string is parsed then `setValue` or fails, a DN array is `setValues`, a string array is parsed element by element and then `setValues` or fails with the cannot-parse error, other arrays and types fail naming their type; a failure changes nothing and consistency is kept |
| JmxBridge.SetFromJmxAsWritten | opendj-server-legacy/src/main/java/org/opends/server/config/DNConfigAttribute.java:1043-1136 | as written, a DN value is stored by `setValue` and then reported with the invalid-type error; every other value behaves as `SetFromJmx` |
| JmxBridge.DnValueStoredThenRejected | opendj-server-legacy/src/main/java/org/opends/server/config/DNConfigAttribute.java:1047-1051 | as written, a DN written to an immediate attribute with no active values reports failure yet has become the active value |
| JmxBridge.DnValueStoredAndAccepted | opendj-server-legacy/src/main/java/org/opends/server/config/DNConfigAttribute.java:1047-1049 | with the exclusive dispatch a DN value is stored by `setValue` and the write succeeds; on an immediate attribute it becomes the active value |
| JmxBridge.StringArrayWrite | opendj-server-legacy/src/main/java/org/opends/server/config/DNConfigAttribute.java:1083-1108 | a string array is accepted exactly when every element is non-null and parses and the parsed list is one `setValues` accepts; an element that does not parse fails with the cannot-parse error and changes nothing |
| JmxBridge.ParseAllOfRenders | opendj-server-legacy/src/main/java/org/opends/server/config/DNConfigAttribute.java:1083-1108 | the string array a multi-valued attribute publishes parses back to its DNs |
| JmxBridge.JmxWriteBackIsIdentity | opendj-server-legacy/src/main/java/org/opends/server/config/DNConfigAttribute.java:923-1108 | writing back the string array an immediate multi-valued attribute publishes succeeds and leaves the active list as it was |
| DnConfig.DNConfigAttribute.Stub | opendj-server-legacy/src/main/java/org/opends/server/config/DNConfigAttribute.java:79-87 | the five-argument constructor: no values, pending is the active list, no pending values |
| DnConfig.DNConfigAttribute.WithValue | opendj-server-legacy/src/main/java/org/opends/server/config/DNConfigAttribute.java:107-125 | the one-DN constructor: `[dn]` or nothing active, pending the same list, no pending values |
| DnConfig.DNConfigAttribute.WithValues | opendj-server-legacy/src/main/java/org/opends/server/config/DNConfigAttribute.java:146-155 | the list constructor: the list or nothing active, pending the same list, no pending values |
| DnConfig.DNConfigAttribute.WithPending | opendj-server-legacy/src/main/java/org/opends/server/config/DNConfigAttribute.java:178-204 | the seven-argument constructor leaves the state `Constructed` describes |
| DnConfig.DNConfigAttribute.SetValue | opendj-server-legacy/src/main/java/org/opends/server/config/DNConfigAttribute.java:334-355 | the new state and the outcome are those of `AttributeState.SetValue` on the old state, and consistency is kept |
| DnConfig.DNConfigAttribute.ValidateValues | opendj-server-legacy/src/main/java/org/opends/server/config/DNConfigAttribute.java:400-416 | the element loop returns what `ScanValues` returns |
| DnConfig.DNConfigAttribute.SetValues | opendj-server-legacy/src/main/java/org/opends/server/config/DNConfigAttribute.java:367-431 | the new state and the outcome are those of `AttributeState.SetValues` on the old state, and consistency is kept |
| DnConfig.DNConfigAttribute.ApplyPendingValues | opendj-server-legacy/src/main/java/org/opends/server/config/DNConfigAttribute.java:483-492 | the new state is `ApplyPending` of the old state, and consistency is kept |
| DnConfig.DNConfigAttribute.GetConfigAttribute | opendj-server-legacy/src/main/java/org/opends/server/config/DNConfigAttribute.java:696-834 | fails exactly as `Reconciler.GetConfigAttribute` does; otherwise a new attribute with the same metadata and the state it computes |
| DnConfig.DNConfigAttribute.Duplicate | opendj-server-legacy/src/main/java/org/opends/server/config/DNConfigAttribute.java:1147-1152 | a new attribute built by the seven-argument constructor from this one's lists: the same lists, with the pending flag raised |
| DnConfig.DNConfigAttribute.RenderAll | opendj-server-legacy/src/main/java/org/opends/server/config/DNConfigAttribute.java:865-869 | the string array holds the string form of each DN, in order |
| DnConfig.DNConfigAttribute.AddJmxAttributes | opendj-server-legacy/src/main/java/org/opends/server/config/DNConfigAttribute.java:923-977 | the caller's list gains exactly `JmxEntries` of the current state, after what it held |
| DnConfig.DNConfigAttribute.AddJmxAttributeInfo | opendj-server-legacy/src/main/java/org/opends/server/config/DNConfigAttribute.java:994-1005 | the caller's list gains exactly `AttributeInfos`, after what it held |
| DnConfig.DNConfigAttribute.ParseStrings | opendj-server-legacy/src/main/java/org/opends/server/config/DNConfigAttribute.java:1086-1106 | the string-array loop returns what `ParseAll` returns |
| DnConfig.DNConfigAttribute.SetValueFromJmx | opendj-server-legacy/src/main/java/org/opends/server/config/DNConfigAttribute.java:1039-1137 | the new state and the outcome are those of `SetFromJmx` on the old state, and consistency is kept |
| DnConfig.DNConfigAttribute.SetValueFromJmxAsWritten | opendj-server-legacy/src/main/java/org/opends/server/config/DNConfigAttribute.java:1039-1137 | the new state and the outcome are those of `SetFromJmxAsWritten` on the old state, and consistency is kept |

## Left out

- DN parsing and rendering (`DN.valueOf`, `DN.toString`, RFC 4514 normalisation) belong to an external library: they are the parameters of a `DnCodec`, and their round trip is the precondition `Sound`.
- The superclass `ConfigAttribute` is not part of this model: its byte-string value sets (`setActiveValues`, `setPendingValues`, the `getDNValueSet` helpers) are not modelled, and its pending flag is the field `hasPending` with the behaviour assumed above.
- Logging and tracing, and the localised text of error messages: only the kind of each `ConfigException` is modelled.
- `getDataType` (a constant) and `getSyntax` (a lookup in the server's global schema) are not modelled.
- `activeValues()`, which returns the active list itself, is the `active` field of the state.
- Java list identity and mutability beyond the `pendingSeparate` flag: `duplicate`, the list constructors and an accepted `setValues` keep the caller's list objects, and the in-place `clear` and `add` on the active list (in `setValue(DN)` and the empty-list branch of `setValues`) would show through any other holder of that list, or throw an `UnsupportedOperationException` when the caller's list is unmodifiable; the model copies values, so every list is private and modifiable.
- DnConfig.DNConfigAttribute.WithValues: a list holding a null DN makes the source throw a null dereference while building its value set; the model's DN lists hold no nulls.
- DnConfig.DNConfigAttribute.WithPending: an active or pending list holding a null DN makes the source throw a null dereference while building the superclass's value sets; the model's DN lists hold no nulls, so this failure is not represented.
- JMX and reflection classes are small datatypes; an inbound value is classified by its runtime shape (`InboundValue`), and the generic `catch (Exception)` of the string-array branch, which reports the invalid-DN-value error with the lists unchanged, is not modelled: it is reached only when the in-place clearing of an unmodifiable active list throws (an empty string array written to an immediate, optional attribute), which the model's private lists rule out.
- Attribute option names and DNs are compared as exact strings; the case-insensitive matching of the LDAP library is not modelled.
- AttributeState.SetValues and DnConfig.DNConfigAttribute.SetValues read a null list as an empty one; the source dereferences it, which `SetValuesAsWritten` models (see Findings).
- JmxBridge.SetFromJmx and DnConfig.DNConfigAttribute.SetValueFromJmx use the exclusive dispatch, so a DN value succeeds where the source stores it and then reports the invalid-type error; `SetValueFromJmxAsWritten` models the source's fall-through (see Findings).

## Findings

| source | as written | input that shows it | evidently intended | confidence | as-written member | corrected member |
|---|---|---|---|---|---|---|
| opendj-server-legacy/src/main/java/org/opends/server/config/DNConfigAttribute.java:1047-1051 | the string test follows the DN test with `if` instead of `else if`, so a DN value is stored by `setValue(DN)` and control then reaches the invalid-type `throw` | a JMX attribute whose value is a DN, on an immediate attribute with no active values | a DN value is stored and the call succeeds | not executed | JmxBridge.SetFromJmxAsWritten, JmxBridge.DnValueStoredThenRejected | JmxBridge.SetFromJmx, JmxBridge.DnValueStoredAndAccepted |
| opendj-server-legacy/src/main/java/org/opends/server/config/DNConfigAttribute.java:371-392 | a null list passes the emptiness test, is cleared as an empty list would be, and then `values.size()` throws a null dereference | `setValues(null)` on an optional attribute with active values | a null list is handled as the empty list it is grouped with | not executed | AttributeState.SetValuesAsWritten, AttributeState.NullListFailsAfterClearing | AttributeState.SetValues, AttributeState.NullListReadAsEmpty |
