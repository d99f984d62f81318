# Metadata (tag) store

This project models the metadata manager of the cloud platform's common
database layer (`pkg/cloudcommon/db/metadata.go`) in Dafny. The model
also proves properties of it.

The manager keeps one table of rows. Each row is keyed by an object
identifier `idstr` (`"<keyword>::<id>"`) and a tag key, and holds a
string value. Three kinds of key are distinguished:

- System keys start with `_`. GetStringValue, GetAll and SetAll serve them
  only to callers whose credential allows reading the metadata spec. The
  listing filter checks no credential: it shows them to any caller who
  asks with `with_sys`.
- Cloud tags start with `ext:`. A listing hides them unless asked.
- Plain keys are everything else.

The operations modelled are:

- building identifiers: `GetObjectIdstr`, and a row's `GetId`/`GetName`;
- the system-key helpers: `IsSystemAdminKey`, `GetSysadminKey`, and the
  prefix stripping GetAll does;
- the key filter of a listing;
- the guarded single read `GetStringValue`;
- the batch write `SetAll` and its one-key form `SetValue`;
- the batch clear `RemoveAll`;
- the filtered read `GetAll`.

Files:

- `outcomes.dfy`: `Option` and `Result`.
- `metadata_keys.dfy`: identifiers, prefixes, row ids and the listing
  filter. All of it is pure functions and lemmas.
- `metadata_values.dfy`: ASCII lower-casing and the normalisation of
  stored values. A value that reads `none` or `null`, in any letter case,
  is stored as `""`.
- `metadata_spec.dfy`: the specification functions of the batch
  operations and the lemmas about them.
  - `SetRows` is what SetAll writes: table and change list.
  - `StopIndex` is where SetAll stops.
  - `ClearRows`/`BlankedKeys` are what RemoveAll blanks.
  - `IsGetAllResult` is what GetAll may return.
- `metadata_store.dfy`: class `MetadataManager`. It holds the table, plus
  two ghost logs:
  - the events sent to the audit log;
  - the calls made to the lock manager.

  Its methods loop over the batch or over the fetched records, and update
  the table one record at a time.

Outside effects are parameters:

- the credential is `Option<Credential>`, where `None` is a nil
  credential;
- `failing` is the set of keys whose database lookup, insert or update
  fails;
- `fetchFails` says whether fetching the object's rows fails.

RemoveAll visits every row of the object, and GetAll every selected
row. The order of the visits is chosen nondeterministically. This
matches a database that returns rows in no fixed order. SetAll's map
argument is a sequence of (key, value) pairs. Because Go iterates a map in no fixed order, every order is covered.
Results that need a real map assume `DistinctKeys`.

The source's quirks are modelled as written and pinned down by lemmas:

- For an existing row, SetAll reads the old value *after* the update, so
  `OValue == NValue`. It records a change even when the value did not
  change.
- A Forbidden or failed write leaves the keys already written in place.
  There is no rollback, and the audit log is not written.
- RemoveAll's change records carry an empty old value.
- For an administrator, GetAll maps a plain key `a` and a system key `_a`
  to the same result key. Which value wins depends on the record order.

## Model

| member | source | states |
|---|---|---|
| MetadataKeys.IsSystemAdminKey | pkg/cloudcommon/db/metadata.go:265-267 | a key is a system key exactly when it is non-empty and its first character is `_` |
| MetadataKeys.GetSysadminKey | pkg/cloudcommon/db/metadata.go:269-271 | the result is always a system key, one character longer than the key, and dropping its first character gives the key back |
| MetadataKeys.StripSysadminPrefix | pkg/cloudcommon/db/metadata.go:254 | dropping the prefix of a system key gives a key one shorter, and re-prefixing it gives the system key back |
| MetadataKeys.SysadminKeyRoundTrip | pkg/cloudcommon/db/metadata.go:269-271 | stripping the prefix undoes GetSysadminKey, and GetSysadminKey is injective |
| MetadataKeys.GetObjectIdstr | pkg/cloudcommon/db/metadata.go:62-64 | the identifier is the keyword, then `::`, then the id. It is never empty, so RemoveAll's "invalid model" branch cannot be taken |
| MetadataKeys.ParseIdstrSound | pkg/cloudcommon/db/metadata.go:62-64 | splitting an identifier at its first `::` gives an object whose identifier is that same text |
| MetadataKeys.ParseIdstrComplete | pkg/cloudcommon/db/metadata.go:62-64 | for a keyword without `:`, splitting the identifier gives back the keyword and the id: identifiers of different objects differ |
| MetadataKeys.ParseIdstr | pkg/cloudcommon/db/metadata.go:62-64 | the inverse of GetObjectIdstr: parsing fails exactly when the text holds no `::` |
| MetadataKeys.MetadataRow.GetId | pkg/cloudcommon/db/metadata.go:50-52 | the row id is the object identifier, then `-`, then the key |
| MetadataKeys.MetadataRow.GetName | pkg/cloudcommon/db/metadata.go:54-56 | the row name is the same text as the row id |
| MetadataKeys.GetIdInjectiveOnKey | pkg/cloudcommon/db/metadata.go:50-52 | two rows of the same object with the same row id have the same key |
| MetadataKeys.GetIdAmbiguousAcrossObjects | pkg/cloudcommon/db/metadata.go:50-52 | rows of different objects can share a row id (`disk::a-b`/`c` and `disk::a`/`b-c`) |
| MetadataKeys.KeyListed | pkg/cloudcommon/db/metadata.go:99-104 | the two conditions of a listing; without `with_sys`, a listed key is never a system key |
| MetadataKeys.ListedRows | pkg/cloudcommon/db/metadata.go:99-104 | a listing keeps exactly the rows whose key passes the two prefix filters, and never adds a row |
| MetadataKeys.SysadminKeysNeverListedByDefault | pkg/cloudcommon/db/metadata.go:99-101 | without `with_sys`, no system key is listed, whatever the cloud-tag flag |
| MetadataKeys.ListedRowsAllFlags | pkg/cloudcommon/db/metadata.go:99-104 | with both `with_sys` and `with_cloud`, the listing is the rows unchanged, in order |
| MetadataValues.LowerChar | pkg/cloudcommon/db/metadata.go:202 | an ASCII capital becomes its lower-case letter; every other character is kept |
| MetadataValues.ToLower | pkg/cloudcommon/db/metadata.go:202 | lower-casing a string keeps its length |
| MetadataValues.ToLowerAt | pkg/cloudcommon/db/metadata.go:202 | lower-casing maps each character to its ASCII lower case and keeps the length |
| MetadataValues.Normalise | pkg/cloudcommon/db/metadata.go:201-205 | the stored value is either `""` or the value as given |
| MetadataValues.NormaliseClears | pkg/cloudcommon/db/metadata.go:201-205 | the stored value is `""` exactly when the value is empty or reads `none` or `null` in any letter case; every other value is stored unchanged |
| MetadataValues.NormaliseIdempotent | pkg/cloudcommon/db/metadata.go:201-205 | normalising a stored value again changes nothing |
| MetadataValues.NullWordsInAnyCase | pkg/cloudcommon/db/metadata.go:202-205 | `None` and `nUlL` are cleared; `nil` and `nones` are kept |
| MetadataSpec.MayUseSystemKeys | pkg/cloudcommon/db/metadata.go:197 | the credential test of lines 120, 197 and 253: only a credential, never a nil one, whose policy answer allows reading the metadata spec |
| MetadataSpec.Refusal | pkg/cloudcommon/db/metadata.go:197-228 | SetAll refuses a key with Forbidden exactly when it is a system key and the caller, including a nil one, may not use system keys. It accepts a key exactly when it is not refused that way and its database call succeeds |
| MetadataSpec.StopFrom | pkg/cloudcommon/db/metadata.go:196-231 | the stop position lies between the start and the batch's end, and the key at it, if any, is refused |
| MetadataSpec.StopIndex | pkg/cloudcommon/db/metadata.go:196-231 | SetAll stops within the batch, and the key it stops at, if any, is refused |
| MetadataSpec.StopFromSpec | pkg/cloudcommon/db/metadata.go:196-231 | every key before the stop position is accepted |
| MetadataSpec.StopIndexNext | pkg/cloudcommon/db/metadata.go:196-231 | a refused key ends the loop at its position; an accepted key lets it go on |
| MetadataSpec.NormalisedBatch | pkg/cloudcommon/db/metadata.go:201-205 | the batch SetAll writes keeps every key, in order, with its value normalised |
| MetadataSpec.NormalisedBatchDistinct | pkg/cloudcommon/db/metadata.go:196 | normalising values keeps a batch free of repeated keys, and only such a batch |
| MetadataSpec.WriteChange | pkg/cloudcommon/db/metadata.go:206-230 | a change record carries the key and the new value. Its old value equals the new value for an existing row (read after the update) and is `""` for an inserted row |
| MetadataSpec.SetRows | pkg/cloudcommon/db/metadata.go:206-230 | the table and change list after the first `n` writes of SetAll's loop, with one change per write |
| MetadataSpec.SetRowsDomain | pkg/cloudcommon/db/metadata.go:206-230 | writing a batch inserts the rows of its keys that were missing and deletes no row |
| MetadataSpec.SetRowsKeep | pkg/cloudcommon/db/metadata.go:206-230 | rows of other objects and of keys outside the batch keep their values |
| MetadataSpec.SetRowsChangeKeys | pkg/cloudcommon/db/metadata.go:210-229 | one change per written entry, in order, with that entry's key and value |
| MetadataSpec.SetRowsUntouched | pkg/cloudcommon/db/metadata.go:206-230 | a key the batch does not mention is present afterwards exactly when it was before |
| MetadataSpec.SetRowsValues | pkg/cloudcommon/db/metadata.go:206-230 | for a batch without repeated keys, every written key ends up holding its value |
| MetadataSpec.SetRowsLastChange | pkg/cloudcommon/db/metadata.go:206-230 | the change for the last written key is computed against the table as it was before the call |
| MetadataSpec.SetRowsChanges | pkg/cloudcommon/db/metadata.go:206-230 | for a batch without repeated keys, each change record is the one for writing its value into the original table |
| MetadataSpec.SetAllStoresNormalised | pkg/cloudcommon/db/metadata.go:196-230 | after a complete SetAll over a map, each key holds its normalised value, and its change has old value `""` for an inserted row and equal to the new value for an updated row |
| MetadataSpec.SetRowsAlreadyWritten | pkg/cloudcommon/db/metadata.go:222-225 | writing values a table already holds leaves its values unchanged |
| MetadataSpec.SetRowsTwiceTable | pkg/cloudcommon/db/metadata.go:206-230 | writing the same batch twice leaves the table as the first write left it |
| MetadataSpec.SetRowsTwiceChanges | pkg/cloudcommon/db/metadata.go:222-229 | the second write still records one change per key, each with equal old and new values |
| MetadataSpec.BlankedKeys | pkg/cloudcommon/db/metadata.go:168-176 | RemoveAll blanks exactly the keys of the object whose row is non-empty and whose update succeeds |
| MetadataSpec.ClearRows | pkg/cloudcommon/db/metadata.go:168-173 | clearing keeps every row, sets the cleared rows of the object to `""`, and leaves every other row unchanged |
| MetadataSpec.ClearedChangeListLength | pkg/cloudcommon/db/metadata.go:174-179 | a RemoveAll change list has one entry per blanked key, so it is empty exactly when nothing was blanked |
| MetadataSpec.RemoveAllSecondCall | pkg/cloudcommon/db/metadata.go:168-181 | a second RemoveAll blanks exactly the keys whose update failed in the first call and succeeds in the second |
| MetadataSpec.RemoveAllIdempotent | pkg/cloudcommon/db/metadata.go:168-181 | when the second RemoveAll's updates fail at least where the first call's did, it finds nothing to blank, so it changes nothing and logs nothing |
| MetadataSpec.Listed | pkg/cloudcommon/db/metadata.go:250-259 | the rows GetAll reports: an existing, non-empty, selected row of the object, and a system row only for a caller with access |
| MetadataSpec.ShownFrom | pkg/cloudcommon/db/metadata.go:250-259 | an entry comes from the listed plain row of its key or from the listed system row of its key; its value is never empty |
| MetadataSpec.IsGetAllResult | pkg/cloudcommon/db/metadata.go:250-259 | a possible GetAll result: every listed row is reported under its shown key, and every entry comes from a listed row |
| MetadataSpec.ShownKey | pkg/cloudcommon/db/metadata.go:252-258 | GetAll reports a system key without its prefix and a plain key as it is |
| MetadataSpec.GetAllResultValues | pkg/cloudcommon/db/metadata.go:250-259 | a GetAll result holds no empty value. A caller without system access gets only plain keys with their stored values. With a key list, every entry's key is a plain key in the list, or its system form is in the list |
| MetadataSpec.GetAllResultUnique | pkg/cloudcommon/db/metadata.go:250-261 | when no plain key meets its system form, GetAll has exactly one possible result |
| MetadataSpec.NoShadowingWithoutSystemAccess | pkg/cloudcommon/db/metadata.go:252-256 | for a caller without system access, a plain key never meets a system key |
| MetadataSpec.ShadowedKeyIsOrderDependent | pkg/cloudcommon/db/metadata.go:250-261 | for an administrator, rows `a` and `_a` make both `{a: plain}` and `{a: system}` possible results |
| MetadataSpec.RemoveAllLeavesNothingListed | pkg/cloudcommon/db/metadata.go:168-177 | after a RemoveAll whose updates all succeed, GetAll lists nothing for the object |
| MetadataStore.MetadataManager.LockObject | pkg/cloudcommon/db/metadata.go:158 | taking the lock appends one acquire call to the lock log |
| MetadataStore.MetadataManager.ReleaseObject | pkg/cloudcommon/db/metadata.go:159 | releasing the lock appends one release call to the lock log |
| MetadataStore.MetadataManager.GetStringValue | pkg/cloudcommon/db/metadata.go:119-130 | the result is non-empty exactly when GetAll with no key list would list the key, and then it is the stored value. A system key read by a caller without access, or a missing row, gives `""` |
| MetadataStore.MetadataManager.WriteRecord | pkg/cloudcommon/db/metadata.go:206-230 | the record is written exactly when its database call succeeds, with the change record of WriteChange. On failure nothing is written |
| MetadataStore.MetadataManager.WriteEntry | pkg/cloudcommon/db/metadata.go:197-230 | one loop round. It refuses as Refusal says and then writes nothing; otherwise it writes the normalised value and returns its change record |
| MetadataStore.MetadataManager.WriteBatch | pkg/cloudcommon/db/metadata.go:195-231 | the loop writes exactly the entries before the stop position, and they stay written. It returns the refusal at the stop position, and on success the full change list |
| MetadataStore.MetadataManager.SetAll | pkg/cloudcommon/db/metadata.go:189-236 | one lock acquire and one release on every path. The table holds the writes up to the stop position. The status is Ok, or the refusal at that key. Nothing is logged on error; on success one SetMetadata event with one change per key is logged, unless the batch is empty |
| MetadataStore.MetadataManager.SetValue | pkg/cloudcommon/db/metadata.go:185-187 | an accepted key is set to its normalised value with one change record. GetStringValue then reads that value back. A refused key changes nothing |
| MetadataStore.MetadataManager.ClearObjectRows | pkg/cloudcommon/db/metadata.go:161-178 | the loop blanks exactly the blanked keys and records each once, with empty old and new values |
| MetadataStore.MetadataManager.RemoveAll | pkg/cloudcommon/db/metadata.go:152-183 | one lock acquire and one release on every path. A failed fetch changes nothing. Otherwise exactly the blanked keys become `""`, no row is deleted, and one DelMetadata event is logged exactly when something was blanked |
| MetadataStore.MetadataManager.GetAll | pkg/cloudcommon/db/metadata.go:238-263 | a failed fetch is an error. Otherwise every listed row is reported under its shown key, and every entry comes from a listed row |

## Left out

- Locking: the lock manager's internals and cross-process behaviour are
  concurrency. Only the sequence of acquire and release calls is kept,
  and the deferred release is one release at the end of each method.
- Database access: the SQL query building and the ORM are not modelled.
  Their errors become the `failing` and `fetchFails` parameters. Error
  messages are reduced to the `MetaError` cases.
- ListItemFilter: only its key filter (lines 99-104) is modelled. Left out:
  - the `resources` sub-queries;
  - owner filtering and the `admin` query flag, which are database
    queries and policy calls;
  - the "Not support resource" error for an unknown resource, which
    depends on the resource table.
- GetJsonValue: not modelled. It is GetStringValue followed by JSON
  parsing from a foreign library. The audit payload
  `jsonutils.Marshal(changes)` is kept as the change sequence itself.
- `stringutils.Interface2String`: values are taken as strings.
- MetadataValues.ToLowerAt: lower-casing is ASCII only. The Unicode case
  mapping of `strings.ToLower` is not modelled.
- Authorisation: `IsAdminAllowGetSpec` is a boolean in the credential.
  Its policy is not modelled.
- MetadataStore.MetadataManager.GetStringValue: any failed lookup reads as
  a missing row, as the source does. The lookup itself is not a parameter.
- GetAll and RemoveAll: the fetched records are visited in a
  nondeterministic order.
- SetAll, RemoveAll: the `UpdatedAt` column (line 34) that Insert and
  Update write is not modelled. The table holds only values, so "the
  table is unchanged" means the values are unchanged.
- RemoveAll: the "invalid model" branch (lines 154-156) is kept, and is
  proved unreachable.
- The commented-out Python helpers (lines 108-117 and 273-287) are not
  code and are not modelled.
- The other files of the repository are not part of this model:
  - `cmd/climc/climc.go`: a command-line front end, argument parsing and
    network authentication;
  - `cmd/climc/shell/meter/meter-events.go`: a one-line command
    registration;
  - `pkg/keystone/models/projectresource.go`: query filtering that depends
    on database lookups;
  - `pkg/cloudid/tasks/clouduser_syncstatus_task.go`: a handler over a
    task engine that is not part of this model.
