/**
  The metadata manager: the table of (object, key) -> value rows together
  with the audit log it writes to and the lock manager calls it makes.
  The batch operations update the table in place, one record at a time.
 */
module MetadataStore {
  import opened Outcomes
  import opened MetadataKeys
  import opened MetadataValues
  import opened MetadataSpec

  class MetadataManager {
    /** The metadata table. */
    var table: Table
    /** The events sent to the audit log, oldest first. */
    ghost var opsLog: seq<OpsEvent>
    /** The calls made into the lock manager, oldest first. */
    ghost var lockLog: seq<LockEvent>

    constructor ()
      ensures table == map[] && opsLog == [] && lockLog == []
    {
      table := map[];
      opsLog := [];
      lockLog := [];
    }

    /** Takes the object's lock. */
    ghost method LockObject(idstr: string)
      modifies this`lockLog
      ensures lockLog == old(lockLog) + [Acquire(idstr)]
    {
      lockLog := lockLog + [Acquire(idstr)];
    }

    /** Gives the object's lock back. */
    ghost method ReleaseObject(idstr: string)
      modifies this`lockLog
      ensures lockLog == old(lockLog) + [Release(idstr)]
    {
      lockLog := lockLog + [Release(idstr)];
    }

    /**
      The value stored under `key` for `obj`, or "" when there is none or
      when `key` is a system key and the caller may not read those. It sees
      exactly the rows GetAll lists for an empty key list.
     */
    function GetStringValue(obj: ModelRef, key: string, userCred: Option<Credential>): (r: string)
      reads this
      ensures r != "" <==> Listed(table, GetObjectIdstr(obj), [], userCred, key)
      ensures r != "" ==> r == table[(GetObjectIdstr(obj), key)]
    {
      if IsSystemAdminKey(key) && !MayUseSystemKeys(userCred) then ""
      else
        var idstr := GetObjectIdstr(obj);
        if (idstr, key) in table then table[(idstr, key)] else ""
    }

    /**
      Looks up the row (idstr, key) and inserts it with `value` when it is
      missing or updates its value when it exists; the database call fails
      for the keys in `failing`, and then nothing is written. The change
      record reads the record's value after the update, so for an existing
      row its old value is the new value.
     */
    method WriteRecord(idstr: string, key: string, value: string, failing: set<string>)
      returns (written: bool, change: Change)
      modifies this`table
      ensures written <==> key !in failing
      ensures written ==> table == old(table)[(idstr, key) := value]
      ensures written ==> change == WriteChange(old(table), idstr, key, value)
      ensures !written ==> table == old(table)
    {
      if (idstr, key) !in table {
        change := Change(key, "", value);
        if key in failing {
          return false, change;
        }
        table := table[(idstr, key) := value];
      } else {
        if key in failing {
          return false, Change(key, "", "");
        }
        var recordValue := value;
        table := table[(idstr, key) := recordValue];
        change := Change(key, recordValue, value);
      }
      written := true;
    }

    /**
      One round of SetAll's loop: refuses a system key to a caller without
      system access, otherwise normalises the value and writes the record.
      Returns the refusal, if any, and the change record of the write.
     */
    method WriteEntry(idstr: string, key: string, value: string, userCred: Option<Credential>, failing: set<string>)
      returns (refusal: Option<MetaError>, change: Change)
      modifies this`table
      ensures refusal == Refusal(key, userCred, failing)
      ensures refusal.Some? ==> table == old(table)
      ensures refusal.None? ==> table == old(table)[(idstr, key) := Normalise(value)]
      ensures refusal.None? ==> change == WriteChange(old(table), idstr, key, Normalise(value))
    {
      if IsSystemAdminKey(key) && !MayUseSystemKeys(userCred) {
        return Some(Forbidden), Change(key, "", "");
      }
      var valStr := Normalise(value);
      var written;
      written, change := WriteRecord(idstr, key, valStr, failing);
      if !written {
        return Some(WriteFailed(key)), change;
      }
      refusal := None;
    }

    /**
      The loop of SetAll: writes the keys of `store` in order until the
      first refused one, a system key for a caller without system access
      or a key whose database call fails. Keys written before a refusal
      stay written. Returns the refusal, if any, and the change list.
     */
    method WriteBatch(idstr: string, store: seq<(string, string)>, userCred: Option<Credential>, failing: set<string>)
      returns (refusal: Option<MetaError>, changes: seq<Change>)
      modifies this`table
      ensures var n := StopIndex(store, userCred, failing);
              table == SetRows(old(table), idstr, NormalisedBatch(store), n).table
      ensures var n := StopIndex(store, userCred, failing);
              refusal == if n < |store| then Refusal(store[n].0, userCred, failing) else None
      ensures refusal.None? ==> changes == SetRows(old(table), idstr, NormalisedBatch(store), |store|).changes
    {
      ghost var nb := NormalisedBatch(store);
      changes := [];
      var i := 0;
      while i < |store|
        invariant 0 <= i <= |store|
        invariant i <= StopIndex(store, userCred, failing)
        invariant SetRows(old(table), idstr, nb, i) == Written(table, changes)
      {
        StopIndexNext(store, userCred, failing, i);
        var change;
        refusal, change := WriteEntry(idstr, store[i].0, store[i].1, userCred, failing);
        if refusal.Some? {
          return;
        }
        changes := changes + [change];
        i := i + 1;
      }
      assert StopIndex(store, userCred, failing) == i == |store|;
      refusal := None;
    }

    /**
      Writes the batch `store` for `obj` while holding the object's lock,
      which is released on every path (a deferred release in the source).
      The change list goes to the audit log only when every key was
      written and the batch was not empty.
     */
    method SetAll(obj: ModelRef, store: seq<(string, string)>, userCred: Option<Credential>, failing: set<string>)
      returns (status: Status)
      modifies this
      ensures lockLog == old(lockLog) + [Acquire(GetObjectIdstr(obj)), Release(GetObjectIdstr(obj))]
      ensures var n := StopIndex(store, userCred, failing);
              table == SetRows(old(table), GetObjectIdstr(obj), NormalisedBatch(store), n).table
      ensures var n := StopIndex(store, userCred, failing);
              status == if n < |store| then Err(Refusal(store[n].0, userCred, failing).value) else Ok
      ensures status.Err? ==> opsLog == old(opsLog)
      ensures status == Ok ==>
                opsLog == old(opsLog) +
                  if |store| == 0 then []
                  else [OpsEvent(GetObjectIdstr(obj), SetMetadata, SetRows(old(table), GetObjectIdstr(obj), NormalisedBatch(store), |store|).changes, userCred)]
    {
      var idstr := GetObjectIdstr(obj);
      LockObject(idstr);
      var refusal, changes := WriteBatch(idstr, store, userCred, failing);
      if refusal.Some? {
        status := Err(refusal.value);
      } else {
        if |changes| > 0 {
          opsLog := opsLog + [OpsEvent(idstr, SetMetadata, changes, userCred)];
        }
        status := Ok;
      }
      ReleaseObject(idstr);
    }

    /** Writes one key: SetAll with a batch of one. */
    method SetValue(obj: ModelRef, key: string, value: string, userCred: Option<Credential>, failing: set<string>)
      returns (status: Status)
      modifies this
      ensures lockLog == old(lockLog) + [Acquire(GetObjectIdstr(obj)), Release(GetObjectIdstr(obj))]
      ensures status == match Refusal(key, userCred, failing) case None => Ok case Some(e) => Err(e)
      ensures status.Err? ==> table == old(table) && opsLog == old(opsLog)
      ensures status == Ok ==> table == old(table)[(GetObjectIdstr(obj), key) := Normalise(value)]
      ensures status == Ok ==>
                opsLog == old(opsLog) + [OpsEvent(GetObjectIdstr(obj), SetMetadata,
                                                  [WriteChange(old(table), GetObjectIdstr(obj), key, Normalise(value))], userCred)]
      ensures status == Ok ==> GetStringValue(obj, key, userCred) == Normalise(value)
    {
      var store := [(key, value)];
      ghost var idstr := GetObjectIdstr(obj);
      assert NormalisedBatch(store) == [(key, Normalise(value))];
      assert SetRows(table, idstr, NormalisedBatch(store), 1)
        == Written(table[(idstr, key) := Normalise(value)], [WriteChange(table, idstr, key, Normalise(value))]);
      status := SetAll(obj, store, userCred, failing);
    }

    /**
      The loop of RemoveAll over the fetched records of object `idstr`:
      blanks each non-empty row whose update succeeds and records one
      change for it, with the old value read after the update.
     */
    method ClearObjectRows(idstr: string, failing: set<string>) returns (changes: seq<Change>)
      modifies this`table
      ensures table == ClearRows(old(table), idstr, BlankedKeys(old(table), idstr, failing))
      ensures IsClearedChangeList(changes, BlankedKeys(old(table), idstr, failing))
    {
      var records := ObjectKeys(table, idstr);
      ghost var blanked := BlankedKeys(table, idstr, failing);
      ghost var done: set<string> := {};
      changes := [];
      while records != {}
        invariant records !! done && records + done == ObjectKeys(old(table), idstr)
        invariant table == ClearRows(old(table), idstr, blanked * done)
        invariant IsClearedChangeList(changes, blanked * done)
        decreases records
      {
        var key :| key in records;
        var recValue := table[(idstr, key)];
        BlankedStep(old(table), idstr, failing, done, key);
        if |recValue| > 0 && key !in failing {
          recValue := "";
          ClearRowsStep(old(table), idstr, blanked * done, key);
          ClearedChangeListStep(changes, blanked * done, key);
          table := table[(idstr, key) := recValue];
          changes := changes + [Change(key, recValue, "")];
        }
        records := records - {key};
        done := done + {key};
      }
      assert blanked * done == blanked;
    }

    /**
      Blanks every non-empty row of `obj` while holding the object's lock.
      No row is deleted; rows already empty, rows whose update fails and
      rows of other objects keep their values. The change list goes to the
      audit log only when it is not empty. A failed fetch of the object's
      rows returns an error and changes nothing. The lock is released on
      every path.
     */
    method RemoveAll(obj: ModelRef, userCred: Option<Credential>, fetchFails: bool, failing: set<string>)
      returns (status: Status)
      modifies this
      ensures lockLog == old(lockLog) + [Acquire(GetObjectIdstr(obj)), Release(GetObjectIdstr(obj))]
      ensures fetchFails ==> status == Err(FetchFailed(GetObjectIdstr(obj))) && table == old(table) && opsLog == old(opsLog)
      ensures !fetchFails ==> status == Ok
      ensures !fetchFails ==>
                table == ClearRows(old(table), GetObjectIdstr(obj), BlankedKeys(old(table), GetObjectIdstr(obj), failing))
      ensures !fetchFails && BlankedKeys(old(table), GetObjectIdstr(obj), failing) == {} ==> opsLog == old(opsLog)
      ensures !fetchFails && BlankedKeys(old(table), GetObjectIdstr(obj), failing) != {} ==>
                && |opsLog| == |old(opsLog)| + 1
                && opsLog[..|old(opsLog)|] == old(opsLog)
                && var e := opsLog[|old(opsLog)|];
                   && e.idstr == GetObjectIdstr(obj) && e.action == DelMetadata && e.userCred == userCred
                   && IsClearedChangeList(e.changes, BlankedKeys(old(table), GetObjectIdstr(obj), failing))
    {
      var idstr := GetObjectIdstr(obj);
      if |idstr| == 0 {
        assert false;
        return Err(InvalidModel);
      }
      LockObject(idstr);
      if fetchFails {
        status := Err(FetchFailed(idstr));
      } else {
        ghost var blanked := BlankedKeys(table, idstr, failing);
        var changes := ClearObjectRows(idstr, failing);
        ClearedChangeListLength(changes, blanked);
        if |changes| > 0 {
          opsLog := opsLog + [OpsEvent(idstr, DelMetadata, changes, userCred)];
        }
        status := Ok;
      }
      ReleaseObject(idstr);
    }

    /**
      The non-empty values of `obj`'s rows, restricted to `keys` when that
      list is not empty. System keys are left out unless the caller may see
      them, and are then reported without their prefix. A failed fetch of
      the rows is an error.
     */
    method GetAll(obj: ModelRef, keys: seq<string>, userCred: Option<Credential>, fetchFails: bool)
      returns (r: Result<map<string, string>, MetaError>)
      ensures r.Failure? <==> fetchFails
      ensures r.Failure? ==> r.error == FetchFailed(GetObjectIdstr(obj))
      ensures r.Success? ==> IsGetAllResult(table, GetObjectIdstr(obj), keys, userCred, r.value)
    {
      var idstr := GetObjectIdstr(obj);
      if fetchFails {
        return Failure(FetchFailed(idstr));
      }
      var records := set k | k in ObjectKeys(table, idstr) && Selected(keys, k);
      ghost var done: set<string> := {};
      var ret: map<string, string> := map[];
      while records != {}
        invariant records !! done
        invariant forall k :: k in records + done <==> k in ObjectKeys(table, idstr) && Selected(keys, k)
        invariant forall raw :: raw in done && Listed(table, idstr, keys, userCred, raw) ==> ShownKey(raw) in ret
        invariant forall k :: k in ret ==> ShownFrom(table, idstr, keys, userCred, k, ret[k])
        decreases records
      {
        var key :| key in records;
        var value := table[(idstr, key)];
        if |value| > 0 {
          if IsSystemAdminKey(key) {
            if MayUseSystemKeys(userCred) {
              ret := ret[StripSysadminPrefix(key) := value];
            }
          } else {
            ret := ret[key := value];
          }
        }
        records := records - {key};
        done := done + {key};
      }
      return Success(ret);
    }
  }
}
