/**
 The session handler facade `DBSessionsHandler`: it owns the `sessions`
 table and implements the host's open/close/read/write/destroy/gc hooks.
 The wall clock is the `now` parameter of each operation.
 */
module SessionsHandler {
  import opened SessionPolicy

  /** How a call ends: with a returned boolean, or with the fatal error
      PHP raises when a method is called on null. */
  datatype Outcome = Returned(ok: bool) | NullDereference

  class DBSessionsHandler {
    const config: Config
    /** The shared `sessions` table, keyed by session id. */
    var records: Table

    /** `store` is the table as it stands when the handler is built. */
    constructor (store: Table, unserialize: string -> set<string>,
                 sessionDuration: int := 3600, authenticatedUserValue: Option<string> := None)
      ensures records == store
      ensures config.sessionDuration == sessionDuration
      ensures config.authenticatedUserValue == authenticatedUserValue
      ensures config.unserialize == unserialize
    {
      config := Config(sessionDuration, authenticatedUserValue, unserialize);
      records := store;
    }

    /** Phase two of a sweep, shared by `open` and `gc`: walk a snapshot of
        the table and delete each anonymous record older than
        `noAuthLimit`; `deleted` counts those deletions. */
    method DeleteStaleAnonymous(noAuthLimit: int) returns (deleted: nat)
      modifies this
      ensures records == WithoutStaleAnonymous(config, old(records), noAuthLimit)
      ensures deleted == |StaleAnonymousIds(config, old(records), noAuthLimit)|
    {
      var sessions := records;
      ghost var stale := StaleAnonymousIds(config, sessions, noAuthLimit);
      var pending := sessions.Keys;
      deleted := 0;
      while pending != {}
        invariant pending <= sessions.Keys
        invariant records == sessions - (stale - pending)
        invariant deleted == |stale - pending|
        decreases pending
      {
        var id :| id in pending;
        var session := sessions[id];
        VisitStep(sessions, stale, pending, id);
        if AnonymousStale(config, session, noAuthLimit) {
          records := records - {id};
          deleted := deleted + 1;
        }
        pending := pending - {id};
      }
    }

    /** `open`: the expiry sweep with the session duration as ceiling. */
    method Open(now: int) returns (ok: bool)
      modifies this
      ensures ok
      ensures records == Swept(config, old(records), config.sessionDuration, now)
    {
      var authLimit := now - config.sessionDuration;
      var noAuthLimit := now - NoAuthMaxLifetime;
      records := Unexpired(records, authLimit);
      var _ := DeleteStaleAnonymous(noAuthLimit);
      ok := true;
    }

    /** `close` does nothing and succeeds. */
    method Close() returns (ok: bool)
      ensures ok
    {
      ok := true;
    }

    /** `read`: the stored payload and the session's remaining lifetime,
        or the empty payload and no lifetime for an unknown id. */
    method Read(id: string, now: int) returns (data: string, ttl: Option<int>)
      ensures id in records ==>
        data == records[id].data &&
        ttl == Some(config.sessionDuration - now + records[id].timestamp)
      ensures id !in records ==> data == "" && ttl == None
    {
      if id in records {
        var session := records[id];
        ttl := Some(config.sessionDuration - now + session.timestamp);
        data := session.data;
      } else {
        data, ttl := "", None;
      }
    }

    /** `write`: create the record, or update its payload and timestamp. */
    method Write(id: string, data: string, now: int) returns (ok: bool)
      modifies this
      ensures ok
      ensures id in records && records[id] == Record(data, now)
      ensures records.Keys == old(records).Keys + {id}
      ensures forall other :: other in old(records) && other != id ==> records[other] == old(records)[other]
    {
      if id !in records {
        records := records[id := Record(data, now)];
      } else {
        var session := records[id];
        session := session.(data := data, timestamp := now);
        records := records[id := session];
      }
      ok := true;
    }

    /** `destroy`: delete the record; an unknown id ends in the null
        dereference of the code, with the table unchanged. */
    method Destroy(id: string) returns (outcome: Outcome)
      modifies this
      ensures id in old(records) ==> outcome == Returned(true) && records == old(records) - {id}
      ensures id !in old(records) ==> outcome == NullDereference && records == old(records)
    {
      if id in records {
        records := records - {id};
        outcome := Returned(true);
      } else {
        outcome := NullDereference;
      }
    }

    /** `gc`: the expiry sweep with `maxlifetime` as ceiling, returning the
        number of records deleted by phase two only. Its anonymous-age test
        uses the timestamp, as `open` does (see GcSweptAsWritten). */
    method Gc(maxlifetime: int, now: int) returns (deleted: nat)
      modifies this
      ensures records == Swept(config, old(records), maxlifetime, now)
      ensures deleted == |StaleAnonymousIds(config, Unexpired(old(records), now - maxlifetime), now - NoAuthMaxLifetime)|
      ensures |old(records)| - |records| == |old(records)| - |Unexpired(old(records), now - maxlifetime)| + deleted
    {
      ghost var before := records;
      records := Unexpired(records, now - maxlifetime);
      var noAuthLimit := now - NoAuthMaxLifetime;
      deleted := DeleteStaleAnonymous(noAuthLimit);
      SweepAccounting(config, before, maxlifetime, now);
    }
  }

  /** One step of the phase-two walk: visiting `id` removes it from the
      table iff it is stale, and the count of stale ids visited grows by
      one exactly then. */
  lemma VisitStep(sessions: Table, stale: set<string>, pending: set<string>, id: string)
    requires id in pending
    ensures id in stale ==>
      (sessions - (stale - pending)) - {id} == sessions - (stale - (pending - {id})) &&
      |stale - (pending - {id})| == |stale - pending| + 1
    ensures id !in stale ==> stale - (pending - {id}) == stale - pending
  {
    if id in stale {
      assert stale - (pending - {id}) == (stale - pending) + {id};
    }
  }

  /** Round trip: a write followed by a read, with no sweep between them,
      returns the payload written. */
  method WriteThenRead(h: DBSessionsHandler, id: string, data: string, written: int, now: int)
    returns (got: string, ttl: Option<int>)
    modifies h
    ensures got == data
    ensures ttl == Some(h.config.sessionDuration - now + written)
  {
    var _ := h.Write(id, data, written);
    got, ttl := h.Read(id, now);
  }

  /** Two writes to one id leave a single record holding the second payload. */
  method WriteTwiceKeepsLast(h: DBSessionsHandler, id: string, v1: string, v2: string, t1: int, t2: int)
    modifies h
    ensures h.records == old(h.records)[id := Record(v2, t2)]
  {
    var ok := h.Write(id, v1, t1);
    ok := h.Write(id, v2, t2);
  }

  /** The life of one id: absent, active after a write, absent after destroy. */
  method WriteThenDestroy(h: DBSessionsHandler, id: string, data: string, now: int) returns (outcome: Outcome)
    modifies h
    ensures outcome == Returned(true)
    ensures h.records == old(h.records) - {id}
  {
    var _ := h.Write(id, data, now);
    outcome := h.Destroy(id);
  }
}
