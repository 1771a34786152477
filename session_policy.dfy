/**
 The pure part of the session lifecycle policy of `DBSessionsHandler`:
 the shape of a stored session, the handler's configuration, the
 classification of a payload as authenticated or anonymous, and the
 table that an expiry sweep leaves behind.
 */
module SessionPolicy {

  datatype Option<+T> = None | Some(value: T)

  /** One row of the `sessions` table: the serialized payload and the
      time of its last write, in epoch seconds. The row's id is its key
      in a `Table`, so there is at most one row per id. */
  datatype Record = Record(data: string, timestamp: int)

  type Table = map<string, Record>

  /** Lifetime, in seconds, of a session that is not authenticated. */
  const NoAuthMaxLifetime: int := 30

  /** The handler's configuration, fixed at construction.
      `unserialize` stands for the external payload codec: it yields the
      keys of the decoded session array whose value is set (non-null). */
  datatype Config = Config(
    sessionDuration: int,
    authenticatedUserValue: Option<string>,
    unserialize: string -> set<string>)

  /** The keys of the decoded session array (`getSesssionArray`).
      A null payload decodes to the empty array. */
  function SessionArray(cfg: Config, data: Option<string>): (keys: set<string>)
    ensures data == None ==> keys == {}
    ensures data != None ==> keys == cfg.unserialize(data.value)
  {
    match data
    case None => {}
    case Some(d) => cfg.unserialize(d)
  }

  /** A session is authenticated iff a marker key is configured and the
      decoded payload sets it; with no marker nothing is authenticated. */
  function IsAuthentified(cfg: Config, data: string): (authenticated: bool)
    ensures cfg.authenticatedUserValue == None ==> !authenticated
    ensures cfg.authenticatedUserValue != None ==>
      (authenticated <==> cfg.authenticatedUserValue.value in cfg.unserialize(data))
  {
    match cfg.authenticatedUserValue
    case None => false
    case Some(marker) => marker in SessionArray(cfg, Some(data))
  }

  /** The phase-two test of a sweep: anonymous and older than `noAuthLimit`. */
  predicate AnonymousStale(cfg: Config, r: Record, noAuthLimit: int) {
    !IsAuthentified(cfg, r.data) && r.timestamp < noAuthLimit
  }

  /** Phase one of a sweep: the bulk delete of every record whose
      timestamp is below `limit`. */
  function Unexpired(t: Table, limit: int): Table {
    map id | id in t && t[id].timestamp >= limit :: t[id]
  }

  /** The ids that phase two deletes from `t`. */
  function StaleAnonymousIds(cfg: Config, t: Table, noAuthLimit: int): set<string> {
    set id | id in t && AnonymousStale(cfg, t[id], noAuthLimit)
  }

  /** Phase two of a sweep: `t` without its stale anonymous records. */
  function WithoutStaleAnonymous(cfg: Config, t: Table, noAuthLimit: int): Table {
    t - StaleAnonymousIds(cfg, t, noAuthLimit)
  }

  /** The table a two-phase sweep at time `now` leaves, with `ceiling`
      the absolute lifetime (the session duration for `open`, the
      `maxlifetime` argument for `gc`). A record survives iff it is
      within the ceiling and is either authenticated or younger than the
      anonymous lifetime; survivors are unchanged. */
  function Swept(cfg: Config, t: Table, ceiling: int, now: int): (r: Table)
    ensures forall id :: id in r <==>
      id in t && t[id].timestamp >= now - ceiling &&
      (IsAuthentified(cfg, t[id].data) || t[id].timestamp >= now - NoAuthMaxLifetime)
    ensures forall id :: id in r ==> r[id] == t[id]
  {
    WithoutStaleAnonymous(cfg, Unexpired(t, now - ceiling), now - NoAuthMaxLifetime)
  }

  /** With a ceiling of at least the anonymous lifetime, a sweep keeps
      every record written in the last 30 seconds, whatever its class. */
  lemma RecentSurviveSweep(cfg: Config, t: Table, ceiling: int, now: int, id: string)
    requires ceiling >= NoAuthMaxLifetime
    requires id in t && t[id].timestamp >= now - NoAuthMaxLifetime
    ensures id in Swept(cfg, t, ceiling, now) && Swept(cfg, t, ceiling, now)[id] == t[id]
  {
  }

  /** Sweeping again later, with the same ceiling, gives what a single
      later sweep gives: an earlier sweep never changes the outcome of a
      later one. At the same instant, a second sweep deletes nothing. */
  lemma SweepsCompose(cfg: Config, t: Table, ceiling: int, earlier: int, later: int)
    requires earlier <= later
    ensures Swept(cfg, Swept(cfg, t, ceiling, earlier), ceiling, later) == Swept(cfg, t, ceiling, later)
  {
    var once := Swept(cfg, t, ceiling, earlier);
    forall id | id in Swept(cfg, t, ceiling, later) ensures id in once {
      assert t[id].timestamp >= earlier - ceiling;
    }
    assert Swept(cfg, once, ceiling, later).Keys == Swept(cfg, t, ceiling, later).Keys;
  }

  /** Accounting of a sweep: the records phase one leaves are exactly
      those that survive plus those phase two deletes, so phase two's
      deletions are the drop from phase one's table to the final one. */
  lemma SweepAccounting(cfg: Config, t: Table, ceiling: int, now: int)
    ensures var phase1 := Unexpired(t, now - ceiling);
      |phase1| == |Swept(cfg, t, ceiling, now)| + |StaleAnonymousIds(cfg, phase1, now - NoAuthMaxLifetime)|
    ensures |Swept(cfg, t, ceiling, now)| <= |Unexpired(t, now - ceiling)| <= |t|
  {
    var phase1 := Unexpired(t, now - ceiling);
    var stale := StaleAnonymousIds(cfg, phase1, now - NoAuthMaxLifetime);
    assert Swept(cfg, t, ceiling, now) == phase1 - stale;
    RemovedCount(phase1, stale);
    var expired := t.Keys - phase1.Keys;
    assert t - expired == phase1;
    RemovedCount(t, expired);
  }

  /** Removing a set of keys that a map holds shrinks it by that many entries. */
  lemma RemovedCount<K, V>(m: map<K, V>, s: set<K>)
    requires s <= m.Keys
    ensures |m| == |m - s| + |s|
  {
    assert (m - s).Keys == m.Keys - s;
    assert m.Keys == (m.Keys - s) + s;
  }

  /** Phase two of `gc` as the code is written: its age test compares the
      payload string, not the timestamp, with the time limit. What PHP's
      loose comparison of a string with an integer yields is not
      modelled; `dataBelow` stands for its outcome. */
  function GcSweptAsWritten(cfg: Config, t: Table, maxlifetime: int, now: int,
                            dataBelow: (string, int) -> bool): (r: Table)
    ensures forall id :: id in r <==>
      id in t && t[id].timestamp >= now - maxlifetime &&
      (IsAuthentified(cfg, t[id].data) || !dataBelow(t[id].data, now - NoAuthMaxLifetime))
    ensures forall id :: id in r ==> r[id] == t[id]
  {
    var phase1 := Unexpired(t, now - maxlifetime);
    map id | id in phase1 &&
      !(!IsAuthentified(cfg, phase1[id].data) && dataBelow(phase1[id].data, now - NoAuthMaxLifetime))
      :: phase1[id]
  }

  /** Whatever the loose comparison yields, the as-written `gc` treats two
      anonymous sessions with the same payload alike, whatever their ages:
      of one written now and one written 31 seconds ago, it keeps the fresh
      one iff it keeps the stale one. The corrected sweep keeps the fresh
      one and deletes the stale one. */
  lemma GcAsWrittenIgnoresAge(cfg: Config, p: string, maxlifetime: int, now: int,
                              dataBelow: (string, int) -> bool)
    requires !IsAuthentified(cfg, p)
    requires maxlifetime > NoAuthMaxLifetime
    ensures var t := map["fresh" := Record(p, now), "stale" := Record(p, now - 31)];
      var asWritten := GcSweptAsWritten(cfg, t, maxlifetime, now, dataBelow);
      ("fresh" in asWritten <==> "stale" in asWritten) &&
      "fresh" in Swept(cfg, t, maxlifetime, now) && "stale" !in Swept(cfg, t, maxlifetime, now)
  {
  }
}
