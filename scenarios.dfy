/**
 Concrete scenarios for the handler: a fresh handler over an empty table with a
 session duration of 3600 s and "user_id" as the authentication marker.
 */
module Scenarios {
  import opened SessionPolicy
  import opened SessionsHandler

  /** A stand-in for the payload codec: only `AuthPayload` sets "user_id". */
  function ScenarioUnserialize(data: string): set<string> {
    if data == AuthPayload then {"user_id"} else {}
  }

  const AuthPayload: string := "user_id|i:42;"

  /** An anonymous session written at t=0 is gone after a sweep at t=31. */
  method AnonymousSessionExpires() returns (survives: bool)
    ensures !survives
  {
    var h := new DBSessionsHandler(map[], ScenarioUnserialize, 3600, Some("user_id"));
    var ok := h.Write("s1", "", 0);
    ok := h.Open(31);
    survives := "s1" in h.records;
  }

  /** An authenticated session written at t=0 survives a sweep at t=31 and
      is gone after one at t=3601. */
  method AuthenticatedSessionLivesSessionDuration() returns (at31: bool, at3601: bool)
    ensures at31 && !at3601
  {
    var h := new DBSessionsHandler(map[], ScenarioUnserialize, 3600, Some("user_id"));
    var ok := h.Write("s2", AuthPayload, 0);
    ok := h.Open(31);
    at31 := "s2" in h.records;
    ok := h.Open(3601);
    at3601 := "s2" in h.records;
  }

  /** Two writes to one id, then a read: the second payload, one record. */
  method RewriteThenRead() returns (got: string, count: nat)
    ensures got == "payload-v2" && count == 1
  {
    var h := new DBSessionsHandler(map[], ScenarioUnserialize, 3600, Some("user_id"));
    var ok := h.Write("s3", "payload-v1", 10);
    ok := h.Write("s3", "payload-v2", 20);
    var ttl;
    got, ttl := h.Read("s3", 25);
    count := |h.records|;
  }

  /** Reading an id never written yields the empty payload. */
  method ReadUnknownId() returns (got: string, ttl: Option<int>)
    ensures got == "" && ttl == None
  {
    var h := new DBSessionsHandler(map[], ScenarioUnserialize, 3600, Some("user_id"));
    got, ttl := h.Read("nope", 0);
  }

  /** `gc(60)` at t=1000 deletes an authenticated record written at t=880
      in phase one, uncounted, and keeps an anonymous one written at t=990. */
  method GcOverrideCeiling() returns (oldKept: bool, youngKept: bool, deleted: nat)
    ensures !oldKept && youngKept && deleted == 0
  {
    var h := new DBSessionsHandler(map[], ScenarioUnserialize, 3600, Some("user_id"));
    var ok := h.Write("old", AuthPayload, 880);
    ok := h.Write("young", "", 990);
    assert h.records == map["old" := Record(AuthPayload, 880), "young" := Record("", 990)];
    assert Unexpired(h.records, 940) == map["young" := Record("", 990)];
    assert StaleAnonymousIds(h.config, map["young" := Record("", 990)], 970) == {};
    deleted := h.Gc(60, 1000);
    oldKept := "old" in h.records;
    youngKept := "young" in h.records;
  }
}
