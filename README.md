# DBSessionsHandler session lifecycle, in Dafny

This project models the PHP session handler `DBSessionsHandler`. The handler stores web sessions in a shared `sessions` table. Each row has an id, a serialized payload (`data`) and the time of its last write (`timestamp`). The host's session subsystem calls the handler's `open`, `close`, `read`, `write`, `destroy` and `gc` hooks.

Sessions expire under two lifetimes:

- every session is deleted once it is older than `session_duration` (3600 s by default);
- a session whose decoded payload does not set the configured authentication marker key is *anonymous*, and is deleted once it is older than 30 s.

The model has three modules:

- `SessionPolicy` (session_policy.dfy) holds the pure part:
  - `Record`, a table row;
  - `Config`, the constructor's configuration plus the payload codec;
  - the classification `SessionArray` / `IsAuthentified`;
  - `Swept`, the table a two-phase sweep leaves, with the lemmas about it.
- `SessionsHandler` (db_sessions_handler.dfy) holds the class `DBSessionsHandler`:
  - the table is its field `records: map<string, Record>`, so there is one row per id by construction;
  - `Open` and `Gc` bulk-delete, then pick the keys of a snapshot one at a time in a `while` loop and delete stale anonymous rows, each proved against `Swept`;
  - `Read`, `Write`, `Destroy` and `Close` follow the source's branches;
  - three client methods compose the hooks.
- `Scenarios` (scenarios.dfy) states concrete scenarios as methods whose postconditions fix the outcome.

Modelling choices:

- **Time.** Each call to `time()` becomes an explicit `now` parameter. One operation uses one instant.
- **Payload codec.** `CustomSession::unserialize` is external. It is the `unserialize: string -> set<string>` field of `Config`, passed to the constructor. It gives the keys of the decoded array whose value is set, which is what `isset` at line 104 tests. Any total decoder can be supplied.
- **The table.** The table exists before the handler. Its contents at construction are a constructor parameter.
- **TTL.** `read` writes `$_SESSION['ttl_in_s']`. The model returns that value as a second result instead.
- **`destroy` on an unknown id.** The code calls `forceDelete()` on the null result of `find`, which PHP reports as a fatal error. The model returns `Outcome.NullDereference` and leaves the table unchanged.

The model follows the code as written:

- `destroy` of an unknown id is not a silent success. `find` returns null and line 188 calls `forceDelete()` on it, which is a fatal error in PHP, so a second destroy of the same id fails.
- `gc` counts only the deletions of its loop (lines 206-213), not the bulk delete at line 203.
- `isAuthentified` disables classification only when the marker is null (line 100). An empty-string marker is still looked up.
- `open` returns `true` (line 61), not a count of deleted sessions.

The one exception is the comparison at line 208, described under "## Findings".

## Model

| member | source | states |
|---|---|---|
| `SessionPolicy.SessionArray` | src/SessionsHandler/DBSessionsHandler.php:81-93 | a null payload decodes to the empty array; any other payload decodes to the codec's keys, unchanged by the identity `array_map` |
| `SessionPolicy.IsAuthentified` | src/SessionsHandler/DBSessionsHandler.php:98-109 | false whenever no marker is configured; otherwise true exactly when the decoded payload sets the marker key; a pure function, so it cannot change the table |
| `SessionPolicy.Swept` | src/SessionsHandler/DBSessionsHandler.php:49-60 | a record survives a sweep iff it is within the absolute ceiling and is authenticated or younger than 30 s; every survivor is unchanged, and nothing else is deleted |
| `SessionPolicy.RecentSurviveSweep` | src/SessionsHandler/DBSessionsHandler.php:49-59 | with a ceiling of at least 30 s, any record written in the last 30 s survives unchanged, whatever its class |
| `SessionPolicy.SweepsCompose` | src/SessionsHandler/DBSessionsHandler.php:46-62 | a sweep followed by a later sweep with the same ceiling leaves what the later sweep alone leaves; so a second `open` at the same instant deletes nothing |
| `SessionPolicy.SweepAccounting` | src/SessionsHandler/DBSessionsHandler.php:203-213 | the rows phase one keeps are the survivors plus the rows phase two deletes; the final table is no larger than phase one's, which is no larger than the original |
| `SessionPolicy.GcSweptAsWritten` | src/SessionsHandler/DBSessionsHandler.php:203-212 | `gc`'s table as the code is written: a row survives iff it is within `maxlifetime` (the bulk delete of line 203) and it is authenticated or its payload does not compare below `now - 30` (line 208), with the comparison's outcome left free; survivors are unchanged |
| `SessionPolicy.GcAsWrittenIgnoresAge` | src/SessionsHandler/DBSessionsHandler.php:208 | for any outcome of the loose payload-versus-time comparison, the as-written `gc` treats an anonymous session written now and one written 31 s ago alike: it keeps the fresh one iff it keeps the stale one; the corrected sweep keeps the fresh one and deletes the stale one |
| `SessionsHandler.DBSessionsHandler.constructor` | src/SessionsHandler/DBSessionsHandler.php:30-36 | stores the session duration (default 3600) and the marker (default null) |
| `SessionsHandler.DBSessionsHandler.DeleteStaleAnonymous` | src/SessionsHandler/DBSessionsHandler.php:53-60 | visiting every row of a snapshot, deletes exactly the anonymous rows older than the limit; the counter equals the number of those rows |
| `SessionsHandler.DBSessionsHandler.Open` | src/SessionsHandler/DBSessionsHandler.php:46-62 | always returns true; the new table is the sweep with the session duration as ceiling: nothing older than the duration remains, no anonymous row older than 30 s remains, and all other rows are unchanged |
| `SessionsHandler.DBSessionsHandler.Close` | src/SessionsHandler/DBSessionsHandler.php:69-73 | returns true and changes nothing |
| `SessionsHandler.DBSessionsHandler.Read` | src/SessionsHandler/DBSessionsHandler.php:117-135 | for a stored id, the stored payload and TTL = duration - now + timestamp; for an unknown id, `""` and no TTL; never changes the table |
| `SessionsHandler.DBSessionsHandler.Write` | src/SessionsHandler/DBSessionsHandler.php:144-162 | always returns true; afterwards the id has exactly one row, holding the payload and timestamp `now`, whether it was created or updated; every other row is unchanged and no other id is added |
| `SessionsHandler.DBSessionsHandler.Destroy` | src/SessionsHandler/DBSessionsHandler.php:184-190 | a stored id: removes exactly that row and returns true; an unknown id: the null dereference, table unchanged |
| `SessionsHandler.DBSessionsHandler.Gc` | src/SessionsHandler/DBSessionsHandler.php:200-214 | the new table is the sweep with `maxlifetime` as ceiling; the result counts only phase-two deletions, so the total drop in size equals phase-one deletions plus the result |
| `SessionsHandler.WriteThenRead` | src/SessionsHandler/DBSessionsHandler.php:117-162 | round trip: a write then a read of the same id returns the payload written, with TTL measured from the write |
| `SessionsHandler.WriteTwiceKeepsLast` | src/SessionsHandler/DBSessionsHandler.php:147-159 | writing v1 then v2 leaves one row for the id, holding v2 and the second timestamp, and nothing else changed |
| `SessionsHandler.WriteThenDestroy` | src/SessionsHandler/DBSessionsHandler.php:144-190 | absent or active, then active, then absent: a write followed by a destroy of the same id succeeds and leaves the table without that id |
| `Scenarios.AnonymousSessionExpires` | src/SessionsHandler/DBSessionsHandler.php:46-62 | an anonymous session written at t=0 does not survive `open` at t=31 |
| `Scenarios.AuthenticatedSessionLivesSessionDuration` | src/SessionsHandler/DBSessionsHandler.php:46-62 | an authenticated session written at t=0 survives `open` at t=31 and not at t=3601 |
| `Scenarios.RewriteThenRead` | src/SessionsHandler/DBSessionsHandler.php:117-162 | after two writes to "s3", `read` returns the second payload and the table holds one row |
| `Scenarios.ReadUnknownId` | src/SessionsHandler/DBSessionsHandler.php:132-134 | reading an id never written returns `""` without a TTL |
| `Scenarios.GcOverrideCeiling` | src/SessionsHandler/DBSessionsHandler.php:200-214 | `gc(60)` deletes an authenticated row 120 s old in phase one, uncounted, and keeps an anonymous row 10 s old; it returns 0 |

## Left out

- `log` (lines 222-230): file output, the clock and `$_SERVER`. It does not affect the table. The `logfile` and `debug` constructor parameters are dropped with it.
- `create_sid` (lines 170-174): it delegates to PHP's built-in session-id generator, which is foreign code.
- `session_decode` at line 125: its effect on the `$_SESSION` superglobal is process state outside the table. The TTL assignment at line 130 becomes `Read`'s second result instead.
- The body of `CustomSession::unserialize`: CustomSession is not part of this model. It is supplied as a total decoder, so a malformed payload classifies however that decoder says.
- src/Database/Sessions.php: a table declaration with no logic. It becomes the `records` map.
- The parent class `SessionHandler`, and the `$savePath` and `$sessionName` arguments of `open`, which the code only logs.
- Pure PHP mechanics:
  - multiple `time()` calls within one operation;
  - the Eloquent query builder and the save/delete round trips;
  - `intval` of a non-integer `maxlifetime`;
  - the `TypeError` PHP raises if `isAuthentified` receives null.
- Concurrency: the table is shared across processes. Races between processes, such as duplicate-key inserts in `write`, are outside this sequential model.
- PHP's loose comparison of a string with an integer at line 208. It is represented only through an arbitrary outcome in `GcSweptAsWritten`.

## Findings

| source | as written | input that shows it | evidently intended | confidence | as-written member | corrected member |
|---|---|---|---|---|---|---|
| src/SessionsHandler/DBSessionsHandler.php:208 | `gc`'s anonymous-age test compares `$session->data`, the payload string, with the time limit `time() - 30` | no marker set in payload p; rows "fresh" = (p, now) and "stale" = (p, now - 31); `gc(1440)` at `now`. The test does not depend on the timestamp, so both rows get the same outcome | compare `$session->timestamp`, as `open` does at line 57 | high; not executed | `SessionPolicy.GcSweptAsWritten`, `SessionPolicy.GcAsWrittenIgnoresAge` | `SessionsHandler.DBSessionsHandler.Gc` |
