# EduNiti test service: the cache-aside layer

This project models the read path of EduNiti's test service and proves properties of that model. The read path has three parts:

- **The test cache** (`backend/services/test-service/src/cache/testCache.ts`). Application counters (`hits`, `misses`, `sets`, `errors`, `startedAt`) and a latency history capped at 200 samples, kept beside a Redis store. The operations are:
  - a fail-open read;
  - a best-effort write with an expiry;
  - single-key invalidation;
  - bulk invalidation by a SCAN cursor loop;
  - a statistics snapshot;
  - a reset.
- **The service** (`backend/services/test-service/src/services/test.service.ts`):
  - `getTestById` reads the cache first, falls back to the database, shapes the response without the answer key, and writes it back.
  - `getLiveTest` picks the latest active test that is already scheduled.
- **The Redis connection policy** (`backend/services/test-service/src/config/redis.ts`): the reconnect rule, the choice between standalone and cluster mode, and the parsing of the `host:port,host:port` node list.

Modules:

- `Wrappers`: `Option` with failure propagation, and `Min`.
- `JsText`: the ECMAScript built-ins the code relies on: `trim`, `split` on one character, `parseInt` (with and without radix 10), and the decimal text of a natural (`NatToDecimal`). That text is how Redis writes a SCAN cursor, which Redis itself parses when it comes back, and the counters of its INFO reports, which the cache reads with `parseInt`.
- `RedisConfig`: `redis.ts`.
- `RedisStore`: the Redis commands the cache issues, in a `Store` class. The class holds the entries, a slot table that SCAN cursors walk, and a script of which coming commands fail.
- `TestCodec`: the `JSON.stringify` text of a cached test, and a reader for it.
- `TestCache`: `testCache.ts`, as a `TestCache` class.
- `TestService`: `test.service.ts`, with a `Database` class for the tests table.

The store's failures (connection refused, timeouts) are a parameter: a sequence of booleans, one per command issued. The database's failures are a second such sequence, one per query: a failed query rejects its promise, and the service passes the rejection on. Measured latencies and wall-clock times are passed in as plain numbers.

## Model

| member | source | states |
|---|---|---|
| RedisConfig.RetryStrategy | backend/services/test-service/src/config/redis.ts:20-23 | stops (None) exactly when the attempt count exceeds 5; otherwise the delay is `times*200` (which `min(times*200, 2000)` equals for every attempt that is not stopped) |
| RedisConfig.RetryDelayBounded | backend/services/test-service/src/config/redis.ts:31-34 | a delay that is given never exceeds 2000 ms, and is at least 200 ms from the first attempt on |
| RedisConfig.RetryPolicyIndependentOfTopology | backend/services/test-service/src/config/redis.ts:20-23 | the standalone and cluster clients get the identical reconnect rule for every attempt count |
| RedisConfig.SelectConnection | backend/services/test-service/src/config/redis.ts:8-38 | cluster mode iff the mode is `cluster` and the node list is non-empty; standalone mode uses `REDIS_URL`; cluster mode gets one node per comma-separated entry |
| RedisConfig.ParseClusterNodes | backend/services/test-service/src/config/redis.ts:10-13 | the number of nodes is the number of commas plus one |
| RedisConfig.ParseNode | backend/services/test-service/src/config/redis.ts:11-12 | the host of a parsed node never contains `:` |
| RedisConfig.ParseNodeText | backend/services/test-service/src/config/redis.ts:11-12 | an entry `host:port` with whitespace around it parses to that host and that port |
| RedisConfig.ParseBareNodeText | backend/services/test-service/src/config/redis.ts:11-12 | an entry `host:port` parses to that host and that port |
| RedisConfig.ParseJoinedEntries | backend/services/test-service/src/config/redis.ts:10-13 | joining comma-free entries with commas and parsing the result gives one node per entry, each parsed on its own |
| RedisConfig.ParseNodeList | backend/services/test-service/src/config/redis.ts:10-13 | a list written from hosts and ports parses back to exactly those hosts and ports, in order |
| RedisConfig.TrailingCommaNode | backend/services/test-service/src/config/redis.ts:10-13 | a trailing comma yields a final node with an empty host and a NaN port |
| RedisConfig.EmptyNode | backend/services/test-service/src/config/redis.ts:11-12 | an empty entry parses to an empty host and a NaN port |
| JsText.TrimStartSpec | backend/services/test-service/src/config/redis.ts:11 | `trimStart` removes exactly the leading whitespace: the result is a suffix, the removed part is whitespace, and the result does not start with whitespace |
| JsText.TrimEndSpec | backend/services/test-service/src/config/redis.ts:11 | the mirror image of `TrimStartSpec` at the end of the string |
| JsText.TrimIsTrimmed | backend/services/test-service/src/cache/testCache.ts:126 | `trim` returns a substring with whitespace only around it and none at either end |
| JsText.TrimPadded | backend/services/test-service/src/config/redis.ts:11 | trimming whitespace-padded trimmed text gives back that text |
| JsText.Split | backend/services/test-service/src/config/redis.ts:10-11 | `split` gives at least one piece, and no piece contains the separator |
| JsText.JoinSplit | backend/services/test-service/src/config/redis.ts:10 | joining the pieces of `split` with the separator gives back the original string |
| JsText.SplitJoin | backend/services/test-service/src/config/redis.ts:10 | splitting separator-free pieces after joining them gives back the pieces |
| JsText.SplitCount | backend/services/test-service/src/config/redis.ts:10 | `split` gives one more piece than there are separators |
| JsText.IndexOf | backend/services/test-service/src/config/redis.ts:11 | the first occurrence: the character is there and not before it |
| JsText.NatToDecimal | backend/services/test-service/src/cache/testCache.ts:133 | the decimal text of a number is non-empty digits, with a leading `0` only for zero |
| JsText.DecimalValue | backend/services/test-service/src/cache/testCache.ts:133 | reading the decimal text of `n` gives back `n` |
| JsText.DecimalIsZero | backend/services/test-service/src/cache/testCache.ts:107 | a cursor's text is `"0"` exactly for position zero |
| JsText.DigitRunIsLongest | backend/services/test-service/src/config/redis.ts:12 | `parseInt` reads the longest run of digits of the radix, and stops at the first character that is not one |
| JsText.ParseIntBlank | backend/services/test-service/src/cache/testCache.ts:155 | a blank string parses to NaN |
| JsText.ParseIntDecimal | backend/services/test-service/src/config/redis.ts:12 | leading whitespace, then decimal digits, then a non-alphanumeric character parse to that number, whether or not a `0x` prefix is honoured |
| JsText.ParseIntNegative | backend/services/test-service/src/cache/testCache.ts:155 | a minus sign before decimal digits gives the negative number |
| RedisStore.Matching | backend/services/test-service/src/cache/testCache.ts:96-102 | the keys a SCAN page returns are exactly the present keys of the walked slots that match the pattern |
| RedisStore.MatchingAppend | backend/services/test-service/src/cache/testCache.ts:132-136 | scanning two consecutive stretches of slots returns the pages of each, one after the other |
| RedisStore.MatchingCountsKeys | backend/services/test-service/src/cache/testCache.ts:130-136 | walking the whole slot table counts every matching key exactly once |
| RedisStore.CursorRoundTrip | backend/services/test-service/src/cache/testCache.ts:103 | a cursor's text reads back as the position it was written from |
| RedisStore.ScanPage | backend/services/test-service/src/cache/testCache.ts:96-107 | the cursor is `"0"` exactly when the page reaches the end of the table; otherwise it names the next position; the keys are the matches among the slots walked |
| RedisStore.Store.Get | backend/services/test-service/src/cache/testCache.ts:35 | GET fails when scripted to, else returns the value under the key or none |
| RedisStore.Store.Set | backend/services/test-service/src/cache/testCache.ts:62-67 | SET … EX succeeds iff the command does not fail and the expiry is positive; it then stores the value under the key and nothing else changes |
| RedisStore.Store.Del | backend/services/test-service/src/cache/testCache.ts:81 | DEL succeeds iff the command does not fail and names a key; it then removes exactly the named keys |
| RedisStore.Store.Scan | backend/services/test-service/src/cache/testCache.ts:96-102 | SCAN returns the page from the cursor's position, or fails |
| RedisStore.Store.Info | backend/services/test-service/src/cache/testCache.ts:121-122 | INFO returns the server's report for the section, or fails |
| TestCodec.StringRoundTrip | backend/services/test-service/src/cache/testCache.ts:49 | a string literal written the way `JSON.stringify` escapes it reads back as the same string, and the reader leaves what follows |
| TestCodec.EscapedChar | backend/services/test-service/src/cache/testCache.ts:64 | reading one escaped character gives back that character |
| TestCodec.OptionListRoundTrip | backend/services/test-service/src/cache/testCache.ts:49 | an option list written as JSON reads back as the same list |
| TestCodec.QuestionListRoundTrip | backend/services/test-service/src/cache/testCache.ts:49 | a question list written as JSON reads back as the same list |
| TestCodec.RoundTrip | backend/services/test-service/src/cache/testCache.ts:49 | `JSON.parse(JSON.stringify(t))` gives back `t` for every cached test |
| TestCodec.SerializeInjective | backend/services/test-service/src/cache/testCache.ts:64 | two different tests never share a stored text |
| TestCodec.Serialize | backend/services/test-service/src/cache/testCache.ts:64 | the stored text is a non-empty JSON object, so a stored test never reads as the falsy empty string |
| TestCache.TestKey | backend/services/test-service/src/cache/testCache.ts:4 | a test's key is `test:` followed by the test id |
| TestCache.TestKeyInjective | backend/services/test-service/src/cache/testCache.ts:35 | two tests never share a key |
| TestCache.Record | backend/services/test-service/src/cache/testCache.ts:40-41 | after a push, and a shift on overflow, the history holds at most 200 samples |
| TestCache.RecordDropsOnlyOldest | backend/services/test-service/src/cache/testCache.ts:16 | below the cap the sample is appended; at the cap exactly the oldest sample is dropped; either way the history is the newest 200 of the samples |
| TestCache.RecordAllKeepsNewest | backend/services/test-service/src/cache/testCache.ts:46-47 | after any run of reads the history is the newest 200 samples ever recorded |
| TestCache.RoundDivNearest | backend/services/test-service/src/cache/testCache.ts:138 | `Math.round(n/d)` is the integer within half a unit of `n/d`, rounding halves up |
| TestCache.RoundDivUnique | backend/services/test-service/src/cache/testCache.ts:138 | that integer is the only one within half a unit |
| TestCache.FloorDivIsDiv | backend/services/test-service/src/cache/testCache.ts:138 | the floor used by `Math.round` is integer division |
| TestCache.HitRateBasisPoints | backend/services/test-service/src/cache/testCache.ts:140 | the hit rate never exceeds 100 % |
| TestCache.HitRateNearest | backend/services/test-service/src/cache/testCache.ts:139-140 | the hit rate is 0 without requests; otherwise it is `hits/total` rounded to the nearest hundredth of a percent; no hits gives 0, no misses gives 100 % |
| TestCache.LineLength | backend/services/test-service/src/cache/testCache.ts:125 | `.+` stops at the first line terminator |
| TestCache.FirstMatch | backend/services/test-service/src/cache/testCache.ts:125 | a match starts at or after the search position and leaves room for the key, the colon and a captured character |
| TestCache.FirstMatchMatches | backend/services/test-service/src/cache/testCache.ts:125 | the position the regular expression finds is a match |
| TestCache.FirstMatchFinds | backend/services/test-service/src/cache/testCache.ts:125 | the regular expression finds the leftmost match |
| TestCache.ParseLineNoMatch | backend/services/test-service/src/cache/testCache.ts:126 | without a match `parseLine` returns `"0"` |
| TestCache.ParseLineLeftmost | backend/services/test-service/src/cache/testCache.ts:124-127 | with a match `parseLine` returns the trimmed text after the leftmost `key:`, up to the end of the line |
| TestCache.ParseLineFindsField | backend/services/test-service/src/cache/testCache.ts:124-127 | a `key:value` line in an INFO report yields the value |
| TestCache.ParseLineCounter | backend/services/test-service/src/cache/testCache.ts:155-157 | a numeric INFO field parses to its number |
| TestCache.NoClientsLine | backend/services/test-service/src/cache/testCache.ts:160 | without a `connected_clients` line the count is 0, not NaN (Redis writes that line in its `clients` report, not in the `stats` report read here, so this is the case a real server gives) |
| TestCache.OrZero | backend/services/test-service/src/cache/testCache.ts:160 | `x \|\| '0'` is never empty and keeps a non-empty `x` |
| TestCache.RecentLatency | backend/services/test-service/src/cache/testCache.ts:167 | `slice(-50)` returns the newest `min(50, length)` samples, oldest first |
| TestCache.TestCache.constructor | backend/services/test-service/src/cache/testCache.ts:7-14 | the counters start at zero, the clock at `now` and the history empty |
| TestCache.TestCache.GetCachedTest | backend/services/test-service/src/cache/testCache.ts:32-55 | a failed GET counts only an error, records no sample and reads as a miss; no value counts one miss and records one `miss` sample; a value counts one hit, records one `hit` sample and returns the decoded test (a value that does not decode also counts an error) |
| TestCache.TestCache.SetCachedTest | backend/services/test-service/src/cache/testCache.ts:60-74 | a write that succeeds counts a set and stores the encoded test under its key; one that fails counts an error, changes no entry and raises nothing. The key joins the slot table only when it is new and the write succeeds |
| TestCache.TestCache.InvalidateCachedTest | backend/services/test-service/src/cache/testCache.ts:79-86 | removes exactly the test's key and nothing else; a failure changes nothing |
| TestCache.TestCache.InvalidateAllTests | backend/services/test-service/src/cache/testCache.ts:92-113 | the first failed command ends the loop and is swallowed. The entries left are the old ones minus the cached tests named in the slots swept. A sweep with no failure sweeps every slot and sends exactly `SweepCommands` commands: one SCAN per page, plus a DEL for each page holding a cached test. A failed sweep stops at a page boundary: the pages before it went through, and of that page only the SCAN, or the SCAN and its DEL, were sent. Only `test:*` keys are ever deleted, and a sweep with no failure leaves none |
| TestCache.TestCache.SweepPage | backend/services/test-service/src/cache/testCache.ts:96-106 | one SCAN, then a DEL when the page holds a cached test: it sends exactly `PageCommands` commands when nothing fails, and stops at the first failure. It deletes exactly the page's cached tests, and nothing when it fails |
| TestCache.TestCache.DeletePage | backend/services/test-service/src/cache/testCache.ts:104-106 | an empty page sends no DEL; the DEL of a non-empty page removes exactly that page's cached tests unless it fails, and a failure changes nothing |
| TestCache.TestCache.CountTestKeys | backend/services/test-service/src/cache/testCache.ts:129-136 | the counting loop returns the number of `test:*` keys in the store after exactly `Pages(|slots|)` SCANs, one per page of 100; the first failed SCAN ends it with an error, so it succeeds iff every SCAN of the pass went through |
| TestCache.TestCache.CountPage | backend/services/test-service/src/cache/testCache.ts:130-135 | one SCAN of the count: it fails iff the command fails; its page added to the count of the pages before it gives the count up to the page's end, and the last page gives the count of all cached tests |
| TestCache.TestCache.ReadReports | backend/services/test-service/src/cache/testCache.ts:121-122 | reads the `stats` and `memory` INFO reports; a failed first INFO sends no second one; it succeeds iff both went through |
| TestCache.TestCache.ReadServer | backend/services/test-service/src/cache/testCache.ts:121-136 | the two reports and the key count, in that order, in exactly `2 + Pages(|slots|)` commands; the first failed command ends it with an error, so it succeeds iff every command of the run went through |
| TestCache.TestCache.GetCacheStats | backend/services/test-service/src/cache/testCache.ts:119-169 | the snapshot: the counters, `totalRequests = hits + misses`, the rounded hit rate and uptime, the parsed server fields, the number of `test:*` keys and the newest 50 samples. A success sends exactly `2 + Pages(|slots|)` commands, and the first failed command fails the snapshot |
| TestCache.TestCache.ResetCacheCounters | backend/services/test-service/src/cache/testCache.ts:174-181 | zeroes the four counters, restarts the clock and empties the history |
| TestCache.OnlyTestsDeletedStep | backend/services/test-service/src/cache/testCache.ts:104-106 | deleting a page of `test:*` matches removes only cached tests |
| TestCache.SweptAll | backend/services/test-service/src/cache/testCache.ts:107 | once the cursor comes back to `"0"` after a full pass, no cached test is left |
| TestCache.PageSwept | backend/services/test-service/src/cache/testCache.ts:104-106 | deleting a page extends the stretch of slots with no cached test to the end of the page |
| TestCache.SweepExtends | backend/services/test-service/src/cache/testCache.ts:96-107 | sweeping the page after a swept stretch leaves exactly the cached tests of the longer stretch removed |
| TestCache.PageCommandsSwept | backend/services/test-service/src/cache/testCache.ts:104 | sweeping the pages before a page does not change which cached tests that page holds, so the sweep's command count can be read off the entries it started from |
| TestCache.MatchingEmpty | backend/services/test-service/src/cache/testCache.ts:104 | a page's SCAN returns no key exactly when the page holds no cached test |
| TestCache.SweepCommandsBounds | backend/services/test-service/src/cache/testCache.ts:96-107 | a sweep with no failure sends at least one and at most two commands per page |
| TestCache.DeleteMatching | backend/services/test-service/src/cache/testCache.ts:104-106 | deleting the keys a page's SCAN returned removes exactly the page's cached tests |
| TestCache.CountStep | backend/services/test-service/src/cache/testCache.ts:135 | adding a page's length to the count keeps the count equal to the matches walked so far |
| TestCache.SetThenGet | backend/services/test-service/src/cache/testCache.ts:45-49 | a set followed by a get, with no error in between, returns the stored test and counts one set and one hit |
| TestCache.InvalidateThenGet | backend/services/test-service/src/cache/testCache.ts:79-86 | after an invalidation that goes through, the next get is a miss |
| TestCache.ExpireThenGet | backend/services/test-service/src/cache/testCache.ts:62-67 | once the key's time to live runs out, the next get is a miss |
| TestCache.SecondInfoFailsStats | backend/services/test-service/src/cache/testCache.ts:121-122 | when the first INFO goes through and the second fails, the snapshot fails |
| TestCache.SecondScanFailsCount | backend/services/test-service/src/cache/testCache.ts:129-136 | on a table of more than one page, when the first SCAN goes through and the second fails, the count fails |
| TestCache.FailedDelKeepsTests | backend/services/test-service/src/cache/testCache.ts:96-113 | on a one-page table, when the SCAN goes through and the DEL fails, no cached test is deleted |
| TestService.SortBySortsPermutation | backend/services/test-service/src/services/test.service.ts:55 | `orderBy: { sortOrder: 'asc' }` returns every row exactly once, in ascending `sortOrder` |
| TestService.InsertSorted | backend/services/test-service/src/services/test.service.ts:58 | inserting into a sorted list keeps it sorted |
| TestService.InsertPermutation | backend/services/test-service/src/services/test.service.ts:58 | inserting adds exactly the one row |
| TestService.SortByMap | backend/services/test-service/src/services/test.service.ts:69-78 | sorting commutes with a change to the rows that keeps every `sortOrder` |
| TestService.ShapeQuestionOrdered | backend/services/test-service/src/services/test.service.ts:49-55 | a shaped question keeps its id, text and media; its options are all of the question's options, each once, in ascending `sortOrder`, each as `{ id, text }` only |
| TestService.ShapeResponseOrdered | backend/services/test-service/src/services/test.service.ts:66-79 | the response keeps the test's id and title; its questions are all of the test's questions, each once, shaped, in ascending `sortOrder` |
| TestService.ShapeQuestionIgnoresAnswers | backend/services/test-service/src/services/test.service.ts:74-77 | a shaped question does not depend on which options are correct |
| TestService.ShapeResponseIgnoresAnswers | backend/services/test-service/src/services/test.service.ts:49-54 | the response does not depend on the answer key: two tests that differ only in `isCorrect` give the same response |
| TestService.FindActiveSpec | backend/services/test-service/src/services/test.service.ts:38-39 | the lookup finds a row iff an active row has the id, and what it finds is such a row |
| TestService.FindActiveUnique | backend/services/test-service/src/services/test.service.ts:38-39 | with unique ids, the lookup returns the row with the id when it is active, and nothing otherwise |
| TestService.Database.FindActiveTest | backend/services/test-service/src/services/test.service.ts:38-61 | one database round trip: a failed query rejects, otherwise it returns the active row with the id |
| TestService.Database.FindLiveTest | backend/services/test-service/src/services/test.service.ts:92-113 | one database round trip: a failed query rejects, otherwise it returns `getLiveTest`'s summary |
| TestService.GetTestById | backend/services/test-service/src/services/test.service.ts:30-85 | a cache hit returns the cached test with no database query, no write and no error counted. A miss makes exactly one query and returns its rejection, or else the shaped row or null. A rejection or null writes nothing. A returned row is written under its key as the very value returned, unless the SET (the command after the GET) fails or the TTL is not positive. `sets` and `errors` count exactly the failed GET, the undecodable value and the refused SET. `hits`, `misses` and the latency history change as the cache read alone decides. The call uses up one store command on a hit or when nothing is written back, and two otherwise. It uses up one database command exactly on a miss |
| TestService.LoadAndFill | backend/services/test-service/src/services/test.service.ts:38-84 | the miss path makes one query, using up one database command. A rejected query or a missing row writes nothing and counts nothing. A row returns its shaped response: the cache then holds that value under its key and counts a set, or, when the SET fails or the TTL is not positive, is unchanged and counts an error |
| TestService.ReadTwice | backend/services/test-service/src/services/test.service.ts:32-33 | once a read has produced a test, a second read returns the same test from the cache without a database query |
| TestService.LatestLive | backend/services/test-service/src/services/test.service.ts:92-104 | the selected test is one of the tests, active, and scheduled no later than now |
| TestService.LatestLiveIsLatest | backend/services/test-service/src/services/test.service.ts:92-97 | nothing is selected iff no test is live; otherwise no live test is scheduled later than the one selected |
| TestService.LiveTestSpec | backend/services/test-service/src/services/test.service.ts:91-113 | `getLiveTest` returns null iff no test is live; otherwise the id, title, schedule and question count of a live test with the latest schedule |

## Left out

- Real time. `performance.now` latencies, `Date.now` timestamps and the uptime clock are inputs (`ms`, `now`). The rounding of `ms` to hundredths is not modelled; the value is kept as an opaque natural.
- TestCache.HitRateBasisPoints: the hit rate is the exact rational `hits/total`, rounded half up to basis points. The source computes `Math.round(hits/total*10000)/100` in floating point, which can differ in the last hundredth where the double product misses a half.
- TestCache.TestCache.GetCacheStats: the uptime is `Math.round((now - startedAt)/1000)` on integer milliseconds, with the same exact-rational caveat. The result is a `Reply`: the source does not catch a store error there, and the model returns `Failed` where the promise rejects.
- Key expiry inside Redis. `Store.Expire` removes a key on its own; the model does not call it on a timer, and `ExpireThenGet` shows its effect on the next read. SET with a non-positive expiry is refused by Redis itself (`ERR invalid expire time`), so `Store.Set` fails for it; the cache adds no check of its own.
- The SCAN cursor. Redis's real cursor walks hash buckets in reverse-binary order. The model walks an insertion-ordered slot table with a decimal position for the cursor. It returns every key present for the whole pass, each exactly once, and the pass ends with `"0"`. Redis promises the first and the last of these, but it may return a key more than once.
- TestService.GetTestById: the write-back is not awaited in the source. The model issues it before returning and never looks at its outcome. Interleaving with other requests, and a write landing after a later read, are not modelled.
- TestCache.TestCache.CountTestKeys: the exact count rests on the model's SCAN returning each key once. Redis may return a key twice in one pass (for instance while the table is rehashing), and `testKeyCount += keys.length` then counts it twice; the model does not capture that overcount.
- TestCache.TestCache.GetCacheStats: its `testKeys` field is exact for the same reason, and may overcount against a real server as above.
- TestCache.TestCache.InvalidateAllTests: a key returned twice is deleted twice, which Redis answers without error, so the sweep's guarantees do not depend on SCAN returning a key once.
- Redis Cluster. The `Store` is one Redis node, and the sweep's completeness, the key count and the multi-key DEL are claimed for standalone mode only. In cluster mode SCAN and INFO reach a single node, so keys on other nodes are neither deleted nor counted. A DEL whose keys hash to different slots is refused with CROSSSLOT. `RedisConfig` models only the choice of mode and the node list.
- TestService.Database.FindActiveTest: a failed query is one outcome, `Failed`; the kinds of database error and Prisma's own retries are not modelled.
- JsText.ParseInt: numbers are unbounded integers, not doubles. `parseInt("-0")` gives negative zero in JavaScript and 0 here. Above 2^53 a double loses precision and the model does not. Neither difference reaches the INFO counters read at testCache.ts:155-160, which Redis writes as non-negative integers far below 2^53.
- Concurrency between requests or service instances sharing the store is not modelled.
- Prisma. `findUnique`, `findFirst`, `orderBy` and `_count` are specified as functions over a sequence of rows. Rows with equal `sortOrder` keep their stored order. Tests scheduled at the same instant go to the first in stored order; the database leaves both of these open.
- The construction of the ioredis clients, their event handlers, `maxRetriesPerRequest`, `connectTimeout` and all logging are left out. The two options appear only as constants.
- `env.ts` validation is not part of this model. `REDIS_MODE` is taken as one of its two values, and `CACHE_TEST_TTL` as an integer parameter of the cache.
- `JSON.parse` of text the cache did not write. The reader follows the layout `JSON.stringify` writes: no whitespace between tokens, and the keys in the order the response is built. Inside strings it reads every JSON escape. Other JSON, such as hand-edited or pretty-printed text or an object of another shape, reads as a decode error. `JSON.parse(...) as CachedTest` would accept it unchecked.
- Strings are sequences of Unicode scalar values. Lone surrogate halves, which `JSON.stringify` writes as `\uD8xx`-style escapes, cannot occur in the model.
