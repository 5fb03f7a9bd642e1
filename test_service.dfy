/** The test service's read path (backend/services/test-service/src/services/
    test.service.ts): `getTestById`, cache-aside over the test cache and the
    database, with the response shaped so that no answer key leaves the
    server; and `getLiveTest`, the choice of the test that is live now. */
module TestService {
  import opened Wrappers
  import opened TestCodec
  import opened RedisStore
  import opened TestCache

  // ---------------------------------------------------------------- rows

  /** An answer option as stored: the row knows whether it is correct. */
  datatype OptionRow = OptionRow(id: string, text: string, isCorrect: bool, sortOrder: int)

  datatype QuestionRow = QuestionRow(
    id: string,
    questionText: string,
    mediaUrl: Option<string>,
    mediaType: Option<string>,
    sortOrder: int,
    options: seq<OptionRow>)

  /** A test as stored; `scheduledAt` is None when the test has no date. */
  datatype TestRow = TestRow(
    id: string,
    title: string,
    isActive: bool,
    scheduledAt: Option<int>,
    questions: seq<QuestionRow>)

  /** What `getLiveTest` returns: the test without its questions. */
  datatype TestSummary = TestSummary(id: string, title: string, questionCount: nat, scheduledAt: Option<int>)

  // ------------------------------------------------------------- ordering

  /** `xs` in ascending `key` order. */
  predicate SortedBy<T>(xs: seq<T>, key: T -> int) {
    forall i, j :: 0 <= i < j < |xs| ==> key(xs[i]) <= key(xs[j])
  }

  /** `x` put in front of the first element of `xs` whose key is not
      smaller. */
  function Insert<T>(x: T, xs: seq<T>, key: T -> int): seq<T> {
    if xs == [] || key(x) <= key(xs[0]) then [x] + xs else [xs[0]] + Insert(x, xs[1..], key)
  }

  /** `orderBy: { sortOrder: 'asc' }`, as an insertion sort. */
  function SortBy<T>(xs: seq<T>, key: T -> int): seq<T> {
    if xs == [] then [] else Insert(xs[0], SortBy(xs[1..], key), key)
  }

  lemma {:induction false} InsertPermutation<T>(x: T, xs: seq<T>, key: T -> int)
    ensures multiset(Insert(x, xs, key)) == multiset(xs) + multiset{x}
    decreases |xs|
  {
    if xs != [] && key(x) > key(xs[0]) {
      InsertPermutation(x, xs[1..], key);
      assert xs == [xs[0]] + xs[1..];
    }
  }

  /** A bound below every key of `x` and `xs` stays below every key of the
      result. */
  lemma {:induction false} InsertLowerBound<T>(x: T, xs: seq<T>, key: T -> int, lo: int)
    requires lo <= key(x)
    requires forall k :: 0 <= k < |xs| ==> lo <= key(xs[k])
    ensures forall k :: 0 <= k < |Insert(x, xs, key)| ==> lo <= key(Insert(x, xs, key)[k])
    decreases |xs|
  {
    if xs != [] && key(x) > key(xs[0]) {
      InsertLowerBound(x, xs[1..], key, lo);
      var rest := Insert(x, xs[1..], key);
      forall k | 0 <= k < |rest| + 1
        ensures lo <= key(([xs[0]] + rest)[k])
      {
        if k > 0 {
          assert ([xs[0]] + rest)[k] == rest[k - 1];
        }
      }
    }
  }

  lemma {:induction false} InsertSorted<T>(x: T, xs: seq<T>, key: T -> int)
    requires SortedBy(xs, key)
    ensures SortedBy(Insert(x, xs, key), key)
    decreases |xs|
  {
    if xs != [] && key(x) > key(xs[0]) {
      var rest := Insert(x, xs[1..], key);
      InsertSorted(x, xs[1..], key);
      InsertLowerBound(x, xs[1..], key, key(xs[0]));
      var r := [xs[0]] + rest;
      forall i, j | 0 <= i < j < |r|
        ensures key(r[i]) <= key(r[j])
      {
        assert r[j] == rest[j - 1];
        if i > 0 {
          assert r[i] == rest[i - 1];
        }
      }
    }
  }

  /** The sorted list holds exactly the elements of `xs`, in ascending key
      order. */
  lemma {:induction false} SortBySortsPermutation<T>(xs: seq<T>, key: T -> int)
    ensures SortedBy(SortBy(xs, key), key)
    ensures multiset(SortBy(xs, key)) == multiset(xs)
    decreases |xs|
  {
    if xs != [] {
      SortBySortsPermutation(xs[1..], key);
      InsertSorted(xs[0], SortBy(xs[1..], key), key);
      InsertPermutation(xs[0], SortBy(xs[1..], key), key);
      assert xs == [xs[0]] + xs[1..];
    }
  }

  /** `xs.map(f)`. */
  function Map<A, B>(xs: seq<A>, f: A -> B): (ys: seq<B>)
    ensures |ys| == |xs|
    ensures forall i :: 0 <= i < |xs| ==> ys[i] == f(xs[i])
  {
    if xs == [] then [] else [f(xs[0])] + Map(xs[1..], f)
  }

  /** Sorting commutes with a map that keeps every key. */
  lemma {:induction false} InsertMap<A, B>(x: A, xs: seq<A>, keyA: A -> int, f: A -> B, keyB: B -> int)
    requires forall y :: keyB(f(y)) == keyA(y)
    ensures Map(Insert(x, xs, keyA), f) == Insert(f(x), Map(xs, f), keyB)
    decreases |xs|
  {
    if xs != [] && keyA(x) > keyA(xs[0]) {
      InsertMap(x, xs[1..], keyA, f, keyB);
      assert Map(xs, f)[1..] == Map(xs[1..], f);
    }
  }

  lemma {:induction false} SortByMap<A, B>(xs: seq<A>, keyA: A -> int, f: A -> B, keyB: B -> int)
    requires forall y :: keyB(f(y)) == keyA(y)
    ensures Map(SortBy(xs, keyA), f) == SortBy(Map(xs, f), keyB)
    decreases |xs|
  {
    if xs != [] {
      SortByMap(xs[1..], keyA, f, keyB);
      InsertMap(xs[0], SortBy(xs[1..], keyA), keyA, f, keyB);
      assert Map(xs, f)[1..] == Map(xs[1..], f);
    }
  }

  /** Mapping with a function that `g` cannot tell apart from the identity. */
  lemma {:induction false} MapAbsorbed<A, B>(xs: seq<A>, f: A -> A, g: A -> B)
    requires forall y :: g(f(y)) == g(y)
    ensures Map(Map(xs, f), g) == Map(xs, g)
    decreases |xs|
  {
    if xs != [] {
      MapAbsorbed(xs[1..], f, g);
      assert Map(xs, f)[1..] == Map(xs[1..], f);
    }
  }

  // -------------------------------------------------------------- shaping

  function OptionOrder(o: OptionRow): int {
    o.sortOrder
  }

  function QuestionOrder(q: QuestionRow): int {
    q.sortOrder
  }

  /** `(o) => ({ id: o.id, text: o.text })`: `isCorrect` is not selected. */
  function ShapeOption(o: OptionRow): OptionView {
    OptionView(o.id, o.text)
  }

  function ShapeQuestion(q: QuestionRow): QuestionView {
    QuestionView(q.id, q.questionText, q.mediaUrl, q.mediaType,
                 Map(SortBy(q.options, OptionOrder), ShapeOption))
  }

  /** The response built from the selected row, questions and options each
      in ascending `sortOrder`. */
  function ShapeResponse(t: TestRow): TestResponse {
    TestResponse(t.id, t.title, Map(SortBy(t.questions, QuestionOrder), ShapeQuestion))
  }

  /** The options of a shaped question: every option of the row exactly
      once, as its id and text only, in ascending `sortOrder`. */
  lemma ShapeQuestionOrdered(q: QuestionRow)
    ensures var v := ShapeQuestion(q);
            var sorted := SortBy(q.options, OptionOrder);
            v.id == q.id && v.questionText == q.questionText
            && v.mediaUrl == q.mediaUrl && v.mediaType == q.mediaType
            && SortedBy(sorted, OptionOrder) && multiset(sorted) == multiset(q.options)
            && |v.options| == |sorted|
            && forall i :: 0 <= i < |sorted| ==> v.options[i] == OptionView(sorted[i].id, sorted[i].text)
  {
    SortBySortsPermutation(q.options, OptionOrder);
  }

  /** The questions of a shaped test: every question of the row exactly
      once, shaped, in ascending `sortOrder`. */
  lemma ShapeResponseOrdered(t: TestRow)
    ensures var v := ShapeResponse(t);
            var sorted := SortBy(t.questions, QuestionOrder);
            v.id == t.id && v.title == t.title
            && SortedBy(sorted, QuestionOrder) && multiset(sorted) == multiset(t.questions)
            && |v.questions| == |sorted|
            && forall i :: 0 <= i < |sorted| ==> v.questions[i] == ShapeQuestion(sorted[i])
  {
    SortBySortsPermutation(t.questions, QuestionOrder);
  }

  function HideOption(o: OptionRow): OptionRow {
    o.(isCorrect := false)
  }

  function HideQuestion(q: QuestionRow): QuestionRow {
    q.(options := Map(q.options, HideOption))
  }

  /** The test with every answer marked incorrect. */
  function HideAnswers(t: TestRow): TestRow {
    t.(questions := Map(t.questions, HideQuestion))
  }

  lemma ShapeQuestionIgnoresAnswers(q: QuestionRow)
    ensures ShapeQuestion(HideQuestion(q)) == ShapeQuestion(q)
  {
    SortByMap(q.options, OptionOrder, HideOption, OptionOrder);
    MapAbsorbed(SortBy(q.options, OptionOrder), HideOption, ShapeOption);
  }

  /** The response does not depend on which options are correct: two rows
      that differ only in their answer key give the same response. */
  lemma ShapeResponseIgnoresAnswers(t: TestRow)
    ensures ShapeResponse(HideAnswers(t)) == ShapeResponse(t)
  {
    SortByMap(t.questions, QuestionOrder, HideQuestion, QuestionOrder);
    forall q
      ensures ShapeQuestion(HideQuestion(q)) == ShapeQuestion(q)
    {
      ShapeQuestionIgnoresAnswers(q);
    }
    MapAbsorbed(SortBy(t.questions, QuestionOrder), HideQuestion, ShapeQuestion);
  }

  // ------------------------------------------------------------- database

  predicate UniqueIds(tests: seq<TestRow>) {
    forall i, j :: 0 <= i < j < |tests| ==> tests[i].id != tests[j].id
  }

  /** `findUnique({ where: { id, isActive: true } })`: the row with that id,
      when it is active. */
  function FindActive(tests: seq<TestRow>, id: string): Option<TestRow> {
    if tests == [] then None
    else if tests[0].id == id && tests[0].isActive then Some(tests[0])
    else FindActive(tests[1..], id)
  }

  /** The lookup finds a row exactly when an active row has the id, and what
      it finds is that row. */
  lemma {:induction false} FindActiveSpec(tests: seq<TestRow>, id: string)
    ensures FindActive(tests, id).Some? <==> exists i :: 0 <= i < |tests| && tests[i].id == id && tests[i].isActive
    ensures FindActive(tests, id).Some? ==>
              var t := FindActive(tests, id).value;
              t in tests && t.id == id && t.isActive
    decreases |tests|
  {
    if tests != [] && !(tests[0].id == id && tests[0].isActive) {
      FindActiveSpec(tests[1..], id);
      if exists i :: 0 <= i < |tests| && tests[i].id == id && tests[i].isActive {
        var i :| 0 <= i < |tests| && tests[i].id == id && tests[i].isActive;
        assert tests[1..][i - 1] == tests[i];
      }
    }
  }

  /** With ids unique, the row found is the only row with that id. */
  lemma FindActiveUnique(tests: seq<TestRow>, id: string, i: nat)
    requires UniqueIds(tests)
    requires i < |tests| && tests[i].id == id
    ensures FindActive(tests, id) == if tests[i].isActive then Some(tests[i]) else None
  {
    FindActiveSpec(tests, id);
    if FindActive(tests, id).Some? {
      var j :| 0 <= j < |tests| && tests[j] == FindActive(tests, id).value;
      assert i == j;
    }
  }

  /** The tests table. `queries` counts the round trips made to it, and
      `faults` scripts which of the coming queries fail (a lost connection,
      a timeout): a failed query rejects its promise. */
  class Database {
    var tests: seq<TestRow>
    var queries: nat
    var faults: seq<bool>

    ghost predicate Valid()
      reads this
    {
      UniqueIds(tests)
    }

    constructor (tests: seq<TestRow>, faults: seq<bool>)
      requires UniqueIds(tests)
      ensures Valid()
      ensures this.tests == tests && queries == 0 && this.faults == faults
    {
      this.tests := tests;
      queries := 0;
      this.faults := faults;
    }

    /** Whether the next query fails. */
    function NextFails(): bool
      reads this
    {
      Fails(faults)
    }

    /** `prisma.test.findUnique({ where: { id, isActive: true } })`. */
    method FindActiveTest(id: string) returns (r: Reply<Option<TestRow>>)
      modifies this`queries, this`faults
      ensures queries == old(queries) + 1 && faults == Rest(old(faults))
      ensures r == if old(NextFails()) then Failed else Ok(FindActive(tests, id))
    {
      queries := queries + 1;
      var fail := NextFails();
      faults := Rest(faults);
      r := if fail then Failed else Ok(FindActive(tests, id));
    }

    /** `prisma.test.findFirst` of `getLiveTest`, at time `now`. */
    method FindLiveTest(now: int) returns (r: Reply<Option<TestSummary>>)
      modifies this`queries, this`faults
      ensures queries == old(queries) + 1 && faults == Rest(old(faults))
      ensures r == if old(NextFails()) then Failed else Ok(GetLiveTest(tests, now))
    {
      queries := queries + 1;
      var fail := NextFails();
      faults := Rest(faults);
      r := if fail then Failed else Ok(GetLiveTest(tests, now));
    }
  }

  // --------------------------------------------------------- getTestById

  /** What a cache read returns given whether the GET fails and what the
      store holds. */
  function CacheRead(fails: bool, entries: map<string, string>, testId: string): Option<TestResponse> {
    if fails then None
    else match CachedText(entries, TestKey(testId))
      case None => None
      case Some(text) => Deserialize(text)
  }

  /** The response for the row the database returned, if any. */
  function Shaped(row: Option<TestRow>): Option<TestResponse> {
    match row
    case None => None
    case Some(t) => Some(ShapeResponse(t))
  }

  /** The database's answer on a miss: a rejected query, or the shaped row. */
  function Loaded(fails: bool, tests: seq<TestRow>, testId: string): Reply<Option<TestResponse>> {
    if fails then Failed else Ok(Shaped(FindActive(tests, testId)))
  }

  /** Whether a test was returned. */
  predicate Found(r: Reply<Option<TestResponse>>) {
    r.Ok? && r.value.Some?
  }

  /** `getTestById`: the cache first; on a miss the database, then the
      response shaped from the row is written back and returned. A
      rejected query propagates as `Failed`. */
  method GetTestById(cache: TestCache, db: Database, testId: string, ms: nat, now: int)
    returns (r: Reply<Option<TestResponse>>)
    requires cache.Valid()
    modifies cache`hits, cache`misses, cache`sets, cache`errors, cache`latencyHistory
    modifies cache.redis`faults, cache.redis`entries, cache.redis`slots, db`queries, db`faults
    ensures cache.Valid()
    ensures var hit := CacheRead(old(cache.redis.NextFails()), old(cache.redis.entries), testId);
            if hit.Some? then
              r == Ok(hit) && db.queries == old(db.queries) && db.faults == old(db.faults)
              && cache.redis.entries == old(cache.redis.entries) && cache.sets == old(cache.sets)
              && cache.errors == old(cache.errors)
            else
              r == Loaded(old(db.NextFails()), db.tests, testId) && db.queries == old(db.queries) + 1
              && var refused := Fails(Rest(old(cache.redis.faults))) || cache.ttl <= 0;
                 (Found(r) ==> cache.redis.entries == if refused then old(cache.redis.entries)
                               else old(cache.redis.entries)[TestKey(testId) := Serialize(r.value.value)])
                 && cache.sets == old(cache.sets) + (if Found(r) && !refused then 1 else 0)
                 && cache.errors == old(cache.errors)
                      + (if old(cache.redis.NextFails()) || CachedText(old(cache.redis.entries), TestKey(testId)).Some? then 1 else 0)
                      + (if Found(r) && refused then 1 else 0)
    ensures !Found(r) ==> cache.redis.entries == old(cache.redis.entries) && cache.sets == old(cache.sets)
    ensures var fails := old(cache.redis.NextFails());
            var text := CachedText(old(cache.redis.entries), TestKey(testId));
            cache.hits == old(cache.hits) + (if !fails && text.Some? then 1 else 0)
            && cache.misses == old(cache.misses) + (if !fails && text.None? then 1 else 0)
            && cache.latencyHistory == if fails then old(cache.latencyHistory)
               else Record(old(cache.latencyHistory), LatencySample(if text.Some? then Hit else Miss, ms, now))
    ensures var hit := CacheRead(old(cache.redis.NextFails()), old(cache.redis.entries), testId);
            db.faults == (if hit.Some? then old(db.faults) else Rest(old(db.faults)))
            && cache.redis.faults == Drop(old(cache.redis.faults), if hit.Some? || !Found(r) then 1 else 2)
    ensures var written := Found(r) && !Fails(Rest(old(cache.redis.faults))) && cache.ttl > 0
                           && TestKey(testId) !in old(cache.redis.slots);
            cache.redis.slots == if written then old(cache.redis.slots) + [TestKey(testId)] else old(cache.redis.slots)
    ensures NoFaults(old(cache.redis.faults)) ==> NoFaults(cache.redis.faults)
  {
    ghost var hit := CacheRead(cache.redis.NextFails(), cache.redis.entries, testId);
    var cached := cache.GetCachedTest(testId, ms, now);
    assert cached == hit;
    if cached.Some? {
      return Ok(cached);
    }
    r := LoadAndFill(cache, db, testId);
  }

  /** The miss path: query the database and, when a row comes back, write
      the shaped response to the cache. The write is not awaited in the
      service: it is issued before the response is returned and its
      outcome is not looked at. A rejected query writes nothing. */
  method LoadAndFill(cache: TestCache, db: Database, testId: string) returns (r: Reply<Option<TestResponse>>)
    requires cache.Valid()
    modifies cache`sets, cache`errors, cache.redis`faults, cache.redis`entries, cache.redis`slots
    modifies db`queries, db`faults
    ensures cache.Valid()
    ensures db.queries == old(db.queries) + 1 && db.faults == Rest(old(db.faults))
    ensures r == Loaded(old(db.NextFails()), db.tests, testId)
    ensures !Found(r) ==> cache.redis.entries == old(cache.redis.entries) && cache.sets == old(cache.sets)
                          && cache.errors == old(cache.errors) && cache.redis.faults == old(cache.redis.faults)
    ensures Found(r) ==> cache.redis.faults == Rest(old(cache.redis.faults))
    ensures var refused := old(cache.redis.NextFails()) || cache.ttl <= 0;
            Found(r) ==>
              cache.redis.entries == (if refused then old(cache.redis.entries)
                                      else old(cache.redis.entries)[TestKey(testId) := Serialize(r.value.value)])
              && cache.sets == old(cache.sets) + (if refused then 0 else 1)
              && cache.errors == old(cache.errors) + (if refused then 1 else 0)
    ensures var written := Found(r) && !old(cache.redis.NextFails()) && cache.ttl > 0
                           && TestKey(testId) !in old(cache.redis.slots);
            cache.redis.slots == if written then old(cache.redis.slots) + [TestKey(testId)] else old(cache.redis.slots)
    ensures NoFaults(old(cache.redis.faults)) ==> NoFaults(cache.redis.faults)
    ensures NoFaults(old(cache.redis.faults)) && cache.ttl > 0 && Found(r) ==>
              cache.redis.entries == old(cache.redis.entries)[TestKey(testId) := Serialize(r.value.value)]
  {
    var row := db.FindActiveTest(testId);
    if row.Failed? {
      return Failed;
    }
    if row.value.None? {
      return Ok(None);
    }
    var response := ShapeResponse(row.value.value);
    cache.SetCachedTest(testId, response);
    r := Ok(Some(response));
  }

  /** Cache-aside in two calls: once a read has produced a test, a second
      read returns the same test from the cache, without a database query. */
  method ReadTwice(cache: TestCache, db: Database, testId: string, ms: nat, now: int)
    returns (first: Reply<Option<TestResponse>>, second: Reply<Option<TestResponse>>)
    requires cache.Valid() && cache.ttl > 0 && NoFaults(cache.redis.faults)
    modifies cache`hits, cache`misses, cache`sets, cache`errors, cache`latencyHistory
    modifies cache.redis`faults, cache.redis`entries, cache.redis`slots, db`queries, db`faults
    ensures cache.Valid()
    ensures Found(first) ==> second == first
    ensures Found(first) ==>
              db.queries == old(db.queries) + (if CacheRead(false, old(cache.redis.entries), testId).Some? then 0 else 1)
  {
    first := GetTestById(cache, db, testId, ms, now);
    if Found(first) && CacheRead(false, old(cache.redis.entries), testId).None? {
      var key := TestKey(testId);
      assert cache.redis.entries[key] == Serialize(first.value.value);
      assert CacheRead(false, cache.redis.entries, testId) == first.value by {
        RoundTrip(first.value.value);
      }
    }
    second := GetTestById(cache, db, testId, ms, now);
  }

  // ---------------------------------------------------------- getLiveTest

  /** Active and scheduled no later than `now`. */
  predicate Live(t: TestRow, now: int) {
    t.isActive && t.scheduledAt.Some? && t.scheduledAt.value <= now
  }

  /** `findFirst` over the live tests, latest `scheduledAt` first; among
      tests scheduled at the same instant the earlier row wins. */
  function LatestLive(tests: seq<TestRow>, now: int): (r: Option<TestRow>)
    ensures r.Some? ==> r.value in tests && Live(r.value, now)
  {
    if tests == [] then None
    else
      var rest := LatestLive(tests[1..], now);
      if !Live(tests[0], now) then rest
      else if rest.Some? && rest.value.scheduledAt.value > tests[0].scheduledAt.value then rest
      else Some(tests[0])
  }

  function Summarize(t: TestRow): TestSummary {
    TestSummary(t.id, t.title, |t.questions|, t.scheduledAt)
  }

  /** `getLiveTest` at time `now`. */
  function GetLiveTest(tests: seq<TestRow>, now: int): Option<TestSummary> {
    match LatestLive(tests, now)
    case None => None
    case Some(t) => Some(Summarize(t))
  }

  /** The selected test is live and no live test is scheduled later. */
  lemma {:induction false} LatestLiveIsLatest(tests: seq<TestRow>, now: int)
    ensures LatestLive(tests, now).None? <==> forall t :: t in tests ==> !Live(t, now)
    ensures LatestLive(tests, now).Some? ==>
              forall t :: t in tests && Live(t, now) ==>
                t.scheduledAt.value <= LatestLive(tests, now).value.scheduledAt.value
    decreases |tests|
  {
    if tests != [] {
      LatestLiveIsLatest(tests[1..], now);
      assert forall t :: t in tests ==> t == tests[0] || t in tests[1..];
    }
  }

  /** `getLiveTest` returns None exactly when no test is live; otherwise the
      summary of a live test with the latest schedule, counting its
      questions. */
  lemma LiveTestSpec(tests: seq<TestRow>, now: int)
    ensures GetLiveTest(tests, now).None? <==> forall t :: t in tests ==> !Live(t, now)
    ensures GetLiveTest(tests, now).Some? ==>
              exists t :: t in tests && Live(t, now)
                && GetLiveTest(tests, now).value == TestSummary(t.id, t.title, |t.questions|, t.scheduledAt)
                && forall u :: u in tests && Live(u, now) ==> u.scheduledAt.value <= t.scheduledAt.value
  {
    LatestLiveIsLatest(tests, now);
  }
}
