/** The key/value store the cache talks to, reduced to the commands the
    cache issues (GET, SET … EX, DEL, SCAN … MATCH … COUNT, INFO) with their
    Redis semantics. Any command may fail (refused connection, timeout,
    cluster error); which ones do is scripted by `faults`, one entry per
    command in the order they are issued. */
module RedisStore {
  import opened Wrappers
  import opened JsText

  /** The reply to a command, or the error the client raised for it. */
  datatype Reply<T> = Ok(value: T) | Failed

  predicate HasPrefix(s: string, prefix: string) {
    |prefix| <= |s| && s[..|prefix|] == prefix
  }

  predicate Distinct(s: seq<string>) {
    forall i, j :: 0 <= i < j < |s| ==> s[i] != s[j]
  }

  /** No command in the script fails. */
  predicate NoFaults(faults: seq<bool>) {
    forall i :: 0 <= i < |faults| ==> !faults[i]
  }

  /** Whether the next command fails. */
  predicate Fails(faults: seq<bool>) {
    faults != [] && faults[0]
  }

  /** The script after one command has been issued. */
  function Rest(faults: seq<bool>): (r: seq<bool>)
    ensures NoFaults(faults) ==> NoFaults(r)
  {
    if faults == [] then [] else faults[1..]
  }

  /** The script after `n` commands have been issued. */
  function Drop(faults: seq<bool>, n: nat): seq<bool>
    decreases n
  {
    if n == 0 then faults else Drop(Rest(faults), n - 1)
  }

  /** None of the next `n` commands fails. */
  predicate FaultFree(faults: seq<bool>, n: nat)
    decreases n
  {
    n == 0 || (!Fails(faults) && FaultFree(Rest(faults), n - 1))
  }

  /** Issuing one more command after `n`. */
  lemma {:induction false} IssueOne(faults: seq<bool>, n: nat)
    ensures Drop(faults, n + 1) == Rest(Drop(faults, n))
    ensures FaultFree(faults, n + 1) <==> FaultFree(faults, n) && !Fails(Drop(faults, n))
    decreases n
  {
    if n > 0 {
      IssueOne(Rest(faults), n - 1);
    }
  }

  /** Issuing `a` commands and then `b` more is issuing `a + b`. */
  lemma {:induction false} IssueMore(faults: seq<bool>, a: nat, b: nat)
    ensures Drop(Drop(faults, a), b) == Drop(faults, a + b)
    ensures FaultFree(faults, a + b) <==> FaultFree(faults, a) && FaultFree(Drop(faults, a), b)
    decreases a
  {
    if a > 0 {
      IssueMore(Rest(faults), a - 1, b);
    }
  }

  /** A script without faults lets every command through. */
  lemma {:induction false} CleanScript(faults: seq<bool>, n: nat)
    requires NoFaults(faults)
    ensures FaultFree(faults, n) && NoFaults(Drop(faults, n))
    decreases n
  {
    if n > 0 {
      CleanScript(Rest(faults), n - 1);
    }
  }

  /** The keys of `entries` that match `prefix*`. */
  function KeysMatching(entries: map<string, string>, prefix: string): set<string> {
    set k | k in entries && HasPrefix(k, prefix)
  }

  /** The keys of `slots` that are present and match `prefix*`, in slot
      order. */
  function Matching(slots: seq<string>, entries: map<string, string>, prefix: string): (keys: seq<string>)
    ensures forall k :: k in keys <==> k in slots && k in entries && HasPrefix(k, prefix)
    ensures |keys| <= |slots|
  {
    if slots == [] then []
    else
      (if slots[0] in entries && HasPrefix(slots[0], prefix) then [slots[0]] else [])
      + Matching(slots[1..], entries, prefix)
  }

  lemma {:induction false} MatchingAppend(a: seq<string>, b: seq<string>, entries: map<string, string>, prefix: string)
    ensures Matching(a + b, entries, prefix) == Matching(a, entries, prefix) + Matching(b, entries, prefix)
    decreases |a|
  {
    if a == [] {
      assert a + b == b;
    } else {
      assert (a + b)[1..] == a[1..] + b;
      MatchingAppend(a[1..], b, entries, prefix);
    }
  }

  lemma {:induction false} MatchingDistinct(slots: seq<string>, entries: map<string, string>, prefix: string)
    requires Distinct(slots)
    ensures Distinct(Matching(slots, entries, prefix))
    decreases |slots|
  {
    if slots != [] {
      MatchingDistinct(slots[1..], entries, prefix);
      var rest := Matching(slots[1..], entries, prefix);
      assert slots[0] !in rest;
    }
  }

  lemma {:induction false} DistinctCardinality(s: seq<string>)
    requires Distinct(s)
    ensures |set k | k in s| == |s|
    decreases |s|
  {
    if s != [] {
      DistinctCardinality(s[1..]);
      assert (set k | k in s) == (set k | k in s[1..]) + {s[0]};
      assert s[0] !in s[1..];
    }
  }

  /** Walking the whole slot table counts every matching key exactly once. */
  lemma MatchingCountsKeys(slots: seq<string>, entries: map<string, string>, prefix: string)
    requires Distinct(slots)
    requires forall k :: k in entries ==> k in slots
    ensures |Matching(slots, entries, prefix)| == |KeysMatching(entries, prefix)|
  {
    var m := Matching(slots, entries, prefix);
    MatchingDistinct(slots, entries, prefix);
    DistinctCardinality(m);
    assert (set k | k in m) == KeysMatching(entries, prefix);
  }

  /** A SCAN cursor: the decimal text of a natural number. */
  function ParseCursor(s: string): Option<nat> {
    if s != [] && AllDigits(s) then Some(DigitsValue(s, 10)) else None
  }

  lemma CursorRoundTrip(n: nat)
    ensures ParseCursor(NatToDecimal(n)) == Some(n)
  {
    DecimalValue(n);
  }

  /** One SCAN page from position `pos` of the slot table: the matching keys
      among the next `count` slots, and the cursor to continue from ("0"
      once the table is exhausted). */
  function ScanPage(slots: seq<string>, entries: map<string, string>, pos: nat, prefix: string, count: nat): (page: (string, seq<string>))
    requires count > 0
    ensures page.0 == "0" <==> pos + count >= |slots|
    ensures page.0 != "0" ==> ParseCursor(page.0) == Some(pos + count)
    ensures pos <= |slots| ==> page.1 == Matching(slots[pos..Min(pos + count, |slots|)], entries, prefix)
  {
    var lo := Min(pos, |slots|);
    var hi := Min(pos + count, |slots|);
    var next := if pos + count >= |slots| then "0" else NatToDecimal(pos + count);
    CursorRoundTrip(pos + count);
    DecimalIsZero(pos + count);
    (next, Matching(slots[lo..hi], entries, prefix))
  }

  class Store {
    /** The keys and their values. */
    var entries: map<string, string>
    /** Every key ever written, in the order first written: the table a
        SCAN cursor walks. Deleting a key leaves its slot in place. */
    var slots: seq<string>
    /** Which of the coming commands fail. */
    var faults: seq<bool>
    /** The text INFO returns for the sections "stats" and "memory". */
    var statsInfo: string
    var memoryInfo: string

    ghost predicate Valid()
      reads this
    {
      (forall k :: k in entries ==> k in slots) && Distinct(slots)
    }

    constructor (faults: seq<bool>, statsInfo: string, memoryInfo: string)
      ensures Valid()
      ensures entries == map[] && slots == []
      ensures this.faults == faults && this.statsInfo == statsInfo && this.memoryInfo == memoryInfo
    {
      entries := map[];
      slots := [];
      this.faults := faults;
      this.statsInfo := statsInfo;
      this.memoryInfo := memoryInfo;
    }

    /** Whether the next command fails. */
    function NextFails(): bool
      reads this
    {
      Fails(faults)
    }

    method NextCommand() returns (fail: bool)
      modifies this`faults
      ensures fail == old(NextFails())
      ensures faults == Rest(old(faults))
    {
      fail := NextFails();
      faults := Rest(faults);
    }

    /** GET key: the value, or None when the key is absent. */
    method Get(key: string) returns (r: Reply<Option<string>>)
      modifies this`faults
      ensures faults == Rest(old(faults))
      ensures r == if old(NextFails()) then Failed
                   else Ok(if key in entries then Some(entries[key]) else None)
    {
      var fail := NextCommand();
      if fail {
        r := Failed;
      } else {
        r := Ok(if key in entries then Some(entries[key]) else None);
      }
    }

    /** SET key value EX ttl: Redis refuses an expiry that is not positive. */
    method Set(key: string, value: string, ttl: int) returns (r: Reply<()>)
      requires Valid()
      modifies this`faults, this`entries, this`slots
      ensures Valid()
      ensures faults == Rest(old(faults))
      ensures r.Ok? <==> !old(NextFails()) && ttl > 0
      ensures entries == if r.Ok? then old(entries)[key := value] else old(entries)
      ensures slots == if r.Ok? && key !in old(slots) then old(slots) + [key] else old(slots)
    {
      var fail := NextCommand();
      if fail || ttl <= 0 {
        r := Failed;
      } else {
        if key !in slots {
          slots := slots + [key];
        }
        entries := entries[key := value];
        r := Ok(());
      }
    }

    /** DEL key...: Redis refuses a DEL without keys. */
    method Del(keys: seq<string>) returns (r: Reply<()>)
      requires Valid()
      modifies this`faults, this`entries
      ensures Valid()
      ensures faults == Rest(old(faults))
      ensures r.Ok? <==> !old(NextFails()) && keys != []
      ensures entries == if r.Ok? then old(entries) - (set k | k in keys) else old(entries)
    {
      var fail := NextCommand();
      if fail || keys == [] {
        r := Failed;
      } else {
        entries := entries - (set k | k in keys);
        r := Ok(());
      }
    }

    /** SCAN cursor MATCH prefix* COUNT count. A cursor that is not a
        number, or a count that is not positive, is refused. */
    method Scan(cursor: string, prefix: string, count: int) returns (r: Reply<(string, seq<string>)>)
      modifies this`faults
      ensures faults == Rest(old(faults))
      ensures r == if old(NextFails()) || count <= 0 || ParseCursor(cursor).None? then Failed
                   else Ok(ScanPage(slots, entries, ParseCursor(cursor).value, prefix, count))
    {
      var fail := NextCommand();
      var position := ParseCursor(cursor);
      if fail || count <= 0 || position.None? {
        r := Failed;
      } else {
        r := Ok(ScanPage(slots, entries, position.value, prefix, count));
      }
    }

    /** INFO section: the server's `field:value` report for that section. */
    method Info(section: string) returns (r: Reply<string>)
      modifies this`faults
      ensures faults == Rest(old(faults))
      ensures r == if old(NextFails()) then Failed
                   else Ok(if section == "stats" then statsInfo
                           else if section == "memory" then memoryInfo
                           else "")
    {
      var fail := NextCommand();
      if fail {
        r := Failed;
      } else if section == "stats" {
        r := Ok(statsInfo);
      } else if section == "memory" {
        r := Ok(memoryInfo);
      } else {
        r := Ok("");
      }
    }

    /** A key's TTL running out: the server drops it on its own. */
    method Expire(key: string)
      requires Valid()
      modifies this`entries
      ensures Valid()
      ensures entries == old(entries) - {key}
    {
      entries := entries - {key};
    }
  }
}
