/** The in-memory rate limiter: a bounded, insertion-ordered counter table with stale-bucket
    cleanup and oldest-first eviction. */
module RateLimiter {
  import opened Lists
  import opened Options

  datatype Key = Key(bucket: int, host: string)
  datatype Entry = Entry(key: Key, count: int)

  // ----- the dictionary -----

  function KeysOf(entries: seq<Entry>): (r: seq<Key>)
    ensures |r| == |entries|
    ensures forall i :: 0 <= i < |entries| ==> r[i] == entries[i].key
  {
    if entries == [] then [] else KeysOf(entries[..|entries| - 1]) + [entries[|entries| - 1].key]
  }

  /** `pop(key, 0)`: the stored count or zero. */
  function CountOf(entries: seq<Entry>, k: Key): int
  {
    if entries == [] then 0
    else if entries[|entries| - 1].key == k then entries[|entries| - 1].count
    else CountOf(entries[..|entries| - 1], k)
  }

  function Without(entries: seq<Entry>, k: Key): (r: seq<Entry>)
    ensures |r| <= |entries|
    ensures forall e :: e in r <==> e in entries && e.key != k
  {
    if entries == [] then [] else
      var last := entries[|entries| - 1];
      var r := Without(entries[..|entries| - 1], k);
      assert entries == entries[..|entries| - 1] + [last];
      if last.key == k then r else r + [last]
  }

  function Fresh(entries: seq<Entry>, bucket: int): (r: seq<Entry>)
    ensures |r| <= |entries|
    ensures forall e :: e in r <==> e in entries && e.key.bucket >= bucket - 1
  {
    if entries == [] then [] else
      var last := entries[|entries| - 1];
      var r := Fresh(entries[..|entries| - 1], bucket);
      assert entries == entries[..|entries| - 1] + [last];
      if last.key.bucket < bucket - 1 then r else r + [last]
  }

  function LastN(entries: seq<Entry>, n: int): (r: seq<Entry>)
  {
    if 0 <= n < |entries| then entries[|entries| - n..] else entries
  }

  datatype Table = Table(entries: seq<Entry>, lastCleanup: Option<int>)

  /** One request: clean up once per bucket, count, move to the end, evict the oldest. */
  function Hit(t: Table, k: Key, maxEntries: int): (Table, int)
  {
    var cleaned := if t.lastCleanup != Some(k.bucket) then Fresh(t.entries, k.bucket) else t.entries;
    var current := CountOf(cleaned, k) + 1;
    (Table(LastN(Without(cleaned, k) + [Entry(k, current)], Bound(maxEntries)), Some(k.bucket)), current)
  }

  /** A configured number below one counts as one. */
  function Bound(maxEntries: int): (m: int)
    ensures m >= 1 && (maxEntries >= 1 ==> m == maxEntries) && (maxEntries < 1 ==> m == 1)
  {
    if maxEntries < 1 then 1 else maxEntries
  }

  // ----- the limiter as it runs -----

  method RemoveStale(entries: seq<Entry>, bucket: int) returns (kept: seq<Entry>)
    ensures kept == Fresh(entries, bucket)
    ensures forall e :: e in kept <==> e in entries && e.key.bucket >= bucket - 1
  {
    kept := [];
    for i := 0 to |entries|
      invariant kept == Fresh(entries[..i], bucket)
    {
      assert entries[..i + 1][..i] == entries[..i];
      if !(entries[i].key.bucket < bucket - 1) {
        kept := kept + [entries[i]];
      }
    }
    assert entries[..|entries|] == entries;
  }

  method EvictOldest(full: seq<Entry>, bound: int) returns (entries: seq<Entry>)
    requires bound >= 1
    ensures entries == LastN(full, bound)
    ensures |full| <= bound ==> entries == full
    ensures |full| > bound ==> |entries| == bound && entries == full[|full| - bound..]
  {
    entries := full;
    while |entries| > bound
      invariant bound <= |entries| || entries == full
      invariant |entries| <= |full| && entries == full[|full| - |entries|..]
    {
      entries := entries[1..];
    }
  }

  class Limiter {
    var entries: seq<Entry>
    var lastCleanup: Option<int>
    const maxEntries: int

    constructor (maxEntries: int)
      ensures Contents() == Table([], None) && this.maxEntries == maxEntries
    {
      entries, lastCleanup, this.maxEntries := [], None, maxEntries;
    }

    function Contents(): Table
      reads this
    {
      Table(entries, lastCleanup)
    }

    /** Counts the request and says whether it is within the limit. */
    method RateLimit(bucket: int, host: string, configuredLimit: int) returns (accepted: bool, ghost current: int)
      modifies this
      ensures (Contents(), current) == Hit(old(Contents()), Key(bucket, host), maxEntries)
      ensures configuredLimit >= 1 ==> (accepted <==> current <= configuredLimit)
      ensures configuredLimit < 1 ==> (accepted <==> current <= 1)
      ensures entries != [] && entries[|entries| - 1] == Entry(Key(bucket, host), current)
      ensures |entries| <= if maxEntries >= 1 then maxEntries else 1
    {
      hide Fresh, Without, CountOf, LastN, Bound;
      var k := Key(bucket, host);
      if lastCleanup != Some(bucket) {
        entries := RemoveStale(entries, bucket);
        lastCleanup := Some(bucket);
      }
      var count := CountOf(entries, k) + 1;
      entries := Without(entries, k) + [Entry(k, count)];
      entries := EvictOldest(entries, Bound(maxEntries));
      current := count;
      accepted := count <= Bound(configuredLimit);
    }
  }

  // ----- traces -----

  function After(trace: seq<Key>, maxEntries: int): Table
  {
    if trace == [] then Table([], None)
    else Hit(After(trace[..|trace| - 1], maxEntries), trace[|trace| - 1], maxEntries).0
  }

  /** The count the limiter compares with the limit at the last request of the trace. */
  function Current(trace: seq<Key>, maxEntries: int): int
    requires trace != []
  {
    Hit(After(trace[..|trace| - 1], maxEntries), trace[|trace| - 1], maxEntries).1
  }

  /** Clocks do not run backwards. */
  ghost predicate Monotone(trace: seq<Key>)
  {
    forall i, j :: 0 <= i < j < |trace| ==> trace[i].bucket <= trace[j].bucket
  }

  function LastIndex(trace: seq<Key>, k: Key): (i: nat)
    requires k in trace
    ensures i < |trace| && trace[i] == k && k !in trace[i + 1..]
  {
    var n := |trace| - 1;
    if trace[n] == k then n
    else
      assert trace == trace[..n] + [trace[n]];
      var i := LastIndex(trace[..n], k);
      assert trace[i + 1..] == trace[..n][i + 1..] + [trace[n]];
      i
  }

  /** How many distinct other keys were requested since the last request of `k`. */
  function Others(trace: seq<Key>, k: Key): (n: nat)
    requires k in trace
  {
    |Elems(trace[LastIndex(trace, k) + 1..])|
  }

  /** The reference count: a request continues its key's count unless at least `max` other keys
      came in between. */
  function Windowed(trace: seq<Key>, max: int): (c: nat)
    requires trace != []
    ensures c >= 1
    decreases |trace|
  {
    var past, k := trace[..|trace| - 1], trace[|trace| - 1];
    if k in past && Others(past, k) < max then Windowed(past[..LastIndex(past, k) + 1], max) + 1 else 1
  }

  /** An unbounded table's count: all requests of the key. */
  function Unbounded(trace: seq<Key>): (c: nat)
    requires trace != []
  {
    multiset(trace)[trace[|trace| - 1]]
  }

  /** No two consecutive requests of the last key have `max` or more other keys in between. */
  predicate NeverCrowded(trace: seq<Key>, max: int)
    requires trace != []
    decreases |trace|
  {
    var past, k := trace[..|trace| - 1], trace[|trace| - 1];
    k in past ==> Others(past, k) < max && NeverCrowded(past[..LastIndex(past, k) + 1], max)
  }

  lemma CountUpToLast(past: seq<Key>, k: Key)
    requires k in past
    ensures multiset(past + [k])[k] == multiset(past[..LastIndex(past, k) + 1])[k] + 1
  {
    hide LastIndex;
    var i := LastIndex(past, k);
    var a, c := past[..i + 1], past[i + 1..];
    assert past == a + c;
    assert multiset(c)[k] == 0;
    assert multiset(a + c) == multiset(a) + multiset(c);
  }

  lemma UnboundedStep(past: seq<Key>, k: Key)
    ensures k in past ==> var before := past[..LastIndex(past, k) + 1];
                          before != [] && before[|before| - 1] == k && Unbounded(before) >= 1 && Unbounded(past + [k]) == Unbounded(before) + 1
    ensures k !in past ==> Unbounded(past + [k]) == 1
  {
    hide LastIndex;
    if k in past {
      CountUpToLast(past, k);
      var i := LastIndex(past, k);
      assert past[..i + 1][i] == k;
      assert k in past[..i + 1];
    } else {
      assert multiset(past)[k] == 0;
    }
  }

  /** The windowed count never exceeds the unbounded one, and equals it exactly when the key
      was never crowded out. */
  lemma {:induction false} WindowedIsUnboundedIff(trace: seq<Key>, max: int)
    requires trace != [] && max >= 1
    ensures Windowed(trace, max) <= Unbounded(trace)
    ensures Windowed(trace, max) == Unbounded(trace) <==> NeverCrowded(trace, max)
    decreases |trace|
  {
    hide LastIndex, Others, Unbounded;
    var past, k := trace[..|trace| - 1], trace[|trace| - 1];
    assert trace == past + [k];
    UnboundedStep(past, k);
    if k in past {
      WindowedIsUnboundedIff(past[..LastIndex(past, k) + 1], max);
    }
  }

  // ----- the table holds the most recent keys -----

  /** The current bucket's keys in order of last request, oldest first. */
  function Recent(trace: seq<Key>): (r: seq<Key>)
  {
    if trace == [] then [] else
      var past, k := trace[..|trace| - 1], trace[|trace| - 1];
      (if past != [] && past[|past| - 1].bucket == k.bucket then Drop(Recent(past), k) else []) + [k]
  }

  function Drop(keys: seq<Key>, k: Key): (r: seq<Key>)
    ensures forall x :: x in r <==> x in keys && x != k
  {
    if keys == [] then [] else
      var last := keys[|keys| - 1];
      var r := Drop(keys[..|keys| - 1], k);
      assert keys == keys[..|keys| - 1] + [last];
      if last == k then r else r + [last]
  }

  lemma {:induction false} DropDistinct(keys: seq<Key>, k: Key)
    requires Distinct(keys)
    ensures Distinct(Drop(keys, k))
    ensures |Drop(keys, k)| == |keys| - (if k in keys then 1 else 0)
    decreases |keys|
  {
    if keys != [] {
      var init, last := keys[..|keys| - 1], keys[|keys| - 1];
      assert keys == init + [last];
      DropDistinct(init, k);
      assert last !in init;
    }
  }

  lemma {:induction false} DropAppend(a: seq<Key>, b: seq<Key>, k: Key)
    ensures Drop(a + b, k) == Drop(a, k) + Drop(b, k)
    decreases |b|
  {
    if b == [] {
      assert a + b == a;
    } else {
      var init, last := b[..|b| - 1], b[|b| - 1];
      assert (a + b)[..|a + b| - 1] == a + init;
      DropAppend(a, init, k);
    }
  }

  lemma {:induction false} DropAbsent(a: seq<Key>, k: Key)
    requires k !in a
    ensures Drop(a, k) == a
    decreases |a|
  {
    if a != [] {
      assert a == a[..|a| - 1] + [a[|a| - 1]];
      DropAbsent(a[..|a| - 1], k);
    }
  }

  lemma {:induction false} WithoutKeys(entries: seq<Entry>, k: Key)
    ensures KeysOf(Without(entries, k)) == Drop(KeysOf(entries), k)
    decreases |entries|
  {
    if entries != [] {
      var init, last := entries[..|entries| - 1], entries[|entries| - 1];
      WithoutKeys(init, k);
      var keys := KeysOf(entries);
      assert keys[..|keys| - 1] == KeysOf(init);
      var r := Without(init, k) + [last];
      assert r[..|r| - 1] == Without(init, k);
    }
  }

  lemma RecentStep(past: seq<Key>, k: Key)
    ensures Recent(past + [k]) == (if past != [] && past[|past| - 1].bucket == k.bucket then Drop(Recent(past), k) else []) + [k]
    ensures Monotone(past + [k]) ==> Monotone(past) && forall x :: x in past ==> x.bucket <= k.bucket
    ensures Monotone(past + [k]) && past != [] && past[|past| - 1].bucket != k.bucket ==> forall x :: x in past ==> x.bucket < k.bucket
  {
    var trace := past + [k];
    assert trace[..|trace| - 1] == past;
    assert forall i :: 0 <= i < |past| ==> trace[i] == past[i];
    assert trace[|past|] == k;
    forall x | Monotone(trace) && x in past
      ensures x.bucket <= k.bucket && (past[|past| - 1].bucket != k.bucket ==> x.bucket < k.bucket)
    {
      var i :| 0 <= i < |past| && past[i] == x;
      assert trace[i].bucket <= trace[|past| - 1].bucket <= trace[|past|].bucket;
    }
  }

  lemma {:induction false} RecentMembers(trace: seq<Key>)
    requires trace != [] && Monotone(trace)
    ensures Distinct(Recent(trace))
    ensures forall x :: x in Recent(trace) <==> x in trace && x.bucket == trace[|trace| - 1].bucket
    decreases |trace|
  {
    hide Recent, Drop, Monotone;
    var past, k := trace[..|trace| - 1], trace[|trace| - 1];
    assert trace == past + [k];
    RecentStep(past, k);
    if past != [] {
      RecentMembers(past);
      DropDistinct(Recent(past), k);
    }
  }

  /** Splitting a distinct list at one of its keys commutes with dropping another. */
  lemma DropSplit(keys: seq<Key>, i: nat, k: Key) returns (j: nat)
    requires Distinct(keys) && i < |keys| && keys[i] != k
    ensures j < |Drop(keys, k)| && Drop(keys, k)[j] == keys[i]
    ensures Drop(keys, k)[j + 1..] == Drop(keys[i + 1..], k)
  {
    var a, x, c := keys[..i], keys[i], keys[i + 1..];
    assert keys == a + ([x] + c);
    DropAppend(a, [x] + c, k);
    DropAppend([x], c, k);
    DropAbsent([x], k);
    j := |Drop(a, k)|;
    assert Drop(keys, k) == Drop(a, k) + [x] + Drop(c, k);
  }

  /** Where an entry of the shortened list stood in the full one. */
  lemma DropFind(keys: seq<Key>, k: Key, i: nat) returns (i0: nat)
    requires Distinct(keys) && i < |Drop(keys, k)|
    ensures i0 < |keys| && keys[i0] == Drop(keys, k)[i] && keys[i0] != k
    ensures Drop(keys, k)[i + 1..] == Drop(keys[i0 + 1..], k)
  {
    hide Drop;
    var d := Drop(keys, k);
    assert d[i] in d;
    assert d[i] in keys && d[i] != k;
    i0 :| 0 <= i0 < |keys| && keys[i0] == d[i];
    var j := DropSplit(keys, i0, k);
    DropDistinct(keys, k);
    assert j == i;
  }

  lemma ElemsBehind(past: seq<Key>, k: Key, n: nat, d: seq<Key>, i: nat, behind: seq<Key>)
    requires n <= |past| && i <= |d| && d[i..] == Drop(behind, k) && Elems(past[n..]) == Elems(behind)
    ensures Elems((past + [k])[n..]) == Elems((d + [k])[i..])
  {
    hide Drop, Elems;
    Slices(past, k, n);
    Slices(d, k, i);
    ElemsDrop(past[n..], behind, k);
  }

  /** The keys behind an entry of the recency list are those requested since it. */
  ghost predicate Ranked(trace: seq<Key>, recent: seq<Key>, i: nat)
    requires i < |recent|
  {
    recent[i] in trace && Elems(trace[LastIndex(trace, recent[i]) + 1..]) == Elems(recent[i + 1..])
  }

  lemma RankedNewest(past: seq<Key>, k: Key, d: seq<Key>)
    ensures Ranked(past + [k], d + [k], |d|)
  {
    hide LastIndex, Elems;
    LastIndexOfLast(past, k);
    assert (past + [k])[|past| + 1..] == [] && (d + [k])[|d| + 1..] == [];
  }

  lemma RankedOlder(past: seq<Key>, k: Key, earlier: seq<Key>, i: nat, i0: nat)
    requires i0 < |earlier| && Ranked(past, earlier, i0) && earlier[i0] != k
    requires i < |Drop(earlier, k)| && earlier[i0] == Drop(earlier, k)[i] && Drop(earlier, k)[i + 1..] == Drop(earlier[i0 + 1..], k)
    ensures Ranked(past + [k], Drop(earlier, k) + [k], i)
  {
    hide Drop, LastIndex, Elems;
    var x := earlier[i0];
    LastIndexOfOther(past, k, x);
    ElemsBehind(past, k, LastIndex(past, x) + 1, Drop(earlier, k), i + 1, earlier[i0 + 1..]);
    assert (Drop(earlier, k) + [k])[i] == x;
  }

  lemma {:induction false} RecentAfter(trace: seq<Key>, i: nat)
    requires trace != [] && Monotone(trace) && i < |Recent(trace)|
    ensures Ranked(trace, Recent(trace), i)
    decreases |trace|
  {
    hide Recent, Drop, Monotone, Distinct, Ranked;
    var past, k := trace[..|trace| - 1], trace[|trace| - 1];
    assert trace == past + [k];
    RecentStep(past, k);
    var earlier := Recent(past);
    if i < |Recent(trace)| - 1 {
      RecentMembers(past);
      var i0 := DropFind(earlier, k, i);
      RecentAfter(past, i0);
      RankedOlder(past, k, earlier, i, i0);
    } else {
      RankedNewest(past, k, Recent(trace)[..i]);
    }
  }

  lemma LastIndexOfLast(past: seq<Key>, k: Key)
    ensures LastIndex(past + [k], k) == |past|
  {
  }

  lemma LastIndexOfOther(past: seq<Key>, k: Key, x: Key)
    requires x in past && x != k
    ensures LastIndex(past + [k], x) == LastIndex(past, x)
    ensures (past + [k])[LastIndex(past, x) + 1..] == past[LastIndex(past, x) + 1..] + [k]
    ensures (past + [k])[..LastIndex(past, x) + 1] == past[..LastIndex(past, x) + 1]
  {
    LastIndexStep(past, k, x);
    Slices(past, k, LastIndex(past, x) + 1);
  }

  lemma LastIndexStep(past: seq<Key>, k: Key, x: Key)
    requires x in past && x != k
    ensures LastIndex(past + [k], x) == LastIndex(past, x)
  {
    assert (past + [k])[..|past|] == past;
  }

  lemma Slices(past: seq<Key>, k: Key, i: nat)
    requires i <= |past|
    ensures (past + [k])[i..] == past[i..] + [k] && (past + [k])[..i] == past[..i]
  {
  }

  lemma ElemsDrop(a: seq<Key>, b: seq<Key>, k: Key)
    requires Elems(a) == Elems(b)
    ensures Elems(a + [k]) == Elems(Drop(b, k) + [k])
  {
    assert forall x :: x in a <==> x in Elems(a);
    assert forall x :: x in b <==> x in Elems(b);
  }

  lemma OthersIsRank(trace: seq<Key>, i: nat)
    requires trace != [] && Monotone(trace) && i < |Recent(trace)|
    ensures Recent(trace)[i] in trace && Others(trace, Recent(trace)[i]) == |Recent(trace)| - i - 1
  {
    hide Recent, Drop, Monotone, LastIndex;
    RecentMembers(trace);
    RecentAfter(trace, i);
    ElemsSize(Recent(trace)[i + 1..]);
  }

  // ----- the invariant of every monotone trace -----

  function Tail(keys: seq<Key>, n: nat): seq<Key>
  {
    if n < |keys| then keys[|keys| - n..] else keys
  }

  /** The table ends with the most recent keys of the current bucket, at most `max` of them;
      anything before them belongs to older buckets. */
  ghost predicate HoldsRecent(trace: seq<Key>, keys: seq<Key>, max: nat)
    requires trace != []
  {
    exists older :: keys == older + Tail(Recent(trace), max) && OlderThan(older, trace[|trace| - 1].bucket)
  }

  ghost predicate OlderThan(keys: seq<Key>, bucket: int)
  {
    forall x :: x in keys ==> x.bucket < bucket
  }

  ghost predicate CountsRight(trace: seq<Key>, entries: seq<Entry>, max: nat)
    requires trace != []
  {
    forall e :: e in entries && e.key.bucket == trace[|trace| - 1].bucket ==>
      e.key in trace && e.count == Windowed(trace[..LastIndex(trace, e.key) + 1], max)
  }

  ghost predicate TableInv(trace: seq<Key>, t: Table, max: nat)
    requires trace != []
  {
    && t.lastCleanup == Some(trace[|trace| - 1].bucket) && |t.entries| <= max
    && HoldsRecent(trace, KeysOf(t.entries), max)
    && CountsRight(trace, t.entries, max)
  }

  lemma {:induction false} CountOfMember(entries: seq<Entry>, k: Key)
    ensures k !in KeysOf(entries) ==> CountOf(entries, k) == 0
    ensures k in KeysOf(entries) ==> Entry(k, CountOf(entries, k)) in entries
    decreases |entries|
  {
    if entries != [] {
      var init, last := entries[..|entries| - 1], entries[|entries| - 1];
      var keys := KeysOf(entries);
      assert keys == KeysOf(init) + [last.key];
      CountOfMember(init, k);
      assert entries == init + [last];
    }
  }

  lemma KeysOfAppend(entries: seq<Entry>, e: Entry)
    ensures KeysOf(entries + [e]) == KeysOf(entries) + [e.key]
  {
    var r := entries + [e];
    assert r[..|r| - 1] == entries;
  }

  lemma KeysOfLastN(entries: seq<Entry>, n: nat)
    ensures KeysOf(LastN(entries, n)) == Tail(KeysOf(entries), n)
  {
    if n < |entries| {
      var k := |entries| - n;
      assert |KeysOf(entries[k..])| == |KeysOf(entries)[k..]|;
      forall i | 0 <= i < n ensures KeysOf(entries[k..])[i] == KeysOf(entries)[k..][i] {
      }
    }
  }

  lemma {:induction false} FreshKeys(entries: seq<Entry>, bucket: int)
    ensures forall x :: x in KeysOf(Fresh(entries, bucket)) ==> x in KeysOf(entries)
    decreases |entries|
  {
    if entries != [] {
      var init, last := entries[..|entries| - 1], entries[|entries| - 1];
      assert KeysOf(entries) == KeysOf(init) + [last.key];
      FreshKeys(init, bucket);
      KeysOfAppend(Fresh(init, bucket), last);
      forall x | x in KeysOf(init) ensures x in KeysOf(entries) {
      }
    }
  }

  /** The end of a list that ends in `k` is some part of the rest followed by `k`. */
  lemma TailEndsWith(keys: seq<Key>, k: Key, max: nat) returns (older: seq<Key>)
    requires max >= 1
    ensures Tail(keys + [k], max) == older + [k] && forall x :: x in older ==> x in keys
  {
    older := if max < |keys| + 1 then keys[|keys| + 1 - max..] else keys;
  }

  /** A request in a new bucket starts the recency list afresh. */
  lemma NewBucket(past: seq<Key>, k: Key, keys: seq<Key>, max: nat)
    requires Monotone(past + [k]) && max >= 1
    requires past != [] ==> past[|past| - 1].bucket < k.bucket
    requires forall x :: x in keys ==> x.bucket < k.bucket
    ensures HoldsRecent(past + [k], Tail(keys + [k], max), max)
  {
    hide Recent, Monotone;
    RecentStep(past, k);
    assert Recent(past + [k]) == [k] && Tail([k], max) == [k];
    var older := TailEndsWith(keys, k, max);
    assert OlderThan(older, k.bucket);
  }

  /** A request in the same bucket moves its key to the end of the recency list and of the
      table alike. */
  lemma SameBucket(past: seq<Key>, k: Key, keys: seq<Key>, max: nat)
    requires past != [] && Monotone(past + [k]) && max >= 1 && past[|past| - 1].bucket == k.bucket
    requires HoldsRecent(past, keys, max) && |keys| <= max
    ensures HoldsRecent(past + [k], Tail(Drop(keys, k) + [k], max), max)
  {
    hide Recent, Drop, Monotone, HoldsRecent;
    RecentStep(past, k);
    RecentMembers(past);
    var r := Recent(past);
    var older := OlderPart(past, keys, max);
    var tail := Tail(r, max);
    var head := r[..|r| - |tail|];
    assert r == head + tail;
    DropAppend(older, tail, k);
    assert k !in older;
    DropAbsent(older, k);
    DropAppend(head, tail, k);
    DropCounts(head, tail, k);
    MovedHolds(past + [k], older, Drop(head, k), Drop(tail, k), k, max);
  }

  lemma OlderPart(trace: seq<Key>, keys: seq<Key>, max: nat) returns (older: seq<Key>)
    requires trace != [] && HoldsRecent(trace, keys, max)
    ensures keys == older + Tail(Recent(trace), max) && OlderThan(older, trace[|trace| - 1].bucket)
  {
    older :| keys == older + Tail(Recent(trace), max) && OlderThan(older, trace[|trace| - 1].bucket);
  }

  lemma DropCounts(head: seq<Key>, tail: seq<Key>, k: Key)
    requires Distinct(head + tail)
    ensures |Drop(tail, k)| == |tail| || (|Drop(tail, k)| == |tail| - 1 && Drop(head, k) == head)
  {
    var all := head + tail;
    assert forall i :: 0 <= i < |head| ==> all[i] == head[i];
    assert forall i :: 0 <= i < |tail| ==> all[|head| + i] == tail[i];
    DropDistinct(tail, k);
    if k in tail {
      assert k !in head;
      DropAbsent(head, k);
    }
  }

  lemma MovedHolds(trace: seq<Key>, older: seq<Key>, head: seq<Key>, tail: seq<Key>, k: Key, max: nat)
    requires trace != [] && trace[|trace| - 1] == k && max >= 1
    requires Recent(trace) == head + tail + [k] && OlderThan(older, k.bucket)
    requires |older + tail| <= max
    requires head != [] ==> older == [] && |tail| >= max - 1
    ensures HoldsRecent(trace, Tail(older + tail + [k], max), max)
  {
    hide Recent, Tail, HoldsRecent, OlderThan;
    var end := tail + [k];
    assert Recent(trace) == head + end && older + tail + [k] == older + end;
    if |tail| < max {
      TailIs(head, end, max);
      KeptOlder(trace, older, end, k, max);
    } else {
      assert head + end == (head + tail[..1]) + (tail[1..] + [k]);
      TailIs(head + tail[..1], tail[1..] + [k], max);
      assert older + end == tail[..1] + (tail[1..] + [k]);
      TailIs(tail[..1], tail[1..] + [k], max);
      HoldsWith(trace, older, tail[1..] + [k], max);
      assert older + (tail[1..] + [k]) == tail[1..] + [k];
    }
  }

  lemma KeptOlder(trace: seq<Key>, older: seq<Key>, end: seq<Key>, k: Key, max: nat)
    requires trace != [] && trace[|trace| - 1] == k && OlderThan(older, k.bucket)
    requires Tail(Recent(trace), max) == end && |end| <= max && |older + end| <= max + 1
    ensures HoldsRecent(trace, Tail(older + end, max), max)
  {
    hide Recent, Tail, HoldsRecent;
    if |older + end| <= max {
      TailIs([], older + end, max);
      assert [] + (older + end) == older + end;
      HoldsWith(trace, older, end, max);
    } else {
      assert older + end == older[..1] + (older[1..] + end);
      TailIs(older[..1], older[1..] + end, max);
      HoldsWith(trace, older[1..], end, max);
    }
  }

  lemma TailIs(a: seq<Key>, b: seq<Key>, n: nat)
    requires |b| <= n && (a == [] || |b| == n)
    ensures Tail(a + b, n) == b
  {
  }

  lemma HoldsWith(trace: seq<Key>, older: seq<Key>, recent: seq<Key>, max: nat)
    requires trace != [] && Tail(Recent(trace), max) == recent && OlderThan(older, trace[|trace| - 1].bucket)
    ensures HoldsRecent(trace, older + recent, max)
  {
  }

  // ----- counts -----

  lemma HitKeys(entries: seq<Entry>, k: Key, count: int, max: nat)
    ensures KeysOf(LastN(Without(entries, k) + [Entry(k, count)], max)) == Tail(Drop(KeysOf(entries), k) + [k], max)
  {
    WithoutKeys(entries, k);
    KeysOfAppend(Without(entries, k), Entry(k, count));
    KeysOfLastN(Without(entries, k) + [Entry(k, count)], max);
  }

  /** A key is in the table exactly when fewer than `max` others came since. */
  lemma HeldIff(past: seq<Key>, keys: seq<Key>, k: Key, max: nat)
    requires past != [] && Monotone(past + [k]) && past[|past| - 1].bucket == k.bucket
    requires HoldsRecent(past, keys, max)
    ensures k in keys <==> k in past && Others(past, k) < max
  {
    hide Recent, Monotone, HoldsRecent, Others;
    RecentStep(past, k);
    RecentMembers(past);
    var r := Recent(past);
    var older := OlderPart(past, keys, max);
    var tail := Tail(r, max);
    assert k !in older;
    if k in past {
      assert k in r;
      var i :| 0 <= i < |r| && r[i] == k;
      OthersIsRank(past, i);
      TailMember(r, i, max);
    } else {
      assert k !in r;
      assert forall x :: x in tail ==> x in r;
    }
  }

  lemma TailMember(r: seq<Key>, i: nat, max: nat)
    requires Distinct(r) && i < |r|
    ensures r[i] in Tail(r, max) <==> |r| - i - 1 < max
  {
    if max < |r| {
      var k := |r| - max;
      assert i >= k ==> Tail(r, max)[i - k] == r[i];
      assert forall j :: 0 <= j < max ==> Tail(r, max)[j] == r[j + k];
    }
  }

  lemma WindowedStep(past: seq<Key>, k: Key, max: int)
    ensures Windowed(past + [k], max) ==
            if k in past && Others(past, k) < max then Windowed(past[..LastIndex(past, k) + 1], max) + 1 else 1
  {
    hide Others, LastIndex;
    assert (past + [k])[..|past|] == past;
  }

  /** In the request's own bucket the count continues exactly as the windowed count does. */
  lemma SameBucketCount(past: seq<Key>, k: Key, entries: seq<Entry>, max: nat)
    requires past != [] && Monotone(past + [k]) && past[|past| - 1].bucket == k.bucket && max >= 1
    requires HoldsRecent(past, KeysOf(entries), max) && CountsRight(past, entries, max)
    ensures CountOf(entries, k) + 1 == Windowed(past + [k], max)
  {
    hide Recent, Monotone, HoldsRecent, Others, Windowed, LastIndex, KeysOf, CountOf;
    HeldIff(past, KeysOf(entries), k, max);
    CountOfMember(entries, k);
    WindowedStep(past, k, max);
  }

  lemma CountsMove(past: seq<Key>, k: Key, entries: seq<Entry>, entries': seq<Entry>, max: nat, count: int)
    requires max >= 1 && count == Windowed(past + [k], max)
    requires forall e :: e in entries' ==> e == Entry(k, count) || (e in entries && e.key != k)
    requires past != [] && past[|past| - 1].bucket == k.bucket ==> CountsRight(past, entries, max)
    requires past == [] || past[|past| - 1].bucket != k.bucket ==> forall e :: e in entries ==> e.key.bucket != k.bucket
    ensures CountsRight(past + [k], entries', max)
  {
    hide Windowed, LastIndex;
    var trace := past + [k];
    forall e | e in entries' && e.key.bucket == k.bucket
      ensures e.key in trace && e.count == Windowed(trace[..LastIndex(trace, e.key) + 1], max)
    {
      if e == Entry(k, count) {
        LastIndexOfLast(past, k);
        assert trace[..|past| + 1] == trace;
      } else {
        LastIndexOfOther(past, k, e.key);
      }
    }
  }

  lemma LastNMembers(entries: seq<Entry>, n: nat)
    ensures forall e :: e in LastN(entries, n) ==> e in entries
    ensures |LastN(entries, n)| <= n || |LastN(entries, n)| == |entries| <= n
  {
  }

  lemma HitBounds(entries: seq<Entry>, k: Key, count: int, max: nat)
    requires max >= 1
    ensures var after := LastN(Without(entries, k) + [Entry(k, count)], max);
            |after| <= max && after != [] && after[|after| - 1] == Entry(k, count)
            && forall e :: e in after ==> e == Entry(k, count) || (e in entries && e.key != k)
  {
    LastNMembers(Without(entries, k) + [Entry(k, count)], max);
  }

  lemma HitInSameBucket(past: seq<Key>, k: Key, t: Table, max: nat)
    requires max >= 1 && past != [] && Monotone(past + [k]) && past[|past| - 1].bucket == k.bucket && TableInv(past, t, max)
    ensures var count := CountOf(t.entries, k) + 1;
            count == Windowed(past + [k], max)
            && TableInv(past + [k], Table(LastN(Without(t.entries, k) + [Entry(k, count)], max), Some(k.bucket)), max)
  {
    hide Recent, Monotone, HoldsRecent, CountsRight, Windowed, LastN, Without, CountOf, Drop, Tail, KeysOf;
    var count := CountOf(t.entries, k) + 1;
    SameBucketCount(past, k, t.entries, max);
    KeysOfLength(t.entries);
    SameBucket(past, k, KeysOf(t.entries), max);
    HitKeys(t.entries, k, count, max);
    HitBounds(t.entries, k, count, max);
    CountsMove(past, k, t.entries, LastN(Without(t.entries, k) + [Entry(k, count)], max), max, count);
  }

  lemma KeysOfLength(entries: seq<Entry>)
    ensures |KeysOf(entries)| == |entries|
  {
  }

  lemma HitInNewBucket(past: seq<Key>, k: Key, t: Table, max: nat)
    requires max >= 1 && Monotone(past + [k]) && (past == [] || past[|past| - 1].bucket != k.bucket)
    requires past == [] ==> t == Table([], None)
    requires past != [] ==> TableInv(past, t, max)
    ensures var cleaned := Fresh(t.entries, k.bucket);
            t.lastCleanup != Some(k.bucket) && CountOf(cleaned, k) == 0 && Windowed(past + [k], max) == 1
            && TableInv(past + [k], Table(LastN(Without(cleaned, k) + [Entry(k, 1)], max), Some(k.bucket)), max)
  {
    hide Recent, Monotone, HoldsRecent, CountsRight, Windowed, LastN, Without, CountOf, Drop, Tail, KeysOf, Fresh;
    var cleaned := Fresh(t.entries, k.bucket);
    OldKeys(past, t, k, max);
    NewBucketCount(past, k, max);
    FreshKeys(t.entries, k.bucket);
    CountOfMember(cleaned, k);
    assert k !in KeysOf(cleaned);
    DropAbsent(KeysOf(cleaned), k);
    NewBucket(past, k, KeysOf(cleaned), max);
    HitKeys(cleaned, k, 1, max);
    HitBounds(cleaned, k, 1, max);
    KeysOfMembers(cleaned);
    CountsMove(past, k, cleaned, LastN(Without(cleaned, k) + [Entry(k, 1)], max), max, 1);
  }

  lemma HitKeepsInv(past: seq<Key>, k: Key, t: Table, maxEntries: int)
    requires Monotone(past + [k])
    requires past == [] ==> t == Table([], None)
    requires past != [] ==> TableInv(past, t, Bound(maxEntries))
    ensures TableInv(past + [k], Hit(t, k, maxEntries).0, Bound(maxEntries))
    ensures Hit(t, k, maxEntries).1 == Windowed(past + [k], Bound(maxEntries))
  {
    hide Monotone, HoldsRecent, CountsRight, Windowed, LastN, Without, CountOf, Fresh;
    if past != [] && past[|past| - 1].bucket == k.bucket {
      HitInSameBucket(past, k, t, Bound(maxEntries));
    } else {
      HitInNewBucket(past, k, t, Bound(maxEntries));
    }
  }

  lemma KeysOfMembers(entries: seq<Entry>)
    ensures forall e :: e in entries ==> e.key in KeysOf(entries)
  {
    forall e | e in entries ensures e.key in KeysOf(entries) {
      var i :| 0 <= i < |entries| && entries[i] == e;
      assert KeysOf(entries)[i] == e.key;
    }
  }

  lemma OldKeys(past: seq<Key>, t: Table, k: Key, max: nat)
    requires Monotone(past + [k]) && (past == [] || past[|past| - 1].bucket != k.bucket)
    requires past == [] ==> t == Table([], None)
    requires past != [] ==> TableInv(past, t, max)
    ensures forall x :: x in KeysOf(t.entries) ==> x.bucket < k.bucket
    ensures t.lastCleanup != Some(k.bucket)
    ensures past != [] ==> past[|past| - 1].bucket < k.bucket
  {
    hide Recent, Monotone;
    RecentStep(past, k);
    if past != [] {
      RecentMembers(past);
      var older := OlderPart(past, KeysOf(t.entries), max);
      assert past[|past| - 1] in past;
      assert forall x :: x in Tail(Recent(past), max) ==> x in Recent(past);
    }
  }

  lemma NewBucketCount(past: seq<Key>, k: Key, max: nat)
    requires Monotone(past + [k]) && (past == [] || past[|past| - 1].bucket != k.bucket)
    ensures Windowed(past + [k], max) == 1
  {
    hide Monotone;
    RecentStep(past, k);
    assert (past + [k])[..|past|] == past;
  }

  lemma {:induction false} TraceKeepsInv(trace: seq<Key>, maxEntries: int)
    requires trace != [] && Monotone(trace)
    ensures TableInv(trace, After(trace, maxEntries), Bound(maxEntries))
    ensures Current(trace, maxEntries) == Windowed(trace, Bound(maxEntries))
    decreases |trace|
  {
    hide TableInv, Windowed, Hit, Monotone;
    var past, k := trace[..|trace| - 1], trace[|trace| - 1];
    assert trace == past + [k];
    RecentStep(past, k);
    if past != [] {
      TraceKeepsInv(past, maxEntries);
    }
    HitKeepsInv(past, k, After(past, maxEntries), maxEntries);
  }

  // ----- what a caller may rely on -----

  /** On every trace with non-decreasing buckets the table stays within its bound, and the
      key just counted is in it, last. */
  lemma TableBounded(trace: seq<Key>, maxEntries: int)
    requires trace != [] && Monotone(trace)
    ensures |After(trace, maxEntries).entries| <= if maxEntries >= 1 then maxEntries else 1
    ensures var t := After(trace, maxEntries);
            t.entries != [] && t.entries[|t.entries| - 1] == Entry(trace[|trace| - 1], Current(trace, maxEntries))
  {
    hide Monotone, Fresh, LastN, Without, CountOf;
    var past, k := trace[..|trace| - 1], trace[|trace| - 1];
    var t := After(past, maxEntries);
    var cleaned := if t.lastCleanup != Some(k.bucket) then Fresh(t.entries, k.bucket) else t.entries;
    HitBounds(cleaned, k, CountOf(cleaned, k) + 1, Bound(maxEntries));
  }

  /** The limiter's count is the unbounded counter's exactly when its key was never crowded
      out: no two consecutive requests of it with `max` or more other keys in between. */
  lemma CountsAgreeIff(trace: seq<Key>, maxEntries: int)
    requires trace != [] && Monotone(trace)
    ensures Current(trace, maxEntries) <= Unbounded(trace)
    ensures maxEntries >= 1 ==> (Current(trace, maxEntries) == Unbounded(trace) <==> NeverCrowded(trace, maxEntries))
    ensures maxEntries < 1 ==> (Current(trace, maxEntries) == Unbounded(trace) <==> NeverCrowded(trace, 1))
  {
    TraceKeepsInv(trace, maxEntries);
    WindowedIsUnboundedIff(trace, Bound(maxEntries));
  }

  /** A crowded-out key is only ever let through too often, never too rarely: whatever the
      unbounded counter accepts, the limiter accepts, under any limit. */
  lemma NeverStricter(trace: seq<Key>, maxEntries: int, limit: int)
    requires trace != [] && Monotone(trace) && Unbounded(trace) <= limit
    ensures Current(trace, maxEntries) <= limit
  {
    CountsAgreeIff(trace, maxEntries);
  }

  /** With a key never crowded out the decisions are those of a counter that never forgets: the
      request is accepted exactly while its key has been requested no more than `limit` times. */
  lemma DecisionsAgree(trace: seq<Key>, maxEntries: int, limit: int)
    requires trace != [] && Monotone(trace) && maxEntries >= 1 && NeverCrowded(trace, maxEntries)
    ensures Current(trace, maxEntries) <= limit <==> multiset(trace)[trace[|trace| - 1]] <= limit
  {
    CountsAgreeIff(trace, maxEntries);
  }

  /** One request on any table: the counted key comes last; of the others those more than one
      bucket old go if it is the first request of its bucket, and the oldest go beyond the bound;
      the rest stay, in their order. */
  lemma HitOutcome(t: Table, k: Key, maxEntries: int)
    requires maxEntries >= 1
    ensures var (after, current) := Hit(t, k, maxEntries);
            var kept := KeptBy(t, k);
            && after.lastCleanup == Some(k.bucket)
            && (forall e :: e in kept <==> e in t.entries && e.key != k && (t.lastCleanup == Some(k.bucket) || e.key.bucket >= k.bucket - 1))
            && after.entries == (if |kept| < maxEntries then kept else kept[|kept| + 1 - maxEntries..]) + [Entry(k, current)]
            && (forall c :: (forall e :: e in t.entries && e.key == k ==> e.count == c) && Entry(k, c) in t.entries ==> current == c + 1)
            && ((forall e :: e in t.entries ==> e.key != k) ==> current == 1)
  {
    hide KeptBy, Hit;
    HitKeeps(t, k);
    HitEntries(t, k, maxEntries);
    HitCounts(t, k, maxEntries);
  }

  lemma HitKeeps(t: Table, k: Key)
    ensures forall e :: e in KeptBy(t, k) <==> e in t.entries && e.key != k && (t.lastCleanup == Some(k.bucket) || e.key.bucket >= k.bucket - 1)
  {
  }

  lemma HitEntries(t: Table, k: Key, maxEntries: int)
    requires maxEntries >= 1
    ensures var (after, current) := Hit(t, k, maxEntries);
            var kept := KeptBy(t, k);
            && after.lastCleanup == Some(k.bucket)
            && after.entries == (if |kept| < maxEntries then kept else kept[|kept| + 1 - maxEntries..]) + [Entry(k, current)]
  {
    hide Fresh, Without, CountOf;
  }

  lemma HitCounts(t: Table, k: Key, maxEntries: int)
    ensures var current := Hit(t, k, maxEntries).1;
            && (forall c :: (forall e :: e in t.entries && e.key == k ==> e.count == c) && Entry(k, c) in t.entries ==> current == c + 1)
            && ((forall e :: e in t.entries ==> e.key != k) ==> current == 1)
  {
    var cleaned := if t.lastCleanup != Some(k.bucket) then Fresh(t.entries, k.bucket) else t.entries;
    assert forall e :: e in cleaned <==> e in t.entries && (t.lastCleanup == Some(k.bucket) || e.key.bucket >= k.bucket - 1);
    CountOfEntries(cleaned, k);
    hide Fresh, Without, CountOf, LastN, Bound;
  }

  /** What is counted for a key is what its entry says, and zero without one. */
  lemma CountOfEntries(entries: seq<Entry>, k: Key)
    ensures (forall e :: e in entries ==> e.key != k) ==> CountOf(entries, k) == 0
    ensures (exists e :: e in entries && e.key == k) ==> Entry(k, CountOf(entries, k)) in entries
  {
    CountOfMember(entries, k);
    hide CountOf, KeysOf;
    if e :| e in entries && e.key == k {
      var i :| 0 <= i < |entries| && entries[i] == e;
      assert KeysOf(entries)[i] == k;
    } else {
      forall i | 0 <= i < |entries| ensures KeysOf(entries)[i] != k {
        assert entries[i] in entries;
      }
    }
  }

  /** The entries that survive before the counted key is put last. */
  function KeptBy(t: Table, k: Key): seq<Entry>
  {
    Without(if t.lastCleanup != Some(k.bucket) then Fresh(t.entries, k.bucket) else t.entries, k)
  }

  lemma {:induction false} FreshInOrder(entries: seq<Entry>, bucket: int, i: nat, j: nat, x: nat, y: nat)
    requires Distinct(entries)
    ensures var kept := Fresh(entries, bucket);
            i < j < |kept| && x < |entries| && y < |entries| && entries[x] == kept[i] && entries[y] == kept[j] ==> x < y
    decreases |entries|
  {
    if entries != [] {
      var n := |entries| - 1;
      var init := entries[..n];
      var kept, rest := Fresh(entries, bucket), Fresh(init, bucket);
      if i < j < |kept| && x <= n && y <= n && entries[x] == kept[i] && entries[y] == kept[j] {
        assert kept[i] == rest[i] && rest[i] in rest && rest[i] in init;
        assert x < n;
        if y < n {
          assert kept[j] != entries[n];
          FreshInOrder(init, bucket, i, j, x, y);
        }
      }
    }
  }

  /** Cleaning up and taking out a key keep the order of the others. */
  lemma {:induction false} WithoutInOrder(entries: seq<Entry>, k: Key, i: nat, j: nat, x: nat, y: nat)
    requires Distinct(entries)
    ensures var kept := Without(entries, k);
            i < j < |kept| && x < |entries| && y < |entries| && entries[x] == kept[i] && entries[y] == kept[j] ==> x < y
    decreases |entries|
  {
    if entries != [] {
      var n := |entries| - 1;
      var init := entries[..n];
      var kept, rest := Without(entries, k), Without(init, k);
      if i < j < |kept| && x <= n && y <= n && entries[x] == kept[i] && entries[y] == kept[j] {
        assert kept[i] == rest[i] && rest[i] in rest && rest[i] in init;
        assert x < n;
        if y < n {
          assert kept[j] != entries[n];
          WithoutInOrder(init, k, i, j, x, y);
        }
      }
    }
  }
}
