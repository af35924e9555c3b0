/** When a lookup hits, told from the calls before it, and which entries an eviction takes. */
module Lookups {
  import opened Basics
  import opened Lru
  import opened LruRuns

  //////////////////////////////////////////////////////////////////////////////
  // A single lookup
  //////////////////////////////////////////////////////////////////////////////

  /** The entry has no expiration, or the time has not passed it. */
  predicate Within<K, V>(e: Entry<K, V>, now: int) {
    match e.expiration
    case None => true
    case Some(end) => now <= end
  }

  /** A lookup gives the value of the entry for the key, up to and including the time it expires. */
  lemma LookupExactly<K, V>(s: seq<Entry<K, V>>, e: Entry<K, V>, now: int)
    requires DistinctKeys(s) && e in s
    ensures ValueOf(s, e.key, now) == if Within(e, now) then Some(e.value) else None
  {
    FoundIs(s, e);
  }

  lemma LookupMisses<K, V>(s: seq<Entry<K, V>>, key: K, now: int)
    requires forall i :: 0 <= i < |s| ==> s[i].key != key
    ensures ValueOf(s, key, now) == None && Hit(s, key, now) == s
  {}

  /** The entry looked up becomes the most recent one, or is removed when it has expired; the others stay in order. */
  lemma LookupMoves<K, V>(s: seq<Entry<K, V>>, i: nat, now: int)
    requires DistinctKeys(s) && i < |s|
    ensures Hit(s, s[i].key, now) == s[..i] + s[i + 1..] + if Within(s[i], now) then [s[i]] else []
  {
    FindDistinct(s, i);
  }

  //////////////////////////////////////////////////////////////////////////////
  // What one call removes
  //////////////////////////////////////////////////////////////////////////////

  /** The entry for the key, and all that have been used since. */
  function Since<K(==), V>(s: seq<Entry<K, V>>, key: K): seq<Entry<K, V>> {
    s[Find(s, key)..]
  }

  /** The call leaves the entry in the cache and does not replace it. */
  predicate Stays<K(==), V>(s: Limited<K, V>, op: Op<K, V>, e: Entry<K, V>) {
    match op
    case Value(key, now) => key == e.key ==> Within(e, now)
    case Set(x) => x.key != e.key && Fits(Since(Insert(s.entries, x), e.key), s.costLimit, s.countLimit)
    case RemoveValue(key) => key != e.key
    case RemoveAll => false
    case TrimToCost(limit) => TotalCost(Since(s.entries, e.key)) <= limit
    case TrimToCount(limit) => |Since(s.entries, e.key)| <= limit
    case SetCostLimit(limit) => Fits(Since(s.entries, e.key), limit, s.countLimit)
    case SetCountLimit(limit) => Fits(Since(s.entries, e.key), s.costLimit, limit)
  }

  /** A trim keeps an entry exactly if it fits the limits together with all that have been used since. */
  lemma TrimKeeps<K, V>(s: seq<Entry<K, V>>, costLimit: int, countLimit: int, e: Entry<K, V>)
    requires Sound(s) && e in s
    ensures e in Trim(s, costLimit, countLimit) <==> Fits(Since(s, e.key), costLimit, countLimit)
  {
    var i :| 0 <= i < |s| && s[i] == e;
    FindDistinct(s, i);
    var n := TrimLongest(s, costLimit, countLimit);
    if n <= i {
      SuffixKeeps(s, n, i, costLimit, countLimit);
    } else {
      SuffixLacks(s, n, i);
    }
  }

  lemma SuffixKeeps<K, V>(s: seq<Entry<K, V>>, n: nat, i: nat, costLimit: int, countLimit: int)
    requires Sound(s) && n <= i < |s| && Fits(s[n..], costLimit, countLimit)
    ensures s[i] in s[n..] && Fits(s[i..], costLimit, countLimit)
  {
    assert s[n..][i - n] == s[i];
    SuffixCostsLess(s[n..], i - n);
    assert s[n..][i - n..] == s[i..];
  }

  lemma SuffixLacks<K, V>(s: seq<Entry<K, V>>, n: nat, i: nat)
    requires DistinctKeys(s) && i < n <= |s|
    ensures s[i] !in s[n..]
  {
    assert forall k :: 0 <= k < |s[n..]| ==> s[n..][k].key == s[n + k].key != s[i].key;
  }

  lemma DeleteKeeps<K, V>(s: seq<Entry<K, V>>, key: K, e: Entry<K, V>)
    requires DistinctKeys(s)
    ensures e in Delete(s, key) <==> e in s && e.key != key
  {
    var i, d := Find(s, key), Delete(s, key);
    DeleteDistinct(s, key);
    assert forall j :: 0 <= j < |d| ==> d[j] == s[if j < i then j else j + 1];
    if e in s && e.key != key {
      var j :| 0 <= j < |s| && s[j] == e;
      assert d[if j < i then j else j - 1] == e;
    }
  }

  lemma InsertKeeps<K, V>(s: seq<Entry<K, V>>, x: Entry<K, V>, e: Entry<K, V>)
    requires DistinctKeys(s)
    ensures e in Insert(s, x) <==> e == x || (e in s && e.key != x.key)
  {
    DeleteKeeps(s, x.key, e);
  }

  lemma HitKeeps<K, V>(s: seq<Entry<K, V>>, key: K, now: int, e: Entry<K, V>)
    requires DistinctKeys(s)
    ensures e in Hit(s, key, now) <==> e in s && (e.key == key ==> Within(e, now))
  {
    DeleteKeeps(s, key, e);
    if Find(s, key) < |s| && e in s && e.key == key { FoundIs(s, e); }
  }

  /** With distinct keys, an entry is the one that is found for its key. */
  lemma FoundIs<K, V>(s: seq<Entry<K, V>>, e: Entry<K, V>)
    requires DistinctKeys(s) && e in s
    ensures Find(s, e.key) < |s| && s[Find(s, e.key)] == e
  {
    var i :| 0 <= i < |s| && s[i] == e;
    FindDistinct(s, i);
  }

  /** A call that does not store for the key of an entry keeps the entry exactly if it stays; and it adds nothing. */
  lemma StaysExactly<K, V>(s: Limited<K, V>, op: Op<K, V>, e: Entry<K, V>)
    requires Sound(s.entries) && CostsOk(op) && !(op.Set? && op.entry.key == e.key)
    ensures e in Apply(s, op).entries <==> e in s.entries && Stays(s, op, e)
  {
    match op
    case Value(key, now) => HitKeeps(s.entries, key, now, e);
    case Set(x) =>
      InsertKeeps(s.entries, x, e);
      InsertSound(s.entries, x);
      TrimOnlyDrops(Insert(s.entries, x), s.costLimit, s.countLimit, e);
    case RemoveValue(key) => DeleteKeeps(s.entries, key, e);
    case RemoveAll =>
    case TrimToCost(limit) =>
      TrimsToOneLimit(s.entries, limit);
      TrimOnlyDrops(s.entries, limit, |s.entries|, e);
    case TrimToCount(limit) =>
      TrimsToOneLimit(s.entries, limit);
      TrimOnlyDrops(s.entries, TotalCost(s.entries), limit, e);
      SuffixCostsLess(s.entries, Find(s.entries, e.key));
    case SetCostLimit(limit) => TrimOnlyDrops(s.entries, limit, s.countLimit, e);
    case SetCountLimit(limit) => TrimOnlyDrops(s.entries, s.costLimit, limit, e);
  }

  lemma TrimOnlyDrops<K, V>(s: seq<Entry<K, V>>, costLimit: int, countLimit: int, e: Entry<K, V>)
    requires Sound(s)
    ensures e in Trim(s, costLimit, countLimit)
       <==> e in s && Fits(Since(s, e.key), costLimit, countLimit)
  {
    if e in s {
      TrimKeeps(s, costLimit, countLimit, e);
    } else {
      var n := TrimLongest(s, costLimit, countLimit);
    }
  }

  /** What is stored is kept exactly if it fits the limits on its own, and nothing else is kept for its key. */
  lemma StoredExactly<K, V>(s: Limited<K, V>, x: Entry<K, V>, e: Entry<K, V>)
    requires Sound(s.entries) && 0 <= x.cost && x.key == e.key
    ensures e in Apply(s, Set(x)).entries <==> e == x && x.cost <= s.costLimit && 1 <= s.countLimit
  {
    var t := Insert(s.entries, x);
    InsertKeeps(s.entries, x, e);
    InsertSound(s.entries, x);
    TrimOnlyDrops(t, s.costLimit, s.countLimit, e);
    if e == x {
      FindDistinct(t, |t| - 1);
      assert Since(t, x.key) == [x] && [x][1..] == [];
      assert TotalCost([x]) == x.cost + TotalCost([x][1..]);
    }
  }

  //////////////////////////////////////////////////////////////////////////////
  // Hits over a run
  //////////////////////////////////////////////////////////////////////////////

  /** Call k stores the entry, which fits the limits, and every later one up to n leaves it there. */
  predicate Survives<K(==), V(==)>(states: seq<Limited<K, V>>, ops: seq<Op<K, V>>, k: nat, n: nat, e: Entry<K, V>)
    requires k < n <= |ops| == |states| - 1
  {
    && ops[k] == Set(e) && e.cost <= states[k].costLimit && 1 <= states[k].countLimit
    && forall t :: k < t < n ==> Stays(states[t], ops[t], e)
  }

  lemma {:induction false} SurvivorHeld<K, V>(
    states: seq<Limited<K, V>>, ops: seq<Op<K, V>>, k: nat, n: nat, e: Entry<K, V>)
    requires IsRun(states, ops) && AllCostsOk(ops) && k < n <= |ops| && Survives(states, ops, k, n, e)
    ensures e in states[n].entries
  {
    if n == k + 1 {
      HeldAfter(states, ops, k, e);
    } else {
      SurvivorHeld(states, ops, k, n - 1, e);
      assert Stays(states[n - 1], ops[n - 1], e);
      HeldAfter(states, ops, n - 1, e);
    }
  }

  /** What a call stores, or leaves alone, is held after it. */
  lemma HeldAfter<K, V>(states: seq<Limited<K, V>>, ops: seq<Op<K, V>>, n: nat, e: Entry<K, V>)
    requires IsRun(states, ops) && AllCostsOk(ops) && n < |ops|
    requires if ops[n] == Set(e) then e.cost <= states[n].costLimit && 1 <= states[n].countLimit
             else e in states[n].entries && Stays(states[n], ops[n], e)
    ensures e in states[n + 1].entries
  {
    RunSound(states, ops, n);
    assert CostsOk(ops[n]);
    if ops[n] == Set(e) { StoredExactly(states[n], e, e); } else { StaysExactly(states[n], ops[n], e); }
  }

  lemma {:induction false} HeldSurvived<K, V>(
    states: seq<Limited<K, V>>, ops: seq<Op<K, V>>, n: nat, e: Entry<K, V>) returns (k: nat)
    requires IsRun(states, ops) && AllCostsOk(ops) && n <= |ops| && e in states[n].entries
    ensures k < n && Survives(states, ops, k, n, e)
  {
    HeldBefore(states, ops, n - 1, e);
    if ops[n - 1] == Set(e) {
      k := n - 1;
    } else {
      k := HeldSurvived(states, ops, n - 1, e);
      SurvivesNext(states, ops, k, n - 1, e);
    }
  }

  /** What is held after a call was stored by it, or was held before and left alone. */
  lemma HeldBefore<K, V>(states: seq<Limited<K, V>>, ops: seq<Op<K, V>>, n: nat, e: Entry<K, V>)
    requires IsRun(states, ops) && AllCostsOk(ops) && n < |ops| && e in states[n + 1].entries
    ensures if ops[n] == Set(e) then e.cost <= states[n].costLimit && 1 <= states[n].countLimit
            else e in states[n].entries && Stays(states[n], ops[n], e)
  {
    RunSound(states, ops, n);
    var op := ops[n];
    assert CostsOk(op);
    if op.Set? && op.entry.key == e.key {
      StoredExactly(states[n], op.entry, e);
    } else {
      StaysExactly(states[n], op, e);
    }
  }

  lemma SurvivesNext<K, V>(states: seq<Limited<K, V>>, ops: seq<Op<K, V>>, k: nat, n: nat, e: Entry<K, V>)
    requires k < n < |ops| == |states| - 1 && Survives(states, ops, k, n, e) && Stays(states[n], ops[n], e)
    ensures Survives(states, ops, k, n + 1, e)
  {}

  /** The entry that a call stored for the key is still there and has not expired. */
  predicate Serves<K(==), V(==)>(
    states: seq<Limited<K, V>>, ops: seq<Op<K, V>>, k: nat, n: nat, key: K, now: int, v: V)
    requires k < n <= |ops| == |states| - 1
  {
    && ops[k].Set? && ops[k].entry.key == key && ops[k].entry.value == v
    && Within(ops[k].entry, now) && Survives(states, ops, k, n, ops[k].entry)
  }

  /**
   In every run, whatever the limits, trims and changes of limits: a lookup gives a value exactly if an
   earlier call stored it for the key with an expiration that has not passed, and every call since then
   has left it alone: the key was not stored again, removed or looked up too late, and at every trim the
   entry fitted the limits together with all entries that had been used since.
   */
  lemma HitsExactly<K, V>(states: seq<Limited<K, V>>, ops: seq<Op<K, V>>, n: nat, key: K, now: int, v: V)
    requires IsRun(states, ops) && AllCostsOk(ops) && n <= |ops|
    ensures ValueOf(states[n].entries, key, now) == Some(v)
       <==> exists k :: 0 <= k < n && Serves(states, ops, k, n, key, now, v)
  {
    var s := states[n].entries;
    RunSound(states, ops, n);
    if ValueOf(s, key, now) == Some(v) {
      var e := s[Find(s, key)];
      LookupExactly(s, e, now);
      var k := HeldSurvived(states, ops, n, e);
      assert Serves(states, ops, k, n, key, now, v);
    }
    forall k | 0 <= k < n && Serves(states, ops, k, n, key, now, v) ensures ValueOf(s, key, now) == Some(v) {
      SurvivorHeld(states, ops, k, n, ops[k].entry);
      LookupExactly(s, ops[k].entry, now);
    }
  }

  //////////////////////////////////////////////////////////////////////////////
  // The order of use
  //////////////////////////////////////////////////////////////////////////////

  predicate Uses<K(==), V>(op: Op<K, V>, key: K) {
    (op.Value? && op.key == key) || (op.Set? && op.entry.key == key)
  }

  /** The number of the last of the first n calls that looks the key up or stores for it; 0 when there is none. */
  function LastUse<K(==), V>(ops: seq<Op<K, V>>, n: nat, key: K): (k: nat)
    requires n <= |ops|
    ensures k <= n
  {
    if n == 0 then 0 else if Uses(ops[n - 1], key) then n else LastUse(ops, n - 1, key)
  }

  /** The entries are in the order of the last calls that used their keys. */
  predicate InOrderOfUse<K(==), V>(s: seq<Entry<K, V>>, ops: seq<Op<K, V>>, n: nat)
    requires n <= |ops|
  {
    forall i, j :: 0 <= i < j < |s| ==> LastUse(ops, n, s[i].key) < LastUse(ops, n, s[j].key)
  }

  lemma OrderIsDistinct<K, V>(s: seq<Entry<K, V>>, ops: seq<Op<K, V>>, n: nat)
    requires n <= |ops| && InOrderOfUse(s, ops, n)
    ensures DistinctKeys(s)
  {}

  /** A call that uses no key of the list, or takes some entries out of it, keeps the order. */
  lemma OrderKept<K, V>(s: seq<Entry<K, V>>, ops: seq<Op<K, V>>, n: nat)
    requires n < |ops| && InOrderOfUse(s, ops, n)
    requires forall i :: 0 <= i < |s| ==> !Uses(ops[n], s[i].key)
    ensures InOrderOfUse(s, ops, n + 1)
  {}

  lemma OrderWithout<K, V>(s: seq<Entry<K, V>>, key: K, ops: seq<Op<K, V>>, n: nat)
    requires n <= |ops| && InOrderOfUse(s, ops, n)
    ensures InOrderOfUse(Delete(s, key), ops, n)
    ensures forall j :: 0 <= j < |Delete(s, key)| ==> Delete(s, key)[j].key != key
  {
    OrderIsDistinct(s, ops, n);
    DeleteDistinct(s, key);
    forall i, j | 0 <= i < j < |Delete(s, key)|
      ensures LastUse(ops, n, Delete(s, key)[i].key) < LastUse(ops, n, Delete(s, key)[j].key)
    {
      var k := Find(s, key);
      assert Delete(s, key)[i] == s[if i < k then i else i + 1];
      assert Delete(s, key)[j] == s[if j < k then j else j + 1];
    }
  }

  /** What the call uses goes to the end. */
  lemma OrderWith<K, V>(s: seq<Entry<K, V>>, e: Entry<K, V>, ops: seq<Op<K, V>>, n: nat)
    requires n < |ops| && InOrderOfUse(s, ops, n) && Uses(ops[n], e.key)
    ensures InOrderOfUse(Delete(s, e.key) + [e], ops, n + 1)
  {
    var d := Delete(s, e.key);
    OrderWithout(s, e.key, ops, n);
    OrderKept(d, ops, n);
    forall i | 0 <= i < |d| ensures LastUse(ops, n + 1, d[i].key) < n + 1 {}
  }

  lemma OrderTrimmed<K, V>(s: seq<Entry<K, V>>, costLimit: int, countLimit: int, ops: seq<Op<K, V>>, n: nat)
    requires n <= |ops| && InOrderOfUse(s, ops, n)
    ensures InOrderOfUse(Trim(s, costLimit, countLimit), ops, n)
  {
    var k := TrimSuffix(s, costLimit, countLimit);
  }

  lemma TrimSuffix<K, V>(s: seq<Entry<K, V>>, costLimit: int, countLimit: int) returns (n: nat)
    ensures n <= |s| && Trim(s, costLimit, countLimit) == s[n..]
  {
    var a := TrimCostExact(s, costLimit);
    TrimCountExact(s[a..], countLimit);
    var b :| 0 <= b <= |s| - a && TrimCount(s[a..], countLimit) == s[a..][b..];
    n := a + b;
    DroppedTwice(s, a, b);
  }

  lemma DroppedTwice<T>(s: seq<T>, a: nat, b: nat)
    requires a + b <= |s|
    ensures s[a..][b..] == s[a + b..]
  {}

  lemma OrderAfterLookup<K, V>(s: seq<Entry<K, V>>, key: K, now: int, ops: seq<Op<K, V>>, n: nat)
    requires n < |ops| && InOrderOfUse(s, ops, n) && ops[n] == Value(key, now)
    ensures InOrderOfUse(Hit(s, key, now), ops, n + 1)
  {
    var i := Find(s, key);
    OrderWithout(s, key, ops, n);
    OrderKept(Delete(s, key), ops, n);
    if i < |s| { OrderWith(s, s[i], ops, n); }
  }

  lemma OrderAfter<K, V>(s: Limited<K, V>, ops: seq<Op<K, V>>, n: nat)
    requires n < |ops| && InOrderOfUse(s.entries, ops, n)
    ensures InOrderOfUse(Apply(s, ops[n]).entries, ops, n + 1)
  {
    match ops[n]
    case Value(key, now) => OrderAfterLookup(s.entries, key, now, ops, n);
    case Set(e) =>
      OrderWith(s.entries, e, ops, n);
      OrderTrimmed(Insert(s.entries, e), s.costLimit, s.countLimit, ops, n + 1);
    case RemoveValue(key) => OrderKept(s.entries, ops, n); OrderWithout(s.entries, key, ops, n + 1);
    case RemoveAll =>
    case TrimToCost(limit) =>
      OrderKept(s.entries, ops, n);
      TrimsToOneLimit(s.entries, limit);
      OrderTrimmed(s.entries, limit, |s.entries|, ops, n + 1);
    case TrimToCount(limit) =>
      OrderKept(s.entries, ops, n);
      TrimsToOneLimit(s.entries, limit);
      OrderTrimmed(s.entries, TotalCost(s.entries), limit, ops, n + 1);
    case SetCostLimit(limit) => OrderKept(s.entries, ops, n); OrderTrimmed(s.entries, limit, s.countLimit, ops, n + 1);
    case SetCountLimit(limit) => OrderKept(s.entries, ops, n); OrderTrimmed(s.entries, s.costLimit, limit, ops, n + 1);
  }

  /** In every run, the list is in the order in which the keys were last stored or looked up. */
  lemma {:induction false} OrderIsUse<K, V>(states: seq<Limited<K, V>>, ops: seq<Op<K, V>>, n: nat)
    requires IsRun(states, ops) && n <= |ops|
    ensures InOrderOfUse(states[n].entries, ops, n)
  {
    if n != 0 {
      OrderIsUse(states, ops, n - 1);
      OrderAfter(states[n - 1], ops, n - 1);
    }
  }

  /**
   Storing evicts the least recently used entries: whatever is gone was used less recently than all
   that is left.
   */
  lemma EvictsLeastRecent<K, V>(
    states: seq<Limited<K, V>>, ops: seq<Op<K, V>>, n: nat, gone: Entry<K, V>, left: Entry<K, V>)
    requires IsRun(states, ops) && n < |ops| && ops[n].Set? && gone.key != ops[n].entry.key
    requires gone in states[n].entries && gone !in states[n + 1].entries && left in states[n + 1].entries
    ensures LastUse(ops, n + 1, gone.key) < LastUse(ops, n + 1, left.key)
  {
    var s, e := states[n], ops[n].entry;
    OrderIsUse(states, ops, n);
    OrderIsDistinct(s.entries, ops, n);
    var t := Insert(s.entries, e);
    OrderWith(s.entries, e, ops, n);
    InsertKeeps(s.entries, e, gone);
    var k := TrimSuffix(t, s.costLimit, s.countLimit);
    DroppedIsOlder(t, k, ops, n + 1, gone, left);
  }

  lemma DroppedIsOlder<K, V>(
    s: seq<Entry<K, V>>, k: nat, ops: seq<Op<K, V>>, n: nat, gone: Entry<K, V>, left: Entry<K, V>)
    requires n <= |ops| && InOrderOfUse(s, ops, n) && k <= |s|
    requires gone in s && gone !in s[k..] && left in s[k..]
    ensures LastUse(ops, n, gone.key) < LastUse(ops, n, left.key)
  {
    var i :| 0 <= i < |s| && s[i] == gone;
    var j :| 0 <= j < |s[k..]| && s[k..][j] == left;
    forall n | k <= n < |s| ensures s[n] in s[k..] {
      assert s[k..][n - k] == s[n];
    }
    assert s[k + j] == left;
  }
}
