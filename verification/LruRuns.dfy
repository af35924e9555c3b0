/** Runs of the memory cache: which hits a change of the limits may lose, and that the limits hold. */
module LruRuns {
  import opened Lru
  import opened Subsequences

  /** The public operations; those that trim or set a limit are named after it. */
  datatype Op<K, V> =
    | Value(key: K, now: int)
    | Set(entry: Entry<K, V>)
    | RemoveValue(key: K)
    | RemoveAll
    | TrimToCost(limit: int)
    | TrimToCount(limit: int)
    | SetCostLimit(limit: int)
    | SetCountLimit(limit: int)

  /** The state of a cache: what it holds, and its limits. */
  datatype Limited<K, V> = Limited(entries: seq<Entry<K, V>>, costLimit: int, countLimit: int)

  function Apply<K(==), V>(s: Limited<K, V>, op: Op<K, V>): Limited<K, V> {
    match op
    case Value(key, now) => s.(entries := Hit(s.entries, key, now))
    case Set(e) => s.(entries := Trim(Insert(s.entries, e), s.costLimit, s.countLimit))
    case RemoveValue(key) => s.(entries := Delete(s.entries, key))
    case RemoveAll => s.(entries := [])
    case TrimToCost(limit) => s.(entries := TrimCost(s.entries, limit))
    case TrimToCount(limit) => s.(entries := TrimCount(s.entries, limit))
    case SetCostLimit(limit) => Limited(Trim(s.entries, limit, s.countLimit), limit, s.countLimit)
    case SetCountLimit(limit) => Limited(Trim(s.entries, s.costLimit, limit), s.costLimit, limit)
  }

  /** The states of a cache that starts empty, before and after each of the operations. */
  predicate IsRun<K(==), V(==)>(states: seq<Limited<K, V>>, ops: seq<Op<K, V>>) {
    && |states| == |ops| + 1 && states[0].entries == []
    && forall i :: 0 <= i < |ops| ==> states[i + 1] == Apply(states[i], ops[i])
  }

  //////////////////////////////////////////////////////////////////////////////
  // Entries
  //////////////////////////////////////////////////////////////////////////////

  lemma FindDistinct<K, V>(s: seq<Entry<K, V>>, i: nat)
    requires DistinctKeys(s) && i < |s|
    ensures Find(s, s[i].key) == i
  {}

  /** What the smaller list holds for a key, the larger one holds too. */
  lemma SubFind<K, V>(a: seq<Entry<K, V>>, b: seq<Entry<K, V>>, key: K)
    requires Sub(a, b) && DistinctKeys(b) && Find(a, key) < |a|
    ensures Find(b, key) < |b| && b[Find(b, key)] == a[Find(a, key)]
  {
    var j := SubMember(a, b, Find(a, key));
    FindDistinct(b, j);
  }

  lemma DeleteFront<K, V>(s: seq<Entry<K, V>>, key: K)
    requires s != []
    ensures Delete(s, key) == if s[0].key == key then s[1..] else [s[0]] + Delete(s[1..], key)
  {
    if s[0].key != key {
      var i := Find(s[1..], key);
      assert Find(s, key) == i + 1;
      if i < |s[1..]| {
        assert s[..i + 1] + s[i + 2..] == [s[0]] + (s[1..][..i] + s[1..][i + 1..]);
      }
    }
  }

  lemma {:induction false} SubDelete<K, V>(a: seq<Entry<K, V>>, b: seq<Entry<K, V>>, key: K)
    requires Sub(a, b) && DistinctKeys(b)
    ensures Sub(Delete(a, key), Delete(b, key))
    decreases |b|
  {
    if a != [] {
      DeleteFront(b, key);
      if a[0] == b[0] {
        DeleteFront(a, key);
        SubDelete(a[1..], b[1..], key);
        if a[0].key != key { SubBoth(Delete(a[1..], key), Delete(b[1..], key), a[0]); }
      } else if b[0].key == key {
        DeleteAbsent(a, b, key);
      } else {
        SubDelete(a, b[1..], key);
        SubPrepend(Delete(a, key), Delete(b[1..], key), b[0]);
      }
    }
  }

  lemma DeleteAbsent<K, V>(a: seq<Entry<K, V>>, b: seq<Entry<K, V>>, key: K)
    requires b != [] && Sub(a, b[1..]) && DistinctKeys(b) && b[0].key == key
    ensures Delete(a, key) == a
  {
    assert forall k :: 0 <= k < |b[1..]| ==> b[1..][k].key != key;
    if Find(a, key) < |a| {
      var j := SubMember(a, b[1..], Find(a, key));
    }
  }

  lemma DeleteDistinct<K, V>(s: seq<Entry<K, V>>, key: K)
    requires DistinctKeys(s)
    ensures DistinctKeys(Delete(s, key)) && Find(Delete(s, key), key) == |Delete(s, key)|
    ensures |Delete(s, key)| == if Find(s, key) < |s| then |s| - 1 else |s|
  {
    var i, d := Find(s, key), Delete(s, key);
    forall j | 0 <= j < |d| ensures d[j].key != key && d[j] == s[if j < i then j else j + 1] {
      if i < |s| { assert s[i].key == key; }
    }
  }

  lemma InsertDistinct<K, V>(s: seq<Entry<K, V>>, e: Entry<K, V>)
    requires DistinctKeys(s)
    ensures DistinctKeys(Insert(s, e))
  {
    DeleteDistinct(s, e.key);
    var d := Delete(s, e.key);
    assert forall i :: 0 <= i < |d| ==> d[i].key != e.key;
  }

  //////////////////////////////////////////////////////////////////////////////
  // What every run keeps
  //////////////////////////////////////////////////////////////////////////////

  predicate CostsOk<K, V>(op: Op<K, V>) {
    op.Set? ==> 0 <= op.entry.cost
  }

  predicate AllCostsOk<K, V>(ops: seq<Op<K, V>>) {
    forall i :: 0 <= i < |ops| ==> CostsOk(ops[i])
  }

  predicate LimitsOk<K, V>(op: Op<K, V>) {
    op.SetCostLimit? || op.SetCountLimit? ==> 0 <= op.limit
  }

  predicate Sound<K(==), V>(s: seq<Entry<K, V>>) {
    DistinctKeys(s) && NonNegative(s)
  }

  predicate WithinLimits<K(==), V>(s: Limited<K, V>) {
    Sound(s.entries) && Fits(s.entries, s.costLimit, s.countLimit)
  }

  lemma DeleteSound<K, V>(s: seq<Entry<K, V>>, key: K)
    requires Sound(s)
    ensures Sound(Delete(s, key)) && |Delete(s, key)| <= |s| && TotalCost(Delete(s, key)) <= TotalCost(s)
  {
    var i := Find(s, key);
    DeleteDistinct(s, key);
    if i < |s| { TotalWithout(s, i); }
  }

  lemma InsertSound<K, V>(s: seq<Entry<K, V>>, e: Entry<K, V>)
    requires Sound(s) && 0 <= e.cost
    ensures Sound(Insert(s, e))
  {
    InsertDistinct(s, e);
    DeleteSound(s, e.key);
  }

  lemma HitSound<K, V>(s: seq<Entry<K, V>>, key: K, now: int)
    requires Sound(s)
    ensures Sound(Hit(s, key, now)) && |Hit(s, key, now)| <= |s| && TotalCost(Hit(s, key, now)) <= TotalCost(s)
  {
    var i := Find(s, key);
    DeleteSound(s, key);
    if i < |s| { MovedSound(s, i); }
  }

  lemma MovedSound<K, V>(s: seq<Entry<K, V>>, i: nat)
    requires Sound(s) && i < |s| && Find(s, s[i].key) == i
    ensures var moved := Delete(s, s[i].key) + [s[i]];
            Sound(moved) && |moved| == |s| && TotalCost(moved) == TotalCost(s)
  {
    InsertSound(s, s[i]);
    TotalWithout(s, i);
    TotalAppend(Delete(s, s[i].key), s[i]);
  }

  lemma TrimSound<K, V>(s: seq<Entry<K, V>>, costLimit: int, countLimit: int)
    requires Sound(s)
    ensures var t := Trim(s, costLimit, countLimit);
            && Sound(t) && |t| <= |s| && TotalCost(t) <= TotalCost(s)
            && (0 <= costLimit && 0 <= countLimit ==> Fits(t, costLimit, countLimit))
  {
    var n := TrimLongest(s, costLimit, countLimit);
    SuffixCostsLess(s, n);
    assert s[|s|..] == [];
  }

  lemma OpKeeps<K, V>(s: Limited<K, V>, op: Op<K, V>)
    requires Sound(s.entries) && CostsOk(op)
    ensures Sound(Apply(s, op).entries)
    ensures WithinLimits(s) && 0 <= s.costLimit && 0 <= s.countLimit && LimitsOk(op) ==> WithinLimits(Apply(s, op))
  {
    match op
    case Value(key, now) => HitSound(s.entries, key, now);
    case Set(e) => InsertSound(s.entries, e); TrimSound(Insert(s.entries, e), s.costLimit, s.countLimit);
    case RemoveValue(key) => DeleteSound(s.entries, key);
    case RemoveAll =>
    case TrimToCost(limit) => TrimsToOneLimit(s.entries, limit); TrimSound(s.entries, limit, |s.entries|);
    case TrimToCount(limit) => TrimsToOneLimit(s.entries, limit); TrimSound(s.entries, TotalCost(s.entries), limit);
    case SetCostLimit(limit) => TrimSound(s.entries, limit, s.countLimit);
    case SetCountLimit(limit) => TrimSound(s.entries, s.costLimit, limit);
  }

  /** In every run with costs and limits that are not negative, both limits hold all the time. */
  lemma {:induction false} LimitsHold<K, V>(states: seq<Limited<K, V>>, ops: seq<Op<K, V>>, i: nat)
    requires IsRun(states, ops) && i <= |ops| && 0 <= states[0].costLimit && 0 <= states[0].countLimit
    requires AllCostsOk(ops) && forall k :: 0 <= k < |ops| ==> LimitsOk(ops[k])
    ensures WithinLimits(states[i]) && 0 <= states[i].costLimit && 0 <= states[i].countLimit
  {
    if i != 0 {
      LimitsHold(states, ops, i - 1);
      OpKeeps(states[i - 1], ops[i - 1]);
    }
  }

  lemma {:induction false} RunSound<K, V>(states: seq<Limited<K, V>>, ops: seq<Op<K, V>>, i: nat)
    requires IsRun(states, ops) && AllCostsOk(ops) && i <= |ops|
    ensures Sound(states[i].entries)
  {
    if i != 0 {
      RunSound(states, ops, i - 1);
      OpKeeps(states[i - 1], ops[i - 1]);
    }
  }

  //////////////////////////////////////////////////////////////////////////////
  // Two caches with different limits
  //////////////////////////////////////////////////////////////////////////////

  /** Hits and removals keep one list part of the other. */
  lemma SubHit<K, V>(a: seq<Entry<K, V>>, b: seq<Entry<K, V>>, key: K, now: int)
    requires Sub(a, b) && DistinctKeys(b)
    ensures Sub(Hit(a, key, now), Hit(b, key, now))
  {
    SubDelete(a, b, key);
    if Find(a, key) < |a| {
      SubFind(a, b, key);
      var e := a[Find(a, key)];
      if !e.Expired(now) { SubAppend(Delete(a, key), Delete(b, key), e); }
    } else if Find(b, key) < |b| && !b[Find(b, key)].Expired(now) {
      SubAppend(Delete(a, key), Delete(b, key), b[Find(b, key)]);
    }
  }

  lemma SubInsert<K, V>(a: seq<Entry<K, V>>, b: seq<Entry<K, V>>, e: Entry<K, V>)
    requires Sub(a, b) && DistinctKeys(b)
    ensures Sub(Insert(a, e), Insert(b, e))
  {
    SubDelete(a, b, e.key);
    SubAppend(Delete(a, e.key), Delete(b, e.key), e);
  }

  lemma FindBehind<K, V>(a: seq<Entry<K, V>>, b: seq<Entry<K, V>>, i: nat)
    requires b != [] && Sub(a, b[1..]) && DistinctKeys(b) && i < |a|
    ensures Find(b, a[i].key) == Find(b[1..], a[i].key) + 1
  {
    var k := SubMember(a, b[1..], i);
    assert b[k + 1] == a[i] && b[0].key != a[i].key;
  }

  lemma {:induction false} SubSuffix<K, V>(a: seq<Entry<K, V>>, b: seq<Entry<K, V>>, i: nat, j: nat)
    requires Sub(a, b) && DistinctKeys(b) && i < |a| && j <= Find(b, a[i].key)
    ensures Sub(a[i..], b[j..])
    decreases |b|
  {
    if i == 0 && a[0] == b[0] {
      assert a[0..] == a && b[0..] == b;
    } else {
      var a', i' := if a[0] == b[0] then a[1..] else a, if a[0] == b[0] then i - 1 else i;
      assert a'[i'..] == a[i..] && a'[i'] == a[i];
      FindBehind(a', b, i');
      if j == 0 {
        SubSuffix(a', b[1..], i', 0);
        SubPrepend(a[i..], b[1..], b[0]);
        assert b[1..][0..] == b[1..] && b[0..] == [b[0]] + b[1..];
      } else {
        SubSuffix(a', b[1..], i', j - 1);
        assert b[1..][j - 1..] == b[j..];
      }
    }
  }

  /** A suffix of a is part of a suffix of b exactly if that one begins no later than the first entry of a's. */
  lemma SubSuffixExact<K, V>(a: seq<Entry<K, V>>, b: seq<Entry<K, V>>, i: nat, j: nat)
    requires Sub(a, b) && DistinctKeys(b) && i < |a| && j <= |b|
    ensures Find(b, a[i].key) < |b|
    ensures Sub(a[i..], b[j..]) <==> j <= Find(b, a[i].key)
  {
    var k := SubMember(a, b, i);
    FindDistinct(b, k);
    if j <= k {
      SubSuffix(a, b, i, j);
    } else if Sub(a[i..], b[j..]) {
      var l := SubMember(a[i..], b[j..], 0);
      FindDistinct(b, j + l);
    }
  }

  /**
   When a is trimmed to c and m, and b to d and n: all that b holds from the oldest entry on that a keeps
   fits the limits of b.
   */
  predicate Keeps<K(==), V>(a: seq<Entry<K, V>>, c: int, m: int, b: seq<Entry<K, V>>, d: int, n: int) {
    var kept := Trim(a, c, m);
    kept == [] || Fits(b[Find(b, kept[0].key)..], d, n)
  }

  lemma TrimKeepsExactly<K, V>(a: seq<Entry<K, V>>, c: int, m: int, b: seq<Entry<K, V>>, d: int, n: int)
    requires Sub(a, b) && Sound(a) && Sound(b)
    ensures Sub(Trim(a, c, m), Trim(b, d, n)) <==> Keeps(a, c, m, b, d, n)
  {
    var i := TrimLongest(a, c, m);
    var j := TrimLongest(b, d, n);
    if i < |a| {
      SubSuffixExact(a, b, i, j);
      var k := Find(b, a[i].key);
      if j <= k {
        SuffixCostsLess(b[j..], k - j);
        assert b[j..][k - j..] == b[k..];
      }
    } else {
      assert a[i..] == [];
    }
  }

  /** The call leaves the oldest entry that cache a keeps in cache b, as can be told from their contents before it. */
  predicate KeepsOldest<K(==), V>(a: Limited<K, V>, b: Limited<K, V>, op: Op<K, V>) {
    var s, t := a.entries, b.entries;
    match op
    case Set(e) => Keeps(Insert(s, e), a.costLimit, a.countLimit, Insert(t, e), b.costLimit, b.countLimit)
    case TrimToCost(limit) => Keeps(s, limit, |s|, t, limit, |t|)
    case TrimToCount(limit) => Keeps(s, TotalCost(s), limit, t, TotalCost(t), limit)
    case SetCostLimit(limit) => Keeps(s, limit, a.countLimit, t, limit, b.countLimit)
    case SetCountLimit(limit) => Keeps(s, a.costLimit, limit, t, b.costLimit, limit)
    case _ => true
  }

  lemma StepExact<K, V>(a: Limited<K, V>, b: Limited<K, V>, op: Op<K, V>)
    requires Sub(a.entries, b.entries) && Sound(a.entries) && Sound(b.entries) && CostsOk(op)
    ensures Sub(Apply(a, op).entries, Apply(b, op).entries) <==> KeepsOldest(a, b, op)
  {
    var s, t := a.entries, b.entries;
    match op
    case Value(key, now) => SubHit(s, t, key, now);
    case Set(e) =>
      SubInsert(s, t, e);
      InsertSound(s, e);
      InsertSound(t, e);
      TrimKeepsExactly(Insert(s, e), a.costLimit, a.countLimit, Insert(t, e), b.costLimit, b.countLimit);
    case RemoveValue(key) => SubDelete(s, t, key);
    case RemoveAll =>
    case TrimToCost(limit) =>
      TrimsToOneLimit(s, limit);
      TrimsToOneLimit(t, limit);
      TrimKeepsExactly(s, limit, |s|, t, limit, |t|);
    case TrimToCount(limit) =>
      TrimsToOneLimit(s, limit);
      TrimsToOneLimit(t, limit);
      TrimKeepsExactly(s, TotalCost(s), limit, t, TotalCost(t), limit);
    case SetCostLimit(limit) => TrimKeepsExactly(s, limit, a.countLimit, t, limit, b.countLimit);
    case SetCountLimit(limit) => TrimKeepsExactly(s, a.costLimit, limit, t, b.costLimit, limit);
  }

  predicate AlwaysKeepsOldest<K(==), V>(small: seq<Limited<K, V>>, large: seq<Limited<K, V>>, ops: seq<Op<K, V>>)
    requires |small| == |large| == |ops| + 1
  {
    forall i :: 0 <= i < |ops| ==> KeepsOldest(small[i], large[i], ops[i])
  }

  /**
   The same calls on two caches, whatever their limits: the first one holds a part of what the second one
   holds, in the same order and all the time, exactly if every call that trims leaves the oldest entry
   that the first one keeps in the second one.
   */
  lemma InclusionExactly<K, V>(small: seq<Limited<K, V>>, large: seq<Limited<K, V>>, ops: seq<Op<K, V>>)
    requires IsRun(small, ops) && IsRun(large, ops) && AllCostsOk(ops)
    ensures (forall i :: 0 <= i <= |ops| ==> Sub(small[i].entries, large[i].entries))
       <==> AlwaysKeepsOldest(small, large, ops)
  {
    if forall i :: 0 <= i <= |ops| ==> Sub(small[i].entries, large[i].entries) {
      forall i | 0 <= i < |ops| ensures KeepsOldest(small[i], large[i], ops[i]) {
        assert Sub(small[i + 1].entries, large[i + 1].entries);
        RunStepExact(small, large, ops, i);
      }
    }
    if AlwaysKeepsOldest(small, large, ops) {
      forall i | 0 <= i <= |ops| ensures Sub(small[i].entries, large[i].entries) {
        KeptIncluded(small, large, ops, i);
      }
    }
  }

  lemma {:induction false} KeptIncluded<K, V>(
    small: seq<Limited<K, V>>, large: seq<Limited<K, V>>, ops: seq<Op<K, V>>, i: nat)
    requires IsRun(small, ops) && IsRun(large, ops) && AllCostsOk(ops) && i <= |ops|
    requires AlwaysKeepsOldest(small, large, ops)
    ensures Sub(small[i].entries, large[i].entries)
  {
    if i != 0 {
      KeptIncluded(small, large, ops, i - 1);
      RunStepExact(small, large, ops, i - 1);
    }
  }

  lemma RunStepExact<K, V>(small: seq<Limited<K, V>>, large: seq<Limited<K, V>>, ops: seq<Op<K, V>>, i: nat)
    requires IsRun(small, ops) && IsRun(large, ops) && AllCostsOk(ops) && i < |ops|
    requires Sub(small[i].entries, large[i].entries)
    ensures Sub(small[i + 1].entries, large[i + 1].entries) <==> KeepsOldest(small[i], large[i], ops[i])
  {
    RunSound(small, ops, i);
    RunSound(large, ops, i);
    StepExact(small[i], large[i], ops[i]);
  }

  /** So every hit in the first cache is a hit, with the same value, in the second one. */
  lemma HitsCarryOver<K, V>(a: seq<Entry<K, V>>, b: seq<Entry<K, V>>, key: K, now: int)
    requires Sub(a, b) && DistinctKeys(b) && ValueOf(a, key, now).Some?
    ensures ValueOf(b, key, now) == ValueOf(a, key, now)
  {
    SubFind(a, b, key);
  }

  //////////////////////////////////////////////////////////////////////////////
  // Two caches that differ in their count limits
  //////////////////////////////////////////////////////////////////////////////

  /** Only the count limit makes a difference: no other trims, and the cost limit is not binding. */
  predicate CountOnly<K(==), V>(s: Limited<K, V>, op: Op<K, V>) {
    match op
    case Set(e) => TotalCost(Insert(s.entries, e)) <= s.costLimit
    case TrimToCost(_) => false
    case TrimToCount(_) => false
    case SetCostLimit(_) => false
    case SetCountLimit(_) => false
    case _ => true
  }

  /** The cache that may hold fewer entries holds some of those of the other one, in the same order. */
  predicate Included<K(==), V(==)>(a: Limited<K, V>, b: Limited<K, V>) {
    && Sub(a.entries, b.entries) && DistinctKeys(a.entries) && DistinctKeys(b.entries)
    && |a.entries| <= a.countLimit <= b.countLimit && |b.entries| <= b.countLimit
    && |b.entries| - |a.entries| <= b.countLimit - a.countLimit
  }

  lemma HitIncluded<K, V>(a: Limited<K, V>, b: Limited<K, V>, key: K, now: int)
    requires Included(a, b)
    ensures Included(Apply(a, Value(key, now)), Apply(b, Value(key, now)))
  {
    var s, t := a.entries, b.entries;
    SubHit(s, t, key, now);
    HitDistinct(s, key, now);
    HitDistinct(t, key, now);
    if Find(s, key) < |s| { SubFind(s, t, key); }
  }

  lemma HitDistinct<K, V>(s: seq<Entry<K, V>>, key: K, now: int)
    requires DistinctKeys(s)
    ensures DistinctKeys(Hit(s, key, now))
    ensures var i := Find(s, key);
            |Hit(s, key, now)| == if i < |s| && s[i].Expired(now) then |s| - 1 else |s|
  {
    var i := Find(s, key);
    DeleteDistinct(s, key);
    if i < |s| { InsertDistinct(s, s[i]); }
  }

  lemma DeleteIncluded<K, V>(a: Limited<K, V>, b: Limited<K, V>, key: K)
    requires Included(a, b)
    ensures Included(Apply(a, RemoveValue(key)), Apply(b, RemoveValue(key)))
  {
    var s, t := a.entries, b.entries;
    SubDelete(s, t, key);
    DeleteDistinct(s, key);
    DeleteDistinct(t, key);
    if Find(s, key) < |s| { SubFind(s, t, key); }
  }

  lemma SetIncluded<K, V>(a: Limited<K, V>, b: Limited<K, V>, e: Entry<K, V>)
    requires Included(a, b) && CountOnly(a, Set(e)) && CountOnly(b, Set(e))
    ensures Included(Apply(a, Set(e)), Apply(b, Set(e)))
  {
    var s, t := a.entries, b.entries;
    var s', t' := Insert(s, e), Insert(t, e);
    SubInsert(s, t, e);
    InsertDistinct(s, e);
    InsertDistinct(t, e);
    if Find(s, e.key) < |s| { SubFind(s, t, e.key); }
    TrimOne(s', a.countLimit);
    TrimOne(t', b.countLimit);
    if |s'| > a.countLimit { SubDropFirst(s', t'); }
    if |t'| > b.countLimit { SubDropBoth(s', t'); }
  }

  /** A set overshoots the limit by one entry at most. */
  lemma TrimOne<K, V>(s: seq<Entry<K, V>>, limit: nat)
    requires s != [] && |s| <= limit + 1
    ensures TrimCount(s, limit) == if |s| > limit then s[1..] else s
  {
    TrimCountExact(s, limit);
    assert s[0..] == s;
  }

  /**
   The same calls on two caches that differ only in their count limits, with a cost limit that is not
   binding: the one with the smaller limit always holds a part of what the other one holds, in the same
   order, so raising the limit never loses a hit.
   */
  lemma {:induction false} Inclusion<K, V>(
    small: seq<Limited<K, V>>, large: seq<Limited<K, V>>, ops: seq<Op<K, V>>, i: nat)
    requires IsRun(small, ops) && IsRun(large, ops) && i <= |ops|
    requires 0 <= small[0].countLimit <= large[0].countLimit
    requires forall k :: 0 <= k < |ops| ==> CountOnly(small[k], ops[k]) && CountOnly(large[k], ops[k])
    ensures Included(small[i], large[i])
    ensures forall key, now :: ValueOf(small[i].entries, key, now).Some? ==>
              ValueOf(large[i].entries, key, now) == ValueOf(small[i].entries, key, now)
  {
    if i != 0 {
      Inclusion(small, large, ops, i - 1);
      var a, b, op := small[i - 1], large[i - 1], ops[i - 1];
      assert CountOnly(a, op) && CountOnly(b, op);
      match op
      case Value(key, now) => HitIncluded(a, b, key, now);
      case Set(e) => SetIncluded(a, b, e);
      case RemoveValue(key) => DeleteIncluded(a, b, key);
      case _ =>
    }
    forall key, now | ValueOf(small[i].entries, key, now).Some?
      ensures ValueOf(large[i].entries, key, now) == ValueOf(small[i].entries, key, now)
    {
      HitsCarryOver(small[i].entries, large[i].entries, key, now);
    }
  }
}
