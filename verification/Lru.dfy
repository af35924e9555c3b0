/** The contents of the memory cache as a sequence of entries, least recently used first. */
module Lru {
  import opened Basics

  datatype Entry<K, V> = Entry(value: V, key: K, cost: int, expiration: Option<int>)
  {
    predicate Expired(now: int) {
      expiration.Some? && expiration.value < now
    }
  }

  function TotalCost<K, V>(s: seq<Entry<K, V>>): int {
    if s == [] then 0 else s[0].cost + TotalCost(s[1..])
  }

  lemma {:induction false} TotalWithout<K, V>(s: seq<Entry<K, V>>, k: nat)
    requires k < |s|
    ensures TotalCost(s[..k] + s[k + 1..]) == TotalCost(s) - s[k].cost
  {
    if k == 0 {
      assert s[..0] + s[1..] == s[1..];
    } else {
      TotalWithout(s[1..], k - 1);
      assert s[..k] + s[k + 1..] == [s[0]] + (s[1..][..k - 1] + s[1..][k..]);
    }
  }

  lemma {:induction false} TotalAppend<K, V>(s: seq<Entry<K, V>>, e: Entry<K, V>)
    ensures TotalCost(s + [e]) == TotalCost(s) + e.cost
  {
    if s == [] {
      assert s + [e] == [e] && [e][1..] == [];
    } else {
      TotalAppend(s[1..], e);
      assert (s + [e])[1..] == s[1..] + [e];
    }
  }

  predicate DistinctKeys<K(==), V>(s: seq<Entry<K, V>>) {
    forall i, j :: 0 <= i < j < |s| ==> s[i].key != s[j].key
  }

  /** The position of the entry for the key, or the length when there is none. */
  function Find<K(==), V>(s: seq<Entry<K, V>>, key: K): (i: nat)
    ensures i <= |s| && (i < |s| ==> s[i].key == key)
    ensures forall j :: 0 <= j < i ==> s[j].key != key
  {
    if s == [] || s[0].key == key then 0 else 1 + Find(s[1..], key)
  }

  function Delete<K(==), V>(s: seq<Entry<K, V>>, key: K): seq<Entry<K, V>> {
    var i := Find(s, key);
    if i < |s| then s[..i] + s[i + 1..] else s
  }

  /** A hit makes its entry the most recently used; an expired entry is removed instead. */
  function Hit<K(==), V>(s: seq<Entry<K, V>>, key: K, now: int): seq<Entry<K, V>> {
    var i := Find(s, key);
    if i == |s| then s
    else if s[i].Expired(now) then Delete(s, key)
    else Delete(s, key) + [s[i]]
  }

  function ValueOf<K(==), V>(s: seq<Entry<K, V>>, key: K, now: int): Option<V> {
    var i := Find(s, key);
    if i == |s| || s[i].Expired(now) then None else Some(s[i].value)
  }

  function TrimCost<K, V>(s: seq<Entry<K, V>>, limit: int): seq<Entry<K, V>> {
    if TotalCost(s) > limit && s != [] then TrimCost(s[1..], limit) else s
  }

  function TrimCount<K, V>(s: seq<Entry<K, V>>, limit: int): seq<Entry<K, V>> {
    if |s| > limit && s != [] then TrimCount(s[1..], limit) else s
  }

  function Trim<K, V>(s: seq<Entry<K, V>>, costLimit: int, countLimit: int): seq<Entry<K, V>> {
    TrimCount(TrimCost(s, costLimit), countLimit)
  }

  function Insert<K(==), V>(s: seq<Entry<K, V>>, e: Entry<K, V>): seq<Entry<K, V>> {
    Delete(s, e.key) + [e]
  }

  //////////////////////////////////////////////////////////////////////////////
  // Trimming
  //////////////////////////////////////////////////////////////////////////////

  /** Trimming to a cost leaves the longest suffix that costs no more, or nothing. */
  lemma {:induction false} TrimCostExact<K, V>(s: seq<Entry<K, V>>, limit: int) returns (n: nat)
    ensures n <= |s| && TrimCost(s, limit) == s[n..]
    ensures n == |s| || TotalCost(s[n..]) <= limit
    ensures forall m :: 0 <= m < n ==> TotalCost(s[m..]) > limit
  {
    if TotalCost(s) > limit && s != [] {
      var n' := TrimCostExact(s[1..], limit);
      n := n' + 1;
      forall m | 0 <= m < n ensures TotalCost(s[m..]) > limit {
        if m == 0 { assert s[0..] == s; } else { assert s[m..] == s[1..][m - 1..]; }
      }
    } else {
      n := 0;
      assert s[0..] == s;
    }
  }

  /** Trimming to a count leaves the most recent entries, as many as the limit allows. */
  lemma {:induction false} TrimCountExact<K, V>(s: seq<Entry<K, V>>, limit: int)
    ensures var n := if limit <= 0 then |s| else if |s| <= limit then 0 else |s| - limit;
            TrimCount(s, limit) == s[n..]
  {
    if |s| > limit && s != [] {
      TrimCountExact(s[1..], limit);
    }
  }

  predicate Fits<K, V>(s: seq<Entry<K, V>>, costLimit: int, countLimit: int) {
    TotalCost(s) <= costLimit && |s| <= countLimit
  }

  predicate NonNegative<K, V>(s: seq<Entry<K, V>>) {
    forall i :: 0 <= i < |s| ==> 0 <= s[i].cost
  }

  lemma {:induction false} SuffixCostsLess<K, V>(s: seq<Entry<K, V>>, n: nat)
    requires NonNegative(s) && n <= |s|
    ensures 0 <= TotalCost(s[n..]) <= TotalCost(s)
    decreases |s|
  {
    if s == [] {
    } else if n == 0 {
      SuffixCostsLess(s[1..], 0);
      assert s[0..] == s && s[1..][0..] == s[1..];
    } else {
      SuffixCostsLess(s[1..], n - 1);
      SuffixCostsLess(s[1..], 0);
      assert s[n..] == s[1..][n - 1..] && s[1..][0..] == s[1..];
    }
  }

  /** Whatever the limits, a trim leaves the longest suffix that fits both of them, or nothing. */
  lemma TrimLongest<K, V>(s: seq<Entry<K, V>>, costLimit: int, countLimit: int) returns (n: nat)
    requires NonNegative(s)
    ensures n <= |s| && Trim(s, costLimit, countLimit) == s[n..]
    ensures n == |s| || Fits(s[n..], costLimit, countLimit)
    ensures forall m :: 0 <= m < n ==> !Fits(s[m..], costLimit, countLimit)
  {
    var a := TrimCostExact(s, costLimit);
    var t := s[a..];
    TrimCountExact(t, countLimit);
    var b := if countLimit <= 0 then |t| else if |t| <= countLimit then 0 else |t| - countLimit;
    n := a + b;
    assert t[b..] == s[n..];
    SuffixCostsLess(t, b);
  }

  /**
   With costs and limits that are not negative, a trim leaves precisely the longest suffix of the most
   recently used entries that fits both limits.
   */
  lemma TrimExact<K, V>(s: seq<Entry<K, V>>, costLimit: int, countLimit: int) returns (n: nat)
    requires NonNegative(s) && 0 <= costLimit && 0 <= countLimit
    ensures n <= |s| && Trim(s, costLimit, countLimit) == s[n..]
    ensures Fits(s[n..], costLimit, countLimit)
    ensures forall m :: 0 <= m < n ==> !Fits(s[m..], costLimit, countLimit)
  {
    n := TrimLongest(s, costLimit, countLimit);
    assert s[|s|..] == [];
  }

  /** Trimming to one limit is trimming to both when the other one is not exceeded. */
  lemma TrimsToOneLimit<K, V>(s: seq<Entry<K, V>>, limit: int)
    ensures TrimCost(s, limit) == Trim(s, limit, |s|)
    ensures TrimCount(s, limit) == Trim(s, TotalCost(s), limit)
  {
    var n := TrimCostExact(s, limit);
    TrimCountExact(s[n..], |s|);
  }

  /** No cost makes a later part of the list outweigh both the whole and nothing. */
  ghost predicate Tame<K, V>(s: seq<Entry<K, V>>) {
    forall i: nat, j: nat :: i <= j <= |s| && TotalCost(s[i..]) < TotalCost(s[j..]) ==> TotalCost(s[j..]) <= 0
  }

  ghost predicate TrimsWell<K(!new), V(!new)>(s: seq<Entry<K, V>>) {
    forall costLimit: nat, countLimit: nat :: Fits(Trim(s, costLimit, countLimit), costLimit, countLimit)
  }

  /**
   The cost limit may be exceeded after a trim when there are negative costs, because the count is
   trimmed last. Both limits hold for every choice of limits exactly if the list is tame.
   */
  lemma TrimsWellExactly<K(!new), V(!new)>(s: seq<Entry<K, V>>)
    ensures TrimsWell(s) <==> Tame(s)
  {
    if Tame(s) {
      forall costLimit: nat, countLimit: nat ensures Fits(Trim(s, costLimit, countLimit), costLimit, countLimit) {
        TameFits(s, costLimit, countLimit);
      }
    } else {
      var i: nat, j: nat :| i <= j <= |s| && TotalCost(s[i..]) < TotalCost(s[j..]) && 0 < TotalCost(s[j..]);
      WildEscapes(s, i, j);
    }
  }

  lemma TameFits<K(!new), V(!new)>(s: seq<Entry<K, V>>, costLimit: nat, countLimit: nat)
    requires Tame(s)
    ensures Fits(Trim(s, costLimit, countLimit), costLimit, countLimit)
  {
    var a := TrimCostExact(s, costLimit);
    var t := s[a..];
    TrimCountExact(t, countLimit);
    var b := if |t| <= countLimit then 0 else |t| - countLimit;
    assert t[b..] == s[a + b..];
    assert s[|s|..] == [];
  }

  lemma WildEscapes<K(!new), V(!new)>(s: seq<Entry<K, V>>, i: nat, j: nat)
    requires i <= j <= |s| && TotalCost(s[i..]) < TotalCost(s[j..]) && 0 < TotalCost(s[j..])
    ensures !TrimsWell(s)
  {
    var costLimit: nat := if TotalCost(s[i..]) < 0 then 0 else TotalCost(s[i..]);
    assert s[|s|..] == [];
    TrimToLightest(s, i, j, costLimit);
    assert !Fits(Trim(s, costLimit, |s| - j), costLimit, |s| - j);
  }

  lemma TrimToLightest<K, V>(s: seq<Entry<K, V>>, i: nat, j: nat, costLimit: nat)
    requires i <= j < |s| && TotalCost(s[i..]) <= costLimit < TotalCost(s[j..])
    ensures Trim(s, costLimit, |s| - j) == s[j..]
  {
    var a := TrimCostExact(s, costLimit);
    assert a <= i;
    var t := s[a..];
    TrimCountExact(t, |s| - j);
    assert t[j - a..] == s[j..];
  }

  lemma NonNegativeIsTame<K, V>(s: seq<Entry<K, V>>)
    requires NonNegative(s)
    ensures Tame(s)
  {
    forall i: nat, j: nat | i <= j <= |s| ensures TotalCost(s[j..]) <= TotalCost(s[i..]) {
      SuffixCostsLess(s[i..], j - i);
      assert s[i..][j - i..] == s[j..];
    }
  }

  /** An entry with a negative cost lets the cost limit be exceeded. */
  lemma NegativeCostEscapes<V>(v: V)
    ensures var s := [Entry(v, 0, -5, None), Entry(v, 1, 5, None)];
            TotalCost(Trim(s, 0, 1)) == 5
  {
    var s := [Entry(v, 0, -5, None), Entry(v, 1, 5, None)];
    assert s[1..] == [Entry(v, 1, 5, None)];
    assert TotalCost(s) == -5 + TotalCost(s[1..]) && TotalCost(s[1..]) == 5;
    assert TrimCount(s, 1) == TrimCount(s[1..], 1) == s[1..];
  }
}
