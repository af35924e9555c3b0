/** Two runs of the memory cache that show what a binding cost limit can do. */
module CostLimitExample {
  import opened Basics
  import opened Lru
  import opened LruRuns

  /** The entries of the example: their keys and costs. */
  function Item(key: int, cost: int): Entry<int, ()> {
    Entry((), key, cost, None)
  }

  function Example(countLimit: int, entries: seq<Entry<int, ()>>): Limited<int, ()> {
    Limited(entries, 3, countLimit)
  }

  /** Storing an item among items of cost 1 with other keys drops as many of these as the limits demand. */
  lemma Adds(s: seq<Entry<int, ()>>, e: Entry<int, ()>, countLimit: int)
    requires forall i :: 0 <= i < |s| ==> s[i].key != e.key && s[i].cost == 1
    requires 0 <= e.cost <= 3 && 0 < countLimit
    ensures var n := Max(0, Max(|s| + e.cost - 3, |s| + 1 - countLimit));
            Apply(Example(countLimit, s), Set(e)).entries == (s + [e])[n..]
  {
    var t := s + [e];
    assert Insert(s, e) == t;
    forall k | 0 <= k <= |s| ensures TotalCost(t[k..]) == |s| - k + e.cost {
      UnitCosts(s[k..]);
      TotalAppend(s[k..], e);
      assert t[k..] == s[k..] + [e];
    }
    var n := TrimExact(t, 3, countLimit);
    assert Fits(t[|s|..], 3, countLimit);
  }

  lemma {:induction false} UnitCosts(s: seq<Entry<int, ()>>)
    requires forall i :: 0 <= i < |s| ==> s[i].cost == 1
    ensures TotalCost(s) == |s|
  {
    if s != [] { UnitCosts(s[1..]); }
  }

  function Max(a: int, b: int): int {
    if a < b then b else a
  }

  //////////////////////////////////////////////////////////////////////////////
  // The example: items 0, 1 and 2 are stored, item 0 is looked up, and item 3 is stored, with twice the cost
  //////////////////////////////////////////////////////////////////////////////

  /** The first two calls leave both items. */
  lemma FirstStored(countLimit: int)
    requires 2 <= countLimit
    ensures Apply(Example(countLimit, []), Set(Item(0, 1))) == Example(countLimit, [Item(0, 1)])
  {
    Adds([], Item(0, 1), countLimit);
  }

  lemma SecondStored(countLimit: int)
    requires 2 <= countLimit
    ensures Apply(Example(countLimit, [Item(0, 1)]), Set(Item(1, 1))) == Example(countLimit, [Item(0, 1), Item(1, 1)])
  {
    Adds([Item(0, 1)], Item(1, 1), countLimit);
  }

  /** With room for two items, the third one drops the first. */
  lemma ThirdStoredInSmall()
    ensures Apply(Example(2, [Item(0, 1), Item(1, 1)]), Set(Item(2, 1))) == Example(2, [Item(1, 1), Item(2, 1)])
  {
    var x, y, z := Item(0, 1), Item(1, 1), Item(2, 1);
    Adds([x, y], z, 2);
    assert ([x, y] + [z])[1..] == [y, z];
  }

  lemma FirstMissedInSmall()
    ensures var s := Example(2, [Item(1, 1), Item(2, 1)]);
            Apply(s, Value(0, 0)) == s
  {}

  lemma LastStoredInSmall()
    ensures Apply(Example(2, [Item(1, 1), Item(2, 1)]), Set(Item(3, 2))) == Example(2, [Item(2, 1), Item(3, 2)])
  {
    var y, z, w := Item(1, 1), Item(2, 1), Item(3, 2);
    Adds([y, z], w, 2);
    assert ([y, z] + [w])[1..] == [z, w];
  }

  /** With room for three items, all three stay. */
  lemma ThirdStoredInLarge()
    ensures Apply(Example(3, [Item(0, 1), Item(1, 1)]), Set(Item(2, 1)))
         == Example(3, [Item(0, 1), Item(1, 1), Item(2, 1)])
  {
    var x, y, z := Item(0, 1), Item(1, 1), Item(2, 1);
    Adds([x, y], z, 3);
    assert ([x, y] + [z])[0..] == [x, y, z];
  }

  /** The lookup makes the first item the most recently used one. */
  lemma FirstHitInLarge()
    ensures Apply(Example(3, [Item(0, 1), Item(1, 1), Item(2, 1)]), Value(0, 0))
         == Example(3, [Item(1, 1), Item(2, 1), Item(0, 1)])
  {
    var x, y, z := Item(0, 1), Item(1, 1), Item(2, 1);
    assert Find([x, y, z], 0) == 0 && Delete([x, y, z], 0) == [y, z];
  }

  lemma LastStoredInLarge()
    ensures Apply(Example(3, [Item(1, 1), Item(2, 1), Item(0, 1)]), Set(Item(3, 2)))
         == Example(3, [Item(0, 1), Item(3, 2)])
  {
    var x, y, z, w := Item(0, 1), Item(1, 1), Item(2, 1), Item(3, 2);
    Adds([y, z, x], w, 3);
    assert ([y, z, x] + [w])[2..] == [x, w];
  }

  /** States that follow from each other are a run. */
  lemma OneMoreState<K, V>(states: seq<Limited<K, V>>, ops: seq<Op<K, V>>, op: Op<K, V>, s: Limited<K, V>)
    requires IsRun(states, ops) && s == Apply(states[|ops|], op)
    ensures IsRun(states + [s], ops + [op])
  {}

  /** What a run looks like: how it begins, how it ends, and the calls. */
  ghost predicate Reaches(begin: Limited<int, ()>, ops: seq<Op<int, ()>>, end: Limited<int, ()>) {
    exists states: seq<Limited<int, ()>> :: IsRun(states, ops) && states[0] == begin && states[|ops|] == end
  }

  lemma ReachesNext(
    begin: Limited<int, ()>, ops: seq<Op<int, ()>>, s: Limited<int, ()>, op: Op<int, ()>, t: Limited<int, ()>)
    requires Reaches(begin, ops, s) && Apply(s, op) == t
    ensures Reaches(begin, ops + [op], t)
  {
    var states: seq<Limited<int, ()>> :| IsRun(states, ops) && states[0] == begin && states[|ops|] == s;
    OneMoreState(states, ops, op, t);
    assert (states + [t])[0] == begin;
  }

  lemma ReachesNothing(begin: Limited<int, ()>)
    requires begin.entries == []
    ensures Reaches(begin, [], begin)
  {
    assert IsRun([begin], []);
  }

  /** The calls of the example. */
  function ExampleOps(): seq<Op<int, ()>> {
    [] + [Set(Item(0, 1))] + [Set(Item(1, 1))] + [Set(Item(2, 1))] + [Value(0, 0)] + [Set(Item(3, 2))]
  }

  lemma SmallExample()
    ensures Reaches(Example(2, []), ExampleOps(), Example(2, [Item(2, 1), Item(3, 2)]))
  {
    var x, y, z, w := Item(0, 1), Item(1, 1), Item(2, 1), Item(3, 2);
    var s0, s1, s2, s3 := Example(2, []), Example(2, [x]), Example(2, [x, y]), Example(2, [y, z]);
    var o0, o1, o2, o3, o4 := Set(x), Set(y), Set(z), Value(0, 0), Set(w);
    ReachesNothing(s0);
    FirstStored(2);
    ReachesNext(s0, [], s0, o0, s1);
    SecondStored(2);
    ReachesNext(s0, [] + [o0], s1, o1, s2);
    ThirdStoredInSmall();
    ReachesNext(s0, [] + [o0] + [o1], s2, o2, s3);
    FirstMissedInSmall();
    ReachesNext(s0, [] + [o0] + [o1] + [o2], s3, o3, s3);
    LastStoredInSmall();
    ReachesNext(s0, [] + [o0] + [o1] + [o2] + [o3], s3, o4, Example(2, [z, w]));
  }

  lemma LargeExample()
    ensures Reaches(Example(3, []), ExampleOps(), Example(3, [Item(0, 1), Item(3, 2)]))
  {
    var x, y, z, w := Item(0, 1), Item(1, 1), Item(2, 1), Item(3, 2);
    var s0, s1, s2 := Example(3, []), Example(3, [x]), Example(3, [x, y]);
    var s3, s4 := Example(3, [x, y, z]), Example(3, [y, z, x]);
    var o0, o1, o2, o3, o4 := Set(x), Set(y), Set(z), Value(0, 0), Set(w);
    ReachesNothing(s0);
    FirstStored(3);
    ReachesNext(s0, [], s0, o0, s1);
    SecondStored(3);
    ReachesNext(s0, [] + [o0], s1, o1, s2);
    ThirdStoredInLarge();
    ReachesNext(s0, [] + [o0] + [o1], s2, o2, s3);
    FirstHitInLarge();
    ReachesNext(s0, [] + [o0] + [o1] + [o2], s3, o3, s4);
    LastStoredInLarge();
    ReachesNext(s0, [] + [o0] + [o1] + [o2] + [o3], s4, o4, Example(3, [x, w]));
  }

  /** With a binding cost limit, raising the count limit from two to three may lose a hit, that for key 2. */
  lemma BindingCostLosesHit()
    ensures exists s, t ::
              && Reaches(Example(2, []), ExampleOps(), s) && Reaches(Example(3, []), ExampleOps(), t)
              && ValueOf(s.entries, 2, 0).Some? && ValueOf(t.entries, 2, 0).None?
  {
    var s, t := Example(2, [Item(2, 1), Item(3, 2)]), Example(3, [Item(0, 1), Item(3, 2)]);
    SmallExample();
    LargeExample();
    assert Find(s.entries, 2) == 0 && Find(t.entries, 2) == 2;
  }
}
