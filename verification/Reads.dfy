/** Reads of DataCache: they take two steps, and anything may happen between these. */
module Reads {
  import opened Basics
  import opened Staging
  import opened WriteBehind

  //////////////////////////////////////////////////////////////////////////////
  // What holds between the two steps
  //////////////////////////////////////////////////////////////////////////////

  function Effect(c: Change): Option<Data> {
    match c.kind
    case Add(data) => Some(data)
    case Remove => None
  }

  /**
   What holds while a reader of the key, having found nothing staged for it, has yet to read the disk:
   whatever the disk holds, or is about to hold, is a value that the plain map has had since. The one
   exception is that a sweep may have evicted a file that a newer change was staged over.
   */
  predicate ReaderOk(s: State, key: Key, seen: set<Option<Data>>, swept: bool) {
    && (At(s.disk, key) in seen || (swept && key !in s.disk))
    && (key in s.staging.changes ==> Effect(s.staging.changes[key]) in seen)
    && (s.staging.removeAll.Some? ==> None in seen)
    && match s.phase
       case Idle => true
       case Flushing(snap, cleared, todo) =>
         && (key in snap.changes && key in todo ==> Effect(snap.changes[key]) in seen)
         && (!cleared ==> None in seen)
       case FlushingKey(c, written) => !written && c.key == key ==> Effect(c) in seen
  }

  predicate SweptUnder(s: State, e: Event, key: Key) {
    e.Sweep? && key in e.evicted && s.staging.Lookup(key).Some?
  }

  lemma ReaderStarts(s: State, m: Disk, key: Key)
    requires Inv(s) && Refines(s, m) && s.staging.Lookup(key).None?
    ensures ReaderOk(s, key, {At(m, key)}, false)
  {
    assert View(s, key) == At(m, key);
  }

  lemma ReaderStep(s: State, e: Event, m: Disk, key: Key, seen: set<Option<Data>>, swept: bool)
    requires Inv(s) && Enabled(s, e) && ReaderOk(s, key, seen, swept)
    ensures ReaderOk(Step(s, e), key, seen + {At(Apply(m, s, e), key)}, swept || SweptUnder(s, e, key))
  {}

  /** The values that the plain map has for the key from moment i to moment j. */
  function History(maps: seq<Disk>, i: nat, j: nat, key: Key): set<Option<Data>>
    requires i <= j < |maps|
  {
    if i == j then {At(maps[i], key)} else History(maps, i, j - 1, key) + {At(maps[j], key)}
  }

  lemma {:induction false} HistoryMoment(maps: seq<Disk>, i: nat, j: nat, key: Key, v: Option<Data>) returns (t: nat)
    requires i <= j < |maps| && v in History(maps, i, j, key)
    ensures i <= t <= j && At(maps[t], key) == v
  {
    if At(maps[j], key) == v { t := j; } else { t := HistoryMoment(maps, i, j - 1, key, v); }
  }

  predicate Swept(r: Run, i: nat, j: nat, key: Key)
    requires j <= |r.events| < |r.states|
  {
    exists t :: i <= t < j && SweptUnder(r.states[t], r.events[t], key)
  }

  lemma {:induction false} ReaderInvariant(r: Run, i: nat, j: nat, key: Key)
    requires r.Valid() && i <= j < |r.states| && r.states[i].staging.Lookup(key).None?
    ensures ReaderOk(r.states[j], key, History(r.maps, i, j, key), Swept(r, i, j, key))
  {
    if i == j {
      RunRefines(r, i);
      ReaderStarts(r.states[i], r.maps[i], key);
    } else {
      ReaderInvariant(r, i, j - 1, key);
      RunRefines(r, j - 1);
      var swept := Swept(r, i, j - 1, key);
      ReaderStep(r.states[j - 1], r.events[j - 1], r.maps[j - 1], key, History(r.maps, i, j - 1, key), swept);
      assert swept ==> Swept(r, i, j, key);
      assert SweptUnder(r.states[j - 1], r.events[j - 1], key) ==> Swept(r, i, j, key);
    }
  }

  //////////////////////////////////////////////////////////////////////////////
  // The results of reads
  //////////////////////////////////////////////////////////////////////////////

  /** cachedData: the first step may decide the result, otherwise the second one reads the disk. */
  function CachedData(first: State, second: State, key: Key): Option<Data> {
    match first.staging.Lookup(key)
    case Some(Add(data)) => Some(data)
    case Some(Remove) => None
    case None => At(second.disk, key)
  }

  /** The plain map held the result of the read at some moment from its first step to its second. */
  predicate Linearizable(r: Run, i: nat, j: nat, key: Key)
    requires i <= j < |r.states| == |r.maps|
  {
    exists t :: i <= t <= j && At(r.maps[t], key) == CachedData(r.states[i], r.states[j], key)
  }

  /**
   In a given run, only a sweep can make a read miss: then it returns nothing, and the sweep evicted the
   file in the meantime.
   */
  lemma ReadsLinearizable(r: Run, i: nat, j: nat, key: Key)
    requires r.Valid() && i <= j < |r.states|
    ensures Linearizable(r, i, j, key)
         || (CachedData(r.states[i], r.states[j], key) == None && Swept(r, i, j, key))
  {
    var result := CachedData(r.states[i], r.states[j], key);
    if r.states[i].staging.Lookup(key).Some? {
      RunRefines(r, i);
      assert View(r.states[i], key) == At(r.maps[i], key);
    } else {
      ReaderInvariant(r, i, j, key);
      if result in History(r.maps, i, j, key) {
        var t := HistoryMoment(r.maps, i, j, key, result);
      }
    }
  }

  //////////////////////////////////////////////////////////////////////////////
  // When a read is linearizable whatever happens
  //////////////////////////////////////////////////////////////////////////////

  /** The key is staged, or it has no file that a sweep could take away. */
  predicate ReadsSafely(s: State, key: Key) {
    s.staging.Lookup(key).Some? || key !in s.disk
  }

  /** Whatever happens next, and whenever its second step comes, a read that starts now is linearizable. */
  ghost predicate AlwaysLinearizable(r: Run, key: Key) {
    forall r': Run | r.ContinuedBy(r') :: Linearizable(r', |r.events|, |r'.events|, key)
  }

  lemma SafeReadLinearizable(r: Run, i: nat, j: nat, key: Key)
    requires r.Valid() && i <= j < |r.states| && ReadsSafely(r.states[i], key)
    ensures Linearizable(r, i, j, key)
  {
    ReadsLinearizable(r, i, j, key);
    RunRefines(r, i);
    assert View(r.states[i], key) == At(r.maps[i], key);
  }

  /** From position i on, the plain map always has the key; nothing is staged for it, and it has a file. */
  predicate Present(r: Run, i: nat, key: Key) {
    && r.Valid() && i <= |r.events|
    && r.Last().staging.Lookup(key).None? && key in r.Last().disk
    && forall t :: i <= t < |r.maps| ==> At(r.maps[t], key).Some?
  }

  /** What is left to do until the queue is idle. */
  function Pending(p: Phase): nat {
    match p
    case Idle => 0
    case Flushing(_, _, todo) => |todo| + 1
    case FlushingKey(_, written) => if written then 1 else 2
  }

  lemma OneMore(r: Run, e: Event)
    requires r.Follows() && Enabled(r.Last(), e)
    ensures r.Then(e).Follows() && r.Then(e).Last() == Step(r.Last(), e)
    ensures r.Then(e).maps == r.maps + [Apply(r.maps[|r.events|], r.Last(), e)]
    ensures r.Valid() && Guarded(r.Last(), e) ==> r.ContinuedBy(r.Then(e))
  {
    ThenFollows(r, e);
    if r.Valid() && Guarded(r.Last(), e) { ThenGuarded(r, e); }
  }

  lemma ThenFollows(r: Run, e: Event)
    requires r.Follows() && Enabled(r.Last(), e)
    ensures r.Then(e).Follows()
  {
    var r' := r.Then(e);
    forall i | 0 <= i < |r'.events|
      ensures Enabled(r'.states[i], r'.events[i]) && r'.states[i + 1] == Step(r'.states[i], r'.events[i])
      ensures r'.maps[i + 1] == Apply(r'.maps[i], r'.states[i], r'.events[i])
    {
      if i < |r.events| {
        assert r'.states[i] == r.states[i] && r'.events[i] == r.events[i] && r'.maps[i] == r.maps[i];
      }
    }
  }

  lemma ThenGuarded(r: Run, e: Event)
    requires r.Valid() && Enabled(r.Last(), e) && Guarded(r.Last(), e)
    ensures forall i :: 0 <= i <= |r.events| ==> Guarded(r.Then(e).states[i], r.Then(e).events[i])
  {
    var r' := r.Then(e);
    forall i | 0 <= i <= |r.events| ensures Guarded(r'.states[i], r'.events[i]) {
      if i < |r.events| { assert r'.states[i] == r.states[i] && r'.events[i] == r.events[i]; }
    }
  }

  /** A step of the flush that is under way; it does not concern a key that is not staged. */
  lemma DrainStep(r: Run, i: nat, key: Key) returns (r': Run)
    requires Present(r, i, key) && !r.Last().phase.Idle?
    ensures r.ContinuedBy(r') && Present(r', i, key) && Pending(r'.Last().phase) < Pending(r.Last().phase)
  {
    RunRefines(r, |r.events|);
    var e := NextOfFlush(r.Last(), key);
    OneMore(r, e);
    r' := r.Then(e);
  }

  /** The next event of the flush that is under way. */
  lemma NextOfFlush(s: State, key: Key) returns (e: Event)
    requires Inv(s) && !s.phase.Idle? && s.staging.Lookup(key).None? && key in s.disk
    ensures e.FinishFlush? || e.WriteChange? || e.FinishFlushKey? || e.WriteKey?
    ensures Enabled(s, e) && Pending(Step(s, e).phase) < Pending(s.phase)
    ensures Step(s, e).staging.Lookup(key).None? && key in Step(s, e).disk
  {
    match s.phase {
      case Flushing(snap, _, todo) =>
        if todo == {} {
          e := FinishFlush;
        } else {
          var k :| k in todo;
          e := WriteChange(k);
          assert k != key && snap.changes[k].key == k;
        }
      case FlushingKey(c, written) => e := if written then FinishFlushKey else WriteKey;
    }
  }

  lemma {:induction false} Drain(r: Run, i: nat, key: Key) returns (r': Run)
    requires Present(r, i, key)
    ensures r.ContinuedBy(r') && Present(r', i, key) && r'.Last().phase.Idle?
    decreases Pending(r.Last().phase)
  {
    if r.Last().phase.Idle? {
      r' := r;
    } else {
      var next := DrainStep(r, i, key);
      r' := Drain(next, i, key);
    }
  }

  /** The key is overwritten, and a sweep takes the old file away. */
  lemma HideFile(r: Run, i: nat, key: Key) returns (r': Run)
    requires Present(r, i, key) && r.Last().phase.Idle?
    ensures r.ContinuedBy(r') && key !in r'.Last().disk
    ensures forall t :: i <= t < |r'.maps| ==> At(r'.maps[t], key).Some?
  {
    OneMore(r, Store(key, []));
    var stored := r.Then(Store(key, []));
    assert stored.Last().staging.Lookup(key).Some? && key in stored.maps[|stored.events|];
    OneMore(stored, Sweep({key}));
    r' := stored.Then(Sweep({key}));
  }

  /** All this can happen before the second step of a read that is not safe. */
  lemma Overtake(r: Run, key: Key) returns (r': Run)
    requires r.Valid() && !ReadsSafely(r.Last(), key)
    ensures r.ContinuedBy(r') && !Linearizable(r', |r.events|, |r'.events|, key)
  {
    var i := |r.events|;
    RunRefines(r, i);
    assert View(r.Last(), key) == At(r.maps[i], key);
    var idle := Drain(r, i, key);
    r' := HideFile(idle, i, key);
    assert r'.states[i] == r.states[i];
  }

  /**
   A read that starts at the end of a run is linearizable in every continuation of the run, exactly if
   the key is staged or has no file when the read starts.
   */
  lemma ReadsExactly(r: Run, key: Key)
    requires r.Valid()
    ensures AlwaysLinearizable(r, key) <==> ReadsSafely(r.Last(), key)
  {
    if ReadsSafely(r.Last(), key) {
      forall r': Run | r.ContinuedBy(r') ensures Linearizable(r', |r.events|, |r'.events|, key) {
        SafeReadLinearizable(r', |r.events|, |r'.events|, key);
      }
    } else {
      var r' := Overtake(r, key);
    }
  }

  /** A run in which an item that is there all the time is missed. */
  lemma SweepHidesItem(key: Key, before: Data, after: Data)
    ensures var s0 := State(EMPTY_AREA, map[key := before], false, false, 0, Idle);
            var s1 := Step(s0, Store(key, after));
            var s2 := Step(s1, Sweep({key}));
            var stored := map[key := after];
            var r := Run([s0, s1, s2], [s0.disk, stored, stored], [Store(key, after), Sweep({key})]);
            && r.Valid() && CachedData(s0, s2, key) == None
            && !Linearizable(r, 0, 2, key)
  {
    var s0 := State(EMPTY_AREA, map[key := before], false, false, 0, Idle);
    var s1 := Step(s0, Store(key, after));
    assert Apply(s0.disk, s0, Store(key, after)) == map[key := after];
    assert Apply(map[key := after], s1, Sweep({key})) == map[key := after];
  }

  //////////////////////////////////////////////////////////////////////////////
  // When flush(for:) keeps all reads right
  //////////////////////////////////////////////////////////////////////////////

  /** r' goes on after r with a flush of the key, guarded or not; later flushes of single keys are guarded. */
  ghost predicate FlushesNext(r: Run, key: Key, r': Run) {
    && r.Valid() && r'.Follows()
    && r.states <= r'.states && r.maps <= r'.maps && r.events + [StartFlushKey(key)] <= r'.events
    && forall i :: |r.events| < i < |r'.events| ==> Guarded(r'.states[i], r'.events[i])
  }

  /** Whatever happens after the flush has begun, readers see the plain map. */
  ghost predicate FlushKeepsReads(r: Run, key: Key) {
    forall r': Run | FlushesNext(r, key, r') :: Refines(r'.Last(), r'.maps[|r'.events|])
  }

  lemma GuardedFlush(r: Run, key: Key, r': Run)
    requires FlushesNext(r, key, r') && MayFlushKey(r.Last().staging, key)
    ensures r'.Valid()
  {
    assert r'.events[|r.events|] == StartFlushKey(key) && r'.states[|r.events|] == r.Last();
    forall i | 0 <= i < |r'.events| ensures Guarded(r'.states[i], r'.events[i]) {
      if i < |r.events| { assert r'.states[i] == r.states[i] && r'.events[i] == r.events[i]; }
    }
  }

  /** Without its guard, the flush only has to run to its end to make some read wrong. */
  lemma UnguardedFlush(r: Run, key: Key) returns (r': Run)
    requires r.Valid() && r.Last().phase.Idle? && !MayFlushKey(r.Last().staging, key)
    ensures FlushesNext(r, key, r') && !Refines(r'.Last(), r'.maps[|r'.events|])
  {
    var s, m := r.Last(), r.maps[|r.events|];
    RunRefines(r, |r.events|);
    r' := FlushAlone(r, key);
    assert exists k :: View(FlushKey(s, key), k) != View(s, k) by { FlushKeyExact(s, m, key); }
    var k :| View(FlushKey(s, key), k) != View(s, k);
    assert View(s, k) == At(m, k);
  }

  /** The three steps of a flush, with nothing in between. */
  lemma FlushAlone(r: Run, key: Key) returns (r': Run)
    requires r.Valid() && r.Last().phase.Idle? && key in r.Last().staging.changes
    ensures FlushesNext(r, key, r') && r'.Last() == FlushKey(r.Last(), key)
    ensures r'.maps[|r'.events|] == r.maps[|r.events|]
  {
    var started := Extended(r, StartFlushKey(key));
    var written := Extended(started, WriteKey);
    r' := Extended(written, FinishFlushKey);
    LaterGuarded(r, key, r');
  }

  lemma Extended(r: Run, e: Event) returns (r': Run)
    requires r.Follows() && Enabled(r.Last(), e)
    ensures r'.Follows() && r'.Last() == Step(r.Last(), e) && r.states <= r'.states && r'.events == r.events + [e]
    ensures r'.maps == r.maps + [Apply(r.maps[|r.events|], r.Last(), e)]
  {
    OneMore(r, e);
    r' := r.Then(e);
  }

  lemma LaterGuarded(r: Run, key: Key, r': Run)
    requires r.Valid() && r'.Follows() && r.states <= r'.states && r.maps <= r'.maps
    requires r'.events == r.events + [StartFlushKey(key)] + [WriteKey] + [FinishFlushKey]
    ensures FlushesNext(r, key, r')
  {}

  /**
   After a run that leaves the queue idle, flush(for:) keeps all reads right, whatever happens while it
   runs and afterwards, exactly if its guard holds when it begins.
   */
  lemma FlushesExactly(r: Run, key: Key)
    requires r.Valid() && r.Last().phase.Idle?
    ensures FlushKeepsReads(r, key) <==> MayFlushKey(r.Last().staging, key)
  {
    if MayFlushKey(r.Last().staging, key) {
      forall r': Run | FlushesNext(r, key, r') ensures Refines(r'.Last(), r'.maps[|r'.events|]) {
        GuardedFlush(r, key, r');
        RunRefines(r', |r'.events|);
      }
    } else {
      var r' := UnguardedFlush(r, key);
    }
  }
}
