/** The DataCache class: each method is one atomic step of the protocol, or a sequence of them. */
module DataCaching {
  import opened Basics
  import opened Staging
  import opened WriteBehind

  class DataCache {
    var staging: Area
    var isFlushNeeded: bool
    var isFlushScheduled: bool
    /** The files in the cache directory. */
    var disk: Disk
    /** The flush blocks that wait in the serial queue. */
    var blocks: nat
    /** What the serial queue is doing. */
    ghost var phase: Phase

    ghost function Current(): State
      reads this
    {
      State(staging, disk, isFlushNeeded, isFlushScheduled, blocks, phase)
    }

    constructor (disk: Disk)
      ensures Initial(Current()) && this.disk == disk
    {
      staging, isFlushNeeded, isFlushScheduled := EMPTY_AREA, false, false;
      this.disk, blocks, phase := disk, 0, Idle;
    }

    //////////////////////////////////////////////////////////////////////////
    // Staging changes
    //////////////////////////////////////////////////////////////////////////

    method StoreData(data: Data, key: Key)
      modifies this
      ensures Current() == Step(old(Current()), Store(key, data))
    {
      staging := staging.Put(key, Add(data));
      SetNeedsFlushChanges();
    }

    method RemoveData(key: Key)
      modifies this
      ensures Current() == Step(old(Current()), RemoveKey(key))
    {
      staging := staging.Put(key, Remove);
      SetNeedsFlushChanges();
    }

    method RemoveAll()
      modifies this
      ensures Current() == Step(old(Current()), RemoveEverything)
    {
      staging := staging.Clear();
      SetNeedsFlushChanges();
    }

    method SetNeedsFlushChanges()
      modifies this
      ensures Current() == SetNeedsFlush(old(Current()))
    {
      if isFlushNeeded { return; }
      isFlushNeeded := true;
      ScheduleNextFlush();
    }

    method ScheduleNextFlush()
      modifies this`isFlushScheduled, this`blocks
      ensures isFlushScheduled && blocks == old(blocks) + (if old(isFlushScheduled) then 0 else 1)
    {
      if isFlushScheduled { return; }
      isFlushScheduled := true;
      blocks := blocks + 1;
    }

    /** cachedData when nothing happens between its two steps. */
    method Read(key: Key) returns (result: Option<Data>)
      ensures result == View(Current(), key)
    {
      match staging.Lookup(key)
      case Some(Add(data)) => return Some(data);
      case Some(Remove) => return None;
      case None => return if key in disk then Some(disk[key]) else None;
    }

    //////////////////////////////////////////////////////////////////////////
    // Flushing
    //////////////////////////////////////////////////////////////////////////

    /** Takes the snapshot, under the lock. */
    method TakeSnapshot() returns (snapshot: Option<Area>)
      requires phase.Idle?
      modifies this`isFlushNeeded, this`phase
      ensures Current() == BeginFlush(old(Current()))
      ensures snapshot == if old(isFlushNeeded) then Some(staging) else None
    {
      if !isFlushNeeded { return None; }
      snapshot := Some(staging);
      isFlushNeeded := false;
      phase := Flushing(staging, staging.removeAll.None?, staging.changes.Keys);
    }

    method PerformRemoveAll()
      requires Enabled(Current(), ClearDisk)
      modifies this`disk, this`phase
      ensures Current() == Step(old(Current()), ClearDisk)
    {
      disk := map[];
      phase := phase.(cleared := true);
    }

    method PerformChange(c: Change)
      modifies this`disk
      ensures disk == Perform(old(disk), c)
    {
      match c.kind
      case Add(data) => disk := disk[c.key := data];
      case Remove => disk := disk - {c.key};
    }

    /** performChanges: the removal of everything first, then the changes in any order. */
    method PerformChanges(snapshot: Area, ghost m: Disk)
      requires phase == Flushing(snapshot, snapshot.removeAll.None?, snapshot.changes.Keys)
      requires Inv(Current()) && Refines(Current(), m)
      modifies this`disk, this`phase
      ensures phase == Flushing(snapshot, true, {})
      ensures Inv(Current()) && Refines(Current(), m)
    {
      if snapshot.removeAll.Some? {
        ClearDiskKeeps(Current(), m);
        PerformRemoveAll();
      }
      var todo := snapshot.changes.Keys;
      while todo != {}
        invariant todo <= snapshot.changes.Keys && phase == Flushing(snapshot, true, todo)
        invariant Inv(Current()) && Refines(Current(), m)
        decreases |todo|
      {
        var k :| k in todo;
        PerformNext(snapshot, todo, k, m);
        todo := todo - {k};
      }
    }

    /** One round of performChanges. */
    method PerformNext(snapshot: Area, todo: set<Key>, k: Key, ghost m: Disk)
      requires phase == Flushing(snapshot, true, todo) && k in todo && k in snapshot.changes
      requires Inv(Current()) && Refines(Current(), m)
      modifies this`disk, this`phase
      ensures phase == Flushing(snapshot, true, todo - {k})
      ensures disk == Perform(old(disk), snapshot.changes[k])
      ensures Inv(Current()) && Refines(Current(), m)
    {
      WriteChangeKeeps(Current(), k, m);
      PerformChange(snapshot.changes[k]);
      phase := phase.(todo := todo - {k});
    }

    /** Un-stages the snapshot and schedules the next flush, under the lock. */
    method Unstage(snapshot: Area)
      requires phase.Flushing? && phase.snapshot == snapshot && staging.Valid() && snapshot.Valid()
      modifies this
      ensures Current() == EndFlush(old(Current()))
    {
      staging := UnstageAll(staging, snapshot);
      isFlushScheduled := false;
      phase := Idle;
      if isFlushNeeded { ScheduleNextFlush(); }
    }

    /**
     flushChangesIfNeeded, undisturbed, called by flush() or by a block that has left the queue: no
     read changes, nothing stays staged, and the files are exactly what could be read before.
     */
    method FlushChangesIfNeeded()
      requires phase.Idle? && Inv(Current())
      requires (isFlushNeeded <==> isFlushScheduled) && (!staging.Empty() ==> isFlushNeeded)
      modifies this
      ensures phase.Idle? && Inv(Current()) && FlagsOk(Current())
      ensures staging.Empty() && !isFlushNeeded
      ensures disk == Contents(old(Current()))
    {
      ghost var m := Contents(Current());
      ContentsAreViewed(Current());
      StepKeeps(Current(), StartFlush, m);
      var snapshot := TakeSnapshot();
      if snapshot.Some? {
        PerformChanges(snapshot.value, m);
        ghost var performed := Current();
        FinishFlushKeeps(performed, m);
        FlagsKept(performed, FinishFlush);
        Unstage(snapshot.value);
      }
      FilesAreContents(Current(), m);
    }

    lemma FilesAreContents(s: State, m: Disk)
      requires s.staging.Empty() && Refines(s, m)
      ensures s.disk == m
    {
      forall k ensures k in s.disk <==> k in m { assert View(s, k) == At(m, k); }
      forall k | k in m ensures s.disk[k] == m[k] { assert View(s, k) == At(m, k); }
    }

    /** flush(for:), undisturbed: every read stays as it was exactly if the guard held. */
    method FlushFor(key: Key)
      requires phase.Idle? && Inv(Current())
      modifies this
      ensures Current() == FlushKey(old(Current()), key)
      ensures (forall k :: View(Current(), k) == View(old(Current()), k)) <==> old(MayFlushKey(staging, key))
    {
      ContentsAreViewed(Current());
      FlushKeyExact(Current(), Contents(Current()), key);
      if key !in staging.changes { return; }
      var change := staging.changes[key];
      PerformChange(change);
      staging := staging.FlushedChange(change);
    }
  }
}
