/**
 DataCache as a concurrent protocol. Callers change the staging area under a lock; one serial queue
 takes snapshots, applies them to the disk change by change without the lock, and un-stages them.
 A run is any interleaving of the atomic steps below.
 */
module WriteBehind {
  import opened Basics
  import opened Staging

  type Disk = map<Key, Data>

  /**
   What the serial queue is doing: nothing, flushing a snapshot (cleared: its removal of everything,
   if it has one, is on disk; todo: the keys whose changes are not), or flushing a single change.
   */
  datatype Phase =
    | Idle
    | Flushing(snapshot: Area, cleared: bool, todo: set<Key>)
    | FlushingKey(change: Change, written: bool)

  /** blocks counts the flush blocks that wait in the queue. */
  datatype State = State(staging: Area, disk: Disk, needed: bool, scheduled: bool, blocks: nat, phase: Phase)

  datatype Event =
    | Store(key: Key, data: Data)
    | RemoveKey(key: Key)
    | RemoveEverything
    | StartBlock
    | StartFlush
    | StartFlushKey(key: Key)
    | ClearDisk
    | WriteChange(key: Key)
    | FinishFlush
    | WriteKey
    | FinishFlushKey
    | Sweep(evicted: set<Key>)

  //////////////////////////////////////////////////////////////////////////////
  // Steps
  //////////////////////////////////////////////////////////////////////////////

  /** setNeedsFlushChanges and scheduleNextFlush */
  function SetNeedsFlush(s: State): State {
    if s.needed then s
    else if s.scheduled then s.(needed := true)
    else s.(needed := true, scheduled := true, blocks := s.blocks + 1)
  }

  /** The first locked section of flushChangesIfNeeded. */
  function BeginFlush(s: State): State {
    if !s.needed then s
    else s.(needed := false, phase := Flushing(s.staging, s.staging.removeAll.None?, s.staging.changes.Keys))
  }

  /** The second locked section of flushChangesIfNeeded. */
  function EndFlush(s: State): State
    requires s.phase.Flushing?
  {
    var s' := s.(staging := s.staging.Flushed(s.phase.snapshot), scheduled := false, phase := Idle);
    if s.needed then s'.(scheduled := true, blocks := s.blocks + 1) else s'
  }

  /** perform(_: Change) */
  function Perform(disk: Disk, c: Change): Disk {
    match c.kind
    case Add(data) => disk[c.key := data]
    case Remove => disk - {c.key}
  }

  predicate Enabled(s: State, e: Event) {
    match e
    case Store(_, _) => true
    case RemoveKey(_) => true
    case RemoveEverything => true
    case StartBlock => s.phase.Idle? && 0 < s.blocks
    case StartFlush => s.phase.Idle?
    case StartFlushKey(_) => s.phase.Idle?
    case ClearDisk => s.phase.Flushing? && !s.phase.cleared
    case WriteChange(k) => s.phase.Flushing? && s.phase.cleared && k in s.phase.todo && k in s.phase.snapshot.changes
    case FinishFlush => s.phase.Flushing? && s.phase.cleared && s.phase.todo == {}
    case WriteKey => s.phase.FlushingKey? && !s.phase.written
    case FinishFlushKey => s.phase.FlushingKey? && s.phase.written
    case Sweep(_) => s.phase.Idle?
  }

  function Step(s: State, e: Event): State
    requires Enabled(s, e)
  {
    match e
    case Store(k, d) => SetNeedsFlush(s.(staging := s.staging.Put(k, Add(d))))
    case RemoveKey(k) => SetNeedsFlush(s.(staging := s.staging.Put(k, Remove)))
    case RemoveEverything => SetNeedsFlush(s.(staging := s.staging.Clear()))
    case StartBlock => BeginFlush(s.(blocks := s.blocks - 1))
    case StartFlush => BeginFlush(s)
    case StartFlushKey(k) =>
      if k in s.staging.changes then s.(phase := FlushingKey(s.staging.changes[k], false)) else s
    case ClearDisk => s.(disk := map[], phase := s.phase.(cleared := true))
    case WriteChange(k) =>
      s.(disk := Perform(s.disk, s.phase.snapshot.changes[k]), phase := s.phase.(todo := s.phase.todo - {k}))
    case FinishFlush => EndFlush(s)
    case WriteKey => s.(disk := Perform(s.disk, s.phase.change), phase := s.phase.(written := true))
    case FinishFlushKey => s.(staging := s.staging.FlushedChange(s.phase.change), phase := Idle)
    case Sweep(evicted) => s.(disk := s.disk - evicted)
  }

  /** What a reader sees who looks in the staging area first and on disk otherwise. */
  function View(s: State, key: Key): Option<Data> {
    match s.staging.Lookup(key)
    case Some(Add(data)) => Some(data)
    case Some(Remove) => None
    case None => if key in s.disk then Some(s.disk[key]) else None
  }

  /** The plain map to which the same operations are applied at once, in lock order. */
  function Apply(m: Disk, s: State, e: Event): Disk {
    match e
    case Store(k, d) => m[k := d]
    case RemoveKey(k) => m - {k}
    case RemoveEverything => map[]
    case Sweep(evicted) => m - (set k | k in evicted && s.staging.Lookup(k).None?)
    case _ => m
  }

  function At(m: Disk, key: Key): Option<Data> {
    if key in m then Some(m[key]) else None
  }

  //////////////////////////////////////////////////////////////////////////////
  // Invariants
  //////////////////////////////////////////////////////////////////////////////

  /** The file of the change's key is as the change demands. */
  predicate Performed(disk: Disk, c: Change) {
    match c.kind
    case Add(data) => At(disk, c.key) == Some(data)
    case Remove => c.key !in disk
  }

  /** Each change of a snapshot is still staged, or a later operation on its key is. */
  predicate Covers(a: Area, snap: Area) {
    && snap.nextId <= a.nextId
    && (forall k :: k in a.changes && a.changes[k].id <= snap.nextId ==>
          k in snap.changes && a.changes[k] == snap.changes[k])
    && (a.removeAll == snap.removeAll || (a.removeAll.Some? && snap.nextId < a.removeAll.value))
    && (a.removeAll == snap.removeAll ==> forall k :: k in snap.changes ==> k in a.changes)
  }

  /** What has been applied of the snapshot so far is what the disk shows. */
  predicate Applied(disk: Disk, snap: Area, cleared: bool, todo: set<Key>) {
    && todo <= snap.changes.Keys
    && (snap.removeAll.None? ==> cleared)
    && (cleared ==> forall k :: k in snap.changes && k !in todo ==> Performed(disk, snap.changes[k]))
    && (!cleared ==> todo == snap.changes.Keys)
    && (cleared && snap.removeAll.Some? ==> forall k :: k in disk ==> k in snap.changes && k !in todo)
  }

  /** A single change that is being flushed is still staged, or a later operation on its key is. */
  predicate CoversChange(a: Area, c: Change) {
    && c.id <= a.nextId
    && (c.key in a.changes ==> a.changes[c.key] == c || c.id < a.changes[c.key].id)
    && (c.key !in a.changes ==> a.removeAll.Some?)
  }

  ghost predicate PhaseOk(s: State) {
    match s.phase
    case Idle => true
    case Flushing(snap, cleared, todo) =>
      snap.Valid() && Covers(s.staging, snap) && Applied(s.disk, snap, cleared, todo)
    case FlushingKey(c, written) => CoversChange(s.staging, c) && (written ==> Performed(s.disk, c))
  }

  ghost predicate Refines(s: State, m: Disk) {
    forall k :: View(s, k) == At(m, k)
  }

  ghost predicate Inv(s: State) {
    s.staging.Valid() && PhaseOk(s)
  }

  /** Finishing flush(for:) would expose the disk to a removal of everything that is still staged. */
  predicate Drops(s: State) {
    && s.phase.FlushingKey?
    && s.phase.change.kind.Add?
    && s.staging.removeAll.Some?
    && s.phase.change.key in s.staging.changes
    && s.staging.changes[s.phase.change.key].id == s.phase.change.id
  }

  predicate Safe(s: State, e: Event) {
    e.FinishFlushKey? ==> !Drops(s)
  }

  //////////////////////////////////////////////////////////////////////////////
  // Each step keeps the invariant and refines the plain map
  //////////////////////////////////////////////////////////////////////////////

  /** Staging a change keeps what has been promised about the flush under way, because its id is a new one. */
  lemma PutKeeps(s: State, k: Key, kind: ChangeType)
    requires Inv(s)
    ensures Inv(s.(staging := s.staging.Put(k, kind)))
  {}

  lemma ClearKeeps(s: State)
    requires Inv(s)
    ensures Inv(s.(staging := s.staging.Clear()))
  {}

  /** The flags and the queue do not concern readers. */
  lemma SetNeedsFlushKeeps(s: State, m: Disk)
    requires Inv(s) && Refines(s, m)
    ensures Inv(SetNeedsFlush(s)) && Refines(SetNeedsFlush(s), m)
  {
    var s' := SetNeedsFlush(s);
    forall k ensures View(s', k) == At(m, k) { assert View(s', k) == View(s, k); }
  }

  lemma StoreKeeps(s: State, key: Key, data: Data, m: Disk)
    requires Inv(s) && Refines(s, m)
    ensures Inv(Step(s, Store(key, data))) && Refines(Step(s, Store(key, data)), m[key := data])
  {
    PutKeeps(s, key, Add(data));
    var s' := s.(staging := s.staging.Put(key, Add(data)));
    forall k ensures View(s', k) == At(m[key := data], k) { assert View(s, k) == At(m, k); }
    SetNeedsFlushKeeps(s', m[key := data]);
  }

  lemma RemoveKeyKeeps(s: State, key: Key, m: Disk)
    requires Inv(s) && Refines(s, m)
    ensures Inv(Step(s, RemoveKey(key))) && Refines(Step(s, RemoveKey(key)), m - {key})
  {
    PutKeeps(s, key, Remove);
    var s' := s.(staging := s.staging.Put(key, Remove));
    forall k ensures View(s', k) == At(m - {key}, k) { assert View(s, k) == At(m, k); }
    SetNeedsFlushKeeps(s', m - {key});
  }

  lemma RemoveEverythingKeeps(s: State)
    requires Inv(s)
    ensures Inv(Step(s, RemoveEverything)) && Refines(Step(s, RemoveEverything), map[])
  {
    ClearKeeps(s);
    SetNeedsFlushKeeps(s.(staging := s.staging.Clear()), map[]);
  }

  /** Staging an operation changes what readers see as the operation changes the plain map. */
  lemma StageKeeps(s: State, e: Event, m: Disk)
    requires Inv(s) && (e.Store? || e.RemoveKey? || e.RemoveEverything?) && Refines(s, m)
    ensures Inv(Step(s, e)) && Refines(Step(s, e), Apply(m, s, e))
  {
    match e
    case Store(k, d) => StoreKeeps(s, k, d, m);
    case RemoveKey(k) => RemoveKeyKeeps(s, k, m);
    case RemoveEverything => RemoveEverythingKeeps(s);
  }

  /** A change of the snapshot reaches the disk; no reader notices. */
  lemma WriteChangeKeeps(s: State, k: Key, m: Disk)
    requires Inv(s) && Enabled(s, WriteChange(k)) && Refines(s, m)
    ensures Inv(Step(s, WriteChange(k))) && Refines(Step(s, WriteChange(k)), m)
  {
    var s' := Step(s, WriteChange(k));
    assert s.phase.snapshot.changes[k].key == k;
    forall j ensures View(s', j) == At(m, j) { assert View(s, j) == At(m, j); }
  }

  lemma ClearDiskKeeps(s: State, m: Disk)
    requires Inv(s) && Enabled(s, ClearDisk) && Refines(s, m)
    ensures Inv(Step(s, ClearDisk)) && Refines(Step(s, ClearDisk), m)
  {
    var s' := Step(s, ClearDisk);
    forall j ensures View(s', j) == At(m, j) { assert View(s, j) == At(m, j); }
  }

  /** Un-staging the snapshot exposes files that agree with it. */
  lemma FinishFlushKeeps(s: State, m: Disk)
    requires Inv(s) && Enabled(s, FinishFlush) && Refines(s, m)
    ensures Inv(Step(s, FinishFlush)) && Refines(Step(s, FinishFlush), m)
  {
    var s' := Step(s, FinishFlush);
    forall j ensures View(s', j) == At(m, j) {
      assert View(s, j) == At(m, j);
      FinishFlushView(s, j);
    }
  }

  lemma FinishFlushView(s: State, k: Key)
    requires Inv(s) && Enabled(s, FinishFlush)
    ensures View(Step(s, FinishFlush), k) == View(s, k)
  {
    var snap, a := s.phase.snapshot, s.staging;
    if k in a.changes && a.Unchanged(snap, k) {
      assert a.changes[k] == snap.changes[k] && Performed(s.disk, snap.changes[k]);
    }
  }

  lemma WriteKeyKeeps(s: State, m: Disk)
    requires Inv(s) && Enabled(s, WriteKey) && Refines(s, m)
    ensures Inv(Step(s, WriteKey)) && Refines(Step(s, WriteKey), m)
  {
    var s' := Step(s, WriteKey);
    forall j ensures View(s', j) == At(m, j) { assert View(s, j) == At(m, j); }
  }

  /** The last step of flush(for:) changes what a reader sees exactly if it drops the change. */
  lemma FinishFlushKeyExact(s: State)
    requires Inv(s) && Enabled(s, FinishFlushKey)
    ensures Inv(Step(s, FinishFlushKey))
    ensures (forall k :: View(Step(s, FinishFlushKey), k) == View(s, k)) <==> !Drops(s)
  {
    var s', c := Step(s, FinishFlushKey), s.phase.change;
    if Drops(s) {
      assert View(s', c.key) != View(s, c.key);
    } else {
      forall k ensures View(s', k) == View(s, k) {}
    }
  }

  /** Starting a flush and sweeping, which happen while the queue is idle. */
  lemma IdleStepKeeps(s: State, e: Event, m: Disk)
    requires Inv(s) && Enabled(s, e) && Refines(s, m)
    requires e.StartBlock? || e.StartFlush? || e.StartFlushKey? || e.Sweep?
    ensures Inv(Step(s, e)) && Refines(Step(s, e), Apply(m, s, e))
  {
    forall j ensures View(Step(s, e), j) == At(Apply(m, s, e), j) { assert View(s, j) == At(m, j); }
  }

  lemma FinishFlushKeyKeeps(s: State, m: Disk)
    requires Inv(s) && Enabled(s, FinishFlushKey) && Refines(s, m) && !Drops(s)
    ensures Inv(Step(s, FinishFlushKey)) && Refines(Step(s, FinishFlushKey), m)
  {
    FinishFlushKeyExact(s);
    forall j ensures View(Step(s, FinishFlushKey), j) == At(m, j) { assert View(s, j) == At(m, j); }
  }

  lemma StepKeeps(s: State, e: Event, m: Disk)
    requires Inv(s) && Enabled(s, e) && Refines(s, m) && Safe(s, e)
    ensures Inv(Step(s, e)) && Refines(Step(s, e), Apply(m, s, e))
  {
    match e
    case Store(_, _) => StageKeeps(s, e, m);
    case RemoveKey(_) => StageKeeps(s, e, m);
    case RemoveEverything => StageKeeps(s, e, m);
    case WriteChange(k) => WriteChangeKeeps(s, k, m);
    case ClearDisk => ClearDiskKeeps(s, m);
    case FinishFlush => FinishFlushKeeps(s, m);
    case WriteKey => WriteKeyKeeps(s, m);
    case FinishFlushKey => FinishFlushKeyKeeps(s, m);
    case _ => IdleStepKeeps(s, e, m);
  }

  //////////////////////////////////////////////////////////////////////////////
  // No staged change is stranded
  //////////////////////////////////////////////////////////////////////////////

  /**
   Outside a flush, a flush is needed exactly if one is scheduled, and then a block waits in the
   queue; anything staged makes a flush needed. During a flush, the staging area differs from the
   snapshot only if a flush is needed again.
   */
  predicate FlagsOk(s: State) {
    match s.phase
    case Flushing(snap, _, _) => s.scheduled && (!s.needed ==> s.staging == snap)
    case _ =>
      && (s.needed <==> s.scheduled)
      && (s.needed ==> 0 < s.blocks)
      && (!s.staging.Empty() ==> s.needed)
  }

  lemma FlagsKept(s: State, e: Event)
    requires FlagsOk(s) && Enabled(s, e)
    ensures FlagsOk(Step(s, e))
  {
    if e.FinishFlush? && !s.needed {
      assert Step(s, e).staging.changes == map[];
    }
  }

  //////////////////////////////////////////////////////////////////////////////
  // Runs
  //////////////////////////////////////////////////////////////////////////////

  /**
   What a caller of flush(for:) must respect: it loses data when it flushes an addition while a
   removal of everything is staged.
   */
  predicate MayFlushKey(a: Area, key: Key) {
    key in a.changes && a.changes[key].kind.Add? ==> a.removeAll.None?
  }

  predicate Guarded(s: State, e: Event) {
    e.StartFlushKey? ==> MayFlushKey(s.staging, e.key)
  }

  predicate Initial(s: State) {
    s.staging == EMPTY_AREA && !s.needed && !s.scheduled && s.blocks == 0 && s.phase == Idle
  }

  /** The states and the plain maps before and after each event. */
  datatype Run = Run(states: seq<State>, maps: seq<Disk>, events: seq<Event>)
  {
    /** Each state follows from the one before, and each map as well. */
    predicate Follows() {
      && |states| == |maps| == |events| + 1
      && forall i :: 0 <= i < |events| ==>
           && Enabled(states[i], events[i])
           && states[i + 1] == Step(states[i], events[i])
           && maps[i + 1] == Apply(maps[i], states[i], events[i])
    }

    /** Any interleaving of enabled steps, from a cache that has just been created. */
    predicate Valid() {
      && Follows()
      && Initial(states[0]) && maps[0] == states[0].disk
      && forall i :: 0 <= i < |events| ==> Guarded(states[i], events[i])
    }

    function Last(): State
      requires Follows()
    {
      states[|events|]
    }

    function Then(e: Event): Run
      requires Follows() && Enabled(Last(), e)
    {
      Run(states + [Step(Last(), e)], maps + [Apply(maps[|events|], Last(), e)], events + [e])
    }

    predicate ContinuedBy(r: Run) {
      r.Valid() && states <= r.states && maps <= r.maps && events <= r.events
    }
  }

  lemma GuardKept(s: State, e: Event)
    requires Inv(s) && !Drops(s) && Enabled(s, e) && Guarded(s, e)
    ensures !Drops(Step(s, e))
  {}

  /**
   In every run, whatever the interleaving, reading through the staging area shows the map that the
   staged operations in lock order produce, and no staged change is stranded.
   */
  lemma {:induction false} RunRefines(r: Run, i: nat)
    requires r.Valid() && i < |r.states|
    ensures Inv(r.states[i]) && Refines(r.states[i], r.maps[i])
    ensures !Drops(r.states[i]) && FlagsOk(r.states[i])
  {
    if i != 0 {
      RunRefines(r, i - 1);
      GuardKept(r.states[i - 1], r.events[i - 1]);
      StepKeeps(r.states[i - 1], r.events[i - 1], r.maps[i - 1]);
      FlagsKept(r.states[i - 1], r.events[i - 1]);
    }
  }

  //////////////////////////////////////////////////////////////////////////////
  // flush(for:)
  //////////////////////////////////////////////////////////////////////////////

  /** flush(for:) with nothing happening in between. */
  function FlushKey(s: State, key: Key): State
    requires s.phase.Idle?
  {
    var s1 := Step(s, StartFlushKey(key));
    if s1.phase.Idle? then s1 else Step(Step(s1, WriteKey), FinishFlushKey)
  }

  /** Undisturbed, flush(for:) leaves every read as it was exactly if its guard holds. */
  lemma FlushKeyExact(s: State, m: Disk, key: Key)
    requires Inv(s) && s.phase.Idle? && Refines(s, m)
    ensures (forall k :: View(FlushKey(s, key), k) == View(s, k)) <==> MayFlushKey(s.staging, key)
  {
    if key in s.staging.changes {
      var s1 := Step(s, StartFlushKey(key));
      var s2 := Step(s1, WriteKey);
      WriteKeyKeeps(s1, m);
      FinishFlushKeyExact(s2);
      assert forall k :: View(s2, k) == At(m, k) == View(s, k);
    }
  }

  /**
   Removing everything, storing an item and flushing that item loses it: the item cannot be read, and
   the flush that is still scheduled deletes its file for good.
   */
  lemma FlushKeyLosesData(key: Key, data: Data)
    ensures var s0 := Step(Step(State(EMPTY_AREA, map[], false, false, 0, Idle), RemoveEverything), Store(key, data));
            var s1 := FlushKey(s0, key);
            var s2 := Step(Step(Step(s1, StartBlock), ClearDisk), FinishFlush);
            && View(s0, key) == Some(data)
            && View(s1, key) == None
            && s2.staging.Empty() && key !in s2.disk
  {}

  //////////////////////////////////////////////////////////////////////////////
  // The contents of a cache
  //////////////////////////////////////////////////////////////////////////////

  /** Everything a reader can find. */
  function Contents(s: State): Disk {
    map k | k in s.staging.changes.Keys + s.disk.Keys && View(s, k).Some? :: View(s, k).value
  }

  lemma ContentsAreViewed(s: State)
    ensures Refines(s, Contents(s))
  {}
}
