/** The staging area of DataCache: changes that have not reached the disk yet. It is a value (a struct). */
module Staging {
  import opened Basics

  type Key = string
  type Data = seq<int>

  datatype ChangeType = Add(data: Data) | Remove

  datatype Change = Change(key: Key, id: nat, kind: ChangeType)

  datatype Area = Area(changes: map<Key, Change>, removeAll: Option<nat>, nextId: nat)
  {
    /** change(for:) */
    function Lookup(key: Key): Option<ChangeType> {
      if key in changes then Some(changes[key].kind)
      else if removeAll.Some? then Some(Remove)
      else None
    }

    function Put(key: Key, kind: ChangeType): Area {
      Area(changes[key := Change(key, nextId + 1, kind)], removeAll, nextId + 1)
    }

    /** removeAll() */
    function Clear(): Area {
      Area(map[], Some(nextId + 1), nextId + 1)
    }

    predicate Empty() {
      changes == map[] && removeAll == None
    }

    /** flushed(_: Change): un-stages the change unless it has been superseded. */
    function FlushedChange(c: Change): Area {
      if c.key in changes && changes[c.key].id == c.id then this.(changes := changes - {c.key}) else this
    }

    /** flushed(_: ChangeRemoveAll) */
    function FlushedRemoveAll(id: nat): Area {
      if removeAll == Some(id) then this.(removeAll := None) else this
    }

    /** The change of snapshot s for this key is still the staged one. */
    predicate Unchanged(s: Area, key: Key) {
      key in changes && key in s.changes && changes[key].id == s.changes[key].id
    }

    /** flushed(_: Staging): un-stages everything that is as it was in the snapshot. */
    function Flushed(s: Area): Area {
      Area(map k | k in changes && !Unchanged(s, k) :: changes[k],
           if removeAll == s.removeAll then None else removeAll,
           nextId)
    }

    /**
     Changes are filed under their keys and carry ids that have been given out; those that are staged
     beside a removal of everything are later than it.
     */
    ghost predicate Valid() {
      && (forall k :: k in changes ==> changes[k].key == k && changes[k].id <= nextId)
      && (forall k :: k in changes && removeAll.Some? ==> removeAll.value < changes[k].id)
      && (removeAll.Some? ==> removeAll.value <= nextId)
    }
  }

  const EMPTY_AREA: Area := Area(map[], None, 0)

  /** The changes that are left while those of the snapshot for the keys in todo have not been looked at. */
  function Remaining(area: Area, s: Area, todo: set<Key>): map<Key, Change> {
    map k | k in area.changes && (k in todo || !area.Unchanged(s, k)) :: area.changes[k]
  }

  lemma OneLess(area: Area, s: Area, todo: set<Key>, k: Key)
    requires s.Valid() && k in todo && todo <= s.changes.Keys
    ensures area.(changes := Remaining(area, s, todo)).FlushedChange(s.changes[k]).changes
         == Remaining(area, s, todo - {k})
  {}

  /** The loop of flushed(_: Staging) over the changes of a snapshot, in any order. */
  method UnstageAll(area: Area, s: Area) returns (r: Area)
    requires area.Valid() && s.Valid()
    ensures r == area.Flushed(s)
  {
    r := area;
    var todo := s.changes.Keys;
    while todo != {}
      invariant todo <= s.changes.Keys && r == area.(changes := Remaining(area, s, todo))
      decreases |todo|
    {
      var k :| k in todo;
      OneLess(area, s, todo, k);
      r := r.FlushedChange(s.changes[k]);
      todo := todo - {k};
    }
    if s.removeAll.Some? { r := r.FlushedRemoveAll(s.removeAll.value); }
  }
}
