/** Messages grouped into sections: what the chat view shows, as a function of all the messages. */
module Sections {

  datatype Origin = Outgoing | Incoming | System

  datatype Rounding = Basic | Top | Middle | Bottom

  datatype Message = Message(id: int, origin: Origin, userId: string, date: real, corners: Rounding, seen: bool)
  {
    /** The message as it came in, without the attributes that the builder assigns. */
    function Plain(): Message {
      this.(corners := Basic, seen := false)
    }
  }

  datatype Section = Section(origin: Origin, items: seq<Message>)

  function Plains(s: seq<Message>): (r: seq<Message>)
    ensures |r| == |s| && forall i :: 0 <= i < |r| ==> r[i] == s[i].Plain()
  {
    seq(|s|, i requires 0 <= i < |s| => s[i].Plain())
  }

  //////////////////////////////////////////////////////////////////////////////
  // Maximal runs
  //////////////////////////////////////////////////////////////////////////////

  function Distance(a: real, b: real): real {
    if a <= b then b - a else a - b
  }

  /** The whole hours between two dates. */
  function Hours(a: real, b: real): int {
    (Distance(a, b) / 3600.0).Floor
  }

  /** Two neighbours belong together: same origin, same user, and at most two whole hours apart. */
  predicate Joins(a: Message, b: Message) {
    a.origin == b.origin && a.userId == b.userId && Hours(a.date, b.date) <= 2
  }

  /** Whole hours are rounded down, so that messages join up to, but not at, three hours. */
  lemma JoinsBelowThreeHours(a: Message, b: Message)
    ensures Joins(a, b) <==> a.origin == b.origin && a.userId == b.userId && Distance(a.date, b.date) < 10800.0
  {
    var h := Distance(a.date, b.date) / 3600.0;
    assert h.Floor <= 2 <==> h < 3.0;
  }

  /** The length of the longest run of joined messages at the front. */
  function RunLength(s: seq<Message>): (n: nat)
    requires s != []
    ensures 1 <= n <= |s|
  {
    if |s| == 1 || !Joins(s[0], s[1]) then 1 else 1 + RunLength(s[1..])
  }

  /** The messages cut into maximal runs. */
  function Runs(s: seq<Message>): (r: seq<seq<Message>>)
    ensures r == [] <==> s == []
    decreases |s|
  {
    if s == [] then [] else [s[..RunLength(s)]] + Runs(s[RunLength(s)..])
  }

  function Concat<T>(r: seq<seq<T>>): seq<T> {
    if r == [] then [] else r[0] + Concat(r[1..])
  }

  /** Neighbours in a run are joined. */
  predicate IsRun(run: seq<Message>) {
    run != [] && forall i :: 0 <= i < |run| - 1 ==> Joins(run[i], run[i + 1])
  }

  /** Runs that cannot be merged: the last message of one and the first of the next are not joined. */
  predicate AreMaximal(r: seq<seq<Message>>) {
    && (forall i :: 0 <= i < |r| ==> IsRun(r[i]))
    && forall i :: 0 <= i < |r| - 1 ==> !Joins(r[i][|r[i]| - 1], r[i + 1][0])
  }

  lemma {:induction false} RunLengthExact(s: seq<Message>)
    requires s != []
    ensures IsRun(s[..RunLength(s)])
    ensures RunLength(s) < |s| ==> !Joins(s[RunLength(s) - 1], s[RunLength(s)])
  {
    if |s| != 1 && Joins(s[0], s[1]) {
      RunLengthExact(s[1..]);
      var run, tail := s[..RunLength(s)], s[1..][..RunLength(s[1..])];
      assert run == [s[0]] + tail;
      forall i | 0 <= i < |run| - 1 ensures Joins(run[i], run[i + 1]) {
        if i != 0 { assert Joins(tail[i - 1], tail[i]); }
      }
    }
  }

  lemma MaximalCons(run: seq<Message>, r: seq<seq<Message>>)
    requires IsRun(run) && AreMaximal(r)
    requires r != [] ==> r[0] != [] && !Joins(run[|run| - 1], r[0][0])
    ensures AreMaximal([run] + r)
  {
    var all := [run] + r;
    forall i | 0 <= i < |all| ensures IsRun(all[i]) {
      if i != 0 { assert all[i] == r[i - 1] && IsRun(r[i - 1]); }
    }
    forall i | 0 <= i < |all| - 1 ensures !Joins(all[i][|all[i]| - 1], all[i + 1][0]) {
      if i != 0 { assert !Joins(r[i - 1][|r[i - 1]| - 1], r[i - 1 + 1][0]); }
    }
  }

  /** The runs are a partition of the messages, in order, and breaks are exactly where neighbours are not joined. */
  lemma {:induction false} RunsPartition(s: seq<Message>)
    ensures Concat(Runs(s)) == s && AreMaximal(Runs(s))
    decreases |s|
  {
    if s != [] {
      RunsPartition(s[RunLength(s)..]);
      FirstRun(s, Runs(s[RunLength(s)..]));
    }
  }

  /** The longest run in front of a partition of the other messages. */
  lemma FirstRun(s: seq<Message>, r: seq<seq<Message>>)
    requires s != [] && Concat(r) == s[RunLength(s)..] && AreMaximal(r)
    ensures Concat([s[..RunLength(s)]] + r) == s && AreMaximal([s[..RunLength(s)]] + r)
  {
    var run := s[..RunLength(s)];
    assert Concat([run] + r) == s by {
      ConcatCons(run, r);
      assert run + s[RunLength(s)..] == s;
    }
    assert AreMaximal([run] + r) by {
      RunLengthExact(s);
      FirstOfConcat(r);
      MaximalCons(run, r);
    }
  }

  lemma ConcatCons<T>(x: seq<T>, r: seq<seq<T>>)
    ensures Concat([x] + r) == x + Concat(r)
  {
    assert ([x] + r)[1..] == r;
  }

  lemma FirstOfConcat(r: seq<seq<Message>>)
    requires AreMaximal(r)
    ensures r != [] ==> r[0] != [] && Concat(r) != [] && Concat(r)[0] == r[0][0]
  {
    assert r != [] ==> IsRun(r[0]);
  }

  /** Any two runs that meet at an unjoined pair split off as a run of their own. */
  lemma {:induction false} RunLengthOf(run: seq<Message>, rest: seq<Message>)
    requires IsRun(run) && (rest != [] ==> !Joins(run[|run| - 1], rest[0]))
    ensures RunLength(run + rest) == |run|
  {
    var s := run + rest;
    if |run| > 1 {
      assert Joins(run[0], run[1]);
      assert s[1..] == run[1..] + rest;
      forall i | 0 <= i < |run[1..]| - 1 ensures Joins(run[1..][i], run[1..][i + 1]) {
        assert Joins(run[i + 1], run[i + 2]);
      }
      RunLengthOf(run[1..], rest);
    }
  }

  /** There is no other way to cut messages into runs that cannot be merged. */
  lemma {:induction false} RunsUnique(r: seq<seq<Message>>)
    requires AreMaximal(r)
    ensures Runs(Concat(r)) == r
  {
    if r != [] {
      var rest := Concat(r[1..]);
      MaximalTail(r);
      RunsUnique(r[1..]);
      assert |r| > 1 ==> rest[0] == r[1][0];
      RunLengthOf(r[0], rest);
      assert (r[0] + rest)[..|r[0]|] == r[0] && (r[0] + rest)[|r[0]|..] == rest;
    }
  }

  lemma MaximalTail(r: seq<seq<Message>>)
    requires AreMaximal(r) && r != []
    ensures AreMaximal(r[1..]) && IsRun(r[0])
    ensures |r| > 1 ==> !Joins(r[0][|r[0]| - 1], r[1][0]) && IsRun(r[1])
  {
    forall i | 0 <= i < |r[1..]| ensures IsRun(r[1..][i]) {
      assert IsRun(r[i + 1]);
    }
    assert IsRun(r[0]);
    assert |r| > 1 ==> IsRun(r[1]);
    forall i | 0 <= i < |r[1..]| - 1 ensures !Joins(r[1..][i][|r[1..][i]| - 1], r[1..][i + 1][0]) {
      assert !Joins(r[i + 1][|r[i + 1]| - 1], r[i + 1 + 1][0]);
    }
  }

  //////////////////////////////////////////////////////////////////////////////
  // One more message
  //////////////////////////////////////////////////////////////////////////////

  /** The last message joins the last run or starts one. */
  function Snoc(r: seq<seq<Message>>, m: Message): seq<seq<Message>> {
    if r != [] && r[|r| - 1] != [] && Joins(r[|r| - 1][|r[|r| - 1]| - 1], m)
    then r[..|r| - 1] + [r[|r| - 1] + [m]]
    else r + [[m]]
  }

  lemma {:induction false} ConcatAppend<T>(r: seq<seq<T>>, x: seq<T>)
    ensures Concat(r + [x]) == Concat(r) + x
  {
    if r == [] {
      assert r + [x] == [x] && [x][1..] == [];
    } else {
      assert (r + [x])[1..] == r[1..] + [x];
      ConcatAppend(r[1..], x);
    }
  }

  lemma ConcatSnoc(r: seq<seq<Message>>, m: Message)
    ensures Concat(Snoc(r, m)) == Concat(r) + [m]
  {
    if r == [] {
      ConcatAppend(r, [m]);
    } else {
      var front, last := r[..|r| - 1], r[|r| - 1];
      assert r == front + [last];
      ConcatAppend(front, last);
      ConcatAppend(front, last + [m]);
      ConcatAppend(r, [m]);
    }
  }

  lemma SnocMaximal(r: seq<seq<Message>>, m: Message)
    requires AreMaximal(r)
    ensures AreMaximal(Snoc(r, m))
  {
    var all := Snoc(r, m);
    var n := |r| - 1;
    assert forall i :: 0 <= i < |r| ==> IsRun(r[i]);
    forall i | 0 <= i < |all| ensures IsRun(all[i]) {
      if i == n && |all| == |r| { assert forall k :: 0 <= k < |r[n]| - 1 ==> Joins(r[n][k], r[n][k + 1]); }
    }
    forall i | 0 <= i < |all| - 1 ensures !Joins(all[i][|all[i]| - 1], all[i + 1][0]) {
      if i < n { assert !Joins(r[i][|r[i]| - 1], r[i + 1][0]); }
    }
  }

  lemma RunsSnoc(s: seq<Message>, m: Message)
    ensures Runs(s + [m]) == Snoc(Runs(s), m)
  {
    RunsPartition(s);
    SnocMaximal(Runs(s), m);
    ConcatSnoc(Runs(s), m);
    RunsUnique(Snoc(Runs(s), m));
  }

  //////////////////////////////////////////////////////////////////////////////
  // Sections
  //////////////////////////////////////////////////////////////////////////////

  /** The rounding of the message at position k of n. */
  function Corner(k: nat, n: nat): Rounding {
    if n == 1 then Basic else if k == 0 then Top else if k == n - 1 then Bottom else Middle
  }

  function Rounded(run: seq<Message>): (r: seq<Message>)
    ensures |r| == |run| && forall k :: 0 <= k < |r| ==> r[k] == run[k].Plain().(corners := Corner(k, |run|))
  {
    seq(|run|, k requires 0 <= k < |run| => run[k].Plain().(corners := Corner(k, |run|)))
  }

  function SectionOf(run: seq<Message>): Section
    requires run != []
  {
    Section(run[0].origin, Rounded(run))
  }

  function SectionsOf(r: seq<seq<Message>>): (d: seq<Section>)
    requires forall i :: 0 <= i < |r| ==> r[i] != []
    ensures |d| == |r| && forall i :: 0 <= i < |d| ==> d[i] == SectionOf(r[i])
  {
    seq(|r|, i requires 0 <= i < |r| => SectionOf(r[i]))
  }

  lemma NoEmptyRun(s: seq<Message>)
    ensures forall i :: 0 <= i < |Runs(s)| ==> Runs(s)[i] != []
  {
    RunsPartition(s);
    assert forall i :: 0 <= i < |Runs(s)| ==> IsRun(Runs(s)[i]);
  }

  /** What the chat view shows for the messages, apart from which of them are marked as seen. */
  function Grouped(s: seq<Message>): seq<Section> {
    NoEmptyRun(s);
    SectionsOf(Runs(s))
  }

  /** The sections show runs that cannot be merged and that make up the messages. */
  ghost predicate Presents(d: seq<Section>, s: seq<Message>, r: seq<seq<Message>>) {
    && Concat(r) == s && AreMaximal(r)
    && |d| == |r| && forall i :: 0 <= i < |d| ==> r[i] != [] && d[i] == SectionOf(r[i])
  }

  /** The grouping of messages is the one and only partition into maximal runs, with corners by position. */
  lemma GroupedExactly(d: seq<Section>, s: seq<Message>)
    ensures d == Grouped(s) <==> exists r :: Presents(d, s, r)
  {
    RunsPartition(s);
    NoEmptyRun(s);
    if d == Grouped(s) { assert Presents(d, s, Runs(s)); }
    forall r | Presents(d, s, r) ensures d == Grouped(s) {
      RunsUnique(r);
    }
  }
}
