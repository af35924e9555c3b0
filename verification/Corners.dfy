/** The rounding of each message shown, told from its two neighbours. */
module Corners {
  import opened Sections
  import opened Snapshots

  predicate JoinsPrevious(s: seq<Message>, i: nat)
    requires i < |s|
  {
    0 < i && Joins(s[i - 1], s[i])
  }

  predicate JoinsNext(s: seq<Message>, i: nat)
    requires i < |s|
  {
    i + 1 < |s| && Joins(s[i], s[i + 1])
  }

  /** A message that joins the next one only is the top one of its bubble, and so on. */
  predicate RoundedRight(s: seq<Message>, i: nat, corners: Rounding)
    requires i < |s|
  {
    match corners
    case Basic => !JoinsPrevious(s, i) && !JoinsNext(s, i)
    case Top => !JoinsPrevious(s, i) && JoinsNext(s, i)
    case Middle => JoinsPrevious(s, i) && JoinsNext(s, i)
    case Bottom => JoinsPrevious(s, i) && !JoinsNext(s, i)
  }

  /** The items of a section have the corners of the run. */
  predicate HasCorners(items: seq<Message>, run: seq<Message>) {
    |items| == |run| && forall k :: 0 <= k < |run| ==> items[k].corners == Corner(k, |run|)
  }

  /** A message of the first run. */
  lemma FirstRight(run: seq<Message>, rest: seq<Message>, i: nat)
    requires IsRun(run) && i < |run| && (rest != [] ==> !Joins(run[|run| - 1], rest[0]))
    ensures RoundedRight(run + rest, i, Corner(i, |run|))
  {
    var s := run + rest;
    if i + 1 < |run| { assert Joins(run[i], run[i + 1]); }
    if 0 < i { assert Joins(run[i - 1], run[i - 1 + 1]); }
    assert s[i] == run[i] && (0 < i ==> s[i - 1] == run[i - 1]);
    if i + 1 == |run| && rest != [] { assert s[i + 1] == rest[0]; }
  }

  /** A message of another run has the same neighbours, or is not joined to the first run. */
  lemma OtherRight(run: seq<Message>, rest: seq<Message>, i: nat, corners: Rounding)
    requires IsRun(run) && i < |rest| && !Joins(run[|run| - 1], rest[0]) && RoundedRight(rest, i, corners)
    ensures RoundedRight(run + rest, |run| + i, corners)
  {
    var s := run + rest;
    assert s[|run| + i] == rest[i] && (i + 1 < |rest| ==> s[|run| + i + 1] == rest[i + 1]);
    assert s[|run| + i - 1] == if i == 0 then run[|run| - 1] else rest[i - 1];
  }

  lemma {:induction false} RunsRight(lists: seq<seq<Message>>, r: seq<seq<Message>>, i: nat)
    requires AreMaximal(r) && |lists| == |r| && forall j :: 0 <= j < |r| ==> HasCorners(lists[j], r[j])
    requires i < |Concat(r)|
    ensures i < |Concat(lists)| && RoundedRight(Concat(r), i, Concat(lists)[i].corners)
    decreases |r|
  {
    var rest := Concat(r[1..]);
    MaximalTail(r);
    FirstOfConcat(r[1..]);
    assert HasCorners(lists[0], r[0]);
    if i < |r[0]| {
      FirstRight(r[0], rest, i);
    } else {
      RunsRight(lists[1..], r[1..], i - |r[0]|);
      OtherRight(r[0], rest, i - |r[0]|, Concat(lists[1..])[i - |r[0]|].corners);
    }
  }

  /**
   In a snapshot with the shape of a group, every message has the corners that its neighbours demand: top
   exactly if it joins the next one only, bottom if the previous one only, middle if both, basic if none.
   */
  lemma CornersExactly(data: seq<Section>, s: seq<Message>, i: nat)
    requires Shape(data) == Grouped(s) && i < |s|
    ensures |Items(data)| == |s| && RoundedRight(s, i, Items(data)[i].corners)
  {
    ShapeShowsAll(data, s);
    assert |Items(data)| == |Plains(Items(data))| == |Plains(s)| == |s|;
    RunsPartition(s);
    NoEmptyRun(s);
    forall j | 0 <= j < |Runs(s)| ensures HasCorners(Lists(data)[j], Runs(s)[j]) {
      SectionCorners(data[j], Runs(s)[j]);
    }
    RunsRight(Lists(data), Runs(s), i);
  }

  lemma SectionCorners(section: Section, run: seq<Message>)
    requires run != [] && FadedSection(section) == SectionOf(run)
    ensures HasCorners(section.items, run)
  {
    forall k | 0 <= k < |run| ensures section.items[k].corners == Corner(k, |run|) {
      assert Faded(section.items)[k] == Rounded(run)[k];
    }
  }
}
